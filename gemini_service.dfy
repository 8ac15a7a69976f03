/**
 * getRecommendedItems: asks the ranking service which catalog items suit a
 * user's interests. The service call itself is a parameter, `oracle`, from
 * the request this module builds to the reply it gets back; the reply is what
 * remains after the response text went through JSON.parse.
 */
module GeminiService {
  import opened Seqs
  import opened Types
  import Text

  /** The reduced record each available item is sent as. */
  datatype ItemSummary = ItemSummary(id: int, name: string, description: string, tags: string, price: int)

  /** What the ranking service is asked: the raw interest text and the available items. */
  datatype Request = Request(userInterests: string, availableItems: seq<ItemSummary>)

  /**
   * What the call produced: it threw (transport failure, non-JSON text), or it
   * parsed; `recommendedIds` is the `recommended_ids` field when that field is an
   * array, and None when the parsed value is falsy or the field is missing or not
   * an array.
   */
  datatype OracleReply = Threw | Parsed(recommendedIds: Option<seq<int>>)

  /** The request actually sent (None: the service was not consulted) and the ids returned. */
  datatype Recommendation = Recommendation(request: Option<Request>, ids: seq<int>)

  /** `!API_KEY`: the key is unset or empty. */
  predicate HasApiKey(apiKey: Option<string>)
  {
    apiKey.Some? && apiKey.value != ""
  }

  predicate IsAvailable(item: Item)
  {
    item.status == Available
  }

  function Summarize(item: Item): (s: ItemSummary)
    ensures s.id == item.id && s.name == item.name && s.description == item.description
    ensures s.price == item.price && s.tags == Text.Join(item.tags, ", ")
  {
    ItemSummary(item.id, item.name, item.description, Text.Join(item.tags, ", "), item.price)
  }

  /** The available items, in catalog order, each reduced to its summary. */
  function AvailableSummaries(allItems: seq<Item>): (r: seq<ItemSummary>)
  {
    Map(Filter(allItems, IsAvailable), Summarize)
  }

  /**
   * The summaries are exactly those of the available items: every available
   * item has its summary sent, every summary comes from an available item, and
   * the list is empty exactly when no item is available.
   */
  lemma {:induction false} AvailableSummariesSpec(allItems: seq<Item>)
    ensures |AvailableSummaries(allItems)| <= |allItems|
    ensures forall j :: 0 <= j < |AvailableSummaries(allItems)| ==>
      exists k :: 0 <= k < |allItems| && IsAvailable(allItems[k]) && AvailableSummaries(allItems)[j] == Summarize(allItems[k])
    ensures AvailableSummaries(allItems) == [] <==> forall k :: 0 <= k < |allItems| ==> !IsAvailable(allItems[k])
    ensures forall k :: 0 <= k < |allItems| && IsAvailable(allItems[k]) ==> Summarize(allItems[k]) in AvailableSummaries(allItems)
  {
    var avail := Filter(allItems, IsAvailable);
    forall j | 0 <= j < |AvailableSummaries(allItems)|
      ensures exists k :: 0 <= k < |allItems| && IsAvailable(allItems[k]) && AvailableSummaries(allItems)[j] == Summarize(allItems[k])
    {
      assert avail[j] in allItems;
      var k :| 0 <= k < |allItems| && allItems[k] == avail[j];
    }
    forall k | 0 <= k < |allItems| && IsAvailable(allItems[k])
      ensures Summarize(allItems[k]) in AvailableSummaries(allItems)
    {
      assert allItems[k] in avail;
      var j :| 0 <= j < |avail| && avail[j] == allItems[k];
      assert AvailableSummaries(allItems)[j] == Summarize(allItems[k]);
    }
    if avail != [] {
      assert avail[0] in allItems && IsAvailable(avail[0]);
      var j :| 0 <= j < |allItems| && allItems[j] == avail[0];
    }
  }

  /** A catalog split in two is summarised part by part, so catalog order is kept. */
  lemma AvailableSummariesAppend(a: seq<Item>, b: seq<Item>)
    ensures AvailableSummaries(a + b) == AvailableSummaries(a) + AvailableSummaries(b)
  {
    FilterAppend(a, b, IsAvailable);
    MapAppend(Filter(a, IsAvailable), Filter(b, IsAvailable), Summarize);
  }

  /** The `recommended_ids` shape check: an array is returned as it is, anything else gives []. */
  function IdsFromReply(reply: OracleReply): (ids: seq<int>)
    ensures reply.Parsed? && reply.recommendedIds.Some? ==> ids == reply.recommendedIds.value
    ensures !(reply.Parsed? && reply.recommendedIds.Some?) ==> ids == []
  {
    match reply
    case Parsed(Some(ids)) => ids
    case _ => []
  }

  /**
   * getRecommendedItems. Without an API key, or with no available item, the
   * service is not consulted and the result is []. Otherwise the service is
   * asked once, with the interests and the available-item summaries, and its
   * array is returned unchanged: not truncated, not deduplicated and not checked
   * against the catalog. The function never fails.
   */
  function GetRecommendedItems(apiKey: Option<string>, userInterests: string, allItems: seq<Item>,
                               oracle: Request -> OracleReply): (r: Recommendation)
    ensures !HasApiKey(apiKey) ==> r == Recommendation(None, [])
    ensures r.request.Some? <==> HasApiKey(apiKey) && exists k :: 0 <= k < |allItems| && IsAvailable(allItems[k])
    ensures r.request.None? ==> r.ids == []
    ensures r.request.Some? ==>
      && r.request.value == Request(userInterests, AvailableSummaries(allItems))
      && r.ids == IdsFromReply(oracle(r.request.value))
  {
    if !HasApiKey(apiKey) then Recommendation(None, [])
    else
      var availableItems := AvailableSummaries(allItems);
      AvailableSummariesSpec(allItems);
      if availableItems == [] then Recommendation(None, [])
      else
        var request := Request(userInterests, availableItems);
        Recommendation(Some(request), IdsFromReply(oracle(request)))
  }
}
