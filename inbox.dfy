/**
 * The inbox: the signed-in user's chat threads, each shown with its item, the
 * other participant and the last message, most recent conversation first.
 * Threads are read, never changed, so the functions here read the thread
 * objects they are given.
 */
module Inbox {
  import opened Seqs
  import opened Types

  /**
   * One row of the inbox before the completeness filter: the thread and what
   * it resolved to (None where the lookup came back undefined).
   */
  datatype Entry = Entry(chat: ChatThread, item: Option<Item>, otherParticipant: Option<User>, lastMessage: Option<ChatMessage>)

  /** The first participant id that is not `me`, if there is one. */
  function OtherParticipantId(participantIds: seq<int>, me: int): (r: Option<int>)
    ensures r.None? <==> forall k :: 0 <= k < |participantIds| ==> participantIds[k] == me
    ensures r.Some? ==> exists i :: 0 <= i < |participantIds| && participantIds[i] == r.value && r.value != me &&
                                  forall j :: 0 <= j < i ==> participantIds[j] == me
  {
    var i := FindIndex(participantIds, (id: int) => id != me);
    if i < 0 then None else Some(participantIds[i])
  }

  /** The final element of a message list; an empty list has none. */
  function LastMessage(messages: seq<ChatMessage>): (r: Option<ChatMessage>)
    ensures r.None? <==> messages == []
    ensures r.Some? ==> r.value == messages[|messages| - 1]
  {
    if messages == [] then None else Some(messages[|messages| - 1])
  }

  /**
   * The lookups for one thread: the first catalog item with the thread's item
   * id, the first user whose id is the other participant's, and the last message.
   */
  function Resolve(chat: ChatThread, me: int, items: seq<Item>, users: seq<User>): (e: Entry)
    reads chat
    ensures e.chat == chat
    ensures e.item.Some? ==> e.item.value in items && e.item.value.id == chat.itemId
    ensures e.item.Some? ==> exists i :: 0 <= i < |items| && items[i] == e.item.value &&
                                      forall j :: 0 <= j < i ==> items[j].id != chat.itemId
    ensures e.item.None? <==> forall k :: 0 <= k < |items| ==> items[k].id != chat.itemId
    ensures e.otherParticipant.Some? ==>
      && e.otherParticipant.value in users
      && OtherParticipantId(chat.participantIds, me) == Some(e.otherParticipant.value.id)
    ensures e.otherParticipant.Some? ==> exists i :: 0 <= i < |users| && users[i] == e.otherParticipant.value &&
                                                  forall j :: 0 <= j < i ==> users[j].id != e.otherParticipant.value.id
    ensures e.otherParticipant.None? <==>
      || OtherParticipantId(chat.participantIds, me).None?
      || forall k :: 0 <= k < |users| ==> users[k].id != OtherParticipantId(chat.participantIds, me).value
    ensures e.lastMessage == LastMessage(chat.messages)
  {
    var other := OtherParticipantId(chat.participantIds, me);
    Entry(chat,
          Find(items, (i: Item) => i.id == chat.itemId),
          if other.None? then None else Find(users, (u: User) => u.id == other.value),
          LastMessage(chat.messages))
  }

  /** The threads `me` takes part in. */
  function TakesPart(me: int): ChatThread -> bool
  {
    (c: ChatThread) => me in c.participantIds
  }

  /** Every lookup succeeded: the row is shown. */
  predicate Complete(e: Entry)
  {
    e.item.Some? && e.otherParticipant.Some? && e.lastMessage.Some?
  }

  /** The sort key: later last messages come first. */
  function RecencyKey(e: Entry): real
  {
    if e.lastMessage.Some? then -(e.lastMessage.value.timestamp as real) else 0.0
  }

  /** The thread rows before the completeness filter: one per thread `me` takes part in. */
  function Entries(mine: seq<ChatThread>, me: int, items: seq<Item>, users: seq<User>): (r: seq<Entry>)
    reads mine
    ensures |r| == |mine|
    ensures forall k :: 0 <= k < |r| ==> r[k] == Resolve(mine[k], me, items, users)
  {
    seq(|mine|, k requires 0 <= k < |mine| reads mine => Resolve(mine[k], me, items, users))
  }

  /**
   * userChats: the threads `me` takes part in whose item, other participant and
   * last message all resolve, newest last message first. Each listed row is the
   * resolution of one of the given threads, every such thread is listed, and a
   * row appears as often as its thread does in `chats`.
   */
  function UserChats(me: int, chats: seq<ChatThread>, items: seq<Item>, users: seq<User>): (r: seq<Entry>)
    reads chats
    ensures |r| <= |chats|
    ensures forall k :: 0 <= k < |r| ==>
      && r[k].chat in chats
      && me in r[k].chat.participantIds
      && Complete(r[k])
      && r[k] == Resolve(r[k].chat, me, items, users)
    ensures forall i, j :: 0 <= i < j < |r| && Complete(r[i]) && Complete(r[j]) ==>
      r[i].lastMessage.value.timestamp >= r[j].lastMessage.value.timestamp
    ensures forall k :: 0 <= k < |chats| && me in chats[k].participantIds && Complete(Resolve(chats[k], me, items, users)) ==>
      Resolve(chats[k], me, items, users) in r
    ensures forall k :: 0 <= k < |r| ==> multiset(r)[r[k]] == multiset(chats)[r[k].chat]
  {
    var mine := Filter(chats, TakesPart(me));
    var entries := Entries(mine, me, items, users);
    var shown := Filter(entries, Complete);
    var r := SortByKey(shown, RecencyKey);
    UserChatsSpec(me, chats, items, users, mine, entries, shown, r);
    r
  }

  /** The steps of UserChats, one fact at a time. */
  lemma UserChatsSpec(me: int, chats: seq<ChatThread>, items: seq<Item>, users: seq<User>,
                      mine: seq<ChatThread>, entries: seq<Entry>, shown: seq<Entry>, r: seq<Entry>)
    requires mine == Filter(chats, TakesPart(me))
    requires |entries| == |mine|
    requires forall k :: 0 <= k < |entries| ==> entries[k] == Resolve(mine[k], me, items, users)
    requires shown == Filter(entries, Complete)
    requires SortedBy(r, RecencyKey) && multiset(r) == multiset(shown)
    ensures |r| <= |chats|
    ensures forall k :: 0 <= k < |r| ==>
      && r[k].chat in chats
      && me in r[k].chat.participantIds
      && Complete(r[k])
      && r[k] == Resolve(r[k].chat, me, items, users)
    ensures forall i, j :: 0 <= i < j < |r| && Complete(r[i]) && Complete(r[j]) ==>
      r[i].lastMessage.value.timestamp >= r[j].lastMessage.value.timestamp
    ensures forall k :: 0 <= k < |chats| && me in chats[k].participantIds && Complete(Resolve(chats[k], me, items, users)) ==>
      Resolve(chats[k], me, items, users) in r
    ensures forall k :: 0 <= k < |r| ==> multiset(r)[r[k]] == multiset(chats)[r[k].chat]
  {
    assert |r| == |multiset(shown)|;
    forall k | 0 <= k < |r|
      ensures r[k].chat in chats && me in r[k].chat.participantIds && Complete(r[k])
      ensures r[k] == Resolve(r[k].chat, me, items, users)
      ensures multiset(r)[r[k]] == multiset(chats)[r[k].chat]
    {
      assert r[k] in multiset(r);
      ShownRow(me, chats, items, users, mine, entries, shown, r[k]);
      RowCount(me, chats, items, users, mine, entries, shown, r[k]);
    }
    forall k | 0 <= k < |chats| && me in chats[k].participantIds && Complete(Resolve(chats[k], me, items, users))
      ensures Resolve(chats[k], me, items, users) in r
    {
      ThreadShown(me, chats, items, users, mine, entries, shown, chats[k]);
      assert Resolve(chats[k], me, items, users) in multiset(r);
    }
    forall i, j | 0 <= i < j < |r| && Complete(r[i]) && Complete(r[j])
      ensures r[i].lastMessage.value.timestamp >= r[j].lastMessage.value.timestamp
    {
      assert RecencyKey(r[i]) <= RecencyKey(r[j]);
    }
  }

  /** A shown row occurs in the rows as often as its thread occurs in `chats`. */
  lemma RowCount(me: int, chats: seq<ChatThread>, items: seq<Item>, users: seq<User>,
                 mine: seq<ChatThread>, entries: seq<Entry>, shown: seq<Entry>, e: Entry)
    requires mine == Filter(chats, TakesPart(me))
    requires |entries| == |mine|
    requires forall k :: 0 <= k < |entries| ==> entries[k] == Resolve(mine[k], me, items, users)
    requires shown == Filter(entries, Complete)
    requires me in e.chat.participantIds && Complete(e) && e == Resolve(e.chat, me, items, users)
    ensures multiset(shown)[e] == multiset(chats)[e.chat]
  {
    forall k | 0 <= k < |entries|
      ensures entries[k] == e <==> mine[k] == e.chat
    {
      assert entries[k].chat == mine[k];
    }
    CountsCorrespond(entries, mine, e, e.chat);
    FilterCount(entries, Complete, e);
    FilterCount(chats, TakesPart(me), e.chat);
  }

  /** A shown row is the resolution of a thread of `chats` that `me` takes part in. */
  lemma ShownRow(me: int, chats: seq<ChatThread>, items: seq<Item>, users: seq<User>,
                 mine: seq<ChatThread>, entries: seq<Entry>, shown: seq<Entry>, e: Entry)
    requires mine == Filter(chats, TakesPart(me))
    requires |entries| == |mine|
    requires forall k :: 0 <= k < |entries| ==> entries[k] == Resolve(mine[k], me, items, users)
    requires shown == Filter(entries, Complete)
    requires e in shown
    ensures e.chat in chats && me in e.chat.participantIds && Complete(e)
    ensures e == Resolve(e.chat, me, items, users)
  {
    var m :| 0 <= m < |entries| && entries[m] == e;
    assert mine[m] in chats;
  }

  /** A thread of `chats` that `me` takes part in and that resolves completely is shown. */
  lemma ThreadShown(me: int, chats: seq<ChatThread>, items: seq<Item>, users: seq<User>,
                    mine: seq<ChatThread>, entries: seq<Entry>, shown: seq<Entry>, c: ChatThread)
    requires mine == Filter(chats, TakesPart(me))
    requires |entries| == |mine|
    requires forall k :: 0 <= k < |entries| ==> entries[k] == Resolve(mine[k], me, items, users)
    requires shown == Filter(entries, Complete)
    requires c in chats && me in c.participantIds && Complete(Resolve(c, me, items, users))
    ensures Resolve(c, me, items, users) in shown
  {
    assert TakesPart(me)(c);
    var m :| 0 <= m < |mine| && mine[m] == c;
    assert entries[m] == Resolve(c, me, items, users);
  }
}
