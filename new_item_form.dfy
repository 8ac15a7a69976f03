/**
 * The new-listing form: its submit handler checks the required fields and
 * hands a new item to the application, and its tag field is parsed from
 * comma-separated text. The handler's calls out of the form (the alert,
 * onAddItem, onClose) are returned as a list of effects in call order;
 * parseFloat and URL.createObjectURL are function parameters.
 */
module NewItemForm {
  import opened Seqs
  import opened Types
  import opened Text

  /** The form's inputs as the user left them; `image` is the chosen file, if any. */
  datatype Form = Form(name: string, description: string, price: string, tags: string, image: Option<string>)

  /** A call the submit handler makes, in the order it makes them. */
  datatype Effect = Alert(message: string) | AddItem(newItem: NewItem) | Close

  const MissingFieldsMessage: string := "Please fill out all fields and upload an image."

  /** A field the handler treats as missing: an empty text or no chosen file. */
  predicate Incomplete(form: Form)
  {
    form.name == "" || form.description == "" || form.price == "" || form.image.None?
  }

  predicate NonEmpty(tag: string)
  {
    tag != ""
  }

  /** The tag list: split on commas, trim each piece, drop the empty ones. */
  function ParseTags(text: string): (tags: seq<string>)
    ensures forall k :: 0 <= k < |tags| ==> tags[k] != ""
  {
    Filter(Map(Split(text, ','), Trim), NonEmpty)
  }

  /**
   * handleSubmit. A missing field raises the alert and nothing else; otherwise
   * the item goes to onAddItem with name and description as typed, and onClose
   * follows it.
   */
  function HandleSubmit(form: Form, parseFloat: string -> int, createObjectURL: string -> string): (effects: seq<Effect>)
    ensures Incomplete(form) <==> effects == [Alert(MissingFieldsMessage)]
    ensures Incomplete(form) ==> forall k :: 0 <= k < |effects| ==> !effects[k].AddItem? && !effects[k].Close?
    ensures !Incomplete(form) ==>
      && |effects| == 2
      && effects[0].AddItem? && effects[1] == Close
      && effects[0].newItem.name == form.name
      && effects[0].newItem.description == form.description
      && effects[0].newItem.price == parseFloat(form.price)
      && effects[0].newItem.tags == ParseTags(form.tags)
      && effects[0].newItem.imageUrl == createObjectURL(form.image.value)
  {
    if Incomplete(form) then [Alert(MissingFieldsMessage)]
    else
      [AddItem(NewItem(form.name, form.description, parseFloat(form.price), ParseTags(form.tags),
                       createObjectURL(form.image.value))),
       Close]
  }

  /** Every parsed tag is non-empty, has no white space at either end and no comma. */
  lemma ParseTagsClean(text: string)
    ensures forall k :: 0 <= k < |ParseTags(text)| ==>
      var tag := ParseTags(text)[k];
      tag != "" && !IsSpace(tag[0]) && !IsSpace(tag[|tag| - 1]) && ',' !in tag
  {
    var pieces := Split(text, ',');
    var trimmed := Map(pieces, Trim);
    SplitPiecesFree(text, ',');
    forall k | 0 <= k < |ParseTags(text)|
      ensures ',' !in ParseTags(text)[k]
    {
      var tag := ParseTags(text)[k];
      assert tag in trimmed;
      var j :| 0 <= j < |trimmed| && trimmed[j] == tag;
      TrimChars(pieces[j], ',');
    }
  }

  /** An empty tag field gives no tags. */
  lemma ParseTagsEmpty()
    ensures ParseTags("") == []
  {
    assert Split("", ',') == [""];
    assert Map([""], Trim) == [""];
  }

  /** Text without a comma gives its trimmed self, or nothing when it is blank. */
  lemma ParseTagsSingle(text: string)
    requires ',' !in text
    ensures ParseTags(text) == if IsBlank(text) then [] else [Trim(text)]
  {
    var t := Trim(text);
    SplitNoSeparator(text, ',');
    assert Map([text], Trim) == [t];
    FilterSingle(t, NonEmpty);
  }

  /**
   * The tags of `a,b`, for a first part without a comma, are those of `a`
   * followed by those of `b`: input order is kept.
   */
  lemma ParseTagsAppend(a: string, b: string)
    requires ',' !in a
    ensures ParseTags(a + "," + b) == ParseTags(a) + ParseTags(b)
  {
    assert a + "," + b == a + [','] + b;
    SplitAppendFirstPiece(a, b, ',');
    SplitNoSeparator(a, ',');
    MapAppend([a], Split(b, ','), Trim);
    FilterAppend(Map([a], Trim), Map(Split(b, ','), Trim), NonEmpty);
  }

  /** White space before the first piece does not change the tags. */
  lemma ParseTagsLeadingSpace(text: string)
    ensures ParseTags(" " + text) == ParseTags(text)
  {
    var pieces := Split(text, ',');
    var spaced := [" " + pieces[0]] + pieces[1..];
    SplitCons(' ', text, ',');
    assert Split(" " + text, ',') == spaced;
    forall k | 0 <= k < |pieces|
      ensures Trim(spaced[k]) == Trim(pieces[k])
    {
      if k == 0 {
        TrimLeadingSpace(' ', pieces[0]);
      } else {
        assert spaced[k] == pieces[k];
      }
    }
    assert Map(spaced, Trim) == Map(pieces, Trim);
  }

  /**
   * Tags that are non-empty, trimmed and comma-free survive being joined with
   * ", " (as the recommendation request sends them) and parsed again.
   */
  lemma {:induction false} ParseTagsJoin(tags: seq<string>)
    requires forall k :: 0 <= k < |tags| ==> tags[k] != "" && Trim(tags[k]) == tags[k] && ',' !in tags[k]
    ensures ParseTags(Join(tags, ", ")) == tags
  {
    if tags == [] {
      ParseTagsEmpty();
    } else if |tags| == 1 {
      ParseTagsSingle(tags[0]);
    } else {
      ParseTagsJoin(tags[1..]);
      JoinCons(tags[0], tags[1..], ", ");
      assert [tags[0]] + tags[1..] == tags;
      ParseTagsJoinStep(tags[0], Join(tags[1..], ", "), tags[1..]);
    }
  }

  /** One clean tag in front of ", " and the text of the remaining tags. */
  lemma ParseTagsJoinStep(first: string, rest: string, tail: seq<string>)
    requires first != "" && Trim(first) == first && ',' !in first
    requires ParseTags(rest) == tail
    ensures ParseTags(first + ", " + rest) == [first] + tail
  {
    var spaced := " " + rest;
    calc {
      ParseTags(first + ", " + rest);
      { CommaSpace(first, rest); }
      ParseTags(first + "," + spaced);
      { ParseTagsAppend(first, spaced); }
      ParseTags(first) + ParseTags(spaced);
      { ParseTagsSingle(first); ParseTagsLeadingSpace(rest); }
      [first] + tail;
    }
  }

  /** ", " is a comma followed by a space. */
  lemma CommaSpace(a: string, b: string)
    ensures a + ", " + b == a + "," + (" " + b)
  {
  }
}
