/**
 * The profile page: the form that edits the signed-in user's name, college
 * and interests, and the list of wishlisted catalog items shown beneath it.
 */
module Profile {
  import opened Seqs
  import opened Types
  import App

  /** wishlistedItems: the catalog items whose id is on the wishlist, in catalog order. */
  function WishlistedItems(items: seq<Item>, wishlist: seq<int>): (r: seq<Item>)
    ensures |r| <= |items|
    ensures forall k :: 0 <= k < |r| ==> r[k] in items && r[k].id in wishlist
    ensures forall k :: 0 <= k < |items| && items[k].id in wishlist ==> items[k] in r
  {
    Filter(items, (it: Item) => it.id in wishlist)
  }

  /**
   * The view follows the catalog's order, not the wishlist's: the items of a
   * catalog split in two are those of the first part, then those of the second.
   */
  lemma WishlistedItemsAppend(a: seq<Item>, b: seq<Item>, wishlist: seq<int>)
    ensures WishlistedItems(a + b, wishlist) == WishlistedItems(a, wishlist) + WishlistedItems(b, wishlist)
  {
    FilterAppend(a, b, (it: Item) => it.id in wishlist);
  }

  /** Only membership matters: wishlists with the same ids, in any order or multiplicity, show the same items. */
  lemma WishlistedItemsMembership(items: seq<Item>, w1: seq<int>, w2: seq<int>)
    requires forall id :: id in w1 <==> id in w2
    ensures WishlistedItems(items, w1) == WishlistedItems(items, w2)
  {
    FilterCongruent(items, (it: Item) => it.id in w1, (it: Item) => it.id in w2);
  }

  /** Wishlist ids that match no catalog item contribute nothing. */
  lemma WishlistedItemsUnknownIds(items: seq<Item>, wishlist: seq<int>, unknown: seq<int>)
    requires forall k, j :: 0 <= k < |items| && 0 <= j < |unknown| ==> items[k].id != unknown[j]
    ensures WishlistedItems(items, wishlist + unknown) == WishlistedItems(items, wishlist)
  {
    FilterCongruent(items, (it: Item) => it.id in wishlist + unknown, (it: Item) => it.id in wishlist);
  }

  /**
   * Toggling an id on the wishlist adds every catalog item with that id to the
   * view when the id was absent and removes them when it was present; no other
   * item comes or goes.
   */
  lemma WishlistedItemsToggle(items: seq<Item>, wishlist: seq<int>, id: int)
    ensures forall k :: 0 <= k < |items| ==>
      (items[k] in WishlistedItems(items, App.Toggled(wishlist, id)) <==>
       if items[k].id == id then id !in wishlist else items[k] in WishlistedItems(items, wishlist))
  {
    var after := WishlistedItems(items, App.Toggled(wishlist, id));
    var before := WishlistedItems(items, wishlist);
    forall k | 0 <= k < |items|
      ensures items[k] in after <==> if items[k].id == id then id !in wishlist else items[k] in before
    {
      if items[k] in after {
        var j :| 0 <= j < |after| && after[j] == items[k];
      }
      if items[k] in before {
        var j :| 0 <= j < |before| && before[j] == items[k];
      }
    }
  }

  /** The profile form's editable fields and the "saved" notice. */
  class ProfileForm {
    var name: string
    var college: College
    var interests: string
    var isSaved: bool

    /** The form opens on the user's current values, with no notice shown. */
    constructor (user: User)
      ensures name == user.name && college == user.college && interests == user.interests
      ensures !isSaved
    {
      name := user.name;
      college := user.college;
      interests := user.interests;
      isSaved := false;
    }

    /**
     * handleSubmit: the user handed to onUpdateProfile is `user` with name,
     * college and interests taken from the form; id and location are kept.
     * The notice is shown.
     */
    method HandleSubmit(user: User) returns (updated: User)
      modifies this`isSaved
      ensures updated.id == user.id && updated.location == user.location
      ensures updated.name == name && updated.college == college && updated.interests == interests
      ensures isSaved
    {
      updated := user.(name := name, college := college, interests := interests);
      isSaved := true;
    }
  }
}
