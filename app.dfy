/**
 * The application's top-level state and the handlers that change it: the
 * users, the catalog, the chat threads, the signed-in user, the item shown in
 * the detail view and the wishlist of item ids.
 */
module App {
  import opened Seqs
  import opened Types

  /** The id of the user the application signs in on start-up. */
  const CurrentUserId: int := 1

  /** The wishlist after toggling `id`: every occurrence removed if present, appended if absent. */
  function Toggled(wishlist: seq<int>, id: int): (r: seq<int>)
    ensures id in r <==> id !in wishlist
    ensures forall y :: y != id ==> (y in r <==> y in wishlist)
    ensures id !in wishlist ==> r == wishlist + [id]
    ensures id in wishlist ==> |r| == |wishlist| - multiset(wishlist)[id]
  {
    if id in wishlist then
      var r := Filter(wishlist, y => y != id);
      FilterCount(wishlist, y => y != id, id);
      assert forall y :: y != id && y in wishlist ==> y in r by {
        forall y | y != id && y in wishlist ensures y in r {
          var k :| 0 <= k < |wishlist| && wishlist[k] == y;
        }
      }
      FilterLength(wishlist, id);
      r
    else wishlist + [id]
  }

  /** Removing every `id` shortens the list by the number of its occurrences. */
  lemma {:induction false} FilterLength(s: seq<int>, id: int)
    ensures |Filter(s, y => y != id)| == |s| - multiset(s)[id]
  {
    if s != [] {
      FilterLength(s[1..], id);
      assert s == [s[0]] + s[1..];
    }
  }

  /** Toggling an id that is not on the wishlist twice gives back the original list. */
  lemma ToggleTwiceRestores(wishlist: seq<int>, id: int)
    requires id !in wishlist
    ensures Toggled(Toggled(wishlist, id), id) == wishlist
  {
    var p := y => y != id;
    FilterAppend(wishlist, [id], p);
    FilterKeepsAll(wishlist, p);
    FilterSingle(id, p);
  }

  /** The largest id in a non-empty catalog (Math.max over the ids). */
  function MaxId(items: seq<Item>): (m: int)
    requires items != []
    ensures m in ItemIds(items)
    ensures forall k :: 0 <= k < |items| ==> items[k].id <= m
  {
    if |items| == 1 then items[0].id
    else
      var rest := MaxId(items[1..]);
      assert ItemIds(items[1..]) == ItemIds(items)[1..];
      if items[0].id > rest then items[0].id else rest
  }

  /** The catalog after marking every item with id `itemId` as `status`. */
  function WithStatus(items: seq<Item>, itemId: int, status: Status): (r: seq<Item>)
    ensures |r| == |items| && ItemIds(r) == ItemIds(items)
    ensures forall k :: 0 <= k < |r| && items[k].id == itemId ==> r[k].status == status
    ensures forall k :: 0 <= k < |r| ==> r[k].(status := items[k].status) == items[k]
    ensures forall k :: 0 <= k < |r| && items[k].id != itemId ==> r[k] == items[k]
  {
    seq(|items|, k requires 0 <= k < |items| =>
      if items[k].id == itemId then items[k].(status := status) else items[k])
  }

  /** The user list after replacing every user whose id is `updated.id`. */
  function WithUser(users: seq<User>, updated: User): (r: seq<User>)
    ensures |r| == |users|
    ensures forall k :: 0 <= k < |r| ==> r[k].id == users[k].id
    ensures forall k :: 0 <= k < |r| && users[k].id == updated.id ==> r[k] == updated
    ensures forall k :: 0 <= k < |r| && users[k].id != updated.id ==> r[k] == users[k]
  {
    seq(|users|, k requires 0 <= k < |users| => if users[k].id == updated.id then updated else users[k])
  }

  /** The position of the first thread about `itemId` that `userId` takes part in, or -1. */
  function ThreadIndex(chats: seq<ChatThread>, itemId: int, userId: int): (i: int)
    ensures -1 <= i < |chats|
    ensures i >= 0 ==> chats[i].itemId == itemId && userId in chats[i].participantIds
    ensures i >= 0 ==> forall j :: 0 <= j < i ==> !(chats[j].itemId == itemId && userId in chats[j].participantIds)
    ensures i == -1 <==> forall j :: 0 <= j < |chats| ==> !(chats[j].itemId == itemId && userId in chats[j].participantIds)
  {
    FindIndex(chats, (c: ChatThread) => c.itemId == itemId && userId in c.participantIds)
  }

  class AppState {
    var users: seq<User>
    var items: seq<Item>
    var chats: seq<ChatThread>
    var currentUser: Option<User>
    var selectedItem: Option<Item>
    var wishlist: seq<int>

    /**
     * The state once the start-up effect has run: the given users, items and
     * threads, the user with id CurrentUserId signed in (if present), and the
     * stored wishlist.
     */
    constructor (users: seq<User>, items: seq<Item>, chats: seq<ChatThread>, storedWishlist: seq<int>)
      ensures this.users == users && this.items == items && this.chats == chats
      ensures currentUser == Find(users, (u: User) => u.id == CurrentUserId)
      ensures selectedItem == None && wishlist == storedWishlist
    {
      this.users := users;
      this.items := items;
      this.chats := chats;
      currentUser := Find(users, (u: User) => u.id == CurrentUserId);
      selectedItem := None;
      wishlist := storedWishlist;
    }

    /** handleUpdateProfile: the updated user becomes current and replaces its namesakes by id. */
    method UpdateProfile(updated: User)
      modifies this`currentUser, this`users
      ensures currentUser == Some(updated)
      ensures users == WithUser(old(users), updated)
    {
      currentUser := Some(updated);
      users := WithUser(users, updated);
    }

    /**
     * handleAddItem: with a signed-in user, prepends the new item with the next
     * id, that user as seller, the user's college and location, the creation
     * time `now` and status available; without one, nothing changes.
     */
    method AddItem(newItem: NewItem, now: int)
      requires currentUser.Some? ==> items != []
      modifies this`items
      ensures old(currentUser).None? ==> items == old(items)
      ensures old(currentUser).Some? ==>
        var u := old(currentUser).value;
        && |items| == |old(items)| + 1
        && items[1..] == old(items)
        && items[0] == Item(MaxId(old(items)) + 1, u.id, newItem.name, newItem.description, newItem.price,
                            newItem.tags, newItem.imageUrl, u.college, u.location, Available, now)
        && items[0].id !in ItemIds(old(items))
    {
      if currentUser.None? {
        return;
      }
      var u := currentUser.value;
      var item := Item(MaxId(items) + 1, u.id, newItem.name, newItem.description, newItem.price,
                       newItem.tags, newItem.imageUrl, u.college, u.location, Available, now);
      items := [item] + items;
    }

    /**
     * handleUpdateItemStatus: sets the status of every item with that id; when
     * the new status is sold, the item in the detail view follows if it is the one.
     */
    method UpdateItemStatus(itemId: int, status: Status)
      modifies this`items, this`selectedItem
      ensures items == WithStatus(old(items), itemId, status)
      ensures status == Sold && old(selectedItem).Some? && old(selectedItem).value.id == itemId ==>
        selectedItem == Some(old(selectedItem).value.(status := Sold))
      ensures !(status == Sold && old(selectedItem).Some? && old(selectedItem).value.id == itemId) ==>
        selectedItem == old(selectedItem)
    {
      items := WithStatus(items, itemId, status);
      if status == Sold {
        if selectedItem.Some? && selectedItem.value.id == itemId {
          selectedItem := Some(selectedItem.value.(status := Sold));
        }
      }
    }

    /**
     * handleSendMessage: with a signed-in user, the message goes onto the first
     * thread about the item that the user takes part in, or into a new thread
     * between the user and the receiver; without one, nothing changes.
     * `messageId` and `now` stand for the clock readings the handler takes.
     */
    method SendMessage(itemId: int, receiverId: int, text: string, messageId: int, now: int)
      modifies this`chats, chats
      ensures old(currentUser).None? ==>
        chats == old(chats) && forall t :: t in old(chats) ==> t.messages == old(t.messages)
      ensures old(currentUser).Some? ==>
        var me := old(currentUser).value.id;
        var msg := ChatMessage(messageId, itemId, me, receiverId, text, now);
        var i := ThreadIndex(old(chats), itemId, me);
        if i >= 0 then
          && chats == old(chats)
          && chats[i].messages == old(chats[i].messages) + [msg]
          && forall t :: t in old(chats) && t != chats[i] ==> t.messages == old(t.messages)
        else
          && |chats| == |old(chats)| + 1
          && chats[..|old(chats)|] == old(chats)
          && fresh(chats[|old(chats)|])
          && chats[|old(chats)|].itemId == itemId
          && chats[|old(chats)|].participantIds == [me, receiverId]
          && chats[|old(chats)|].messages == [msg]
          && forall t :: t in old(chats) ==> t.messages == old(t.messages)
    {
      if currentUser.None? {
        return;
      }
      var me := currentUser.value.id;
      var msg := ChatMessage(messageId, itemId, me, receiverId, text, now);
      var i := ThreadIndex(chats, itemId, me);
      if i >= 0 {
        chats[i].messages := chats[i].messages + [msg];
      } else {
        var thread := new ChatThread(itemId, [me, receiverId], [msg]);
        chats := chats + [thread];
      }
    }

    /** handleToggleWishlist. */
    method ToggleWishlist(itemId: int)
      modifies this`wishlist
      ensures wishlist == Toggled(old(wishlist), itemId)
    {
      wishlist := Toggled(wishlist, itemId);
    }
  }
}
