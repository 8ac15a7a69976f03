/**
 * The marketplace's records: colleges, users, items, chat messages and chat
 * threads. Numbers the application keeps as JavaScript numbers (ids, prices)
 * are integers here, and dates are integer timestamps.
 */
module Types {

  /** The eleven residential colleges an item or a user belongs to. */
  datatype College =
    | Baker | WillRice | Hanszen | Wiess | Jones | Brown
    | Lovett | SidRichardson | Martel | McMurtry | Duncan

  /** The string value of each college, as the enum declares it. */
  function CollegeName(c: College): (name: string)
    ensures name != "All"
    ensures name != []
  {
    match c
    case Baker => "Baker"
    case WillRice => "Will Rice"
    case Hanszen => "Hanszen"
    case Wiess => "Wiess"
    case Jones => "Jones"
    case Brown => "Brown"
    case Lovett => "Lovett"
    case SidRichardson => "Sid Richardson"
    case Martel => "Martel"
    case McMurtry => "McMurtry"
    case Duncan => "Duncan"
  }

  /** Distinct colleges have distinct names, so comparing names compares colleges. */
  lemma CollegeNameInjective(a: College, b: College)
    ensures CollegeName(a) == CollegeName(b) ==> a == b
  {
  }

  datatype Location = Location(lat: real, lng: real)

  datatype Status = Available | Sold

  datatype User = User(id: int, name: string, college: College, interests: string, location: Location)

  datatype Item = Item(
    id: int,
    sellerId: int,
    name: string,
    description: string,
    price: int,
    tags: seq<string>,
    imageUrl: string,
    college: College,
    location: Location,
    status: Status,
    createdAt: int)

  /** The fields of an item its seller fills in; the application adds the rest. */
  datatype NewItem = NewItem(name: string, description: string, price: int, tags: seq<string>, imageUrl: string)

  datatype ChatMessage = ChatMessage(id: int, itemId: int, senderId: int, receiverId: int, text: string, timestamp: int)

  /**
   * A conversation about one item. Its messages are appended to in place;
   * the item and the participants never change once the thread exists.
   */
  class ChatThread {
    const itemId: int
    const participantIds: seq<int>
    var messages: seq<ChatMessage>

    constructor (itemId: int, participantIds: seq<int>, messages: seq<ChatMessage>)
      ensures this.itemId == itemId && this.participantIds == participantIds
      ensures this.messages == messages
    {
      this.itemId := itemId;
      this.participantIds := participantIds;
      this.messages := messages;
    }
  }

  /** The ids of a list of items, in order. */
  function ItemIds(items: seq<Item>): (ids: seq<int>)
    ensures |ids| == |items|
    ensures forall k :: 0 <= k < |items| ==> ids[k] == items[k].id
  {
    seq(|items|, k requires 0 <= k < |items| => items[k].id)
  }
}
