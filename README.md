# RiceThrift core, modelled in Dafny

RiceThrift is a campus second-hand marketplace. Students list items and browse
and filter the catalog. They get recommendations from a ranking service,
keep a wishlist and chat with sellers. This project models the logic behind
the views:

- **App state** (`app.dfy`, module `App`): the `AppState` class holds the
  users, the catalog, the chat threads, the signed-in user, the item in the
  detail view and the wishlist. It has one method per handler: toggle the
  wishlist, add an item, update an item's status, send a message, update the
  profile. Chat threads (`Types.ChatThread`) are objects. Sending a message
  into an existing thread appends to that object in place.
- **Catalog view** (`marketplace.dfy`, module `Marketplace`): the
  `MarketplaceView` class holds the search, filter, sort and recommendation
  state. `FilteredAndSortedItems` runs the step-by-step filter chain and then
  the sort. `RecommendedItems` resolves the recommended ids against the live
  catalog.
- **Recommendation request** (`gemini_service.dfy`, module `GeminiService`):
  covers the no-key and no-available-item guards and the projection of the
  available items. It also covers the shape check on the reply. The service
  itself is a function parameter, from the request to what came back.
- **Inbox** (`inbox.dfy`), **new-listing form** (`new_item_form.dfy`),
  **profile page** (`profile.dfy`) and **chat input** (`chat_window.dfy`):
  the thread listing, tag parsing and field validation, the wishlist view and
  profile record, and trim-and-send.
- **Shared building blocks**: `seqs.dfy` (module `Seqs`) has JavaScript's
  `filter`, `find`/`findIndex` and a stable sort by a numeric key. `text.dfy`
  (module `Text`) has `trim`, `toLowerCase`, `includes`, `split` on one
  character and `join`.

Ids, prices and timestamps are integers. Each reading of the clock, each
random id, `parseFloat`, `URL.createObjectURL` and the distance from the
viewer to an item are parameters.

Some behaviour of the code is easy to assume otherwise, so it is stated here
with the lines it comes from:

- The request asks the service for the top five item ids
  (services/geminiService.ts:43), but nothing enforces it. The reply's array
  is returned as it is (services/geminiService.ts:69-70), and each id is
  resolved with `find` (components/Marketplace.tsx:105-109). So any number of
  ids is kept, and a repeated id gives a repeated entry (`GetRecommendedItems`,
  `RecommendedItems`).
- The search filter applies only when `searchQuery.trim()` is non-empty
  (components/Marketplace.tsx:71). A whitespace-only query removes nothing. A
  non-blank query is lowercased but not trimmed before matching
  (components/Marketplace.tsx:72-75; `BlankQueryRemovesNothing`, `Admits`).
- The wishlist is a list (App.tsx:145-151). Toggling an id that is on it
  removes every occurrence, and toggling an absent id appends it (`Toggled`).
- `fetchRecommendations` (components/Marketplace.tsx:48-58) has no
  cancellation and no generation counter, so nothing discards a stale result
  (see "Left out").

## Model

| member | source | states |
|---|---|---|
| Types.CollegeName | types.ts:2-14 | each college's string value is non-empty and never the "All" sentinel |
| Types.CollegeNameInjective | types.ts:2-14 | distinct colleges have distinct string values, so comparing values compares colleges |
| Types.ChatThread.constructor | types.ts:52-56 | a thread starts with the given item id, participants and messages |
| Seqs.Filter | App.tsx:148 | the result is no longer than the input, holds only elements satisfying the predicate, and holds every such element |
| Seqs.FilterCount | components/Marketplace.tsx:69 | filter keeps each satisfying element exactly as often as the input holds it and drops every other one |
| Seqs.FilterAppend | components/Profile.tsx:30 | filter distributes over concatenation, so it never reorders |
| Seqs.FilterSingle | App.tsx:148 | a one-element list keeps its element exactly when it satisfies the predicate |
| Seqs.FilterKeepsAll | App.tsx:148 | a predicate true of every element removes nothing |
| Seqs.FilterCongruent | components/Profile.tsx:30 | filter depends only on the predicate's values on the elements present |
| Seqs.FilterFilter | components/Marketplace.tsx:69-90 | filtering by one predicate and then another is filtering once by both |
| Seqs.Map | services/geminiService.ts:23-29 | map keeps the length and applies the function at every position |
| Seqs.MapAppend | services/geminiService.ts:23-29 | map distributes over concatenation |
| Seqs.FilterMapKeys | components/Marketplace.tsx:105-109 | when every hit carries its own key, the keys of the looked-up hits are the elements that hit, in order |
| Seqs.FindIndex | App.tsx:134 | the index of the first element satisfying the predicate, or -1 exactly when none does |
| Seqs.Find | App.tsx:74 | the first satisfying element, or None exactly when none satisfies the predicate |
| Seqs.Insert | components/Marketplace.tsx:92-102 | inserting adds exactly one copy of the element |
| Seqs.InsertSorted | components/Marketplace.tsx:92-102 | inserting into a sorted sequence keeps it sorted |
| Seqs.SortByKey | components/Marketplace.tsx:92-102 | the sort result is ordered by the key and is a permutation of the input |
| Seqs.InsertStable | components/Marketplace.tsx:92-102 | inserting into a sorted list puts the element after every element with the same key |
| Seqs.SortByKeyStable | components/Marketplace.tsx:92-102 | the sort is stable: for every key value, the elements with that key keep their input order |
| Seqs.Reverse | components/Marketplace.tsx:94-96 | the reverse has the same elements, position k holding the k-th from the end |
| Seqs.TailMultiset | components/Marketplace.tsx:94-96 | dropping the head removes one copy of it |
| Seqs.SortedHeadsAgree | components/Marketplace.tsx:94-96 | a strictly sorted and a sorted arrangement of the same elements start with the same element |
| Seqs.SortedUnique | components/Marketplace.tsx:94-96 | a strictly sorted sequence is the only sorted arrangement of its elements |
| Seqs.ReverseSorted | components/Marketplace.tsx:94-96 | reversing a sequence sorted by the negated key sorts it by the key |
| Seqs.ReverseReverse | components/Marketplace.tsx:94-96 | reversing twice gives the input back |
| Seqs.CountsCorrespond | components/Inbox.tsx:16-22 | two equally long lists holding `x` and `y` at the same positions hold them equally often |
| Text.TrimStart | components/ChatWindow.tsx:25 | drops exactly the leading white space, leaving a suffix |
| Text.TrimEnd | components/ChatWindow.tsx:25 | drops exactly the trailing white space, leaving a prefix |
| Text.Trim | components/ChatWindow.tsx:25 | the trimmed text has no white space at either end, is empty exactly when the input is all white space, and is no longer than the input |
| Text.TrimOccurs | components/NewItemForm.tsx:29 | the trimmed text is a contiguous slice of the input |
| Text.TrimDropsTrailing | components/ChatWindow.tsx:25 | everything after the kept slice is white space |
| Text.TrimIsMiddle | components/ChatWindow.tsx:25 | for any cut of the text into white space, a middle that starts and ends with a non-space character (or is empty), and white space, trim gives exactly that middle |
| Text.TrimStartAt | components/ChatWindow.tsx:25 | white space up to a non-space character is exactly what the start trim drops |
| Text.TrimEndAt | components/ChatWindow.tsx:25 | white space after a non-space character is exactly what the end trim drops |
| Text.TrimChars | components/NewItemForm.tsx:29 | trimming introduces no character that the input lacks |
| Text.TrimOfTrimmed | components/ChatWindow.tsx:26 | text with no white space at either end is its own trim |
| Text.TrimLeadingSpace | components/NewItemForm.tsx:29 | one leading white-space character does not change the trim |
| Text.LowerChar | components/Marketplace.tsx:72 | upper-case ASCII letters become lower case and every other character is unchanged |
| Text.Lower | components/Marketplace.tsx:72 | lower-casing keeps the length and folds each character |
| Text.LowerIdempotent | components/Marketplace.tsx:74-75 | lower-casing twice is lower-casing once |
| Text.ContainsAt | components/Marketplace.tsx:74-75 | `includes` holds exactly when the text occurs at some position |
| Text.SeparatorIndex | components/NewItemForm.tsx:29 | the separator search gives -1 or a position holding the separator |
| Text.SeparatorIndexFirst | components/NewItemForm.tsx:29 | no separator comes before the position found, and -1 is returned exactly when the text has no separator |
| Text.SeparatorIndexIs | components/NewItemForm.tsx:29 | a separator with none before it is the one the search finds |
| Text.Split | components/NewItemForm.tsx:29 | split gives at least one piece |
| Text.SplitPiecesFree | components/NewItemForm.tsx:29 | no piece of a split contains the separator |
| Text.JoinSplit | components/NewItemForm.tsx:29 | joining the pieces of a split with the separator gives the input back |
| Text.SplitNoSeparator | components/NewItemForm.tsx:29 | text without the separator is a single piece |
| Text.SplitCons | components/NewItemForm.tsx:29 | a character other than the separator in front of the text becomes part of the first piece, and the other pieces are unchanged |
| Text.SplitAppendFirstPiece | components/NewItemForm.tsx:29 | for a separator-free `a`, splitting `a,b` gives `a` and then the pieces of `b` |
| App.Toggled | App.tsx:145-151 | the id is on the new wishlist exactly when it was not on the old one, and every other id keeps its membership; an absent id is appended at the end; a present id loses every occurrence |
| App.FilterLength | App.tsx:148 | removing an id shortens the list by the number of its occurrences |
| App.ToggleTwiceRestores | App.tsx:147-149 | toggling an absent id twice restores the original list exactly |
| App.MaxId | App.tsx:105 | the maximum is one of the catalog's ids and no id exceeds it |
| App.WithStatus | App.tsx:116 | the length and ids are kept, items with the id get the status, only their status changes, and every other item is unchanged |
| App.WithUser | App.tsx:98 | ids are kept, users with the updated id are replaced by the updated user, and every other user is unchanged |
| App.ThreadIndex | App.tsx:134 | the first thread about the item that includes the user, or -1 exactly when there is none |
| App.AppState.constructor | App.tsx:69-85 | start-up: the given users, items and threads, the user with id 1 signed in if present, no selected item, the stored wishlist |
| App.AppState.UpdateProfile | App.tsx:96-99 | the updated user becomes current and replaces exactly the users with the same id |
| App.AppState.AddItem | App.tsx:101-113 | with no signed-in user nothing changes; otherwise a new item is prepended with id max+1 (so its id is fresh), the user as seller, the user's college and location, status available, and the old items after it |
| App.AppState.UpdateItemStatus | App.tsx:115-120 | only matching items change, to the new status; the selected item becomes sold only when the status is sold and its id matches |
| App.AppState.SendMessage | App.tsx:122-143 | with no signed-in user nothing changes; otherwise the message goes onto the first matching thread, leaving the thread count and every other thread unchanged, or else a new thread `[me, receiver]` holding only that message is appended |
| App.AppState.ToggleWishlist | App.tsx:145-151 | the wishlist becomes the toggled list |
| Marketplace.AdmittedItems | components/Marketplace.tsx:69-90 | every listed item is a catalog item that is available and passes each active filter (text, college, distance, inclusive price bounds); every admitted catalog item is listed; the result is a sub-multiset of the catalog |
| Marketplace.BlankQueryRemovesNothing | components/Marketplace.tsx:71 | a blank or whitespace-only query removes nothing |
| Marketplace.PipelineFilter | components/Marketplace.tsx:69-90 | the conditional filter chain gives exactly the catalog filtered once by admission, in catalog order |
| Marketplace.FilterStep | components/Marketplace.tsx:69-90 | one filter step, applied or skipped, after a filter by `q` is one filter by `q` and that step |
| Marketplace.SortedView | components/Marketplace.tsx:68-103 | sorting the admitted items lists each admitted item as often as the catalog holds it, in ascending sort key, with items that share a key in catalog order |
| Marketplace.CountedSubset | components/Marketplace.tsx:69-90 | a sequence whose multiplicities are those of the admitted catalog items is a sub-multiset of the catalog that holds every admitted item |
| Marketplace.SortKeyOrder | components/Marketplace.tsx:92-102 | price_asc gives non-decreasing prices, price_desc non-increasing prices, distance non-decreasing distance, and newest or any other value non-increasing creation time |
| Marketplace.PriceSortsReversed | components/Marketplace.tsx:94-96 | with no price ties, the price_desc order is exactly the reverse of the price_asc order |
| Marketplace.ResolveAvailable | components/Marketplace.tsx:107 | an id resolves to the first catalog item with that id that is available, or to None exactly when there is no such item |
| Marketplace.RecommendedItems | components/Marketplace.tsx:105-109 | each recommended item is what its own id resolves to, so an available catalog entry; its id list is the recommended ids with the unresolvable ones dropped, in order and with repeats; the length is at most the number of ids |
| Marketplace.ResolvedIds | components/Marketplace.tsx:105-109 | the resolved entries' ids are the recommended ids that resolve, in order |
| Marketplace.ResolvedEach | components/Marketplace.tsx:105-109 | every resolved entry is what its id resolves to, and there are no more entries than ids |
| Marketplace.RecommendedItemsExample | components/Marketplace.tsx:105-109 | ids [3, 99, 1] against item 1 (available) and item 3 (sold) give only item 1 |
| Marketplace.MarketplaceView.constructor | components/Marketplace.tsx:36-46 | no query, every college, 5 miles, no price bounds, newest first, loading |
| Marketplace.MarketplaceView.HandleFilterChange | components/Marketplace.tsx:64-66 | the changed control's field takes the new value and the other fields are unchanged |
| Marketplace.MarketplaceView.FetchRecommendations | components/Marketplace.tsx:48-58 | loading always ends; the ids are replaced on success and kept on failure |
| Marketplace.MarketplaceView.FilteredAndSortedItems | components/Marketplace.tsx:68-103 | the result holds exactly the admitted catalog items, each as often as the catalog does, ordered by the chosen sort key, and items sharing a key keep their catalog order |
| GeminiService.Summarize | services/geminiService.ts:23-29 | a summary copies id, name, description and price, and joins the tags with ", " |
| GeminiService.AvailableSummariesSpec | services/geminiService.ts:21-29 | the summaries are exactly those of the available items, and the list is empty exactly when no item is available |
| GeminiService.AvailableSummariesAppend | services/geminiService.ts:21-29 | the projection keeps catalog order |
| GeminiService.IdsFromReply | services/geminiService.ts:69-76 | an array field is returned unchanged; anything else, including a thrown error, gives [] |
| GeminiService.GetRecommendedItems | services/geminiService.ts:13-77 | without a key, or with no available item, the service is not asked and the result is []; otherwise it is asked once with the interests and the available summaries, and its array is returned untruncated and not deduplicated |
| Inbox.OtherParticipantId | components/Inbox.tsx:18 | the first participant id that is not the user, or None exactly when every participant is the user |
| Inbox.LastMessage | components/Inbox.tsx:20 | the final message, or None exactly when there are no messages |
| Inbox.Resolve | components/Inbox.tsx:16-22 | a thread's item is the first catalog item with its item id and its other participant the first user with the other participant's id, each None exactly when the lookup finds nothing; the last message is the final one |
| Inbox.Entries | components/Inbox.tsx:16-22 | one resolved row per thread, in order |
| Inbox.UserChats | components/Inbox.tsx:14-24 | only threads that include the user and fully resolve are listed, every such thread is listed as often as it occurs in the thread list, the newest last message comes first, and the list is no longer than the thread list |
| Inbox.UserChatsSpec | components/Inbox.tsx:14-24 | the filter, resolve, drop and sort steps give the listing above |
| Inbox.ShownRow | components/Inbox.tsx:14-24 | a listed row is the resolution of a thread that includes the user and resolves completely |
| Inbox.ThreadShown | components/Inbox.tsx:14-24 | a thread that includes the user and resolves completely is listed |
| Inbox.RowCount | components/Inbox.tsx:14-24 | a listed row occurs as often as its thread occurs in the thread list |
| NewItemForm.ParseTags | components/NewItemForm.tsx:29 | every parsed tag is non-empty |
| NewItemForm.HandleSubmit | components/NewItemForm.tsx:18-34 | with a missing field only the alert happens; otherwise onAddItem gets the name and description as typed, the parsed price and tags and the image URL, and onClose follows it |
| NewItemForm.ParseTagsClean | components/NewItemForm.tsx:29 | parsed tags are non-empty, have no white space at either end and contain no comma |
| NewItemForm.ParseTagsEmpty | components/NewItemForm.tsx:29 | an empty tag field gives no tags |
| NewItemForm.ParseTagsSingle | components/NewItemForm.tsx:29 | comma-free text gives its trimmed self, or nothing when blank |
| NewItemForm.ParseTagsAppend | components/NewItemForm.tsx:29 | for a comma-free first part, the tags of `a,b` are those of `a` followed by those of `b`, so input order is kept |
| NewItemForm.ParseTagsLeadingSpace | components/NewItemForm.tsx:29 | a space before the text does not change the tags |
| NewItemForm.ParseTagsJoin | components/NewItemForm.tsx:29 | clean tags joined with ", " parse back to the same tags |
| NewItemForm.ParseTagsJoinStep | components/NewItemForm.tsx:29 | one clean tag, ", " and the text of further tags parse to that tag followed by those tags |
| Profile.WishlistedItems | components/Profile.tsx:30 | the view holds only catalog items whose id is on the wishlist, whatever their status, and every such item |
| Profile.WishlistedItemsAppend | components/Profile.tsx:30 | the view follows catalog order, not wishlist order |
| Profile.WishlistedItemsMembership | components/Profile.tsx:30 | only wishlist membership matters, not its order or repeats |
| Profile.WishlistedItemsUnknownIds | components/Profile.tsx:30 | wishlist ids matching no item contribute nothing |
| Profile.WishlistedItemsToggle | components/Profile.tsx:30 | toggling an id adds or removes exactly the items with that id |
| Profile.ProfileForm.constructor | components/Profile.tsx:18-21 | the form opens on the user's values with no notice |
| Profile.ProfileForm.HandleSubmit | components/Profile.tsx:23-28 | the submitted user keeps id and location, takes name, college and interests from the form, and the notice is shown |
| ChatWindow.Outgoing | components/ChatWindow.tsx:25-26 | nothing is sent exactly when the text is all white space; what is sent is the trimmed text, non-empty, with no white space at either end, and a slice of the typed text |
| ChatWindow.OutgoingStable | components/ChatWindow.tsx:25-26 | sent text is already trimmed, so sending it again would send the same text |
| ChatWindow.ChatInput.constructor | components/ChatWindow.tsx:14 | the input box starts empty |
| ChatWindow.ChatInput.HandleSend | components/ChatWindow.tsx:23-29 | at most one message is sent, its text is the trimmed input, the box is cleared after a send and untouched otherwise |

## Left out

- Great-circle distance (`getDistance`, Haversine): floating-point trigonometry. Distance is the parameter `distanceTo`, so the distance filter and sort are modelled over any distance function.
- `parseFloat` of prices: float parsing. Price bounds are `Option<int>`, None for an empty input. A non-numeric bound, which the code compares as NaN and which then removes every item, is not modelled.
- Filter values as strings: the panel's change handler stores raw input strings, including the distance, which JavaScript then compares numerically. The model keeps typed values and covers only the four controls, not an arbitrary field name.
- Case folding beyond ASCII: `toLowerCase` is modelled on ASCII letters only.
- The ranking service call, prompt text and `JSON.parse`: foreign network call, replaced by the `oracle` parameter. It returns either a thrown error or the parsed `recommended_ids` field.
- Marketplace.MarketplaceView.FetchRecommendations: takes how the awaited call settled as a parameter. The re-fetch effect and the race between overlapping fetches are concurrency, and the code has no generation counter to model.
- GeminiService.IdsFromReply: the reply carries a list of integers. The check at services/geminiService.ts:69 accepts an array with elements of any type and returns it as it is; replies with non-numeric elements are not modelled.
- `localStorage` load and save of the wishlist: I/O. The stored list is a constructor parameter.
- Mock data, `Math.random`, `Date.now()` message ids, `new Date()`, `URL.createObjectURL`, `alert` (an `Alert` effect), the three-second reset of the saved notice, and scrolling: nondeterminism and browser APIs. Clock readings and URLs are parameters.
- App.AppState.AddItem: requires a non-empty catalog when a user is signed in, because `Math.max` over no ids is -Infinity and the new id would not be an integer.
- NewItemForm.ParseTagsAppend: stated only for a first part without a comma; the general law that a comma splits the tag text into the tags of each side is not proved.
- Inbox.UserChats: the order is stated with each row already known to be complete; that ties between equal timestamps keep input order is proved for the sort in general (`Seqs.SortByKeyStable`) but not restated for the inbox.
- Rendering, navigation, `ItemCard` and `ItemModal`: UI only.
