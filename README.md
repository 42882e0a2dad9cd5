# Character manager: record list operations

This project models the list logic of a small CRUD manager for fictional
characters. The manager has two parts:

- an Express server (`backend/index.js`). It keeps the records in a JSON file
  `{characters: [...]}` and serves list, get-by-id, create, update and delete.
- a React component (`frontend/src/App.jsx`). It holds a local copy of the
  list, a filtered view driven by a search box, and an edit draft.

The model strips away the file, HTTP and React layers. What remains is ordinary
sequence work, and the model states it and proves it.

- `Json`: a record is a `map<string, Value>`. `Prop` is property access, with
  `None` standing for `undefined`. `IdOf` is the id as the server's numeric
  comparisons see it.
- `Sequences`: `filter`, `splice(k, 1)`, and "keeps the relative order"
  (`IsSubsequence`).
- `Strings`: ASCII `toLowerCase`, and `includes`. `includes` is proved equal to
  a reference definition of a substring.
- `Backend`: the pure parts of the handlers. These are the max-id reduce,
  `findIndex` and the `{...old, ...body, id}` merge. The class `CharacterFile`
  holds the stored list. Its methods mutate that list the way the handlers
  mutate `json.characters`. Lemmas state what creates, updates and deletes do
  to ids.
- `App`: the search view, the distinct-universe count and the local patches.
  The class `App` holds the component's state fields `characters`,
  `filteredCharacters`, `searchTerm` and `formData`. Its methods are the event
  handlers. Lemmas show that, when ids are unique, the client's local patch
  produces the same list as the server's write.

Three points where the handlers behave differently from what a reader might
expect. The model follows the code in each:

- **Ids can be reused.** The create handler's comment asks for a new, unique id
  ("Générer un nouvel ID unique", `backend/index.js:72`). One could read that
  as an id never issued before. The code computes the next id as one more than the largest id in the
  *current* list (`backend/index.js:73-74`). Deleting the record with the
  largest id therefore makes that id available again.
  `Backend.NewIdAfterDeletingMax` proves that the next id is then no larger
  than the deleted one. `Backend.IdReusedAfterDelete` shows id 1 issued twice.
  Freshness is stated only against the current list (`Backend.NewId`).
- **Local delete does not wait for success.** The client removes a record
  locally after any answer, successful or not. The code never checks `response.ok` (`frontend/src/App.jsx:66-69`). Only a fetch that
  throws skips the removal. `App.App.DeleteCharacter` models the code.
- **Get is not exactly the same lookup as update and delete.** Get uses loose
  `==`. Update and delete use `===` after `parseInt`. With the id parameter
  modelled as an integer, all three match a record whose `id` is that number.

## Model

| member | source | states |
|---|---|---|
| `Backend.MaxIdFrom` | backend/index.js:73 | the reduce result is at least the seed and at least every numeric id, and it is the seed or one of those ids |
| `Backend.NewId` | backend/index.js:73-74 | the assigned id is at least 1 and strictly greater than every id currently in the list |
| `Backend.Stamped` | backend/index.js:71-74 | the created record has the new id whatever id the client sent; every other body field is kept; the keys are the body's plus `id` |
| `Backend.FindIndex` | backend/index.js:99-100 | `findIndex`: -1 exactly when no record has the id; otherwise the index of the first record with that id |
| `Backend.Merge` | backend/index.js:131 | right-biased merge: body fields override stored ones, stored fields absent from the body are kept, and `id` is the path id whatever the body says |
| `Backend.CharacterFile.constructor` | backend/index.js:27-28 | the loaded document holds the stored list as is |
| `Backend.CharacterFile.List` | backend/index.js:29 | returns the stored list unchanged and in order |
| `Backend.CharacterFile.Get` | backend/index.js:48-54 | NotFound exactly when no record has the id; otherwise the first record with that id |
| `Backend.CharacterFile.Create` | backend/index.js:71-75 | appends exactly the stamped body at the end, returns it, leaves earlier records in place, and keeps ids positive and unique |
| `Backend.CharacterFile.Update` | backend/index.js:126-132 | absent id: NotFound and the list unchanged; otherwise only the matched index is replaced, by the merge, which is returned; ids stay positive and unique |
| `Backend.CharacterFile.Delete` | backend/index.js:98-103 | absent id: NotFound and the list unchanged; otherwise exactly the first record with the id is spliced out and returned; ids stay positive and unique |
| `Backend.MaxIdSnoc` | backend/index.js:73 | the reduce over a list with one more record at the end is one more step of the fold |
| `Backend.CreateIdsIncrease` | backend/index.js:73-75 | two creates in a row are issued consecutive ids |
| `Backend.CreateKeepsIds` | backend/index.js:73-75 | appending the stamped record keeps ids positive and keeps them unique |
| `Backend.CreateThenFind` | backend/index.js:73-75 | right after a create, looking up the assigned id finds the appended record |
| `Backend.UpdateKeepsIds` | backend/index.js:126-132 | an update never changes the matched record's id, whatever the body's id, so ids stay positive and unique |
| `Backend.DeleteKeepsIds` | backend/index.js:103 | removing any one record keeps ids positive and unique |
| `Backend.DeleteThenFind` | backend/index.js:99-103 | with unique ids, a lookup of the deleted id afterwards finds nothing |
| `Backend.DeleteKeepsOthersFindable` | backend/index.js:99-103 | a lookup of any other id after a delete gives the index it gave before, or one lower if that index came after the deleted one, or -1 if it gave -1; this holds even when ids repeat |
| `Backend.NewIdAfterDeletingMax` | backend/index.js:73-74 | after deleting the record that holds the largest id, the next id issued is no larger than the deleted id |
| `Backend.IdReusedAfterDelete` | backend/index.js:73-75 | create into an empty file, delete that record, create again: id 1 is issued both times |
| `Backend.Walkthrough` | backend/index.js:71-132 | one stored record; create gives id 2; updating record 1's universe keeps its other fields; deleting record 2 leaves only record 1; id 2 is then not found |
| `Sequences.Filter` | frontend/src/App.jsx:67 | the result has the elements that pass the test, only those, and is no longer than the input |
| `Sequences.FilterCount` | frontend/src/App.jsx:67 | each element that passes the test occurs in the result as many times as in the input; each element that fails it does not occur |
| `Sequences.FilterIsSubsequence` | frontend/src/App.jsx:85-90 | filtering keeps the relative order of the elements it keeps |
| `Sequences.RemoveAt` | backend/index.js:103 | `splice(k, 1)`: one element shorter; elements before `k` stay, elements after `k` shift down by one |
| `Sequences.RemoveAtIsSubsequence` | backend/index.js:103 | the records left after a splice keep their relative order |
| `Strings.Lower` | frontend/src/App.jsx:87-89 | the same length; each character lowered; no upper-case ASCII letter remains |
| `Strings.Includes` | frontend/src/App.jsx:87-89 | `includes` is true exactly when the needle occurs at some index of the haystack |
| `App.SaveRequestFor` | frontend/src/App.jsx:35-38 | PUT to the draft's id exactly when that id is truthy, otherwise POST |
| `App.NewDraftPosts` | frontend/src/App.jsx:35-38 | the empty draft is saved with POST |
| `App.EditOfStoredRecordPuts` | frontend/src/App.jsx:35-38 | editing a stored record gives a PUT to its id, and the server's lookup of that id finds that record |
| `App.SearchView` | frontend/src/App.jsx:82-90 | empty term: the full list in order; otherwise exactly the records whose name, real name or universe contains the term, ignoring case, each as many times as it occurs in the list; always an order-preserving subsequence, no longer than the list |
| `App.EmptySearchMatchesAll` | frontend/src/App.jsx:82-89 | the empty-term shortcut agrees with the general test, because the empty term matches every record |
| `App.SearchIgnoresCase` | frontend/src/App.jsx:85-90 | two terms that differ only in ASCII case give the same view |
| `App.SearchWithoutMatchIsEmpty` | frontend/src/App.jsx:85-91 | a term that matches no record gives an empty view |
| `App.Universes` | frontend/src/App.jsx:95 | holds the `universe` of every entry and nothing else, and has no more values than there are entries |
| `App.UniversesAppend` | frontend/src/App.jsx:95 | the universes of a list with one more entry are the old ones plus that entry's universe |
| `App.App.UniqueUniverses` | frontend/src/App.jsx:95 | at most the list length; 0 exactly when the list is empty |
| `App.App.UniqueUniversesCountsDistinct` | frontend/src/App.jsx:95 | the count equals the size of any set holding exactly the entries' universes, which is the number of distinct universes |
| `App.App.UniverseCountAfterAppend` | frontend/src/App.jsx:95 | appending a record leaves the count alone if its universe is already present, and otherwise adds one |
| `App.ReplaceById` | frontend/src/App.jsx:52 | the same length; every entry whose id equals the saved id becomes the saved record; every other entry is unchanged |
| `App.Patched` | frontend/src/App.jsx:51-53 | edit draft: replace by id; new draft: the old list with the saved record appended at the end, which is the list the server's push writes |
| `App.RemoveById` | frontend/src/App.jsx:67 | drops every entry with the id, keeps every other entry as many times as it occurs, and keeps their order |
| `App.App.constructor` | frontend/src/App.jsx:5-14 | empty lists, empty search term and the empty draft |
| `App.App.FetchCharacters` | frontend/src/App.jsx:20-25 | a good response sets both lists to the fetched list; otherwise nothing changes |
| `App.App.HandleSearch` | frontend/src/App.jsx:80-93 | stores the term and sets the view to the search view of the full list; the full list and the draft are unchanged |
| `App.App.HandleEdit` | frontend/src/App.jsx:75-78 | the draft becomes the chosen record, id included; the lists are unchanged |
| `App.App.OpenNewDraft` | frontend/src/App.jsx:128-131 | the draft is reset to the empty draft |
| `App.App.AddCharacter` | frontend/src/App.jsx:35-56 | sends the request the draft selects; on success both lists become the patched list, whatever the search term, and the draft is reset; on failure nothing changes |
| `App.App.DeleteCharacter` | frontend/src/App.jsx:64-72 | unless the fetch throws, both lists become the full list without the id, even when the response is not ok |
| `App.LocalUpdateMirrorsServer` | frontend/src/App.jsx:51-52 | with unique ids, patching by the merged record gives the same list as the server's in-place update |
| `App.LocalDeleteMirrorsServer` | frontend/src/App.jsx:67 | with unique ids, removing by id gives the same list as the server's splice of the first match |
| `App.SaveIgnoresActiveSearch` | frontend/src/App.jsx:54-55 | after a save the view shows a new record that the active search term does not match |

## Left out

- Reading and writing `user.json`, `JSON.parse`/`JSON.stringify`, Express
  routing, CORS, `app.listen` and HTTP status codes. These are I/O and
  framework glue. A handler's load is a read of `CharacterFile.characters`, and
  its save is an assignment to it. Read, parse and write errors (the 500
  answers) are not modelled. The model assumes every write succeeds. In the
  source, `fs.writeFile` truncates `user.json` before writing, so a failed
  write may leave the file empty or partial.
- Concurrent requests and their lost updates (the read-modify-write race).
  This is concurrency, not sequential behaviour.
- JSON values are modelled as `null`, booleans, integers and strings. Floating
  point numbers and nested arrays or objects in extra fields are not modelled.
- `Backend.CharacterFile.Get`: the path id is modelled as an integer. Loose
  `==` coercion, which would also match a string id such as `"3"`, is not
  modelled.
- `Backend.CharacterFile.Update`: `parseInt` of the path is not modelled. A
  path that is not a number (NaN in the source) can match nothing, so it is
  simply NotFound.
- `Backend.CharacterFile.Delete`: same as Update, for `parseInt`.
- `Backend.NewId`: the source computes `maxId + 1` in IEEE doubles, while the
  model uses unbounded integers. From 2^53 (9007199254740992) on, the addition
  rounds: a stored id of 2^53 makes the source issue 2^53 again. The model's
  freshness and uniqueness results therefore hold for the source only while
  every stored id is below 2^53.
- `Backend.CreateKeepsIds`: ids stay unique only while they are below 2^53;
  see `Backend.NewId`.
- `Backend.CharacterFile.Create`: keeps `Valid()` only while ids are below
  2^53; see `Backend.NewId`.
- `Backend.MaxIdFrom`: only numeric ids take part in the reduce. JavaScript's
  comparisons against string or boolean ids are not modelled. With such ids,
  `maxId + 1` can even be a string concatenation.
- `Strings.Lower`: only ASCII letters are lowered. Unicode case mapping is not
  modelled.
- `App.App.HandleSearch`: a record whose `name`, `realName` or `universe` is
  not a string makes `toLowerCase` throw. The model requires that the fields
  the `||` chain reaches are strings (`App.SearchDefined`). The TypeError path
  is not modelled.
- `App.SaveRequestFor`: the URL string is represented by the id value it
  embeds. NaN, which is falsy, is not a value of the model.
- `App.App.AddCharacter`: `fetch`, `await` and `response.json()` are
  represented by their outcome, the saved record or `None`. The modal's
  visibility (`showAddModal`), the loading flag, rendering and `console.error`
  are UI concerns and are not modelled.
- `App.App.DeleteCharacter`: the DELETE request itself is not modelled. Only
  whether the fetch threw decides the local removal.
