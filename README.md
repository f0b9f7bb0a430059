# Boostnote store reducers in Dafny

This project models the two reducers of Boostnote's Redux store
(`browser/main/store.js`) and proves what they do.

- `repositories` keeps the list of repositories. Each repository owns a
  folder list, a note list and a `starred` list of note keys. Ten action
  types change this list.
- `config` keeps the UI settings object. Four action types change it.

Every lookup is by `key`: lodash's `_.find` / `_.findIndex` return the first
match, and `_.uniq` keeps the first occurrence of each element.

How the model is laid out:

- `lodash.dfy` (module `Lodash`) holds the lookup and list functions and the
  lemmas about them. These are pure functions over sequences.
  - `FindIndex` is `_.findIndex`.
  - `Uniq` is `_.uniq`.
  - `Without` is the `filter` used by `UNSTAR_NOTE`.
  - `Upsert` is the find-then-`splice(i, 1, x)`-or-`push(x)` edit.
  - `RemoveFirst` is the find-then-`splice(i, 1)` edit.
- `entities.dfy` (module `Entities`) holds the data model.
  - Folders and notes are datatypes.
  - A note's `_repository` back-reference is `Option<string>`: the key of the
    repository that owns the note.
  - `Repository` is a class. The reducer changes repository objects in place:
    `folders`, `notes` and `starred` are fields that its methods reassign.
    Each method is proved against a specification function (`Upsert`,
    `RemoveFirst`, `WithBackReference`, `Star`, `Unstar`), and lemmas prove
    the properties of those functions.
- `actions.dfy` (module `Actions`) has one action datatype, with one
  constructor per action type. Both reducers receive every action.
- `repositories.dfy` (module `RepositoriesReducer`) is the `repositories`
  reducer, with one method per `case`.
  - The list of repositories is an `array`. A branch whose repository
    lookup misses, or a `STAR_NOTE` whose note is missing, returns `state`
    itself, so the caller can see that nothing happened. Every other outcome
    is a fresh array (`state.slice()`). That includes a `REMOVE_REPOSITORY`,
    `REMOVE_FOLDER` or `UNSTAR_NOTE` whose key matches nothing.
  - The repository objects are shared between the old list and the new one.
    The target repository is edited in place, so the old snapshot sees the
    edit too. The contracts say exactly which object changed and how. No
    contract claims that the old snapshot is left untouched.
- `config.dfy` (module `ConfigReducer`) is the `config` reducer. The settings
  object is a class whose fields are a map from field name to value.
- `scenario.dfy` (module `Scenario`) dispatches a sequence of actions through
  `RepositoriesReducer.Reduce`, using only its contract: load a repository,
  add a folder and a note, star the note twice, unstar it, and remove the
  repository.

The reducer is not pure and copy-on-write. A reducer of that kind would
copy every level it changes and return `state` itself whenever nothing
changes. This one differs in four ways, and the model follows the code:

- It copies only the outer list. It mutates the repository objects and their
  `folders` and `notes` arrays in place, so the old list sees the edit. The
  three config setters also assign the field on the old settings object
  before copying it.
- A `REMOVE_REPOSITORY`, `REMOVE_FOLDER` or `UNSTAR_NOTE` whose key matches
  nothing still returns a fresh copy of the list, not `state` itself.
  `REMOVE_FOLDER` and `UNSTAR_NOTE` return `state` itself only when the
  repository is missing. `REMOVE_REPOSITORY` never returns `state` itself.
- An `UNSTAR_NOTE` whose key is not starred can still change `starred`. The
  list is rewritten to `_.uniq` of itself, so a `starred` list that holds a
  key twice loses the second copy (`Unstar(["a", "a"], "b") == ["a"]`). On
  a list without duplicates nothing changes (`UnstarOfDistinct`).
- `starred` behaves like a set of note keys, but it is a list that
  `STAR_NOTE` deduplicates with `_.uniq`. The model uses a list and proves
  the set properties: no duplicates after starring, and idempotent starring.

## Model

| member | source | states |
|---|---|---|
| `Lodash.FindIndex` | browser/main/store.js:54 | the result is -1 exactly when the key is absent, and otherwise the index of its first occurrence |
| `Lodash.Uniq` | browser/main/store.js:155 | the result has no duplicates, and it holds exactly the elements of the input |
| `Lodash.UniqKeepsFirstOccurrenceOrder` | browser/main/store.js:155 | the elements kept by `_.uniq` are in the order of their first occurrences in the input |
| `Lodash.UniqOfNoDup` | browser/main/store.js:155 | `_.uniq` returns a list without duplicates unchanged, so it is idempotent |
| `Lodash.Without` | browser/main/store.js:169-170 | the filter removes every occurrence of the key, keeps every other element, and leaves the list as it is when the key is absent |
| `Lodash.WithoutCounts` | browser/main/store.js:169-170 | the filter keeps every occurrence of every other element: the result's multiset is the input's with the key's count set to zero |
| `Lodash.KeptPositions` | browser/main/store.js:169-170 | the positions that the filter keeps are increasing, hold elements other than the key, and include every such position |
| `Lodash.WithoutKeepsOrder` | browser/main/store.js:169-170 | the filter's i-th element is the input's element at the i-th kept position, so the other elements keep their order |
| `Lodash.UniqWithoutCommute` | browser/main/store.js:169-171 | filtering and then deduplicating equals deduplicating and then filtering |
| `Lodash.Upsert` | browser/main/store.js:68-73 | the key list stays the same when the key is present and gets the new key appended when it is absent; the first element with that key is the new record; every other position keeps its element |
| `Lodash.UpsertKeepsKeysDistinct` | browser/main/store.js:68-73 | one upsert keeps pairwise-distinct keys distinct |
| `Lodash.UpsertAllKeepsKeysDistinct` | browser/main/store.js:61-92 | any series of `ADD_FOLDER` / `EDIT_FOLDER` upserts keeps pairwise-distinct folder keys distinct |
| `Lodash.UpsertReplacesInPlace` | browser/main/store.js:84-89 | with distinct keys, editing a record whose key is at position p puts the new record at p, keeps the length and every other element, and leaves exactly one element with that key |
| `Lodash.RemoveFirst` | browser/main/store.js:54-57 | with no match the list is unchanged; otherwise exactly the first match is excised and the order of the rest is kept |
| `Lodash.RemoveFirstOfDistinct` | browser/main/store.js:108-111 | with distinct keys, no element with the removed key is left and the keys stay distinct |
| `Lodash.RemoveFirstKeepsOthers` | browser/main/store.js:108-111 | every element with a different key survives the removal |
| `Lodash.RemoveFirstUndoesAppend` | browser/main/store.js:42-60 | removing by the key of a freshly appended element (one whose key was absent) gives back the original list |
| `Entities.WithBackReference` | browser/main/store.js:36-40 | every note's back-reference is the owner's key, and each note is otherwise unchanged and in its place |
| `Entities.Star` | browser/main/store.js:153-155 | after starring, the key is present, there are no duplicates, and the result holds exactly the old keys plus the new one |
| `Entities.StarOccursOnce` | browser/main/store.js:154-155 | after starring, the key occurs exactly once |
| `Entities.StarIdempotent` | browser/main/store.js:145-161 | starring the same key twice gives the same list as starring it once |
| `Entities.StarOfDistinct` | browser/main/store.js:154-155 | on a starred list without duplicates, starring is a set insert at the end, and a key that is already there changes nothing |
| `Entities.Unstar` | browser/main/store.js:169-171 | after unstarring, the key is absent, there are no duplicates, and every other old key is kept |
| `Entities.UnstarOfDistinct` | browser/main/store.js:169-171 | unstarring equals deduplicating and then dropping the key; on a list without duplicates, unstarring an absent key changes nothing |
| `Entities.UnstarAppend` | browser/main/store.js:169-171 | unstarring a list with one more key at the end keeps the old result, and appends that key only when it is neither the unstarred key nor already in the list |
| `Entities.UnstarKeepsFirstOccurrenceOrder` | browser/main/store.js:169-171 | the keys left after unstarring are in the order of their first occurrences |
| `Entities.Repository.LinkNotes` | browser/main/store.js:37-39 | the loop leaves `notes` equal to `WithBackReference` of the old notes, and changes no other field |
| `Entities.Repository.UpsertFolder` | browser/main/store.js:68-73 | `folders` becomes `Upsert` of the old folders, and no other field changes |
| `Entities.Repository.RemoveFolder` | browser/main/store.js:108-111 | `folders` becomes `RemoveFirst` of the old folders by the folder key, and no other field changes |
| `Entities.Repository.AddNote` | browser/main/store.js:121-122 | the note, with its back-reference set to this repository, is appended to `notes`, and no other field changes |
| `Entities.Repository.SaveNote` | browser/main/store.js:133-141 | the note, stamped with `updatedAt = now` and linked to this repository, is upserted into `notes` by its key, and no other field changes |
| `Entities.Repository.StarNote` | browser/main/store.js:154-155 | `starred` becomes `Star` of the old list, and no other field changes |
| `Entities.Repository.UnstarNote` | browser/main/store.js:169-171 | `starred` becomes `Unstar` of the old list, and no other field changes |
| `RepositoriesReducer.Position` | browser/main/store.js:54 | the lookup by key (`_.findIndex`, and `_.find` at that index, as at lines 54, 64, 80, 104, 118, 129, 148 and 165) is -1 exactly when no repository has the key, and otherwise the first repository with it |
| `RepositoriesReducer.NewList` | browser/main/store.js:41-44 | `slice()` (and the new list of `INIT_ALL`) gives a fresh array holding the given repositories in order |
| `RepositoriesReducer.LinkAll` | browser/main/store.js:36-40 | every repository in `data` has all its notes linked to itself, even one listed twice, and nothing else in it changes |
| `RepositoriesReducer.OnInitAll` | browser/main/store.js:35-41 | the result is a fresh list holding exactly `data` in order, and every note of every repository in it refers back to that repository |
| `RepositoriesReducer.OnAddRepository` | browser/main/store.js:42-49 | the result is a fresh list: the old entries in order, then the new repository last |
| `RepositoriesReducer.OnRemoveRepository` | browser/main/store.js:50-60 | the result is a fresh list without the first repository with the key, or with the same contents when none matches |
| `RepositoriesReducer.OnUpsertFolder` | browser/main/store.js:61-92 | with no matching repository, `state` itself comes back and nothing changes; otherwise only the target's folders change, to the upsert, and a fresh list comes back |
| `RepositoriesReducer.OnRemoveFolder` | browser/main/store.js:101-114 | with no matching repository, `state` comes back; otherwise only the target's folders change, to the first-match removal (no change when the folder is missing) |
| `RepositoriesReducer.OnAddNote` | browser/main/store.js:115-125 | with no matching repository, `state` comes back; otherwise only the target's notes change, by appending the note linked to `action.repository` |
| `RepositoriesReducer.OnSaveNote` | browser/main/store.js:126-144 | with no matching repository, `state` comes back; otherwise only the target's notes change, by upserting the note stamped with `now` and linked to `action.repository` |
| `RepositoriesReducer.OnStarNote` | browser/main/store.js:145-161 | when the repository or a note with that key is missing, `state` comes back and nothing changes; otherwise only the target's `starred` changes, to `Star` |
| `RepositoriesReducer.OnUnstarNote` | browser/main/store.js:162-174 | with no matching repository, `state` comes back; otherwise only the target's `starred` changes, to `Unstar`, without checking that the note exists |
| `RepositoriesReducer.Reduce` | browser/main/store.js:32-177 | each action type has the outcome of its branch; `ADD_FOLDER` and `EDIT_FOLDER` have the same outcome; every other action type returns `state` itself and changes nothing |
| `ConfigReducer.Assign` | browser/main/store.js:183-191 | setting a field overwrites exactly that field, and every other field keeps its presence and its value |
| `ConfigReducer.Overlay` | browser/main/store.js:192-193 | the merge holds the fields of both objects, and the value from `action.config` wins wherever both have a field |
| `ConfigReducer.Reduce` | browser/main/store.js:181-196 | the three setters write one field on the old object and return a fresh copy of it; `SET_CONFIG` returns a fresh merge and leaves the old object alone; every other action type returns `state` itself unchanged |

## Left out

- The Redux wiring (`combineReducers`, `createStore`, `routerReducer`, browser/main/store.js:1-3, 198-206) is not modelled. It is the library's dispatch and subscription runtime. Both reducers take the whole action type, and each returns its state for the other's actions.
- The reducers' default arguments (`initialRepositories`, and `ConfigManager.get()` at browser/main/store.js:179) are not modelled. The caller passes the first list and the first settings object. `ConfigManager` is not part of this model.
- `console.info` logging (browser/main/store.js:33) is I/O and is left out.
- `Date.now()` (browser/main/store.js:134) is the `now` parameter.
- Lodash.Without: its own contract states membership only. The counts and the order that `filter` keeps are stated by the lemmas `WithoutCounts` and `WithoutKeepsOrder`, which keeps the contract cheap for every caller.
- RepositoriesReducer.OnSaveNote: states `updatedAt == now`. It does not state that the new value is at least the old one, because that needs a monotonic clock, which belongs to the caller.
- Folders and notes are values, not objects. The model keeps the field writes on notes, `_repository` and `updatedAt` (browser/main/store.js:38, 121, 134-135), in the stored note. The payload object in the action and any other holder of the same note object are not modelled. The `folders`, `notes` and `starred` arrays are sequence fields of their repository, so two repositories that shared one array object are not modelled.
- The `_repository` pointer, and the need to leave it out of serialisation, are replaced by the owner's key.
- Configuration values are booleans, integers or strings. `zoom` and `listWidth` are integers, not floating-point numbers. Nested values inside `action.config` are not modelled. The reducer checks no types or ranges, and neither does the model.
- Malformed actions (missing fields) are outside the contract. Every constructor of the action datatype carries all its fields.
