/** The `repositories` reducer. The list of repositories is an array. A
    branch whose repository lookup misses, or a `STAR_NOTE` whose note is
    missing, returns `state` itself, which is how the store tells that
    nothing happened. Every other outcome is a fresh array (`state.slice()`),
    even a `REMOVE_REPOSITORY`, `REMOVE_FOLDER` or `UNSTAR_NOTE` whose key
    matches nothing. The repository objects are
    not copied: the branches edit the target object in place, so the old
    list sees the edit too. */
module RepositoriesReducer {
  import opened Lodash
  import opened Entities
  import opened Actions

  function RepoKey(r: Repository): string { r.key }

  /** `_.findIndex(repos, {key: k})`; `_.find` returns the element there:
      -1 when no repository has the key, otherwise the first that has it. */
  function Position(repos: seq<Repository>, k: string): (r: int)
    ensures -1 <= r < |repos|
    ensures r < 0 <==> forall j :: 0 <= j < |repos| ==> repos[j].key != k
    ensures 0 <= r ==> repos[r].key == k && forall j :: 0 <= j < r ==> repos[j].key != k
  {
    var ks := Keys(repos, RepoKey);
    var i := FindIndex(ks, k);
    assert forall j :: 0 <= j < |repos| ==> ks[j] == repos[j].key;
    assert 0 <= i ==> forall j :: 0 <= j < i ==> ks[..i][j] == ks[j];
    i
  }

  /** A fresh list holding `s`: `slice()`, then `push` or `splice` on the copy. */
  method NewList(s: seq<Repository>) returns (a: array<Repository>)
    ensures fresh(a) && a[..] == s
  {
    a := new Repository[|s|](i requires 0 <= i < |s| => s[i]);
  }

  /** The nested `forEach` of `INIT_ALL`: every note of every repository in
      `data` gets that repository as its back-reference. A repository listed
      twice is linked twice, to the same effect. */
  method LinkAll(data: seq<Repository>)
    modifies data
    ensures forall r :: r in data ==>
      r.View() == old(r.View()).(notes := WithBackReference(old(r.notes), r.key))
  {
    var i := 0;
    while i < |data|
      invariant 0 <= i <= |data|
      invariant forall r :: r in data[..i] ==>
        r.View() == old(r.View()).(notes := WithBackReference(old(r.notes), r.key))
      invariant forall r :: r in data[i..] && r !in data[..i] ==> r.View() == old(r.View())
    {
      var repo := data[i];
      WithBackReferenceIdempotent(old(repo.notes), repo.key);
      repo.LinkNotes();
      assert data[..i + 1] == data[..i] + [repo];
      i := i + 1;
    }
    assert data[..i] == data;
  }

  /** The outcome of a branch that finds nothing to act on: `state` itself
      is returned and no repository has changed. */
  twostate predicate ReturnedAsIs(state: array<Repository>, new next: array<Repository>)
    reads *
  {
    next == state && forall r :: r in old(state[..]) ==> unchanged(r)
  }

  /** The outcome of a branch that edits repository `i` in place: a fresh
      copy of the list, the object at `i` now reads `after`, and no other
      repository has changed. */
  twostate predicate EditedAt(state: array<Repository>, i: int, after: RepositoryView, new next: array<Repository>)
    requires 0 <= i < state.Length
    reads *
  {
    fresh(next) && next[..] == old(state[..]) && old(state[i]).View() == after &&
    forall r :: r in old(state[..]) && r != old(state[i]) ==> unchanged(r)
  }

  /** `INIT_ALL`: the new list is `data`, every note linked to its repository. */
  method OnInitAll(state: array<Repository>, data: seq<Repository>) returns (next: array<Repository>)
    modifies data
    ensures fresh(next) && next[..] == data
    ensures forall r :: r in data ==>
      r.View() == old(r.View()).(notes := WithBackReference(old(r.notes), r.key))
    ensures forall r, j :: r in next[..] && 0 <= j < |r.notes| ==> r.notes[j].repository == Some(r.key)
  {
    LinkAll(data);
    next := NewList(data);
  }

  /** `ADD_REPOSITORY`: appended at the end, without a duplicate-key check. */
  method OnAddRepository(state: array<Repository>, repo: Repository) returns (next: array<Repository>)
    ensures fresh(next) && next[..] == state[..] + [repo]
  {
    next := NewList(state[..] + [repo]);
  }

  /** `REMOVE_REPOSITORY`: a fresh list even when no key matches. */
  method OnRemoveRepository(state: array<Repository>, k: string) returns (next: array<Repository>)
    ensures fresh(next) && next[..] == RemoveFirst(state[..], RepoKey, k)
  {
    next := NewList(RemoveFirst(state[..], RepoKey, k));
  }

  /** `ADD_FOLDER` and `EDIT_FOLDER`, which run the same code. */
  method OnUpsertFolder(state: array<Repository>, k: string, folder: Folder) returns (next: array<Repository>)
    modifies state[..]
    ensures var i := Position(state[..], k);
      if i < 0 then ReturnedAsIs(state, next)
      else EditedAt(state, i, old(state[i].View()).(folders := Upsert(old(state[i].folders), FolderKey, folder)), next)
  {
    var i := Position(state[..], k);
    if i < 0 {
      next := state;
    } else {
      next := NewList(state[..]);
      state[i].UpsertFolder(folder);
    }
  }

  /** `REMOVE_FOLDER`: a fresh list even when no folder key matches. */
  method OnRemoveFolder(state: array<Repository>, k: string, folderKey: string) returns (next: array<Repository>)
    modifies state[..]
    ensures var i := Position(state[..], k);
      if i < 0 then ReturnedAsIs(state, next)
      else EditedAt(state, i, old(state[i].View()).(folders := RemoveFirst(old(state[i].folders), FolderKey, folderKey)), next)
  {
    var i := Position(state[..], k);
    if i < 0 {
      next := state;
    } else {
      next := NewList(state[..]);
      state[i].RemoveFolder(folderKey);
    }
  }

  /** `ADD_NOTE`: the note, linked to repository `k`, is appended. */
  method OnAddNote(state: array<Repository>, k: string, note: Note) returns (next: array<Repository>)
    modifies state[..]
    ensures var i := Position(state[..], k);
      if i < 0 then ReturnedAsIs(state, next)
      else EditedAt(state, i, old(state[i].View()).(notes := old(state[i].notes) + [note.(repository := Some(k))]), next)
  {
    var i := Position(state[..], k);
    if i < 0 {
      next := state;
    } else {
      next := NewList(state[..]);
      state[i].AddNote(note);
    }
  }

  /** `SAVE_NOTE`: the note, stamped with `now` and linked to repository `k`,
      replaces the first note with its key or is appended. */
  method OnSaveNote(state: array<Repository>, k: string, note: Note, now: int) returns (next: array<Repository>)
    modifies state[..]
    ensures var i := Position(state[..], k);
      if i < 0 then ReturnedAsIs(state, next)
      else EditedAt(state, i, old(state[i].View()).(notes :=
        Upsert(old(state[i].notes), NoteKey, note.(updatedAt := now, repository := Some(k)))), next)
  {
    var i := Position(state[..], k);
    if i < 0 {
      next := state;
    } else {
      next := NewList(state[..]);
      state[i].SaveNote(note, now);
    }
  }

  /** `STAR_NOTE`: only the key of one of the repository's notes is starred;
      otherwise `state` comes back. */
  method OnStarNote(state: array<Repository>, k: string, noteKey: string) returns (next: array<Repository>)
    modifies state[..]
    ensures var i := Position(state[..], k);
      if i < 0 || noteKey !in Keys(old(state[i].notes), NoteKey) then ReturnedAsIs(state, next)
      else EditedAt(state, i, old(state[i].View()).(starred := Star(old(state[i].starred), noteKey)), next)
  {
    var i := Position(state[..], k);
    if i < 0 {
      next := state;
    } else if FindIndex(Keys(state[i].notes, NoteKey), noteKey) > -1 {
      next := NewList(state[..]);
      state[i].StarNote(noteKey);
    } else {
      next := state;
    }
  }

  /** `UNSTAR_NOTE`: no check that the note exists. */
  method OnUnstarNote(state: array<Repository>, k: string, noteKey: string) returns (next: array<Repository>)
    modifies state[..]
    ensures var i := Position(state[..], k);
      if i < 0 then ReturnedAsIs(state, next)
      else EditedAt(state, i, old(state[i].View()).(starred := Unstar(old(state[i].starred), noteKey)), next)
  {
    var i := Position(state[..], k);
    if i < 0 {
      next := state;
    } else {
      next := NewList(state[..]);
      state[i].UnstarNote(noteKey);
    }
  }

  /** The reducer: one branch per action type, `state` for every other. */
  method Reduce(state: array<Repository>, action: Action, now: int) returns (next: array<Repository>)
    modifies state[..], if action.InitAll? then action.data else []
    ensures action.InitAll? ==>
      fresh(next) && next[..] == action.data &&
      (forall r :: r in action.data ==>
        r.View() == old(r.View()).(notes := WithBackReference(old(r.notes), r.key))) &&
      (forall r, j :: r in next[..] && 0 <= j < |r.notes| ==> r.notes[j].repository == Some(r.key)) &&
      (forall r :: r in state[..] && r !in action.data ==> unchanged(r))
    ensures action.AddRepository? ==>
      fresh(next) && next[..] == state[..] + [action.repo] && forall r :: r in state[..] ==> unchanged(r)
    ensures action.RemoveRepository? ==>
      fresh(next) && next[..] == RemoveFirst(state[..], RepoKey, action.key) &&
      forall r :: r in state[..] ==> unchanged(r)
    ensures action.AddFolder? || action.EditFolder? ==>
      var i := Position(state[..], action.key);
      if i < 0 then ReturnedAsIs(state, next)
      else EditedAt(state, i, old(state[i].View()).(folders := Upsert(old(state[i].folders), FolderKey, action.folder)), next)
    ensures action.RemoveFolder? ==>
      var i := Position(state[..], action.repository);
      if i < 0 then ReturnedAsIs(state, next)
      else EditedAt(state, i, old(state[i].View()).(folders := RemoveFirst(old(state[i].folders), FolderKey, action.folderKey)), next)
    ensures action.AddNote? ==>
      var i := Position(state[..], action.repository);
      if i < 0 then ReturnedAsIs(state, next)
      else EditedAt(state, i, old(state[i].View()).(notes :=
        old(state[i].notes) + [action.note.(repository := Some(action.repository))]), next)
    ensures action.SaveNote? ==>
      var i := Position(state[..], action.repository);
      if i < 0 then ReturnedAsIs(state, next)
      else EditedAt(state, i, old(state[i].View()).(notes :=
        Upsert(old(state[i].notes), NoteKey, action.note.(updatedAt := now, repository := Some(action.repository)))), next)
    ensures action.StarNote? ==>
      var i := Position(state[..], action.repository);
      if i < 0 || action.noteKey !in Keys(old(state[i].notes), NoteKey) then ReturnedAsIs(state, next)
      else EditedAt(state, i, old(state[i].View()).(starred := Star(old(state[i].starred), action.noteKey)), next)
    ensures action.UnstarNote? ==>
      var i := Position(state[..], action.repository);
      if i < 0 then ReturnedAsIs(state, next)
      else EditedAt(state, i, old(state[i].View()).(starred := Unstar(old(state[i].starred), action.noteKey)), next)
    ensures !action.ForRepositories() ==> ReturnedAsIs(state, next)
  {
    match action
    case InitAll(data) =>
      next := OnInitAll(state, data);
    case AddRepository(repo) =>
      next := OnAddRepository(state, repo);
    case RemoveRepository(k) =>
      next := OnRemoveRepository(state, k);
    case AddFolder(k, folder) =>
      next := OnUpsertFolder(state, k, folder);
    case EditFolder(k, folder) =>
      next := OnUpsertFolder(state, k, folder);
    case RemoveFolder(k, folderKey) =>
      next := OnRemoveFolder(state, k, folderKey);
    case AddNote(k, note) =>
      next := OnAddNote(state, k, note);
    case SaveNote(k, note) =>
      next := OnSaveNote(state, k, note, now);
    case StarNote(k, noteKey) =>
      next := OnStarNote(state, k, noteKey);
    case UnstarNote(k, noteKey) =>
      next := OnUnstarNote(state, k, noteKey);
    case _ =>
      next := state;
  }
}
