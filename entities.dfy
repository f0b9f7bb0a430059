/** The repository / folder / note data model of the store, and the in-place
    edits the `repositories` reducer makes to one repository object. */
module Entities {
  import opened Lodash

  datatype Option<T> = None | Some(value: T)

  /** Loading status of a repository; the reducer only carries it along. */
  datatype Status = Idle | Loading | Ready | Error

  datatype Folder = Folder(key: string, name: string, color: string)

  /** A note. `repository` stands for the `_repository` back-reference: the
      key of the owning repository instead of a pointer to it. Timestamps are
      milliseconds since the epoch. */
  datatype Note = Note(
    key: string,
    title: string,
    content: string,
    folder: string,
    tags: seq<string>,
    createdAt: int,
    updatedAt: int,
    repository: Option<string>)

  function FolderKey(f: Folder): string { f.key }

  function NoteKey(n: Note): string { n.key }

  /** The notes after `note._repository = repo` has been run on each of them. */
  function WithBackReference(notes: seq<Note>, owner: string): (r: seq<Note>)
    ensures |r| == |notes|
    ensures forall j :: 0 <= j < |r| ==> r[j].repository == Some(owner)
    ensures forall j :: 0 <= j < |r| ==> r[j].(repository := notes[j].repository) == notes[j]
  {
    seq(|notes|, j requires 0 <= j < |notes| => notes[j].(repository := Some(owner)))
  }

  /** Linking twice is linking once. */
  lemma WithBackReferenceIdempotent(notes: seq<Note>, owner: string)
    ensures WithBackReference(WithBackReference(notes, owner), owner) == WithBackReference(notes, owner)
  {
  }

  /** `starred.push(k)` followed by `_.uniq`. */
  function Star(starred: seq<string>, k: string): (r: seq<string>)
    ensures k in r && NoDup(r)
    ensures forall i :: 0 <= i < |starred| ==> starred[i] in r
    ensures forall i :: 0 <= i < |r| ==> r[i] in starred || r[i] == k
  {
    Uniq(starred + [k])
  }

  /** `starred.filter((s) => s !== k)` followed by `_.uniq`. */
  function Unstar(starred: seq<string>, k: string): (r: seq<string>)
    ensures k !in r && NoDup(r)
    ensures forall i :: 0 <= i < |starred| && starred[i] != k ==> starred[i] in r
    ensures forall i :: 0 <= i < |r| ==> r[i] in starred
  {
    Uniq(Without(starred, k))
  }

  /** After a star the key occurs exactly once in `starred`. */
  lemma StarOccursOnce(starred: seq<string>, k: string)
    ensures multiset(Star(starred, k))[k] == 1
  {
    NoDupOccursOnce(Star(starred, k), k);
  }

  /** Starring twice is starring once. */
  lemma StarIdempotent(starred: seq<string>, k: string)
    ensures Star(Star(starred, k), k) == Star(starred, k)
  {
    var u := Star(starred, k);
    UniqAppend(u, k);
    UniqOfNoDup(u);
  }

  /** On a starred list without repetitions, starring is set insertion at
      the end: a key already there changes nothing. */
  lemma StarOfDistinct(starred: seq<string>, k: string)
    requires NoDup(starred)
    ensures Star(starred, k) == if k in starred then starred else starred + [k]
  {
    UniqAppend(starred, k);
    UniqOfNoDup(starred);
  }

  /** Unstarring is deduplication with `k` taken out afterwards; on a list
      without repetitions it only drops `k`, and an absent key changes
      nothing at all. */
  lemma UnstarOfDistinct(starred: seq<string>, k: string)
    ensures Unstar(starred, k) == Without(Uniq(starred), k)
    ensures NoDup(starred) ==> Unstar(starred, k) == Without(starred, k)
    ensures NoDup(starred) && k !in starred ==> Unstar(starred, k) == starred
  {
    UniqWithoutCommute(starred, k);
    if NoDup(starred) {
      UniqOfNoDup(starred);
    }
  }

  /** Unstarring a list with one more key at the end. */
  lemma UnstarAppend(p: seq<string>, y: string, k: string)
    ensures Unstar(p + [y], k) == if y == k || y in p then Unstar(p, k) else Unstar(p, k) + [y]
  {
    WithoutAppend(p, y, k);
    if y != k {
      UniqAppend(Without(p, k), y);
      if y in p {
        var i :| 0 <= i < |p| && p[i] == y;
        assert y in Without(p, k);
      }
    }
  }

  /** The keys left by an unstar appear in the order of their first
      occurrences in the old `starred`. */
  lemma {:induction false} UnstarKeepsFirstOccurrenceOrder(starred: seq<string>, k: string)
    ensures forall i, j :: 0 <= i < j < |Unstar(starred, k)| ==>
      FindIndex(starred, Unstar(starred, k)[i]) < FindIndex(starred, Unstar(starred, k)[j])
  {
    if |starred| > 0 {
      var p, y := starred[..|starred| - 1], starred[|starred| - 1];
      assert starred == p + [y];
      UnstarKeepsFirstOccurrenceOrder(p, k);
      UnstarAppend(p, y, k);
      var u, r := Unstar(p, k), Unstar(starred, k);
      forall i, j | 0 <= i < j < |r|
        ensures FindIndex(starred, r[i]) < FindIndex(starred, r[j])
      {
        FindIndexAppend(p, y, r[i]);
        FindIndexAppend(p, y, r[j]);
        if j == |u| {
          assert r[i] in u;
        }
      }
    }
  }

  /** A repository's record as a value, for stating what an edit changed. */
  datatype RepositoryView = RepositoryView(
    key: string,
    name: string,
    path: string,
    status: Status,
    folders: seq<Folder>,
    notes: seq<Note>,
    starred: seq<string>)

  /** A repository object. The reducer keeps references to these objects in
      its list and edits `folders`, `notes` and `starred` in place, so an
      edit is seen through every list that holds the object. */
  class Repository {
    const key: string
    var name: string
    var path: string
    var status: Status
    var folders: seq<Folder>
    var notes: seq<Note>
    var starred: seq<string>

    constructor (key: string, name: string, path: string, status: Status,
                 folders: seq<Folder>, notes: seq<Note>, starred: seq<string>)
      ensures View() == RepositoryView(key, name, path, status, folders, notes, starred)
    {
      this.key := key;
      this.name := name;
      this.path := path;
      this.status := status;
      this.folders := folders;
      this.notes := notes;
      this.starred := starred;
    }

    ghost function View(): RepositoryView
      reads this
    {
      RepositoryView(key, name, path, status, folders, notes, starred)
    }

    /** `repo.notes.forEach((note) => { note._repository = repo })`. */
    method LinkNotes()
      modifies this`notes
      ensures notes == WithBackReference(old(notes), key)
    {
      var i := 0;
      while i < |notes|
        invariant 0 <= i <= |notes| == |old(notes)|
        invariant forall j :: 0 <= j < i ==> notes[j] == old(notes)[j].(repository := Some(key))
        invariant forall j :: i <= j < |notes| ==> notes[j] == old(notes)[j]
      {
        notes := notes[i := notes[i].(repository := Some(key))];
        i := i + 1;
      }
    }

    /** The folder edit of `ADD_FOLDER` and `EDIT_FOLDER`: `splice(i, 1,
        folder)` at the first folder with the same key, else `push(folder)`. */
    method UpsertFolder(folder: Folder)
      modifies this`folders
      ensures folders == Upsert(old(folders), FolderKey, folder)
    {
      var i := FindIndex(Keys(folders, FolderKey), folder.key);
      if i < 0 {
        folders := folders + [folder];
      } else {
        folders := folders[i := folder];
      }
    }

    /** The folder edit of `REMOVE_FOLDER`: `splice(i, 1)` at the first folder
        with key `folderKey`, if any. */
    method RemoveFolder(folderKey: string)
      modifies this`folders
      ensures folders == RemoveFirst(old(folders), FolderKey, folderKey)
    {
      var i := FindIndex(Keys(folders, FolderKey), folderKey);
      if i > -1 {
        folders := folders[..i] + folders[i + 1..];
      }
    }

    /** The note edit of `ADD_NOTE`: link the note to this repository, then
        `push` it. */
    method AddNote(note: Note)
      modifies this`notes
      ensures notes == old(notes) + [note.(repository := Some(key))]
    {
      notes := notes + [note.(repository := Some(key))];
    }

    /** The note edit of `SAVE_NOTE`: stamp `updatedAt`, link the note to this
        repository, then replace the first note with its key or `push` it. */
    method SaveNote(note: Note, now: int)
      modifies this`notes
      ensures notes == Upsert(old(notes), NoteKey, note.(updatedAt := now, repository := Some(key)))
    {
      var i := FindIndex(Keys(notes, NoteKey), note.key);
      var saved := note.(updatedAt := now, repository := Some(key));
      if i > -1 {
        notes := notes[i := saved];
      } else {
        notes := notes + [saved];
      }
    }

    /** The starred edit of `STAR_NOTE` (its note-existence guard is the
        reducer's). */
    method StarNote(noteKey: string)
      modifies this`starred
      ensures starred == Star(old(starred), noteKey)
    {
      starred := Uniq(starred + [noteKey]);
    }

    /** The starred edit of `UNSTAR_NOTE`. */
    method UnstarNote(noteKey: string)
      modifies this`starred
      ensures starred == Unstar(old(starred), noteKey)
    {
      starred := Uniq(Without(starred, noteKey));
    }
  }
}
