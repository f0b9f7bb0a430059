/** A run of the store from an empty list, written against the reducer's
    contract only: load one repository, add a folder and a note, star the
    note twice, unstar it, remove the repository. One method per dispatch. */
module Scenario {
  import opened Lodash
  import opened Entities
  import opened Actions
  import RepositoriesReducer

  const Work := Folder("fo1", "Work", "")
  const N1 := Note("n1", "T", "", "fo1", [], 0, 0, None)

  /** The list holds exactly `r1`, whose key is "r1". */
  ghost predicate HoldsOnly(state: array<Repository>, r1: Repository)
    reads state
  {
    state[..] == [r1] && r1.key == "r1"
  }

  lemma FindsR1(state: array<Repository>, r1: Repository)
    requires HoldsOnly(state, r1)
    ensures RepositoriesReducer.Position(state[..], "r1") == 0
  {
    assert Keys(state[..], RepositoriesReducer.RepoKey) == ["r1"];
  }

  method Load(now: int) returns (state: array<Repository>, r1: Repository)
    ensures fresh(r1) && HoldsOnly(state, r1)
    ensures r1.folders == [] && r1.notes == [] && r1.starred == []
  {
    state := RepositoriesReducer.NewList([]);
    r1 := new Repository("r1", "Notes", "/notes", Idle, [], [], []);
    state := RepositoriesReducer.Reduce(state, InitAll([r1]), now);
  }

  method AddWorkFolder(state: array<Repository>, r1: Repository, now: int) returns (next: array<Repository>)
    requires HoldsOnly(state, r1) && r1.folders == []
    modifies r1
    ensures HoldsOnly(next, r1)
    ensures r1.folders == [Work] && r1.notes == old(r1.notes) && r1.starred == old(r1.starred)
  {
    FindsR1(state, r1);
    next := RepositoriesReducer.Reduce(state, AddFolder("r1", Work), now);
  }

  method AddFirstNote(state: array<Repository>, r1: Repository, now: int) returns (next: array<Repository>)
    requires HoldsOnly(state, r1) && r1.notes == []
    modifies r1
    ensures HoldsOnly(next, r1)
    ensures r1.notes == [N1.(repository := Some("r1"))] && r1.starred == old(r1.starred)
  {
    FindsR1(state, r1);
    next := RepositoriesReducer.Reduce(state, AddNote("r1", N1), now);
  }

  method StarFirstNote(state: array<Repository>, r1: Repository, now: int) returns (next: array<Repository>)
    requires HoldsOnly(state, r1) && Keys(r1.notes, NoteKey) == ["n1"] && NoDup(r1.starred)
    modifies r1
    ensures HoldsOnly(next, r1) && next != state
    ensures r1.starred == if "n1" in old(r1.starred) then old(r1.starred) else old(r1.starred) + ["n1"]
    ensures r1.notes == old(r1.notes)
  {
    FindsR1(state, r1);
    StarOfDistinct(r1.starred, "n1");
    next := RepositoriesReducer.Reduce(state, StarNote("r1", "n1"), now);
  }

  method UnstarFirstNote(state: array<Repository>, r1: Repository, now: int) returns (next: array<Repository>)
    requires HoldsOnly(state, r1) && r1.starred == ["n1"]
    modifies r1
    ensures HoldsOnly(next, r1) && r1.starred == []
  {
    FindsR1(state, r1);
    UnstarOfDistinct(r1.starred, "n1");
    next := RepositoriesReducer.Reduce(state, UnstarNote("r1", "n1"), now);
  }

  method RemoveR1(state: array<Repository>, r1: Repository, now: int) returns (next: array<Repository>)
    requires HoldsOnly(state, r1)
    modifies r1
    ensures next[..] == []
  {
    FindsR1(state, r1);
    next := RepositoriesReducer.Reduce(state, RemoveRepository("r1"), now);
  }

  method EndToEnd(now: int)
  {
    var state, r1 := Load(now);
    state := AddWorkFolder(state, r1, now);
    assert r1.folders == [Work];
    state := AddFirstNote(state, r1, now);
    assert r1.notes[0].repository == Some("r1");
    assert Keys(r1.notes, NoteKey) == ["n1"];
    state := StarFirstNote(state, r1, now);
    assert r1.starred == ["n1"];
    state := StarFirstNote(state, r1, now);
    assert r1.starred == ["n1"];
    state := UnstarFirstNote(state, r1, now);
    assert r1.starred == [];
    state := RemoveR1(state, r1, now);
    assert state[..] == [];
  }
}
