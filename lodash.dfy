/** The lodash helpers the reducers rely on (`_.findIndex`, `_.find`,
    `_.uniq`, `Array.prototype.filter`) and the two keyed-list edits the
    reducers build from them: upsert by key (find, then `splice(i, 1, x)` or
    `push(x)`) and excision of the first key match (find, then `splice(i, 1)`).
    Collections are sequences; the key of an element is read by a function
    `key: T -> K`, the analogue of lodash's `{key: k}` matcher. */
module Lodash {

  /** The keys of the elements of `s`, in order. */
  function Keys<T, K>(s: seq<T>, key: T -> K): seq<K>
  {
    seq(|s|, i requires 0 <= i < |s| => key(s[i]))
  }

  /** No element occurs twice. */
  ghost predicate NoDup<T>(s: seq<T>)
  {
    forall i, j :: 0 <= i < j < |s| ==> s[i] != s[j]
  }

  /** `_.findIndex`: the index of the first occurrence of `k`, or -1. */
  function FindIndex<K(==)>(ks: seq<K>, k: K): (r: int)
    ensures -1 <= r < |ks|
    ensures r < 0 <==> k !in ks
    ensures 0 <= r ==> ks[r] == k && k !in ks[..r]
  {
    if |ks| == 0 then -1
    else if ks[0] == k then 0
    else
      var r := FindIndex(ks[1..], k);
      assert 0 <= r ==> ks[..r + 1] == [ks[0]] + ks[1..][..r];
      if r < 0 then -1 else r + 1
  }

  /** A first occurrence is determined by the two facts that define it. */
  lemma FindIndexIsFirst<K>(ks: seq<K>, k: K, i: int)
    requires 0 <= i < |ks| && ks[i] == k && k !in ks[..i]
    ensures FindIndex(ks, k) == i
  {
    var r := FindIndex(ks, k);
    assert forall j :: 0 <= j < i ==> ks[..i][j] == ks[j];
    assert forall j :: 0 <= j < r ==> ks[..r][j] == ks[j];
  }

  /** Appending an element does not move the first occurrence of anything
      that already occurred, and a new element is found at the end. */
  lemma FindIndexAppend<K>(ks: seq<K>, y: K, k: K)
    requires k in ks + [y]
    ensures FindIndex(ks + [y], k) == if k in ks then FindIndex(ks, k) else |ks|
  {
    var s := ks + [y];
    if k in ks {
      var i := FindIndex(ks, k);
      assert s[..i] == ks[..i];
      FindIndexIsFirst(s, k, i);
    } else {
      assert s[..|ks|] == ks;
      FindIndexIsFirst(s, k, |ks|);
    }
  }

  /** `_.uniq`: the elements of `s` without repetitions, each kept at its
      first occurrence (lodash walks `s` forward and pushes each element not
      seen before). */
  function Uniq<T(==)>(s: seq<T>): (r: seq<T>)
    ensures NoDup(r)
    ensures forall i :: 0 <= i < |r| ==> r[i] in s
    ensures forall i :: 0 <= i < |s| ==> s[i] in r
    ensures |r| <= |s|
  {
    if |s| == 0 then []
    else
      var u := Uniq(s[..|s| - 1]);
      if s[|s| - 1] in u then u else u + [s[|s| - 1]]
  }

  /** One step of `_.uniq`, as lodash performs it. */
  lemma UniqAppend<T>(s: seq<T>, y: T)
    ensures Uniq(s + [y]) == if y in s then Uniq(s) else Uniq(s) + [y]
  {
    assert (s + [y])[..|s|] == s;
  }

  /** The result of `_.uniq` lists the distinct elements in the order of
      their first occurrences in the input. */
  lemma {:induction false} UniqKeepsFirstOccurrenceOrder<T>(s: seq<T>)
    ensures forall i, j :: 0 <= i < j < |Uniq(s)| ==>
      FindIndex(s, Uniq(s)[i]) < FindIndex(s, Uniq(s)[j])
  {
    if |s| > 0 {
      var p, y := s[..|s| - 1], s[|s| - 1];
      assert s == p + [y];
      UniqKeepsFirstOccurrenceOrder(p);
      UniqAppend(p, y);
      var u, r := Uniq(p), Uniq(s);
      forall i, j | 0 <= i < j < |r|
        ensures FindIndex(s, r[i]) < FindIndex(s, r[j])
      {
        FindIndexAppend(p, y, r[i]);
        FindIndexAppend(p, y, r[j]);
        if j == |u| {
          assert r[i] in u;
        }
      }
    }
  }

  /** `_.uniq` leaves a list without repetitions as it is, so it is
      idempotent. */
  lemma {:induction false} UniqOfNoDup<T>(s: seq<T>)
    requires NoDup(s)
    ensures Uniq(s) == s
  {
    if |s| > 0 {
      var p, y := s[..|s| - 1], s[|s| - 1];
      assert s == p + [y];
      assert NoDup(p);
      UniqOfNoDup(p);
      UniqAppend(p, y);
    }
  }

  /** `s.filter((x) => x !== v)`: every occurrence of `v` is dropped and the
      other elements keep their order. */
  function Without<T(==)>(s: seq<T>, v: T): (r: seq<T>)
    ensures v !in r
    ensures forall i :: 0 <= i < |r| ==> r[i] in s
    ensures forall i :: 0 <= i < |s| && s[i] != v ==> s[i] in r
    ensures v !in s ==> r == s
    ensures |r| <= |s|
  {
    if |s| == 0 then []
    else
      var w := Without(s[..|s| - 1], v);
      assert v !in s ==> s == s[..|s| - 1] + [s[|s| - 1]];
      if s[|s| - 1] == v then w else w + [s[|s| - 1]]
  }

  /** The filter keeps every occurrence of every other element. */
  lemma {:induction false} WithoutCounts<T>(s: seq<T>, v: T)
    ensures multiset(Without(s, v)) == multiset(s)[v := 0]
  {
    if |s| > 0 {
      var p, y := s[..|s| - 1], s[|s| - 1];
      assert s == p + [y];
      WithoutCounts(p, v);
    }
  }

  /** The positions in `s` whose element is not `v`, in increasing order. */
  function KeptPositions<T(==)>(s: seq<T>, v: T): (ps: seq<int>)
    ensures forall i :: 0 <= i < |ps| ==> 0 <= ps[i] < |s| && s[ps[i]] != v
    ensures forall i, j :: 0 <= i < j < |ps| ==> ps[i] < ps[j]
    ensures forall j :: 0 <= j < |s| && s[j] != v ==> j in ps
  {
    if |s| == 0 then []
    else
      var p, y := s[..|s| - 1], s[|s| - 1];
      var qs := KeptPositions(p, v);
      assert forall i :: 0 <= i < |qs| ==> s[qs[i]] == p[qs[i]];
      if y == v then qs else qs + [|s| - 1]
  }

  /** The filter keeps the other elements in their order, each occurrence
      once: its i-th element is the element of `s` at the i-th kept position. */
  lemma {:induction false} WithoutKeepsOrder<T>(s: seq<T>, v: T)
    ensures |Without(s, v)| == |KeptPositions(s, v)|
    ensures forall i :: 0 <= i < |Without(s, v)| ==> Without(s, v)[i] == s[KeptPositions(s, v)[i]]
  {
    if |s| > 0 {
      var p, y := s[..|s| - 1], s[|s| - 1];
      assert s == p + [y];
      WithoutKeepsOrder(p, v);
      WithoutAppend(p, y, v);
      var qs := KeptPositions(p, v);
      assert forall i :: 0 <= i < |qs| ==> s[qs[i]] == p[qs[i]];
    }
  }

  lemma WithoutAppend<T>(s: seq<T>, y: T, v: T)
    ensures Without(s + [y], v) == if y == v then Without(s, v) else Without(s, v) + [y]
  {
    assert (s + [y])[..|s|] == s;
  }

  /** Filtering out `v` and deduplicating commute: the unstarred list is the
      deduplicated list with `v` taken out, every other key in the position of
      its first occurrence. */
  lemma {:induction false} UniqWithoutCommute<T>(s: seq<T>, v: T)
    ensures Uniq(Without(s, v)) == Without(Uniq(s), v)
  {
    if |s| > 0 {
      var p, y := s[..|s| - 1], s[|s| - 1];
      assert s == p + [y];
      UniqWithoutCommute(p, v);
      WithoutAppend(p, y, v);
      UniqAppend(p, y);
      if y == v {
        WithoutAppend(Uniq(p), y, v);
      } else {
        UniqAppend(Without(p, v), y);
        WithoutAppend(Uniq(p), y, v);
      }
    }
  }

  /** Upsert by key, as `ADD_FOLDER`, `EDIT_FOLDER` and `SAVE_NOTE` do it:
      `x` replaces the first element with its key, or is appended when no
      element has that key. */
  function Upsert<T, K(==)>(s: seq<T>, key: T -> K, x: T): (r: seq<T>)
    ensures Keys(r, key) ==
      if key(x) in Keys(s, key) then Keys(s, key) else Keys(s, key) + [key(x)]
    ensures key(x) in Keys(r, key) && r[FindIndex(Keys(r, key), key(x))] == x
    ensures forall j :: 0 <= j < |s| && j != FindIndex(Keys(s, key), key(x)) ==> r[j] == s[j]
  {
    var i := FindIndex(Keys(s, key), key(x));
    if i < 0 then s + [x] else s[i := x]
  }

  /** Excision of the first element whose key is `k` (`splice(i, 1)` after
      `_.findIndex`); without such an element nothing changes. */
  function RemoveFirst<T, K(==)>(s: seq<T>, key: T -> K, k: K): (r: seq<T>)
    ensures k !in Keys(s, key) ==> r == s
    ensures k in Keys(s, key) ==>
      var i := FindIndex(Keys(s, key), k);
      |r| == |s| - 1 && r[..i] == s[..i] && r[i..] == s[i + 1..]
  {
    var i := FindIndex(Keys(s, key), k);
    if i < 0 then s else s[..i] + s[i + 1..]
  }

  lemma NoDupAppend<T>(s: seq<T>, x: T)
    requires NoDup(s) && x !in s
    ensures NoDup(s + [x])
  {
  }

  /** An upsert never introduces a second element with the same key. */
  lemma UpsertKeepsKeysDistinct<T, K>(s: seq<T>, key: T -> K, x: T)
    requires NoDup(Keys(s, key))
    ensures NoDup(Keys(Upsert(s, key, x), key))
  {
    if key(x) !in Keys(s, key) {
      NoDupAppend(Keys(s, key), key(x));
    }
  }

  /** The upserts of a series of actions, applied one after the other. */
  function UpsertAll<T, K(==)>(s: seq<T>, key: T -> K, xs: seq<T>): seq<T>
    decreases |xs|
  {
    if |xs| == 0 then s else UpsertAll(Upsert(s, key, xs[0]), key, xs[1..])
  }

  /** Pairwise-distinct keys stay distinct under any series of upserts. */
  lemma {:induction false} UpsertAllKeepsKeysDistinct<T, K>(s: seq<T>, key: T -> K, xs: seq<T>)
    requires NoDup(Keys(s, key))
    ensures NoDup(Keys(UpsertAll(s, key, xs), key))
    decreases |xs|
  {
    if |xs| > 0 {
      UpsertKeepsKeysDistinct(s, key, xs[0]);
      UpsertAllKeepsKeysDistinct(Upsert(s, key, xs[0]), key, xs[1..]);
    }
  }

  /** With distinct keys, upserting a record whose key sits at position `p`
      leaves exactly one element with that key, the new record, at `p`, and
      the length and every other element as they were. */
  lemma UpsertReplacesInPlace<T, K>(s: seq<T>, key: T -> K, x: T, p: int)
    requires NoDup(Keys(s, key))
    requires 0 <= p < |s| && key(s[p]) == key(x)
    ensures |Upsert(s, key, x)| == |s|
    ensures Upsert(s, key, x)[p] == x
    ensures forall j :: 0 <= j < |s| && j != p ==> Upsert(s, key, x)[j] == s[j]
    ensures forall j :: 0 <= j < |s| && key(Upsert(s, key, x)[j]) == key(x) ==> j == p
  {
    var ks, r := Keys(s, key), Upsert(s, key, x);
    assert ks[p] == key(x);
    FindIndexIsFirst(ks, key(x), p);
    forall j | 0 <= j < |s| && key(r[j]) == key(x)
      ensures j == p
    {
      assert Keys(r, key)[j] == ks[j];
    }
  }

  /** Where each remaining element came from: positions before the first
      match keep their index, the later ones move down by one. */
  lemma RemoveFirstShifts<T, K>(s: seq<T>, key: T -> K, k: K, i: int)
    requires i == FindIndex(Keys(s, key), k) && 0 <= i
    ensures forall j :: 0 <= j < |RemoveFirst(s, key, k)| ==>
      RemoveFirst(s, key, k)[j] == s[if j < i then j else j + 1]
  {
  }

  /** With distinct keys, removing `k` leaves no element with key `k` and
      keeps the keys distinct. */
  lemma RemoveFirstOfDistinct<T, K>(s: seq<T>, key: T -> K, k: K)
    requires NoDup(Keys(s, key))
    ensures k !in Keys(RemoveFirst(s, key, k), key)
    ensures NoDup(Keys(RemoveFirst(s, key, k), key))
  {
    var ks := Keys(s, key);
    var i := FindIndex(ks, k);
    if 0 <= i {
      var r := RemoveFirst(s, key, k);
      RemoveFirstShifts(s, key, k, i);
      var kr := Keys(r, key);
      forall a | 0 <= a < |kr|
        ensures kr[a] == ks[if a < i then a else a + 1]
      {
      }
      forall a, b | 0 <= a < b < |kr|
        ensures kr[a] != kr[b]
      {
      }
      forall a | 0 <= a < |kr|
        ensures kr[a] != k
      {
        assert ks[i] == k;
      }
    }
  }

  /** Removing `k` keeps every element whose key is not `k`. */
  lemma RemoveFirstKeepsOthers<T, K>(s: seq<T>, key: T -> K, k: K)
    ensures forall j :: 0 <= j < |s| && key(s[j]) != k ==> s[j] in RemoveFirst(s, key, k)
  {
    var i := FindIndex(Keys(s, key), k);
    if 0 <= i {
      var r := RemoveFirst(s, key, k);
      RemoveFirstShifts(s, key, k, i);
      forall j | 0 <= j < |s| && key(s[j]) != k
        ensures s[j] in r
      {
        assert Keys(s, key)[j] == key(s[j]);
        if j < i { assert r[j] == s[j]; } else { assert r[j - 1] == s[j]; }
      }
    }
  }

  /** Removing by the key of a freshly appended element undoes the append. */
  lemma RemoveFirstUndoesAppend<T, K>(s: seq<T>, key: T -> K, x: T)
    requires key(x) !in Keys(s, key)
    ensures RemoveFirst(s + [x], key, key(x)) == s
  {
    var ks := Keys(s + [x], key);
    assert ks == Keys(s, key) + [key(x)];
    FindIndexAppend(Keys(s, key), key(x), key(x));
  }

  /** An element of a list without repetitions occurs exactly once. */
  lemma {:induction false} NoDupOccursOnce<T>(s: seq<T>, x: T)
    requires NoDup(s) && x in s
    ensures multiset(s)[x] == 1
  {
    var p, y := s[..|s| - 1], s[|s| - 1];
    assert s == p + [y];
    assert NoDup(p);
    if x == y {
      assert x !in p;
    } else {
      NoDupOccursOnce(p, x);
    }
  }
}
