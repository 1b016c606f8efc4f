/** The platform's URLSearchParams container, seen as what it is to this library:
    an ordered multi-map, that is a sequence of (name, value) entries in which a
    name may occur any number of times. Percent-encoding is the container's own
    business and is not modelled; names and values here are already decoded.
    Names are strings in the library; the definitions and lemmas here only compare
    names, so they are stated for any name type `K`. */
module SearchParams {

  datatype Option<T> = None | Some(value: T)

  /** One entry of the multi-map, as `entries()` yields it: (name, value). */
  type Entry<K> = (K, string)

  /** The names that occur in `ps`. */
  function Keys<K>(ps: seq<Entry<K>>): set<K>
  {
    set i | 0 <= i < |ps| :: ps[i].0
  }

  /** `getAll(k)`: the values stored under `k`, in entry order. */
  function GetAll<K(==)>(ps: seq<Entry<K>>, k: K): seq<string>
  {
    if ps == [] then []
    else
      var rest := GetAll(ps[..|ps| - 1], k);
      if ps[|ps| - 1].0 == k then rest + [ps[|ps| - 1].1] else rest
  }

  /** `getAll` finds values for exactly the names that occur. */
  lemma {:induction false} GetAllEmpty<K>(ps: seq<Entry<K>>, k: K)
    ensures GetAll(ps, k) == [] <==> k !in Keys(ps)
  {
    if ps != [] {
      var s, e := ps[..|ps| - 1], ps[|ps| - 1];
      assert ps == s + [e];
      GetAllEmpty(s, k);
      KeysSnoc(s, e);
    }
  }

  /** The position of the last entry named `k`, or -1 when there is none. */
  function LastIndex<K(==)>(ps: seq<Entry<K>>, k: K): (r: int)
    ensures -1 <= r < |ps|
    ensures r >= 0 ==> ps[r].0 == k
    ensures forall j :: r < j < |ps| ==> ps[j].0 != k
  {
    if ps == [] then -1
    else if ps[|ps| - 1].0 == k then |ps| - 1
    else LastIndex(ps[..|ps| - 1], k)
  }

  /** The value of the last entry named `k`, if there is one. */
  function LastValue<K(==)>(ps: seq<Entry<K>>, k: K): (r: Option<string>)
    ensures r.Some? <==> k in Keys(ps)
  {
    var i := LastIndex(ps, k);
    if i < 0 then None else Some(ps[i].1)
  }

  lemma KeysSnoc<K>(s: seq<Entry<K>>, e: Entry<K>)
    ensures Keys(s + [e]) == Keys(s) + {e.0}
  {
    var t := s + [e];
    forall k | k in Keys(t) ensures k in Keys(s) + {e.0} {
      var i :| 0 <= i < |t| && t[i].0 == k;
      if i < |s| { assert s[i] == t[i]; }
    }
    forall k | k in Keys(s) ensures k in Keys(t) {
      var i :| 0 <= i < |s| && s[i].0 == k;
      assert t[i] == s[i];
    }
    assert t[|s|] == e;
  }

  /** Appending an entry makes it the last one of its name and of no other. */
  lemma LastIndexSnoc<K>(s: seq<Entry<K>>, e: Entry<K>, k: K)
    ensures LastIndex(s + [e], k) == if e.0 == k then |s| else LastIndex(s, k)
  {
    assert (s + [e])[..|s|] == s;
  }

  lemma {:induction false} GetAllAppend<K>(a: seq<Entry<K>>, b: seq<Entry<K>>, k: K)
    ensures GetAll(a + b, k) == GetAll(a, k) + GetAll(b, k)
    decreases |b|
  {
    if b == [] {
      assert a + b == a;
    } else {
      var b' := b[..|b| - 1];
      assert (a + b)[..|a + b| - 1] == a + b';
      assert (a + b)[|a + b| - 1] == b[|b| - 1];
      GetAllAppend(a, b', k);
    }
  }

  /** Last-occurrence lookup is the last element of `getAll`. */
  lemma {:induction false} LastValueIsLastOfGetAll<K>(ps: seq<Entry<K>>, k: K)
    ensures var all := GetAll(ps, k);
      LastValue(ps, k) == if all == [] then None else Some(all[|all| - 1])
  {
    if ps != [] {
      LastValueIsLastOfGetAll(ps[..|ps| - 1], k);
    }
  }

  /** Lists of entries appended one after the other. */
  function Concat<K>(bs: seq<seq<Entry<K>>>): seq<Entry<K>>
  {
    if bs == [] then [] else Concat(bs[..|bs| - 1]) + bs[|bs| - 1]
  }

  lemma ConcatTakeSnoc<K>(bs: seq<seq<Entry<K>>>, i: nat)
    requires i < |bs|
    ensures Concat(bs[..i + 1]) == Concat(bs[..i]) + bs[i]
  {
    assert bs[..i + 1][..i] == bs[..i];
  }

  /** A name that no list has gets nothing from their concatenation. */
  lemma {:induction false} GetAllConcatNone<K>(bs: seq<seq<Entry<K>>>, k: K)
    requires forall j :: 0 <= j < |bs| ==> GetAll(bs[j], k) == []
    ensures GetAll(Concat(bs), k) == []
  {
    if bs != [] {
      var init := bs[..|bs| - 1];
      GetAllConcatNone(init, k);
      GetAllAppend(Concat(init), bs[|bs| - 1], k);
    }
  }

  /** A name that only the list `bs[i]` has gets exactly that list's values. */
  lemma {:induction false} GetAllConcatOne<K>(bs: seq<seq<Entry<K>>>, i: nat, k: K)
    requires i < |bs|
    requires forall j :: 0 <= j < |bs| && j != i ==> GetAll(bs[j], k) == []
    ensures GetAll(Concat(bs), k) == GetAll(bs[i], k)
  {
    var init, last := bs[..|bs| - 1], bs[|bs| - 1];
    GetAllAppend(Concat(init), last, k);
    if i < |bs| - 1 {
      GetAllConcatOne(init, i, k);
      assert GetAll(last, k) == [];
      assert GetAll(Concat(bs), k) == GetAll(Concat(init), k);
    } else {
      GetAllConcatNone(init, k);
      assert GetAll(Concat(bs), k) == GetAll(last, k);
    }
  }

  /** When every entry of `bs[j]` has a name of rank `j`, the concatenation
      lists its entries by non-decreasing rank. */
  lemma {:induction false} ConcatGrouped<K>(bs: seq<seq<Entry<K>>>, rank: K -> nat, a: nat, b: nat)
    requires forall j, t :: 0 <= j < |bs| && 0 <= t < |bs[j]| ==> rank(bs[j][t].0) == j
    requires a <= b < |Concat(bs)|
    ensures rank(Concat(bs)[a].0) <= rank(Concat(bs)[b].0) < |bs|
  {
    var init, last := bs[..|bs| - 1], bs[|bs| - 1];
    var before := Concat(init);
    var m := |before|;
    if b < m {
      ConcatGrouped(init, rank, a, b);
    } else if a < m {
      ConcatGrouped(init, rank, a, a);
      assert Concat(bs)[b] == last[b - m];
    } else {
      assert Concat(bs)[a] == last[a - m];
      assert Concat(bs)[b] == last[b - m];
    }
  }
}
