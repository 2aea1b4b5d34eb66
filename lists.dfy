/** The Python list and dict behaviour the core relies on: `list.remove`,
    duplicate-free lists, and the insertion order of a dict (which decides
    the order in which the registry saves and searches its entities). */
module Lists {

  predicate NoDuplicates<T(==)>(s: seq<T>)
  {
    forall i, j | 0 <= i < j < |s| :: s[i] != s[j]
  }

  lemma AppendNoDuplicates<T>(s: seq<T>, x: T)
    requires NoDuplicates(s) && x !in s
    ensures NoDuplicates(s + [x])
  {
  }

  /** `list.remove(x)`: drops the first element equal to `x`. The callers
      test membership first, so the missing case never raises here. */
  function RemoveFirst<T(==)>(s: seq<T>, x: T): (r: seq<T>)
    ensures x !in s ==> r == s
    ensures x in s ==> |r| == |s| - 1
    ensures multiset(r) == multiset(s) - multiset{x}
  {
    if s == [] then []
    else if s[0] == x then
      assert s == [s[0]] + s[1..];
      s[1..]
    else
      var r := [s[0]] + RemoveFirst(s[1..], x);
      assert s == [s[0]] + s[1..];
      r
  }

  /** Removal cuts out exactly the first occurrence and keeps the rest in order. */
  lemma {:induction false} RemoveFirstAt<T>(s: seq<T>, x: T, i: nat)
    requires i < |s| && s[i] == x && x !in s[..i]
    ensures RemoveFirst(s, x) == s[..i] + s[i + 1..]
  {
    if i > 0 {
      assert s[0] == s[..i][0];
      assert s[1..][..i - 1] == s[1..i];
      RemoveFirstAt(s[1..], x, i - 1);
      assert s[..i] == [s[0]] + s[1..i];
    }
  }

  /** Removing an element just appended, and present nowhere else, undoes the append. */
  lemma RemoveAppended<T>(s: seq<T>, x: T)
    requires x !in s
    ensures RemoveFirst(s + [x], x) == s
  {
    var t := s + [x];
    assert t[..|s|] == s;
    RemoveFirstAt(t, x, |s|);
    assert t[|s| + 1..] == [];
  }

  lemma CutNoDuplicates<T>(s: seq<T>, i: nat)
    requires NoDuplicates(s) && i < |s|
    ensures NoDuplicates(s[..i] + s[i + 1..])
    ensures forall y :: y in s[..i] + s[i + 1..] <==> y in s && y != s[i]
  {
    var t := s[..i] + s[i + 1..];
    assert forall p | 0 <= p < |t| :: t[p] == s[if p < i then p else p + 1];
    forall y | y in s && y != s[i] ensures y in t {
      var j :| 0 <= j < |s| && s[j] == y;
      if j < i { assert t[j] == y; } else { assert t[j - 1] == y; }
    }
  }

  /** On a duplicate-free list removal takes `x` out completely, keeps every
      other element, and leaves the list duplicate-free. */
  lemma RemoveFirstNoDuplicates<T>(s: seq<T>, x: T)
    requires NoDuplicates(s)
    ensures NoDuplicates(RemoveFirst(s, x))
    ensures forall y :: y in RemoveFirst(s, x) <==> y in s && y != x
  {
    if x in s {
      var i :| 0 <= i < |s| && s[i] == x;
      assert x !in s[..i];
      RemoveFirstAt(s, x, i);
      CutNoDuplicates(s, i);
    }
  }

  // ---------------------------------------------------------------------
  // Dict insertion order

  lemma MapHasKey<R>(m: map<int, R>)
    requires m != map[]
    ensures exists k :: k in m
  {
    if forall k :: k !in m {
      assert false;
    }
  }

  /** `order` lists the keys `keys` once each, in insertion order. */
  ghost predicate IsOrderOf(order: seq<int>, keys: set<int>)
  {
    NoDuplicates(order) && forall k :: k in order <==> k in keys
  }

  /** Assigning `d[k] = v`: a new key goes to the end, an existing key keeps its place. */
  function Inserted(order: seq<int>, keys: set<int>, k: int): seq<int>
  {
    if k in keys then order else order + [k]
  }

  lemma InsertedIsOrder(order: seq<int>, keys: set<int>, k: int)
    requires IsOrderOf(order, keys)
    ensures IsOrderOf(Inserted(order, keys, k), keys + {k})
  {
  }

  /** The dict's values in insertion order: what iterating `d.values()` yields. */
  function ValuesInOrder<R>(order: seq<int>, m: map<int, R>): (vs: seq<R>)
    ensures (forall k :: k in order ==> k in m) ==> |vs| == |order|
  {
    if order == [] then []
    else
      var last := order[|order| - 1];
      ValuesInOrder(order[..|order| - 1], m) + (if last in m then [m[last]] else [])
  }

  /** Every value listed is a value of the dict. */
  lemma {:induction false} ValuesInOrderMembers<R>(order: seq<int>, m: map<int, R>)
    ensures forall x :: x in ValuesInOrder(order, m) ==> x in m.Values
  {
    if order != [] {
      ValuesInOrderMembers(order[..|order| - 1], m);
    }
  }

  /** The keys of a dict built by `{key(r): r for r in recs}`, in insertion
      order: the order of first appearance. */
  function KeysInOrder<R>(recs: seq<R>, key: R -> int): seq<int>
  {
    if recs == [] then []
    else
      var order := KeysInOrder(recs[..|recs| - 1], key);
      var k := key(recs[|recs| - 1]);
      if k in order then order else order + [k]
  }

  /** The dict built by `{key(r): r for r in recs}`: a later record replaces
      an earlier one with the same key. */
  function ByKey<R>(recs: seq<R>, key: R -> int): map<int, R>
  {
    if recs == [] then map[]
    else ByKey(recs[..|recs| - 1], key)[key(recs[|recs| - 1]) := recs[|recs| - 1]]
  }

  /** Every entry of the built dict is one of the records, under its own key. */
  lemma {:induction false} ByKeyEntries<R>(recs: seq<R>, key: R -> int)
    ensures forall k :: k in ByKey(recs, key) ==> key(ByKey(recs, key)[k]) == k && ByKey(recs, key)[k] in recs
  {
    if recs != [] {
      var init := recs[..|recs| - 1];
      ByKeyEntries(init, key);
      assert forall x :: x in init ==> x in recs;
    }
  }

  lemma {:induction false} KeysInOrderIsOrder<R>(recs: seq<R>, key: R -> int)
    ensures IsOrderOf(KeysInOrder(recs, key), ByKey(recs, key).Keys)
  {
    if recs != [] {
      var init := recs[..|recs| - 1];
      KeysInOrderIsOrder(init, key);
      var k := key(recs[|recs| - 1]);
      if k !in KeysInOrder(init, key) {
        AppendNoDuplicates(KeysInOrder(init, key), k);
      }
    }
  }

  /** Rebuilding a dict from its values in insertion order gives back the
      same keys in the same order and the same values, provided each value
      carries its own key. */
  lemma {:induction false} RebuildFromValues<R>(order: seq<int>, m: map<int, R>, key: R -> int)
    requires NoDuplicates(order)
    requires forall k :: k in order ==> k in m && key(m[k]) == k
    ensures KeysInOrder(ValuesInOrder(order, m), key) == order
    ensures ByKey(ValuesInOrder(order, m), key) == map k | k in order :: m[k]
  {
    if order != [] {
      var init := order[..|order| - 1];
      var last := order[|order| - 1];
      assert NoDuplicates(init);
      RebuildFromValues(init, m, key);
      var vs := ValuesInOrder(order, m);
      assert vs[..|vs| - 1] == ValuesInOrder(init, m);
      assert vs[|vs| - 1] == m[last];
      assert last !in init;
      assert order == init + [last];
    }
  }
}
