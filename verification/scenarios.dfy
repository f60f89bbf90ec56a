/**
  The two integer demonstrations of tests/test.cpp, with every level drawn from
  arbitrary draws: whatever the random generator yields, the assertions there
  hold and the final traversals print the listed keys.
 */
module Scenarios {
  import opened Arena
  import opened Search
  import opened Insertion
  import opened Erasure
  import opened Iteration
  import opened Lifecycle

  /** The keys a sequence mentions. */
  ghost function SetOf(xs: seq<int>): set<int> {
    set x | x in xs
  }

  /** The elements of a list are the keys its traversal yields. */
  lemma ElementsAreKeys(s: SkipList, order: seq<int>)
    requires InArena(|s.nodes|, order)
    ensures Elements(s, order) == SetOf(Keys(s, order))
  {
    var ks := Keys(s, order);
    forall x | x in SetOf(ks) ensures x in Elements(s, order) {
      var i :| 0 <= i < |ks| && ks[i] == x;
      assert s.nodes[order[i]].key == x;
    }
  }

  /** A strictly ascending sequence is determined by its set of keys. */
  lemma {:induction false} AscendingUnique(xs: seq<int>, ys: seq<int>)
    requires StrictlyAscending(xs) && StrictlyAscending(ys) && SetOf(xs) == SetOf(ys)
    ensures xs == ys
    decreases |xs|
  {
    assert ys != [] ==> ys[0] in SetOf(ys);
    if xs != [] {
      assert xs[0] in SetOf(ys) && ys != [];
      assert ys[0] in SetOf(xs);
      assert xs[0] == ys[0];
      assert SetOf(xs[1..]) == SetOf(xs) - {xs[0]};
      assert SetOf(ys[1..]) == SetOf(ys) - {ys[0]};
      AscendingUnique(xs[1..], ys[1..]);
    }
  }

  /** Traversing a valid list yields the one ascending listing of its key set. */
  method WalkSorted(s: SkipList, ghost order: seq<int>, ghost expected: seq<int>) returns (ks: seq<int>)
    requires Valid(s, order)
    requires StrictlyAscending(expected) && Elements(s, order) == SetOf(expected)
    ensures ks == expected
  {
    ks := Walk(s, order);
    ElementsAreKeys(s, order);
    AscendingUnique(ks, expected);
  }

  /** `insert` applied to each key of `ks` in turn, the i-th with draws `draws(i)`. */
  method InsertAll(s: SkipList, ghost order: seq<int>, ks: seq<int>, draws: nat -> nat -> bool)
      returns (r: SkipList, ghost order': seq<int>)
    requires Valid(s, order)
    ensures Valid(r, order')
    ensures Elements(r, order') == Elements(s, order) + SetOf(ks)
    ensures r.maxAllowedLevel == s.maxAllowedLevel && r.probability == s.probability
  {
    r, order' := s, order;
    for i := 0 to |ks|
      invariant Valid(r, order')
      invariant Elements(r, order') == Elements(s, order) + SetOf(ks[..i])
      invariant r.maxAllowedLevel == s.maxAllowedLevel && r.probability == s.probability
    {
      assert SetOf(ks[..i + 1]) == SetOf(ks[..i]) + {ks[i]};
      r, order' := InsertDrawn(r, order', ks[i], draws(i));
    }
    assert ks[..|ks|] == ks;
  }

  /** A list built by the default constructor followed by the inserts of `ks`. */
  method Build(ks: seq<int>, draws: nat -> nat -> bool) returns (s: SkipList, ghost order: seq<int>)
    ensures Valid(s, order) && Elements(s, order) == SetOf(ks)
  {
    s := Create(DefaultProbability, DefaultMaxAllowedLevel);
    order := [];
    s, order := InsertAll(s, order, ks, draws);
  }

  /** `erase(k)` seen from outside: whether `k` was there, and the key set without it. */
  method EraseKey(s: SkipList, ghost order: seq<int>, k: int)
      returns (r: SkipList, ghost order': seq<int>, removed: bool)
    requires Valid(s, order)
    ensures Valid(r, order')
    ensures removed <==> k in Elements(s, order)
    ensures Elements(r, order') == Elements(s, order) - {k}
    ensures r.maxAllowedLevel == s.maxAllowedLevel && r.probability == s.probability
  {
    ghost var p;
    r, removed, order', p := Erase(s, order, k);
  }

  /** `erase` applied to each key of `ks` in turn. */
  method EraseAll(s: SkipList, ghost order: seq<int>, ks: seq<int>)
      returns (r: SkipList, ghost order': seq<int>)
    requires Valid(s, order)
    ensures Valid(r, order')
    ensures Elements(r, order') == Elements(s, order) - SetOf(ks)
    ensures r.maxAllowedLevel == s.maxAllowedLevel && r.probability == s.probability
  {
    r, order' := s, order;
    for i := 0 to |ks|
      invariant Valid(r, order')
      invariant Elements(r, order') == Elements(s, order) - SetOf(ks[..i])
      invariant r.maxAllowedLevel == s.maxAllowedLevel && r.probability == s.probability
    {
      assert SetOf(ks[..i + 1]) == SetOf(ks[..i]) + {ks[i]};
      var removed;
      r, order', removed := EraseKey(r, order', ks[i]);
    }
    assert ks[..|ks|] == ks;
  }

  /**
    The first half of `demonstrateIntSkipList`: eleven inserts with repeats
    into a fresh list, the two `contains` assertions, and the traversal.
   */
  method IntDemoInsert(draws: nat -> nat -> bool)
      returns (s: SkipList, ghost order: seq<int>, has5: bool, has7: bool, inserted: seq<int>)
    ensures Valid(s, order) && Elements(s, order) == {1, 2, 3, 4, 5, 6, 9}
    ensures has5 && !has7
    ensures inserted == [1, 2, 3, 4, 5, 6, 9]
  {
    assert SetOf([3, 1, 4, 1, 5, 9, 2, 6, 5, 3, 5]) == {1, 2, 3, 4, 5, 6, 9};
    assert SetOf([1, 2, 3, 4, 5, 6, 9]) == {1, 2, 3, 4, 5, 6, 9};
    s, order := Build([3, 1, 4, 1, 5, 9, 2, 6, 5, 3, 5], draws);
    has5 := Contains(s, order, 5);
    has7 := Contains(s, order, 7);
    inserted := WalkSorted(s, order, [1, 2, 3, 4, 5, 6, 9]);
  }

  /**
    The second half: from any list holding 1 2 3 4 5 6 9, erasing 5, 1 and the
    absent 10 reports the last as missing and leaves 2 3 4 6 9.
   */
  method IntDemoErase(s: SkipList, ghost order: seq<int>) returns (erased10: bool, walked: seq<int>)
    requires Valid(s, order) && Elements(s, order) == {1, 2, 3, 4, 5, 6, 9}
    ensures !erased10
    ensures walked == [2, 3, 4, 6, 9]
  {
    assert {1, 2, 3, 4, 5, 6, 9} - SetOf([5, 1]) == {2, 3, 4, 6, 9};
    assert SetOf([2, 3, 4, 6, 9]) == {2, 3, 4, 6, 9};
    var r;
    ghost var o;
    r, o := EraseAll(s, order, [5, 1]);
    r, o, erased10 := EraseKey(r, o, 10);
    walked := WalkSorted(r, o, [2, 3, 4, 6, 9]);
  }

  /** `demonstrateIntSkipList` as a whole, for any draws. */
  method IntDemo(draws: nat -> nat -> bool)
      returns (has5: bool, has7: bool, inserted: seq<int>, erased10: bool, walked: seq<int>)
    ensures has5 && !has7
    ensures inserted == [1, 2, 3, 4, 5, 6, 9]
    ensures !erased10
    ensures walked == [2, 3, 4, 6, 9]
  {
    var s;
    ghost var order;
    s, order, has5, has7, inserted := IntDemoInsert(draws);
    erased10, walked := IntDemoErase(s, order);
  }

  /** The first half of `demonstrateMoveSemantics`: list 1 gets 10 and 20 and is moved into a new list 2. */
  method MoveDemoConstruct(draws: nat -> nat -> bool)
      returns (store: map<ObjId, SkipList>, ghost order: seq<int>, walked2: seq<int>, walked1: seq<int>)
    ensures store.Keys == {1, 2}
    ensures Valid(store[2], order) && Elements(store[2], order) == {10, 20}
    ensures Valid(store[1], [])
    ensures walked2 == [10, 20] && walked1 == []
  {
    assert SetOf([10, 20]) == {10, 20};
    var list1;
    list1, order := Build([10, 20], draws);
    store := map[1 := list1];
    store := MoveConstruct(store, 2, 1, order);
    walked2 := WalkSorted(store[2], order, [10, 20]);
    walked1 := Walk(store[1], []);
  }

  /** The second half: a new list 3 is move-assigned from list 2. */
  method MoveDemoAssign(store: map<ObjId, SkipList>, ghost order: seq<int>)
      returns (store': map<ObjId, SkipList>, walked3: seq<int>, walked2: seq<int>)
    requires store.Keys == {1, 2}
    requires Valid(store[2], order) && Elements(store[2], order) == {10, 20}
    requires Valid(store[1], [])
    ensures store'.Keys == {1, 2, 3}
    ensures Valid(store'[1], []) && Valid(store'[2], [])
    ensures walked3 == [10, 20] && walked2 == []
  {
    assert SetOf([10, 20]) == {10, 20};
    store' := store[3 := Create(DefaultProbability, DefaultMaxAllowedLevel)];
    store' := MoveAssign(store', 3, 2, order);
    walked3 := WalkSorted(store'[3], order, [10, 20]);
    walked2 := Walk(store'[2], []);
  }

  /**
    `demonstrateMoveSemantics`: list 1 gets 10 and 20 and is moved into a new
    list 2, which then yields 10 20; list 2 is move-assigned to list 3, which
    yields 10 20. Both moved-from lists are valid and yield nothing.
   */
  method MoveDemo(draws: nat -> nat -> bool)
      returns (store: map<ObjId, SkipList>, walked2: seq<int>, walked3: seq<int>, walked1: seq<int>, walked2After: seq<int>)
    ensures store.Keys == {1, 2, 3}
    ensures Valid(store[1], []) && Valid(store[2], [])
    ensures walked2 == [10, 20] && walked3 == [10, 20]
    ensures walked1 == [] && walked2After == []
  {
    ghost var order;
    store, order, walked2, walked1 := MoveDemoConstruct(draws);
    store, walked3, walked2After := MoveDemoAssign(store, order);
  }
}
