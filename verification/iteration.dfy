/**
  Read-only traversals: the forward iterator over level 0
  (include/skip_list.hpp:49-64, 149-154) and the walk along one level that the
  level dump performs (include/skip_list.hpp:350-354).
 */
module Iteration {
  import opened Arena

  /** `end()`: the null link. */
  const End: int := Null

  /** `begin()`: the head's level-0 link. */
  function Begin(s: SkipList): int
    requires 1 <= |s.nodes| && 1 <= |s.nodes[Head].next|
  {
    s.nodes[Head].next[0]
  }

  /** `operator*`: the key of the node the iterator stands on. */
  function Deref(s: SkipList, it: int): int
    requires 0 <= it < |s.nodes|
  {
    s.nodes[it].key
  }

  /** `operator++`: follow the level-0 link. */
  function Advance(s: SkipList, it: int): int
    requires 0 <= it < |s.nodes| && 1 <= |s.nodes[it].next|
  {
    s.nodes[it].next[0]
  }

  /** `begin()` stands on the first node of the order, or equals `end()` when the list is empty. */
  lemma BeginIsFirst(s: SkipList, order: seq<int>)
    requires Valid(s, order)
    ensures Begin(s) == Target(order, 0)
    ensures Begin(s) == End <==> order == []
  {
    LinkAt(s, order, 0, -1, 0);
  }

  /** Advancing from the node at position `j` reaches position `j + 1` (or `end()` after the last). */
  lemma AdvanceIsNext(s: SkipList, order: seq<int>, j: int)
    requires Valid(s, order) && 0 <= j < |order|
    ensures 1 <= |s.nodes[order[j]].next|
    ensures Advance(s, order[j]) == Target(order, j + 1)
  {
    LinkAt(s, order, 0, j, j + 1);
  }

  /**
    The loop `for (it = begin(); it != end(); ++it)` collecting `*it`: it visits
    exactly the keys in ascending order.
   */
  method Walk(s: SkipList, ghost order: seq<int>) returns (ks: seq<int>)
    requires Valid(s, order)
    ensures ks == Keys(s, order)
    ensures StrictlyAscending(ks)
  {
    ks := [];
    BeginIsFirst(s, order);
    var it := Begin(s);
    ghost var j := 0;
    while it != End
      invariant 0 <= j <= |order| && it == Target(order, j)
      invariant ks == Keys(s, order)[..j]
      decreases |order| - j
    {
      AdvanceIsNext(s, order, j);
      ks := ks + [Deref(s, it)];
      it := Advance(s, it);
      j := j + 1;
    }
    assert ks == Keys(s, order);
  }

  // ---------------------------------------------------------------------------
  // Levels as subsequences of level 0
  // ---------------------------------------------------------------------------

  lemma {:induction false} LevelNodesAppend(h: seq<int>, a: seq<int>, b: seq<int>, l: int)
    requires InArena(|h|, a) && InArena(|h|, b)
    ensures InArena(|h|, a + b)
    ensures LevelNodes(h, a + b, l) == LevelNodes(h, a, l) + LevelNodes(h, b, l)
  {
    if a == [] {
      assert a + b == b;
    } else {
      assert (a + b)[1..] == a[1..] + b;
      LevelNodesAppend(h, a[1..], b, l);
    }
  }

  lemma {:induction false} LevelNodesNone(h: seq<int>, xs: seq<int>, l: int)
    requires InArena(|h|, xs)
    requires forall q :: 0 <= q < |xs| ==> h[xs[q]] <= l
    ensures LevelNodes(h, xs, l) == []
  {
    if xs != [] {
      LevelNodesNone(h, xs[1..], l);
    }
  }

  /** Level 0 holds every node. */
  lemma {:induction false} LevelZeroIsAll(h: seq<int>, xs: seq<int>)
    requires InArena(|h|, xs)
    requires forall q :: 0 <= q < |xs| ==> 1 <= h[xs[q]]
    ensures LevelNodes(h, xs, 0) == xs
  {
    if xs != [] {
      LevelZeroIsAll(h, xs[1..]);
    }
  }

  /** Level `l + 1` is level `l` with the nodes that stop at level `l` left out. */
  lemma {:induction false} LevelsNest(h: seq<int>, xs: seq<int>, l: int)
    requires InArena(|h|, xs)
    ensures LevelNodes(h, LevelNodes(h, xs, l), l + 1) == LevelNodes(h, xs, l + 1)
  {
    if xs != [] {
      var first := if l < h[xs[0]] then [xs[0]] else [];
      LevelNodesAppend(h, first, LevelNodes(h, xs[1..], l), l + 1);
      LevelsNest(h, xs[1..], l);
      if l < h[xs[0]] {
        assert LevelNodes(h, first, l + 1) == (if l + 1 < h[xs[0]] then [xs[0]] else []) by {
          assert first[1..] == [];
        }
      } else {
        assert LevelNodes(h, first, l + 1) == [];
      }
    }
  }

  /** The prefix up to `m` has the same level-`l` nodes as the prefix up to `j` when nothing between is on level `l`. */
  lemma LevelNodesOverGap(h: seq<int>, order: seq<int>, j: int, m: int, l: int)
    requires InArena(|h|, order) && -1 <= j < m <= |order| && Gap(h, order, j, m, l)
    ensures LevelNodes(h, order[..m], l) == LevelNodes(h, order[..j + 1], l)
  {
    assert order[..m] == order[..j + 1] + order[j + 1..m];
    LevelNodesAppend(h, order[..j + 1], order[j + 1..m], l);
    LevelNodesNone(h, order[j + 1..m], l);
  }

  /** One more node on level `l` at the end of the prefix. */
  lemma LevelNodesStep(h: seq<int>, order: seq<int>, m: int, l: int)
    requires InArena(|h|, order) && 0 <= m < |order| && l < h[order[m]]
    ensures LevelNodes(h, order[..m + 1], l) == LevelNodes(h, order[..m], l) + [order[m]]
  {
    assert order[..m + 1] == order[..m] + [order[m]];
    LevelNodesAppend(h, order[..m], [order[m]], l);
    assert [order[m]][1..] == [];
  }

  /**
    Following level-`l` links from the head (the inner loop of the level dump)
    visits exactly the nodes of `order` present on level `l`, in order.
   */
  method WalkLevel(s: SkipList, ghost order: seq<int>, l: int) returns (ns: seq<int>)
    requires Valid(s, order) && 0 <= l < s.maxLevel
    ensures ns == LevelNodes(Heights(s), order, l)
  {
    ghost var h := Heights(s);
    ns := [];
    var node := s.nodes[Head].next[l];
    ghost var j := -1;
    LinkAt(s, order, l, -1, FirstAbove(h, order, -1, l));
    while node != Null
      invariant -1 <= j < |order| && l < h[Src(order, j)]
      invariant node == Target(order, FirstAbove(h, order, j, l))
      invariant ns == LevelNodes(h, order[..j + 1], l)
      decreases |order| - j
    {
      ghost var m := FirstAbove(h, order, j, l);
      LevelNodesOverGap(h, order, j, m, l);
      LevelNodesStep(h, order, m, l);
      LinkAt(s, order, l, m, FirstAbove(h, order, m, l));
      ns := ns + [node];
      node := s.nodes[node].next[l];
      j := m;
    }
    LevelNodesOverGap(h, order, j, |order|, l);
    assert order[..|order|] == order;
  }

  /** Each level above 0 is the level below it restricted to the taller nodes, and level 0 is the whole order. */
  lemma LevelStructure(s: SkipList, order: seq<int>, l: int)
    requires Valid(s, order) && 0 <= l
    ensures LevelNodes(Heights(s), order, 0) == order
    ensures LevelNodes(Heights(s), LevelNodes(Heights(s), order, l), l + 1) == LevelNodes(Heights(s), order, l + 1)
  {
    LevelZeroIsAll(Heights(s), order);
    LevelsNest(Heights(s), order, l);
  }
}
