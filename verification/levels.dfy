/**
  The per-level view of `insert` and `erase`: what happens to the sequence of
  nodes present on each level (include/skip_list.hpp:289-294, 314-318), given
  the node heights before and after the operation.
 */
module Levels {
  import opened Arena
  import opened Insertion
  import opened Erasure
  import opened Iteration

  /** Level membership depends only on the heights of the listed nodes. */
  lemma {:induction false} LevelNodesAgree(h1: seq<int>, h2: seq<int>, xs: seq<int>, l: int)
    requires InArena(|h1|, xs) && InArena(|h2|, xs)
    requires forall q :: 0 <= q < |xs| ==> h1[xs[q]] == h2[xs[q]]
    ensures LevelNodes(h1, xs, l) == LevelNodes(h2, xs, l)
  {
    if xs != [] {
      LevelNodesAgree(h1, h2, xs[1..], l);
    }
  }

  /** A single node is on level `l` exactly when it is taller than `l`. */
  lemma LevelNodesSingle(h: seq<int>, x: int, l: int)
    requires 0 < x < |h|
    ensures InArena(|h|, [x])
    ensures LevelNodes(h, [x], l) == (if l < h[x] then [x] else [])
  {
    assert [x][1..] == [];
  }

  /**
    After a new node `x` (the arena's next slot) is placed at position `p` with
    height `h'[x]`, and no other node changes height, level `l` is the old
    level with `x` at its sorted place when `l < h'[x]`, and unchanged otherwise.
   */
  lemma InsertLevels(h: seq<int>, h': seq<int>, order: seq<int>, p: int, x: int, l: int)
    requires InArena(|h|, order) && 0 <= p <= |order|
    requires x == |h| && |h'| == |h| + 1
    requires forall n :: 0 < n < |h| ==> h'[n] == h[n]
    ensures InArena(|h'|, Ins(order, p, x))
    ensures LevelNodes(h, order, l) == LevelNodes(h, order[..p], l) + LevelNodes(h, order[p..], l)
    ensures LevelNodes(h', Ins(order, p, x), l)
            == LevelNodes(h, order[..p], l) + (if l < h'[x] then [x] else []) + LevelNodes(h, order[p..], l)
  {
    var o := Ins(order, p, x);
    assert order == order[..p] + order[p..];
    LevelNodesAppend(h, order[..p], order[p..], l);
    assert o == order[..p] + [x] + order[p..];
    LevelNodesAppend(h', order[..p], [x], l);
    LevelNodesAppend(h', order[..p] + [x], order[p..], l);
    LevelNodesSingle(h', x, l);
    LevelNodesAgree(h', h, order[..p], l);
    LevelNodesAgree(h', h, order[p..], l);
  }

  /**
    After the node at position `p` is removed, with no other node changing
    height, level `l` is the old level with that node taken out where it was,
    and every other node keeps its place.
   */
  lemma EraseLevels(h: seq<int>, h': seq<int>, order: seq<int>, p: int, l: int)
    requires InArena(|h|, order) && 0 <= p < |order| && |h'| == |h|
    requires forall n :: 0 < n < |h| ==> h'[n] == h[n]
    ensures InArena(|h'|, Del(order, p))
    ensures LevelNodes(h, order, l)
            == LevelNodes(h, order[..p], l) + (if l < h[order[p]] then [order[p]] else []) + LevelNodes(h, order[p + 1..], l)
    ensures LevelNodes(h', Del(order, p), l) == LevelNodes(h, order[..p], l) + LevelNodes(h, order[p + 1..], l)
  {
    assert order == order[..p] + [order[p]] + order[p + 1..];
    LevelNodesAppend(h, order[..p], [order[p]], l);
    LevelNodesAppend(h, order[..p] + [order[p]], order[p + 1..], l);
    LevelNodesSingle(h, order[p], l);
    LevelNodesAppend(h', order[..p], order[p + 1..], l);
    LevelNodesAgree(h', h, order[..p], l);
    LevelNodesAgree(h', h, order[p + 1..], l);
  }
}
