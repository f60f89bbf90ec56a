/**
  The top-down descent shared by `insert`, `erase` and `contains`
  (include/skip_list.hpp:263-272, 299-308, 331-337), and `contains` itself.
 */
module Search {
  import opened Arena

  /** Positions before `p` hold keys below `k`; positions from `p` on hold keys at or above `k`. */
  ghost predicate Splits(s: SkipList, order: seq<int>, k: int, p: int)
    requires InArena(|s.nodes|, order)
  {
    && 0 <= p <= |order|
    && (forall q :: 0 <= q < p ==> s.nodes[order[q]].key < k)
    && (forall q :: p <= q < |order| ==> k <= s.nodes[order[q]].key)
  }

  /** The sorted position of `k` among the keys, found from position `i` on. */
  ghost function Position(s: SkipList, order: seq<int>, k: int, i: int): (p: int)
    requires InArena(|s.nodes|, order) && Ascending(s, order)
    requires 0 <= i <= |order|
    requires forall q :: 0 <= q < i ==> s.nodes[order[q]].key < k
    ensures i <= p && Splits(s, order, k, p)
    decreases |order| - i
  {
    if i == |order| || k <= s.nodes[order[i]].key then i
    else Position(s, order, k, i + 1)
  }

  /**
    Position `u` (-1 for the head) is the last node on level `l` before position
    `p`: what the descent records as `update[l]`.
   */
  ghost predicate Pred(h: seq<int>, order: seq<int>, p: int, l: int, u: int)
    requires InArena(|h|, order) && 0 <= p <= |order|
  {
    -1 <= u < p && 0 <= l < h[Src(order, u)] && Gap(h, order, u, p, l)
  }

  /** At most one position is the level-`l` predecessor of `p`. */
  lemma PredUnique(h: seq<int>, order: seq<int>, p: int, l: int, u1: int, u2: int)
    requires InArena(|h|, order) && 0 <= p <= |order|
    requires Pred(h, order, p, l, u1) && Pred(h, order, p, l, u2)
    ensures u1 == u2
  {
  }

  /** Under a split at `p`, `k` is a key exactly when position `p` holds it. */
  lemma MemberAtSplit(s: SkipList, order: seq<int>, k: int, p: int)
    requires InArena(|s.nodes|, order) && Ascending(s, order) && Splits(s, order, k, p)
    ensures k in Elements(s, order) <==> p < |order| && s.nodes[order[p]].key == k
  {
    if k in Elements(s, order) {
      var q :| 0 <= q < |order| && s.nodes[order[q]].key == k;
      assert p <= q;
      var kp := s.nodes[order[p]].key;
      assert kp <= k;
    }
  }

  /**
    Walks from the head down every level, advancing while the next key is below
    `k` and recording the last node visited on each level in `update`. The
    returned `update[l]` is the level-`l` predecessor of the sorted position `p`
    of `k`, and `update[0]`'s level-0 link is the node at position `p`.
   */
  method Descend(s: SkipList, ghost order: seq<int>, k: int)
      returns (update: seq<int>, ghost ups: seq<int>, ghost p: int)
    requires Valid(s, order)
    ensures Splits(s, order, k, p)
    ensures |update| == |ups| == s.maxLevel
    ensures forall l :: 0 <= l < s.maxLevel ==>
              Pred(Heights(s), order, p, l, ups[l]) && update[l] == Src(order, ups[l])
    ensures forall l :: 0 <= l < s.maxLevel ==> 0 <= update[l] < |s.nodes| && l < |s.nodes[update[l]].next|
    ensures s.nodes[update[0]].next[0] == Target(order, p)
  {
    var h := Heights(s);
    p := Position(s, order, k, 0);
    update := seq(s.maxLevel, _ => Null);
    ups := seq(s.maxLevel, _ => -1);
    var cur := Head;
    ghost var ci := -1;
    var i := s.maxLevel - 1;
    while i >= 0
      invariant -1 <= i < s.maxLevel
      invariant -1 <= ci < p && cur == Src(order, ci) && i < h[cur]
      invariant Gap(h, order, ci, p, i + 1)
      invariant |update| == |ups| == s.maxLevel
      invariant forall l :: i < l < s.maxLevel ==>
                  Pred(h, order, p, l, ups[l]) && update[l] == Src(order, ups[l])
    {
      while s.nodes[cur].next[i] != Null && s.nodes[s.nodes[cur].next[i]].key < k
        invariant -1 <= ci < p && cur == Src(order, ci) && i < h[cur]
        invariant Gap(h, order, ci, p, i + 1)
        decreases p - ci
      {
        ghost var m := FirstAbove(h, order, ci, i);
        LinkAt(s, order, i, ci, m);
        cur := s.nodes[cur].next[i];
        ci := m;
      }
      ghost var m := FirstAbove(h, order, ci, i);
      LinkAt(s, order, i, ci, m);
      assert Gap(h, order, ci, p, i);
      update := update[i := cur];
      ups := ups[i := ci];
      i := i - 1;
    }
    // every node is on level 0, so the level-0 successor of `ci` is `ci + 1`
    assert FirstAbove(h, order, ci, 0) == ci + 1;
    LinkAt(s, order, 0, ci, p);
  }

  /** `contains`: the descent's candidate holds `k`. Reads the list and changes nothing. */
  method Contains(s: SkipList, ghost order: seq<int>, k: int) returns (found: bool)
    requires Valid(s, order)
    ensures found <==> k in Elements(s, order)
  {
    var update, ups, p := Descend(s, order, k);
    var cur := s.nodes[update[0]].next[0];
    found := cur != Null && s.nodes[cur].key == k;
    MemberAtSplit(s, order, k, p);
  }
}
