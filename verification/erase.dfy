/**
  `erase` (include/skip_list.hpp:298-327): descend, report a missing key,
  otherwise unlink the node from every level whose recorded predecessor points
  at it, then drop empty top levels while the height is above 1.
 */
module Erasure {
  import opened Arena
  import opened Search

  /** `order` without position `p`. */
  function Del(order: seq<int>, p: int): (r: seq<int>)
    requires 0 <= p < |order|
    ensures |r| == |order| - 1
    ensures forall q :: 0 <= q < |r| ==> r[q] == (if q < p then order[q] else order[q + 1])
  {
    order[..p] + order[p + 1..]
  }

  /** Facts shared by the cases of one unlink step at level `i`. */
  ghost predicate UnlinkSetting(sc: SkipList, order: seq<int>, p: int, u: int, i: int)
  {
    && InArena(|sc.nodes|, order) && Distinct(order)
    && 0 <= p < |order| && 0 <= i
    && Pred(Heights(sc), order, p, i, u)
    && LevelLinked(sc, order, i)
  }

  /** A link between two positions before the removed one: not the predecessor's, untouched. */
  lemma UnlinkBefore(sc: SkipList, order: seq<int>, p: int, u: int, i: int, j: int, m: int)
    requires UnlinkSetting(sc, order, p, u, i)
    requires LinkPre(Heights(sc), Del(order, p), j, m, i) && m < p
    ensures Src(order, j) != Src(order, u)
    ensures sc.nodes[Src(Del(order, p), j)].next[i] == Target(Del(order, p), m)
  {
    var h, o := Heights(sc), Del(order, p);
    assert Gap(h, order, j, m, i) by {
      forall q | j < q < m ensures h[order[q]] <= i { assert o[q] == order[q]; }
    }
    assert o[m] == order[m];
    LinkAt(sc, order, i, j, m);
    assert m <= u by {
      var hm := h[order[m]];
      assert u < m ==> hm <= i;
    }
    SrcInjective(order, |sc.nodes|, j, u);
  }

  /** The link over the removed position comes from the predecessor and names the removed node's successor. */
  lemma UnlinkOver(sc: SkipList, order: seq<int>, p: int, u: int, i: int, j: int, m: int)
    requires UnlinkSetting(sc, order, p, u, i) && i < Heights(sc)[order[p]]
    requires LinkPre(Heights(sc), Del(order, p), j, m, i) && j < p <= m
    ensures j == u
    ensures sc.nodes[order[p]].next[i] == Target(Del(order, p), m)
  {
    var h, o := Heights(sc), Del(order, p);
    assert Gap(h, order, j, p, i) by {
      forall q | j < q < p ensures h[order[q]] <= i { assert o[q] == order[q]; }
    }
    PredUnique(h, order, p, i, j, u);
    assert Gap(h, order, p, m + 1, i) by {
      forall q | p < q < m + 1 ensures h[order[q]] <= i { assert o[q - 1] == order[q]; }
    }
    assert Target(o, m) == Target(order, m + 1);
    LinkAt(sc, order, i, p, m + 1);
  }

  /** A link between two positions after the removed one: not the predecessor's, untouched. */
  lemma UnlinkAfter(sc: SkipList, order: seq<int>, p: int, u: int, i: int, j: int, m: int)
    requires UnlinkSetting(sc, order, p, u, i)
    requires LinkPre(Heights(sc), Del(order, p), j, m, i) && p <= j
    ensures Src(Del(order, p), j) != Src(order, u)
    ensures sc.nodes[Src(Del(order, p), j)].next[i] == Target(Del(order, p), m)
  {
    var h, o := Heights(sc), Del(order, p);
    assert Gap(h, order, j + 1, m + 1, i) by {
      forall q | j + 1 < q < m + 1 ensures h[order[q]] <= i { assert o[q - 1] == order[q]; }
    }
    assert Target(o, m) == Target(order, m + 1);
    assert Src(o, j) == order[j + 1];
    LinkAt(sc, order, i, j + 1, m + 1);
    SrcInjective(order, |sc.nodes|, j + 1, u);
  }

  /**
    On a level the removed node occupies, its predecessor links to it, and
    redirecting that link to the removed node's successor links the level
    without it.
   */
  lemma UnlinkLevel(sc: SkipList, order: seq<int>, p: int, u: int, i: int)
    requires UnlinkSetting(sc, order, p, u, i) && i < Heights(sc)[order[p]]
    ensures sc.nodes[Src(order, u)].next[i] == order[p]
    ensures var sn := SetLink(sc, Src(order, u), i, sc.nodes[order[p]].next[i]);
      InArena(|sn.nodes|, Del(order, p)) && LevelLinked(sn, Del(order, p), i)
  {
    var a, c := Src(order, u), order[p];
    var sn := SetLink(sc, a, i, sc.nodes[c].next[i]);
    var o := Del(order, p);
    var h := Heights(sc);
    LinkAt(sc, order, i, u, p);
    forall j, m | LinkPre(h, o, j, m, i)
      ensures sn.nodes[Src(o, j)].next[i] == Target(o, m)
    {
      if m < p {
        UnlinkBefore(sc, order, p, u, i, j, m);
      } else if j < p {
        UnlinkOver(sc, order, p, u, i, j, m);
      } else {
        UnlinkAfter(sc, order, p, u, i, j, m);
      }
    }
  }

  /**
    On a level the removed node does not occupy, its predecessor does not link
    to it, and the unchanged level is already linked without it.
   */
  lemma SkipLevel(sc: SkipList, order: seq<int>, p: int, u: int, i: int)
    requires UnlinkSetting(sc, order, p, u, i) && Heights(sc)[order[p]] <= i
    ensures sc.nodes[Src(order, u)].next[i] != order[p]
    ensures InArena(|sc.nodes|, Del(order, p)) && LevelLinked(sc, Del(order, p), i)
  {
    var h, o := Heights(sc), Del(order, p);
    var m := FirstAbove(h, order, u, i);
    LinkAt(sc, order, i, u, m);
    assert m != p;
    forall j, m | LinkPre(h, o, j, m, i)
      ensures sc.nodes[Src(o, j)].next[i] == Target(o, m)
    {
      var jj := if j < p then j else j + 1;
      var mm := if m < p then m else m + 1;
      assert Src(o, j) == Src(order, jj);
      assert Target(o, m) == Target(order, mm);
      assert Gap(h, order, jj, mm, i) by {
        forall q | jj < q < mm ensures h[order[q]] <= i {
          if q < p { assert o[q] == order[q]; } else if q > p { assert o[q - 1] == order[q]; }
        }
      }
      LinkAt(sc, order, i, jj, mm);
    }
  }

  /** Invariant of the unlink loop: levels below `i` no longer hold the node, the others are as before. */
  ghost predicate Unlinking(r: SkipList, s: SkipList, order: seq<int>, p: int, i: int)
  {
    && |r.nodes| == |s.nodes| && Heights(r) == Heights(s)
    && r.maxLevel == s.maxLevel && r.maxAllowedLevel == s.maxAllowedLevel
    && r.probability == s.probability
    && (forall n :: 0 <= n < |r.nodes| ==> r.nodes[n].key == s.nodes[n].key)
    && WellFormed(r)
    && 0 <= p < |order| && InArena(|r.nodes|, order)
    && (forall l :: 0 <= l < i ==> LevelLinked(r, Del(order, p), l))
    && (forall l :: i <= l < r.maxLevel ==> LevelLinked(r, order, l))
  }

  /** What the descent fixed for the whole unlink loop. */
  ghost predicate UnlinkFixed(s: SkipList, order: seq<int>, p: int, ups: seq<int>)
  {
    && InArena(|s.nodes|, order) && Distinct(order)
    && 0 <= p < |order| && |ups| == s.maxLevel
    && (forall l :: 0 <= l < s.maxLevel ==> Pred(Heights(s), order, p, l, ups[l]))
  }

  /** One step of the unlink loop at level `i` (include/skip_list.hpp:315-317). */
  function UnlinkAt(r: SkipList, a: int, c: int, i: int): SkipList
    requires 0 <= a < |r.nodes| && 0 <= c < |r.nodes| && 0 <= i < |r.nodes[a].next|
    requires r.nodes[a].next[i] == c ==> i < |r.nodes[c].next|
  {
    if r.nodes[a].next[i] == c then SetLink(r, a, i, r.nodes[c].next[i]) else r
  }

  lemma UnlinkStep(r: SkipList, s: SkipList, order: seq<int>, p: int, ups: seq<int>, i: int)
    requires Unlinking(r, s, order, p, i) && UnlinkFixed(s, order, p, ups)
    requires 0 <= i < s.maxLevel
    ensures var a, c := Src(order, ups[i]), order[p];
      && (r.nodes[a].next[i] == c ==> i < |r.nodes[c].next|)
      && Unlinking(UnlinkAt(r, a, c, i), s, order, p, i + 1)
  {
    var a, c := Src(order, ups[i]), order[p];
    assert UnlinkSetting(r, order, p, ups[i], i);
    if i < Heights(r)[c] {
      UnlinkLevel(r, order, p, ups[i], i);
    } else {
      SkipLevel(r, order, p, ups[i], i);
    }
    var r2 := UnlinkAt(r, a, c, i);
    forall l | 0 <= l < r.maxLevel && l != i ensures SameLane(r, r2, l) {
    }
    forall l | 0 <= l < i ensures LevelLinked(r2, Del(order, p), l) {
      LaneFrame(r, r2, Del(order, p), l);
    }
    forall l | i < l < r.maxLevel ensures LevelLinked(r2, order, l) {
      LaneFrame(r, r2, order, l);
    }
  }

  /** The head with its top link removed and the height lowered by one. */
  function PopLevel(r: SkipList): SkipList
    requires 1 <= |r.nodes| && 1 <= |r.nodes[Head].next|
  {
    var head := r.nodes[Head];
    r.(nodes := r.nodes[Head := head.(next := head.next[..|head.next| - 1])], maxLevel := |head.next| - 1)
  }

  /** An empty top level can be dropped: every node then fits under the lower height. */
  lemma ShrinkStep(r: SkipList, order: seq<int>)
    requires Valid(r, order) && r.maxLevel > 1 && r.nodes[Head].next[r.maxLevel - 1] == Null
    ensures var t := PopLevel(r);
      && Valid(t, order)
      && t.maxLevel == r.maxLevel - 1 && |t.nodes| == |r.nodes|
      && t.maxAllowedLevel == r.maxAllowedLevel && t.probability == r.probability
      && (forall n :: 0 < n < |r.nodes| ==> t.nodes[n] == r.nodes[n])
  {
    var t := PopLevel(r);
    var h := Heights(r);
    var top := r.maxLevel - 1;
    var m := FirstAbove(h, order, -1, top);
    LinkAt(r, order, top, -1, m);
    assert m == |order|;
    assert forall n :: 0 < n < |r.nodes| ==> t.nodes[n] == r.nodes[n];
    assert LevelsBounded(Heights(t), order, t.maxLevel) by {
      forall q | 0 <= q < |order| ensures 1 <= Heights(t)[order[q]] <= t.maxLevel {
        assert h[order[q]] <= top;
      }
    }
    forall l | 0 <= l < t.maxLevel ensures LevelLinked(t, order, l) {
      LaneFrame(r, t, order, l);
    }
  }

  /** The key sequence without position `p`. */
  lemma KeysDel(s: SkipList, order: seq<int>, p: int)
    requires InArena(|s.nodes|, order) && 0 <= p < |order|
    ensures InArena(|s.nodes|, Del(order, p))
    ensures Keys(s, Del(order, p)) == Keys(s, order)[..p] + Keys(s, order)[p + 1..]
  {
    var ks, kd := Keys(s, order), Keys(s, Del(order, p));
    var rhs := ks[..p] + ks[p + 1..];
    forall i | 0 <= i < |kd| ensures kd[i] == rhs[i] {
      if i >= p {
        assert rhs[i] == ks[i + 1];
      }
    }
  }

  /** A key other than the removed one is still a key once its position is gone. */
  lemma ElementsDelKeep(s: SkipList, order: seq<int>, p: int, e: int)
    requires InArena(|s.nodes|, order) && 0 <= p < |order|
    requires e in Elements(s, order) && e != s.nodes[order[p]].key
    ensures InArena(|s.nodes|, Del(order, p)) && e in Elements(s, Del(order, p))
  {
    var o := Del(order, p);
    var q :| 0 <= q < |order| && s.nodes[order[q]].key == e;
    var q' := if q < p then q else q - 1;
    assert o[q'] == order[q];
  }

  /** On ascending keys, every key left after removing a position was a key other than the removed one. */
  lemma ElementsDelBack(s: SkipList, order: seq<int>, p: int, e: int)
    requires InArena(|s.nodes|, order) && Ascending(s, order) && 0 <= p < |order|
    requires InArena(|s.nodes|, Del(order, p)) && e in Elements(s, Del(order, p))
    ensures e in Elements(s, order) && e != s.nodes[order[p]].key
  {
    var o := Del(order, p);
    var q :| 0 <= q < |o| && s.nodes[o[q]].key == e;
    var q' := if q < p then q else q + 1;
    assert o[q] == order[q'] && q' != p;
  }

  /** The keys without position `p`. */
  lemma ElementsDel(s: SkipList, order: seq<int>, p: int)
    requires InArena(|s.nodes|, order) && Ascending(s, order) && 0 <= p < |order|
    ensures InArena(|s.nodes|, Del(order, p))
    ensures Keys(s, Del(order, p)) == Keys(s, order)[..p] + Keys(s, order)[p + 1..]
    ensures Elements(s, Del(order, p)) == Elements(s, order) - {s.nodes[order[p]].key}
  {
    KeysDel(s, order, p);
    var o := Del(order, p);
    var k := s.nodes[order[p]].key;
    forall e | e in Elements(s, order) && e != k ensures e in Elements(s, o) {
      ElementsDelKeep(s, order, p, e);
    }
    forall e | e in Elements(s, o) ensures e in Elements(s, order) && e != k {
      ElementsDelBack(s, order, p, e);
    }
  }

  /** Removing a position keeps the keys ascending. */
  lemma DelAscending(s: SkipList, order: seq<int>, p: int)
    requires InArena(|s.nodes|, order) && Ascending(s, order) && 0 <= p < |order|
    ensures InArena(|s.nodes|, Del(order, p)) && Ascending(s, Del(order, p))
  {
    var o := Del(order, p);
    forall a, b | 0 <= a < b < |o| ensures s.nodes[o[a]].key < s.nodes[o[b]].key {
      var aa := if a < p then a else a + 1;
      var bb := if b < p then b else b + 1;
      assert o[a] == order[aa] && o[b] == order[bb];
    }
  }

  /** Removing a position keeps every remaining node within the height. */
  lemma DelBounded(h: seq<int>, order: seq<int>, p: int, height: int)
    requires InArena(|h|, order) && LevelsBounded(h, order, height) && 0 <= p < |order|
    ensures InArena(|h|, Del(order, p)) && LevelsBounded(h, Del(order, p), height)
  {
  }

  /** After the unlink loop has visited every level, the list is valid without the removed node. */
  lemma UnlinkEnd(r: SkipList, s: SkipList, order: seq<int>, p: int)
    requires Valid(s, order) && Unlinking(r, s, order, p, s.maxLevel)
    ensures Valid(r, Del(order, p))
    ensures Keys(r, Del(order, p)) == Keys(s, order)[..p] + Keys(s, order)[p + 1..]
    ensures Elements(r, Del(order, p)) == Elements(s, order) - {s.nodes[order[p]].key}
  {
    var o := Del(order, p);
    assert Keys(r, order) == Keys(s, order);
    assert Elements(r, order) == Elements(s, order);
    assert Ascending(r, order) by {
      forall a, b | 0 <= a < b < |order| ensures r.nodes[order[a]].key < r.nodes[order[b]].key {
        assert r.nodes[order[a]].key == s.nodes[order[a]].key;
        assert r.nodes[order[b]].key == s.nodes[order[b]].key;
      }
    }
    ElementsDel(r, order, p);
    DelAscending(r, order, p);
    DelBounded(Heights(r), order, p, r.maxLevel);
  }

  /**
    `erase(key)`. A missing key is reported and nothing changes; a present key
    loses its node from every level, the other nodes keep their order, keys and
    levels, and the height then drops until the top level is occupied or the
    height is 1.
   */
  method Erase(s: SkipList, ghost order: seq<int>, k: int)
      returns (r: SkipList, removed: bool, ghost order': seq<int>, ghost p: int)
    requires Valid(s, order)
    ensures Valid(r, order')
    ensures Splits(s, order, k, p)
    ensures removed <==> k in Elements(s, order)
    ensures !removed ==> r == s && order' == order
    ensures removed ==>
              && p < |order| && s.nodes[order[p]].key == k
              && order' == Del(order, p)
              && Keys(r, order') == Keys(s, order)[..p] + Keys(s, order)[p + 1..]
              && |r.nodes| == |s.nodes|
              && (forall n :: 0 < n < |s.nodes| ==> Heights(r)[n] == Heights(s)[n])
              && r.maxLevel <= s.maxLevel
              && Tight(r)
    ensures Elements(r, order') == Elements(s, order) - {k}
    ensures r.maxAllowedLevel == s.maxAllowedLevel && r.probability == s.probability
  {
    var update: seq<int>;
    ghost var ups: seq<int>;
    update, ups, p := Descend(s, order, k);
    var cur := s.nodes[update[0]].next[0];
    MemberAtSplit(s, order, k, p);
    if cur == Null || s.nodes[cur].key != k {
      return s, false, order, p;
    }

    AscendingDistinct(s, order);
    r := s;
    for i := 0 to r.maxLevel
      invariant Unlinking(r, s, order, p, i)
    {
      UnlinkStep(r, s, order, p, ups, i);
      if r.nodes[update[i]].next[i] == cur {
        r := SetLink(r, update[i], i, r.nodes[cur].next[i]);
      }
    }
    order' := Del(order, p);
    UnlinkEnd(r, s, order, p);

    while r.maxLevel > 1 && r.nodes[Head].next[r.maxLevel - 1] == Null
      invariant Valid(r, order')
      invariant |r.nodes| == |s.nodes| && r.maxLevel <= s.maxLevel
      invariant forall n :: 0 < n < |s.nodes| ==> Heights(r)[n] == Heights(s)[n] && r.nodes[n].key == s.nodes[n].key
      invariant r.maxAllowedLevel == s.maxAllowedLevel && r.probability == s.probability
      decreases r.maxLevel
    {
      ShrinkStep(r, order');
      r := PopLevel(r);
    }
    removed := true;
  }
}
