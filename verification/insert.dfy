/**
  `insert` (include/skip_list.hpp:262-295): descend, stop on a duplicate,
  grow the head when the drawn level exceeds the height, then splice the new
  node after its recorded predecessor on each of its levels.
 */
module Insertion {
  import opened Arena
  import opened Search
  import opened RandomLevels

  /** `order` with node `x` placed at position `p`. */
  function Ins(order: seq<int>, p: int, x: int): (r: seq<int>)
    requires 0 <= p <= |order|
    ensures |r| == |order| + 1
    ensures forall q :: 0 <= q < |r| ==>
              r[q] == (if q < p then order[q] else if q == p then x else order[q - 1])
  {
    order[..p] + [x] + order[p..]
  }

  /** The head's link array resized to `lvl`, the new links null, and the height raised to `lvl`. */
  function GrowHead(s: SkipList, lvl: int): SkipList
    requires 1 <= |s.nodes| && |s.nodes[Head].next| <= lvl
  {
    var head := s.nodes[Head];
    s.(nodes := s.nodes[Head := head.(next := head.next + seq(lvl - |head.next|, _ => Null))],
       maxLevel := lvl)
  }

  /** Growing the head keeps the invariant, and every other node keeps its levels and key. */
  lemma GrowHeadValid(s: SkipList, order: seq<int>, lvl: int)
    requires Valid(s, order) && s.maxLevel < lvl <= s.maxAllowedLevel
    ensures var t := GrowHead(s, lvl);
      && Valid(t, order)
      && |t.nodes| == |s.nodes|
      && Heights(t)[Head] == lvl
      && (forall n :: 0 < n < |s.nodes| ==> Heights(t)[n] == Heights(s)[n])
      && (forall n :: 0 <= n < |s.nodes| ==> t.nodes[n].key == s.nodes[n].key)
  {
    var t := GrowHead(s, lvl);
    var h, ht := Heights(s), Heights(t);
    assert forall n :: 0 < n < |s.nodes| ==> t.nodes[n] == s.nodes[n];
    forall l | 0 <= l < s.maxLevel ensures LevelLinked(t, order, l) {
      LaneFrame(s, t, order, l);
    }
    assert forall q :: 0 <= q < |order| ==> ht[order[q]] == h[order[q]] <= s.maxLevel;
    forall l | s.maxLevel <= l < lvl ensures LevelLinked(t, order, l) {
      forall j, m | LinkPre(ht, order, j, m, l)
        ensures t.nodes[Src(order, j)].next[l] == Target(order, m)
      {
        // only the head reaches level l, so its link there is the fresh null
        assert j == -1 && m == |order|;
      }
    }
  }

  /** Appending an unlinked node keeps the invariant for the unchanged order. */
  lemma AppendValid(t: SkipList, order: seq<int>, nd: Node)
    requires Valid(t, order)
    requires forall l :: 0 <= l < |nd.next| ==> nd.next[l] == Null
    ensures var t2 := t.(nodes := t.nodes + [nd]);
      && Valid(t2, order)
      && (forall n :: 0 <= n < |t.nodes| ==> t2.nodes[n] == t.nodes[n])
  {
    var t2 := t.(nodes := t.nodes + [nd]);
    assert forall n :: 0 <= n < |t.nodes| ==> t2.nodes[n] == t.nodes[n];
    forall l | 0 <= l < t.maxLevel ensures LevelLinked(t2, order, l) {
      LaneFrame(t, t2, order, l);
    }
  }

  /** A node not on level `l` can be placed anywhere in the order without breaking level `l`. */
  lemma OffLevel(sc: SkipList, order: seq<int>, p: int, x: int, l: int)
    requires InArena(|sc.nodes|, order) && LevelLinked(sc, order, l)
    requires 0 < x < |sc.nodes| && 0 <= p <= |order| && 0 <= l
    requires Heights(sc)[x] <= l
    ensures InArena(|sc.nodes|, Ins(order, p, x)) && LevelLinked(sc, Ins(order, p, x), l)
  {
    var o := Ins(order, p, x);
    var h := Heights(sc);
    forall j, m | LinkPre(h, o, j, m, l)
      ensures sc.nodes[Src(o, j)].next[l] == Target(o, m)
    {
      var jj := if j < p then j else j - 1;
      var mm := if m < p then m else m - 1;
      assert Src(o, j) == Src(order, jj);
      assert Target(o, m) == Target(order, mm);
      assert Gap(h, order, jj, mm, l) by {
        forall q | jj < q < mm ensures h[order[q]] <= l {
          if q < p { assert o[q] == order[q]; } else { assert o[q + 1] == order[q]; }
        }
      }
      LinkAt(sc, order, l, jj, mm);
    }
  }

  /** Node `x` takes over the level-`i` link of `a`, and `a` then links to `x`. */
  function Splice(sc: SkipList, a: int, x: int, i: int): (sn: SkipList)
    requires 0 <= a < |sc.nodes| && 0 <= x < |sc.nodes| && a != x
    requires 0 <= i < |sc.nodes[a].next| && 0 <= i < |sc.nodes[x].next|
    ensures |sn.nodes| == |sc.nodes| && Heights(sn) == Heights(sc)
    ensures sn.maxLevel == sc.maxLevel && sn.maxAllowedLevel == sc.maxAllowedLevel
    ensures sn.probability == sc.probability
    ensures sn.nodes[a].next[i] == x && sn.nodes[x].next[i] == sc.nodes[a].next[i]
    ensures forall n, l :: 0 <= n < |sc.nodes| && 0 <= l < |sc.nodes[n].next| && n != a && n != x
              ==> sn.nodes[n].next[l] == sc.nodes[n].next[l]
    ensures forall n, l :: 0 <= n < |sc.nodes| && 0 <= l < |sc.nodes[n].next| && l != i
              ==> sn.nodes[n].next[l] == sc.nodes[n].next[l]
    ensures forall n :: 0 <= n < |sc.nodes| ==> sn.nodes[n].key == sc.nodes[n].key
  {
    SetLink(SetLink(sc, x, i, sc.nodes[a].next[i]), a, i, x)
  }

  /** Facts shared by the cases of one splice step at level `i`. */
  ghost predicate SpliceSetting(sc: SkipList, order: seq<int>, p: int, u: int, x: int, i: int)
  {
    && InArena(|sc.nodes|, order) && Distinct(order)
    && x == |sc.nodes| - 1 && 0 < x && (forall q :: 0 <= q < |order| ==> order[q] < x)
    && 0 <= p <= |order| && 0 <= i < Heights(sc)[x]
    && Pred(Heights(sc), order, p, i, u)
    && LevelLinked(sc, order, i)
  }

  /** A link between two positions before the splice point: not the predecessor's, untouched. */
  lemma SpliceBefore(sc: SkipList, order: seq<int>, p: int, u: int, x: int, i: int, j: int, m: int)
    requires SpliceSetting(sc, order, p, u, x, i)
    requires LinkPre(Heights(sc), Ins(order, p, x), j, m, i) && m < p
    ensures var sn := Splice(sc, Src(order, u), x, i);
      sn.nodes[Src(Ins(order, p, x), j)].next[i] == Target(Ins(order, p, x), m)
  {
    var h, o := Heights(sc), Ins(order, p, x);
    assert Gap(h, order, j, m, i) by {
      forall q | j < q < m ensures h[order[q]] <= i { assert o[q] == order[q]; }
    }
    assert o[m] == order[m];
    LinkAt(sc, order, i, j, m);
    assert m <= u by {
      var hm := h[order[m]];
      assert u < m ==> hm <= i;
    }
    SrcInjective(order, |sc.nodes|, j, u);
  }

  /** The link into the splice point: it comes from the recorded predecessor, now pointing at `x`. */
  lemma SpliceInto(sc: SkipList, order: seq<int>, p: int, u: int, x: int, i: int, j: int)
    requires SpliceSetting(sc, order, p, u, x, i)
    requires LinkPre(Heights(sc), Ins(order, p, x), j, p, i)
    ensures var sn := Splice(sc, Src(order, u), x, i);
      sn.nodes[Src(Ins(order, p, x), j)].next[i] == Target(Ins(order, p, x), p)
  {
    var h, o := Heights(sc), Ins(order, p, x);
    assert Gap(h, order, j, p, i) by {
      forall q | j < q < p ensures h[order[q]] <= i { assert o[q] == order[q]; }
    }
    PredUnique(h, order, p, i, j, u);
  }

  /** The link out of `x`: the predecessor's old link. */
  lemma SpliceFrom(sc: SkipList, order: seq<int>, p: int, u: int, x: int, i: int, m: int)
    requires SpliceSetting(sc, order, p, u, x, i)
    requires LinkPre(Heights(sc), Ins(order, p, x), p, m, i)
    ensures var sn := Splice(sc, Src(order, u), x, i);
      sn.nodes[Src(Ins(order, p, x), p)].next[i] == Target(Ins(order, p, x), m)
  {
    var h, o := Heights(sc), Ins(order, p, x);
    assert Gap(h, order, p - 1, m - 1, i) by {
      forall q | p - 1 < q < m - 1 ensures h[order[q]] <= i { assert o[q + 1] == order[q]; }
    }
    assert Target(o, m) == Target(order, m - 1);
    GapJoin(h, order, u, p - 1, m - 1, i);
    LinkAt(sc, order, i, u, m - 1);
  }

  /** A link between two positions after the splice point: not the predecessor's, untouched. */
  lemma SpliceAfter(sc: SkipList, order: seq<int>, p: int, u: int, x: int, i: int, j: int, m: int)
    requires SpliceSetting(sc, order, p, u, x, i)
    requires LinkPre(Heights(sc), Ins(order, p, x), j, m, i) && p < j
    ensures var sn := Splice(sc, Src(order, u), x, i);
      sn.nodes[Src(Ins(order, p, x), j)].next[i] == Target(Ins(order, p, x), m)
  {
    var h, o := Heights(sc), Ins(order, p, x);
    assert Gap(h, order, j - 1, m - 1, i) by {
      forall q | j - 1 < q < m - 1 ensures h[order[q]] <= i { assert o[q + 1] == order[q]; }
    }
    assert Target(o, m) == Target(order, m - 1);
    assert Src(o, j) == order[j - 1];
    LinkAt(sc, order, i, j - 1, m - 1);
    SrcInjective(order, |sc.nodes|, j - 1, u);
  }

  /**
    One step of the splice loop at level `i`: the new node `x` takes over the
    link of its predecessor `update[i]`, which then links to `x`. Afterwards
    level `i` is linked in the order with `x` at position `p`.
   */
  lemma SpliceLevel(sc: SkipList, order: seq<int>, p: int, u: int, x: int, i: int)
    requires SpliceSetting(sc, order, p, u, x, i)
    ensures var sn := Splice(sc, Src(order, u), x, i);
      InArena(|sn.nodes|, Ins(order, p, x)) && LevelLinked(sn, Ins(order, p, x), i)
  {
    var sn := Splice(sc, Src(order, u), x, i);
    var o := Ins(order, p, x);
    var h := Heights(sc);
    forall j, m | LinkPre(h, o, j, m, i)
      ensures sn.nodes[Src(o, j)].next[i] == Target(o, m)
    {
      // x sits at position p on level i, so no link on level i passes over it
      assert h[o[p]] > i;
      assert !(j < p < m);
      if m < p {
        SpliceBefore(sc, order, p, u, x, i, j, m);
      } else if m == p {
        SpliceInto(sc, order, p, u, x, i, j);
      } else if j == p {
        SpliceFrom(sc, order, p, u, x, i, m);
      } else {
        SpliceAfter(sc, order, p, u, x, i, j, m);
      }
    }
  }

  /** The key sequence of `order` with one more position. */
  lemma KeysIns(s: SkipList, order: seq<int>, p: int, x: int)
    requires InArena(|s.nodes|, order) && 0 < x < |s.nodes| && 0 <= p <= |order|
    ensures InArena(|s.nodes|, Ins(order, p, x))
    ensures Keys(s, Ins(order, p, x)) == Keys(s, order)[..p] + [s.nodes[x].key] + Keys(s, order)[p..]
  {
    var ks, ko := Keys(s, order), Keys(s, Ins(order, p, x));
    var rhs := ks[..p] + [s.nodes[x].key] + ks[p..];
    forall i | 0 <= i < |ko| ensures ko[i] == rhs[i] {
      if i > p {
        assert rhs[i] == ks[i - 1];
      }
    }
  }

  /** Every key of `order` is still a key once a position is added. */
  lemma ElementsInsGrow(s: SkipList, order: seq<int>, p: int, x: int, e: int)
    requires InArena(|s.nodes|, order) && 0 < x < |s.nodes| && 0 <= p <= |order|
    requires e in Elements(s, order)
    ensures InArena(|s.nodes|, Ins(order, p, x)) && e in Elements(s, Ins(order, p, x))
  {
    var o := Ins(order, p, x);
    var q :| 0 <= q < |order| && s.nodes[order[q]].key == e;
    var q' := if q < p then q else q + 1;
    assert o[q'] == order[q];
  }

  /** A key of the extended order other than the new node's was already a key. */
  lemma ElementsInsBack(s: SkipList, order: seq<int>, p: int, x: int, e: int)
    requires InArena(|s.nodes|, order) && 0 < x < |s.nodes| && 0 <= p <= |order|
    requires InArena(|s.nodes|, Ins(order, p, x)) && e in Elements(s, Ins(order, p, x))
    ensures e == s.nodes[x].key || e in Elements(s, order)
  {
    var o := Ins(order, p, x);
    var q :| 0 <= q < |o| && s.nodes[o[q]].key == e;
    if q != p {
      var q' := if q < p then q else q - 1;
      assert o[q] == order[q'];
    }
  }

  /** The key set of `order` with one more position. */
  lemma ElementsIns(s: SkipList, order: seq<int>, p: int, x: int)
    requires InArena(|s.nodes|, order) && 0 < x < |s.nodes| && 0 <= p <= |order|
    ensures InArena(|s.nodes|, Ins(order, p, x))
    ensures Elements(s, Ins(order, p, x)) == Elements(s, order) + {s.nodes[x].key}
  {
    var o := Ins(order, p, x);
    assert s.nodes[o[p]].key == s.nodes[x].key;
    forall e | e in Elements(s, order) ensures e in Elements(s, o) {
      ElementsInsGrow(s, order, p, x, e);
    }
    forall e | e in Elements(s, o) ensures e == s.nodes[x].key || e in Elements(s, order) {
      ElementsInsBack(s, order, p, x, e);
    }
  }

  /** The state just before the splice loop: head grown if needed, new node appended unlinked. */
  function Prepared(s: SkipList, k: int, lvl: int): SkipList
    requires 1 <= |s.nodes| && |s.nodes[Head].next| == s.maxLevel && 0 <= lvl
  {
    var t := if lvl > s.maxLevel then GrowHead(s, lvl) else s;
    t.(nodes := t.nodes + [Node(k, seq(lvl, _ => Null))])
  }

  lemma PreparedFacts(s: SkipList, order: seq<int>, k: int, lvl: int)
    requires Valid(s, order) && 1 <= lvl <= s.maxAllowedLevel && lvl <= s.maxLevel + 1
    ensures var t0 := Prepared(s, k, lvl);
      && Valid(t0, order)
      && |t0.nodes| == |s.nodes| + 1
      && t0.nodes[|s.nodes|] == Node(k, seq(lvl, _ => Null))
      && (forall n :: 0 < n < |s.nodes| ==> t0.nodes[n] == s.nodes[n])
      && t0.maxLevel == (if lvl > s.maxLevel then lvl else s.maxLevel)
      && t0.maxAllowedLevel == s.maxAllowedLevel && t0.probability == s.probability
  {
    var t := if lvl > s.maxLevel then GrowHead(s, lvl) else s;
    if lvl > s.maxLevel {
      GrowHeadValid(s, order, lvl);
    }
    AppendValid(t, order, Node(k, seq(lvl, _ => Null)));
  }

  /** Invariant of the splice loop: levels below `i` carry `x`, the others are as before. */
  ghost predicate Splicing(r: SkipList, r0: SkipList, order: seq<int>, p: int, x: int, i: int, newLevel: int)
  {
    && |r.nodes| == |r0.nodes| && Heights(r) == Heights(r0)
    && r.maxLevel == r0.maxLevel && r.maxAllowedLevel == r0.maxAllowedLevel
    && r.probability == r0.probability
    && (forall n :: 0 <= n < |r.nodes| ==> r.nodes[n].key == r0.nodes[n].key)
    && WellFormed(r)
    && 0 <= p <= |order| && 0 < x < |r.nodes|
    && InArena(|r.nodes|, order) && InArena(|r.nodes|, Ins(order, p, x))
    && (forall l :: 0 <= l < i ==> LevelLinked(r, Ins(order, p, x), l))
    && (forall l :: i <= l < newLevel ==> LevelLinked(r, order, l))
    && (forall l :: newLevel <= l < r.maxLevel ==> LevelLinked(r, Ins(order, p, x), l))
  }

  /** What the descent and the head growth fixed for the whole splice loop. */
  ghost predicate SpliceFixed(r0: SkipList, order: seq<int>, p: int, ups: seq<int>, x: int, newLevel: int)
  {
    && InArena(|r0.nodes|, order) && Distinct(order)
    && x == |r0.nodes| - 1 && 0 < x && (forall q :: 0 <= q < |order| ==> order[q] < x)
    && 0 <= p <= |order| && Heights(r0)[x] == newLevel <= r0.maxLevel && newLevel <= |ups|
    && (forall l :: 0 <= l < newLevel ==> Pred(Heights(r0), order, p, l, ups[l]))
  }

  lemma SpliceStart(s: SkipList, order: seq<int>, k: int, lvl: int, p: int, ups: seq<int>)
    requires Valid(s, order) && 1 <= lvl <= s.maxAllowedLevel && lvl <= s.maxLevel + 1
    requires Splits(s, order, k, p)
    requires s.maxLevel <= |ups| && lvl <= |ups|
    requires forall l :: 0 <= l < s.maxLevel ==> Pred(Heights(s), order, p, l, ups[l])
    requires forall l :: s.maxLevel <= l < |ups| ==> ups[l] == -1
    ensures var r0 := Prepared(s, k, lvl);
      Splicing(r0, r0, order, p, |s.nodes|, 0, lvl) && SpliceFixed(r0, order, p, ups, |s.nodes|, lvl)
  {
    PreparedFacts(s, order, k, lvl);
    var r0 := Prepared(s, k, lvl);
    var x := |s.nodes|;
    var h, h0 := Heights(s), Heights(r0);
    AscendingDistinct(s, order);
    assert forall q :: 0 <= q < |order| ==> h0[order[q]] == h[order[q]] <= s.maxLevel;
    forall l | 0 <= l < lvl ensures Pred(h0, order, p, l, ups[l]) {
      if l < s.maxLevel {
        assert Pred(h, order, p, l, ups[l]);
      }
    }
    forall l | lvl <= l < r0.maxLevel ensures LevelLinked(r0, Ins(order, p, x), l) {
      OffLevel(r0, order, p, x, l);
    }
  }

  lemma SpliceStep(r: SkipList, r0: SkipList, order: seq<int>, p: int, ups: seq<int>, x: int, i: int, newLevel: int)
    requires Splicing(r, r0, order, p, x, i, newLevel) && SpliceFixed(r0, order, p, ups, x, newLevel)
    requires 0 <= i < newLevel
    ensures Splicing(Splice(r, Src(order, ups[i]), x, i), r0, order, p, x, i + 1, newLevel)
  {
    var a := Src(order, ups[i]);
    var r2 := Splice(r, a, x, i);
    SpliceLevel(r, order, p, ups[i], x, i);
    forall l | 0 <= l < r.maxLevel && l != i ensures SameLane(r, r2, l) {
    }
    forall l | 0 <= l < i ensures LevelLinked(r2, Ins(order, p, x), l) {
      LaneFrame(r, r2, Ins(order, p, x), l);
    }
    forall l | i < l < newLevel ensures LevelLinked(r2, order, l) {
      LaneFrame(r, r2, order, l);
    }
    forall l | newLevel <= l < r.maxLevel ensures LevelLinked(r2, Ins(order, p, x), l) {
      LaneFrame(r, r2, Ins(order, p, x), l);
    }
  }

  /** Keys stay ascending when `k` is placed at its split position. */
  lemma InsAscending(s: SkipList, order: seq<int>, k: int, p: int, r: SkipList)
    requires InArena(|s.nodes|, order) && Ascending(s, order) && Splits(s, order, k, p)
    requires k !in Elements(s, order)
    requires |r.nodes| == |s.nodes| + 1 && r.nodes[|s.nodes|].key == k
    requires forall n :: 0 < n < |s.nodes| ==> r.nodes[n].key == s.nodes[n].key
    ensures InArena(|r.nodes|, Ins(order, p, |s.nodes|)) && Ascending(r, Ins(order, p, |s.nodes|))
  {
    var o := Ins(order, p, |s.nodes|);
    MemberAtSplit(s, order, k, p);
    forall a, b | 0 <= a < b < |o| ensures r.nodes[o[a]].key < r.nodes[o[b]].key {
      if a < p && b < p {
        assert s.nodes[order[a]].key < s.nodes[order[b]].key;
      } else if b == p {
        assert s.nodes[order[a]].key < k;
      } else if a == p {
        assert k <= s.nodes[order[b - 1]].key;
      } else if a < p {
        assert s.nodes[order[a]].key < s.nodes[order[b - 1]].key;
      } else {
        assert s.nodes[order[a - 1]].key < s.nodes[order[b - 1]].key;
      }
    }
  }

  /** Every node of the extended order fits under the new height. */
  lemma InsBounded(s: SkipList, order: seq<int>, p: int, r: SkipList)
    requires InArena(|s.nodes|, order) && LevelsBounded(Heights(s), order, s.maxLevel) && 0 <= p <= |order|
    requires |r.nodes| == |s.nodes| + 1 && 1 <= Heights(r)[|s.nodes|] <= r.maxLevel && s.maxLevel <= r.maxLevel
    requires forall n :: 0 < n < |s.nodes| ==> Heights(r)[n] == Heights(s)[n]
    ensures InArena(|r.nodes|, Ins(order, p, |s.nodes|))
    ensures LevelsBounded(Heights(r), Ins(order, p, |s.nodes|), r.maxLevel)
  {
    var o := Ins(order, p, |s.nodes|);
    forall q | 0 <= q < |o| ensures 1 <= Heights(r)[o[q]] <= r.maxLevel {
      if q != p {
        var n := if q < p then order[q] else order[q - 1];
        assert o[q] == n && Heights(r)[n] == Heights(s)[n];
      }
    }
  }

  lemma SpliceEnd(s: SkipList, order: seq<int>, k: int, lvl: int, p: int, r: SkipList)
    requires Valid(s, order) && 1 <= lvl <= s.maxAllowedLevel && lvl <= s.maxLevel + 1
    requires Splits(s, order, k, p) && k !in Elements(s, order)
    requires Splicing(r, Prepared(s, k, lvl), order, p, |s.nodes|, lvl, lvl)
    ensures var o := Ins(order, p, |s.nodes|);
      && Valid(r, o)
      && |r.nodes| == |s.nodes| + 1
      && Keys(r, o) == Keys(s, order)[..p] + [k] + Keys(s, order)[p..]
      && Heights(r)[|s.nodes|] == lvl
      && (forall n :: 0 < n < |s.nodes| ==> Heights(r)[n] == Heights(s)[n])
      && r.maxLevel == (if lvl > s.maxLevel then lvl else s.maxLevel)
      && Elements(r, o) == Elements(s, order) + {k}
      && r.maxAllowedLevel == s.maxAllowedLevel && r.probability == s.probability
  {
    PreparedFacts(s, order, k, lvl);
    var r0 := Prepared(s, k, lvl);
    var x := |s.nodes|;
    var o := Ins(order, p, x);
    assert forall n :: 0 < n < |s.nodes| ==> r.nodes[n].key == s.nodes[n].key;
    assert r.nodes[x].key == k;
    MemberAtSplit(s, order, k, p);
    InsAscending(s, order, k, p, r);
    InsBounded(s, order, p, r);
    KeysIns(r, order, p, x);
    ElementsIns(r, order, p, x);
    assert Keys(r, order) == Keys(s, order);
  }

  /** A fresh node that reaches the new height, or the old tallest node, keeps the top level non-empty. */
  lemma InsertTight(s: SkipList, order: seq<int>, r: SkipList, p: int, lvl: int)
    requires Valid(s, order) && Tight(s) && 0 <= p <= |order|
    requires |r.nodes| == |s.nodes| + 1 && Valid(r, Ins(order, p, |s.nodes|))
    requires Heights(r)[|s.nodes|] == lvl
    requires forall n :: 0 < n < |s.nodes| ==> Heights(r)[n] == Heights(s)[n]
    requires r.maxLevel == (if lvl > s.maxLevel then lvl else s.maxLevel)
    ensures Tight(r)
  {
    var o := Ins(order, p, |s.nodes|);
    TightWitness(s, order);
    TightWitness(r, o);
    if lvl == r.maxLevel {
      assert o[p] == |s.nodes|;
    } else if r.maxLevel > 1 {
      var q :| 0 <= q < |order| && Heights(s)[order[q]] == s.maxLevel;
      var q' := if q < p then q else q + 1;
      assert o[q'] == order[q];
    }
  }

  /**
    The update array resized to `newLevel` with nulls, and each new entry then
    set to the head: on the levels the list did not have yet, the head is the
    predecessor of every position.
   */
  method ExtendUpdate(update: seq<int>, newLevel: int) returns (u: seq<int>)
    requires |update| <= newLevel
    ensures |u| == newLevel
    ensures forall l :: 0 <= l < |update| ==> u[l] == update[l]
    ensures forall l :: |update| <= l < newLevel ==> u[l] == Head
  {
    u := update + seq(newLevel - |update|, _ => Null);
    for i := |update| to newLevel
      invariant |u| == newLevel
      invariant forall l :: 0 <= l < |update| ==> u[l] == update[l]
      invariant forall l :: |update| <= l < i ==> u[l] == Head
    {
      u := u[i := Head];
    }
  }

  /**
    The splice loop: on each level below `newLevel` the new node `x` takes over
    the link of its recorded predecessor, which then links to `x`. Afterwards
    every level is linked in the order with `x` at position `p`.
   */
  method SpliceAll(r0: SkipList, ghost order: seq<int>, ghost p: int, x: int,
                   update: seq<int>, ghost ups: seq<int>, newLevel: int)
      returns (r: SkipList)
    requires Splicing(r0, r0, order, p, x, 0, newLevel) && SpliceFixed(r0, order, p, ups, x, newLevel)
    requires newLevel <= |update| && forall l :: 0 <= l < newLevel ==> update[l] == Src(order, ups[l])
    ensures Splicing(r, r0, order, p, x, newLevel, newLevel)
  {
    r := r0;
    for i := 0 to newLevel
      invariant Splicing(r, r0, order, p, x, i, newLevel)
    {
      SpliceStep(r, r0, order, p, ups, x, i, newLevel);
      var succ := r.nodes[update[i]].next[i];
      r := SetLink(r, x, i, succ);
      r := SetLink(r, update[i], i, x);
    }
  }

  /**
    `insert(key)` with the level `lvl` that `randomLevel` drew. A present key
    leaves the list untouched; a fresh key gets a node linked on exactly the
    levels 0..lvl-1, at its sorted position, and no other node changes level.
   */
  method Insert(s: SkipList, ghost order: seq<int>, k: int, lvl: int)
      returns (r: SkipList, ghost order': seq<int>, ghost p: int)
    requires Valid(s, order)
    requires 1 <= lvl <= s.maxAllowedLevel && lvl <= s.maxLevel + 1
    ensures Valid(r, order')
    ensures Splits(s, order, k, p)
    ensures k in Elements(s, order) ==> r == s && order' == order
    ensures k !in Elements(s, order) ==>
              && |r.nodes| == |s.nodes| + 1
              && order' == Ins(order, p, |s.nodes|)
              && Keys(r, order') == Keys(s, order)[..p] + [k] + Keys(s, order)[p..]
              && Heights(r)[|s.nodes|] == lvl
              && (forall n :: 0 < n < |s.nodes| ==> Heights(r)[n] == Heights(s)[n])
              && r.maxLevel == (if lvl > s.maxLevel then lvl else s.maxLevel)
    ensures Elements(r, order') == Elements(s, order) + {k}
    ensures Tight(s) ==> Tight(r)
    ensures r.maxAllowedLevel == s.maxAllowedLevel && r.probability == s.probability
  {
    var update: seq<int>;
    ghost var ups: seq<int>;
    update, ups, p := Descend(s, order, k);
    var cur := s.nodes[update[0]].next[0];
    MemberAtSplit(s, order, k, p);
    if cur != Null && s.nodes[cur].key == k {
      return s, order, p;
    }

    var newLevel := lvl;
    r := s;
    if newLevel > r.maxLevel {
      r := GrowHead(r, newLevel);
      update := ExtendUpdate(update, newLevel);
      ups := ups + seq(newLevel - s.maxLevel, _ => -1);
    }
    var x := |r.nodes|;
    r := r.(nodes := r.nodes + [Node(k, seq(newLevel, _ => Null))]);
    order' := Ins(order, p, x);

    SpliceStart(s, order, k, lvl, p, ups);
    r := SpliceAll(r, order, p, x, update, ups, newLevel);
    SpliceEnd(s, order, k, lvl, p, r);
    if Tight(s) {
      InsertTight(s, order, r, p, lvl);
    }
  }

  /**
    `insert(key)` as a whole: the level comes from `randomLevel` over the
    draws `draws`, and the key joins the elements whether or not it was there.
   */
  method InsertDrawn(s: SkipList, ghost order: seq<int>, k: int, draws: nat -> bool)
      returns (r: SkipList, ghost order': seq<int>)
    requires Valid(s, order)
    ensures Valid(r, order')
    ensures Elements(r, order') == Elements(s, order) + {k}
    ensures k in Elements(s, order) ==> r == s
    ensures k !in Elements(s, order) ==> |order'| == |order| + 1 && s.maxLevel <= r.maxLevel <= s.maxLevel + 1
    ensures Tight(s) ==> Tight(r)
    ensures r.maxAllowedLevel == s.maxAllowedLevel && r.probability == s.probability
  {
    var lvl := RandomLevel(s, draws);
    ghost var p;
    r, order', p := Insert(s, order, k, lvl);
  }
}
