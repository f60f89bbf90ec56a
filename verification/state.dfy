/**
  The node arena of a skip list and the invariant that ties its per-level links
  to an abstract ascending sequence of nodes.

  A list is an arena of nodes addressed by index. Index 0 is the sentinel head,
  whose link count is the list height; `Null` (-1) plays the role of a null
  pointer. The abstraction `order` is the sequence of node indices met when
  walking level 0 from the head; it is ghost and never stored.
 */
module Arena {

  /** The null link. */
  const Null: int := -1

  /** Index of the sentinel head node. */
  const Head: int := 0

  /** A node: an immutable key and one forward link per level it occupies. */
  datatype Node = Node(key: int, next: seq<int>)

  /**
    The list state. `maxLevel` is the current height (the head's link count),
    `maxAllowedLevel` the cap fixed at construction, `probability` the promotion
    probability (only consumed by level generation, which is left to the caller).
   */
  datatype SkipList = SkipList(nodes: seq<Node>, maxLevel: int, maxAllowedLevel: int, probability: real)

  /** The link count of every node in the arena. */
  function Heights(s: SkipList): (h: seq<int>)
    ensures |h| == |s.nodes|
    ensures forall n :: 0 <= n < |s.nodes| ==> h[n] == |s.nodes[n].next|
  {
    seq(|s.nodes|, n requires 0 <= n < |s.nodes| => |s.nodes[n].next|)
  }

  /** Redirects the level-`l` link of node `n` to `v`, leaving every other link alone. */
  function SetLink(s: SkipList, n: int, l: int, v: int): (r: SkipList)
    requires 0 <= n < |s.nodes| && 0 <= l < |s.nodes[n].next|
    ensures |r.nodes| == |s.nodes| && Heights(r) == Heights(s)
    ensures r.maxLevel == s.maxLevel && r.maxAllowedLevel == s.maxAllowedLevel
    ensures r.nodes[n].next[l] == v
    ensures forall n', l' :: 0 <= n' < |s.nodes| && 0 <= l' < |s.nodes[n'].next| && (n', l') != (n, l)
              ==> r.nodes[n'].next[l'] == s.nodes[n'].next[l']
    ensures forall n' :: 0 <= n' < |s.nodes| ==> r.nodes[n'].key == s.nodes[n'].key
  {
    var r := s.(nodes := s.nodes[n := s.nodes[n].(next := s.nodes[n].next[l := v])]);
    assert Heights(r) == Heights(s);
    r
  }

  /** Every link in the arena is null or names a node of the arena. */
  ghost predicate Closed(s: SkipList) {
    forall n, l :: 0 <= n < |s.nodes| && 0 <= l < |s.nodes[n].next| ==>
      s.nodes[n].next[l] == Null || 0 <= s.nodes[n].next[l] < |s.nodes|
  }

  /** The head exists, its link count is the height, and 1 <= height <= cap. */
  ghost predicate WellFormed(s: SkipList) {
    && 1 <= |s.nodes|
    && s.maxLevel == |s.nodes[Head].next|
    && 1 <= s.maxLevel <= s.maxAllowedLevel
    && Closed(s)
  }

  /** `order` names non-head nodes of an arena of size `size`. */
  ghost predicate InArena(size: int, order: seq<int>) {
    1 <= size && forall i :: 0 <= i < |order| ==> 0 < order[i] < size
  }

  /** Every listed node occupies between 1 and `height` levels. */
  ghost predicate LevelsBounded(h: seq<int>, order: seq<int>, height: int)
    requires InArena(|h|, order)
  {
    forall i :: 0 <= i < |order| ==> 1 <= h[order[i]] <= height
  }

  /** The keys met along `order` are strictly increasing. */
  ghost predicate Ascending(s: SkipList, order: seq<int>)
    requires InArena(|s.nodes|, order)
  {
    forall i, j :: 0 <= i < j < |order| ==> s.nodes[order[i]].key < s.nodes[order[j]].key
  }

  ghost predicate Distinct(order: seq<int>) {
    forall i, j :: 0 <= i < j < |order| ==> order[i] != order[j]
  }

  /** The node at order position `j`, where position -1 is the head. */
  function Src(order: seq<int>, j: int): int
    requires -1 <= j < |order|
  {
    if j < 0 then Head else order[j]
  }

  /** The node at order position `m`, where position |order| is the null link. */
  function Target(order: seq<int>, m: int): int
    requires 0 <= m <= |order|
  {
    if m == |order| then Null else order[m]
  }

  /** Position `m` takes part in level `l` (the null end takes part in every level). */
  ghost predicate Above(h: seq<int>, order: seq<int>, m: int, l: int)
    requires InArena(|h|, order) && 0 <= m <= |order|
  {
    m == |order| || l < h[order[m]]
  }

  /** No node strictly between positions `j` and `m` takes part in level `l`. */
  ghost predicate Gap(h: seq<int>, order: seq<int>, j: int, m: int, l: int)
    requires InArena(|h|, order) && -1 <= j && m <= |order|
  {
    forall q :: j < q < m ==> h[order[q]] <= l
  }

  /**
    Level `l` is linked in `order`: each node on level `l` links at level `l` to
    the next node of `order` on level `l`, or to null when there is none.
   */
  ghost predicate LevelLinked(s: SkipList, order: seq<int>, l: int)
    requires InArena(|s.nodes|, order)
  {
    forall j, m :: LinkPre(Heights(s), order, j, m, l) ==> s.nodes[Src(order, j)].next[l] == Target(order, m)
  }

  /**
    Position `j` (the head when -1) is on level `l`, and `m` is the next
    position after it on level `l` (|order| when there is none).
   */
  ghost predicate LinkPre(h: seq<int>, order: seq<int>, j: int, m: int, l: int)
    requires InArena(|h|, order)
  {
    -1 <= j < m <= |order| && 0 <= l < h[Src(order, j)] && Above(h, order, m, l) && Gap(h, order, j, m, l)
  }

  /** The representation invariant, relative to the level-0 order of nodes. */
  ghost predicate Valid(s: SkipList, order: seq<int>) {
    && WellFormed(s)
    && InArena(|s.nodes|, order)
    && LevelsBounded(Heights(s), order, s.maxLevel)
    && Ascending(s, order)
    && forall l :: 0 <= l < s.maxLevel ==> LevelLinked(s, order, l)
  }

  /** The keys along level 0, in order: what iteration yields. */
  ghost function Keys(s: SkipList, order: seq<int>): (ks: seq<int>)
    requires InArena(|s.nodes|, order)
    ensures |ks| == |order|
    ensures forall i :: 0 <= i < |order| ==> ks[i] == s.nodes[order[i]].key
  {
    seq(|order|, i requires 0 <= i < |order| => s.nodes[order[i]].key)
  }

  /** The set of keys held by the list. */
  ghost function Elements(s: SkipList, order: seq<int>): set<int>
    requires InArena(|s.nodes|, order)
  {
    set i | 0 <= i < |order| :: s.nodes[order[i]].key
  }

  ghost predicate StrictlyAscending(xs: seq<int>) {
    forall i, j :: 0 <= i < j < |xs| ==> xs[i] < xs[j]
  }

  /** Top level non-empty unless the height is 1. */
  ghost predicate Tight(s: SkipList)
    requires WellFormed(s)
  {
    s.maxLevel == 1 || s.nodes[Head].next[s.maxLevel - 1] != Null
  }

  /** Some listed node reaches `height` levels. */
  ghost predicate Reaches(h: seq<int>, order: seq<int>, height: int)
    requires InArena(|h|, order)
  {
    exists q :: 0 <= q < |order| && h[order[q]] == height
  }

  /** The sequence of nodes present on level `l`, in level-0 order. */
  ghost function LevelNodes(h: seq<int>, order: seq<int>, l: int): (ns: seq<int>)
    requires InArena(|h|, order)
    ensures InArena(|h|, ns)
  {
    if order == [] then []
    else (if l < h[order[0]] then [order[0]] else []) + LevelNodes(h, order[1..], l)
  }

  // ---------------------------------------------------------------------------
  // Basic facts
  // ---------------------------------------------------------------------------

  lemma AscendingDistinct(s: SkipList, order: seq<int>)
    requires InArena(|s.nodes|, order) && Ascending(s, order)
    ensures Distinct(order)
  {
    forall i, j | 0 <= i < j < |order| ensures order[i] != order[j] {
      assert s.nodes[order[i]].key < s.nodes[order[j]].key;
    }
  }

  /** Distinct positions (head included) name distinct nodes. */
  lemma SrcInjective(order: seq<int>, size: int, j: int, u: int)
    requires InArena(size, order) && Distinct(order)
    requires -1 <= j < |order| && -1 <= u < |order| && j != u
    ensures Src(order, j) != Src(order, u)
  {
  }

  /** The link invariant read at one pair of positions. */
  lemma LinkAt(s: SkipList, order: seq<int>, l: int, j: int, m: int)
    requires InArena(|s.nodes|, order) && LevelLinked(s, order, l)
    requires LinkPre(Heights(s), order, j, m, l)
    ensures s.nodes[Src(order, j)].next[l] == Target(order, m)
  {
  }

  /**
    The first position after `j` that takes part in level `l` (|order| when none):
    the position a level-`l` link out of `j` must name.
   */
  ghost function FirstAbove(h: seq<int>, order: seq<int>, j: int, l: int): (m: int)
    requires InArena(|h|, order) && -1 <= j < |order|
    ensures j < m <= |order| && Above(h, order, m, l) && Gap(h, order, j, m, l)
    decreases |order| - j
  {
    if j + 1 == |order| || l < h[order[j + 1]] then j + 1
    else FirstAbove(h, order, j + 1, l)
  }

  /** Two gaps that meet at a node off the level form one gap. */
  lemma GapJoin(h: seq<int>, order: seq<int>, j: int, q: int, m: int, l: int)
    requires InArena(|h|, order) && -1 <= j <= q < m <= |order|
    requires Gap(h, order, j, q + 1, l) && Gap(h, order, q, m, l)
    ensures Gap(h, order, j, m, l)
  {
  }

  /** Links that agree on level `l` for every node preserve the level-`l` invariant. */
  ghost predicate SameLane(s1: SkipList, s2: SkipList, l: int) {
    && 0 <= l
    && |s1.nodes| <= |s2.nodes|
    && forall n :: 0 <= n < |s1.nodes| ==>
         && (l < |s1.nodes[n].next| <==> l < |s2.nodes[n].next|)
         && (l < |s1.nodes[n].next| ==> s1.nodes[n].next[l] == s2.nodes[n].next[l])
  }

  lemma LaneFrame(s1: SkipList, s2: SkipList, order: seq<int>, l: int)
    requires InArena(|s1.nodes|, order) && LevelLinked(s1, order, l)
    requires SameLane(s1, s2, l)
    ensures InArena(|s2.nodes|, order) && LevelLinked(s2, order, l)
  {
    var h1, h2 := Heights(s1), Heights(s2);
    forall j, m | LinkPre(h2, order, j, m, l)
      ensures s2.nodes[Src(order, j)].next[l] == Target(order, m)
    {
      assert Above(h1, order, m, l);
      assert Gap(h1, order, j, m, l) by {
        forall q | j < q < m ensures h1[order[q]] <= l {
          assert h2[order[q]] <= l;
        }
      }
      assert LinkPre(h1, order, j, m, l);
      LinkAt(s1, order, l, j, m);
    }
  }

  /** On a valid list the top level is non-empty exactly when some node is as tall as the head. */
  lemma TightWitness(s: SkipList, order: seq<int>)
    requires Valid(s, order)
    ensures Tight(s) <==> s.maxLevel == 1 || Reaches(Heights(s), order, s.maxLevel)
  {
    var h := Heights(s);
    var top := s.maxLevel - 1;
    var m := FirstAbove(h, order, -1, top);
    LinkAt(s, order, top, -1, m);
    if Reaches(h, order, s.maxLevel) {
      var q :| 0 <= q < |order| && h[order[q]] == s.maxLevel;
      assert m <= q;
    }
    if m < |order| {
      assert h[order[m]] == s.maxLevel;
    }
  }

  /** Two orders valid for one list agree on their first `i` positions: level 0 fixes each next node. */
  lemma {:induction false} OrderPrefix(s: SkipList, o1: seq<int>, o2: seq<int>, i: int)
    requires Valid(s, o1) && Valid(s, o2) && 0 <= i <= |o1| && i <= |o2|
    ensures o1[..i] == o2[..i]
    decreases i
  {
    if 0 < i {
      OrderPrefix(s, o1, o2, i - 1);
      assert 1 < i ==> o1[..i - 1][i - 2] == o1[i - 2] && o2[..i - 1][i - 2] == o2[i - 2];
      assert Src(o1, i - 2) == Src(o2, i - 2);
      LinkAt(s, o1, 0, i - 2, i - 1);
      LinkAt(s, o2, 0, i - 2, i - 1);
      assert o1[..i] == o1[..i - 1] + [o1[i - 1]];
      assert o2[..i] == o2[..i - 1] + [o2[i - 1]];
    }
  }

  /**
    The level-0 order is determined by the list: following level-0 links from
    the head admits exactly one valid order, so the keys of a list are its own.
   */
  lemma OrderUnique(s: SkipList, o1: seq<int>, o2: seq<int>)
    requires Valid(s, o1) && Valid(s, o2)
    ensures o1 == o2
    ensures Keys(s, o1) == Keys(s, o2) && Elements(s, o1) == Elements(s, o2)
  {
    var n := if |o1| <= |o2| then |o1| else |o2|;
    OrderPrefix(s, o1, o2, n);
    assert 0 < n ==> o1[..n][n - 1] == o1[n - 1] && o2[..n][n - 1] == o2[n - 1];
    assert Src(o1, n - 1) == Src(o2, n - 1);
    LinkAt(s, o1, 0, n - 1, n);
    LinkAt(s, o2, 0, n - 1, n);
    assert |o1| == |o2|;
    assert o1 == o1[..n] && o2 == o2[..n];
  }
}
