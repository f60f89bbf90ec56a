/**
  Construction, `resetToEmpty` and the two move operations
  (include/skip_list.hpp:186-195, 210-250, 360-365).

  A list whose head pointer is null (the moment between a move taking the head
  and `resetToEmpty` rebuilding one) is an arena with no nodes. Object identity,
  which move assignment tests with `this != &other`, is modelled by a store of
  lists indexed by object ids.
 */
module Lifecycle {
  import opened Arena

  type ObjId = nat

  /** The constructor's default arguments. */
  const DefaultProbability: real := 0.5
  const DefaultMaxAllowedLevel: int := 32

  /** A head node with `height` null links; its key is the default `int`, 0. */
  function FreshHead(height: int): Node
    requires 0 <= height
  {
    Node(0, seq(height, _ => Null))
  }

  /**
    The constructor: height 1 and a fresh head whose single link is null.
    Neither argument is checked; the list satisfies the invariant whenever the
    cap admits at least one level.
   */
  function Create(probability: real, maxAllowedLevel: int): (r: SkipList)
    ensures r.maxLevel == 1 && |r.nodes| == 1 && r.nodes[Head].next == [Null]
    ensures 1 <= maxAllowedLevel ==> Valid(r, []) && Tight(r)
    ensures Keys(r, []) == [] && Elements(r, []) == {}
    ensures r.maxAllowedLevel == maxAllowedLevel && r.probability == probability
  {
    SkipList([FreshHead(1)], 1, maxAllowedLevel, probability)
  }

  /** `resetToEmpty`: rebuild a head, sized to the current height, only when there is none. */
  function ResetToEmpty(s: SkipList): (r: SkipList)
    requires 0 <= s.maxLevel
    ensures 1 <= |r.nodes|
    ensures s.nodes != [] ==> r == s
    ensures s.nodes == [] ==>
              && |r.nodes| == 1 && |r.nodes[Head].next| == s.maxLevel
              && (forall l :: 0 <= l < s.maxLevel ==> r.nodes[Head].next[l] == Null)
              && r.maxLevel == s.maxLevel
    ensures r.maxAllowedLevel == s.maxAllowedLevel && r.probability == s.probability
  {
    if s.nodes == [] then s.(nodes := [FreshHead(s.maxLevel)]) else s
  }

  /** A moved-from list of height 1 becomes a valid empty list. */
  lemma ResetMovedFrom(s: SkipList)
    requires s.nodes == [] && s.maxLevel == 1 && 1 <= s.maxAllowedLevel
    ensures Valid(ResetToEmpty(s), []) && Tight(ResetToEmpty(s))
    ensures Elements(ResetToEmpty(s), []) == {}
  {
  }

  /**
    The transfer common to both moves: the destination takes the head and the
    height (the source's height becomes 1 and its head null) and copies the cap
    and the probability; a missing head is rebuilt; then the source is reset.
   */
  function Transfer(other: SkipList): (r: (SkipList, SkipList))
    requires 1 <= other.maxLevel
  {
    var dst := SkipList(other.nodes, other.maxLevel, other.maxAllowedLevel, other.probability);
    var src := other.(nodes := [], maxLevel := 1);
    var dst' := if dst.nodes == [] then dst.(nodes := [FreshHead(dst.maxLevel)]) else dst;
    (dst', ResetToEmpty(src))
  }

  /**
    The move constructor `SkipList(SkipList&& other)` building object `self`:
    `self` holds what `other` held, `other` is a fresh empty list of height 1.
   */
  method MoveConstruct(store: map<ObjId, SkipList>, self: ObjId, other: ObjId, ghost order: seq<int>)
      returns (store': map<ObjId, SkipList>)
    requires other in store && self !in store && Valid(store[other], order)
    ensures store'.Keys == store.Keys + {self}
    ensures forall id :: id in store && id != other ==> store'[id] == store[id]
    ensures store'[self] == store[other]
    ensures Valid(store'[self], order) && Keys(store'[self], order) == Keys(store[other], order)
    ensures Elements(store'[self], order) == Elements(store[other], order)
    ensures store'[self].maxLevel == store[other].maxLevel
    ensures store'[self].maxAllowedLevel == store[other].maxAllowedLevel
    ensures store'[self].probability == store[other].probability
    ensures Valid(store'[other], []) && |store'[other].nodes| == 1 && store'[other].maxLevel == 1
    ensures store'[other].maxAllowedLevel == store[other].maxAllowedLevel
    ensures store'[other].probability == store[other].probability
  {
    var moved := Transfer(store[other]);
    store' := store[self := moved.0][other := moved.1];
  }

  /**
    Move assignment `self = std::move(other)`. Assigning a list to itself
    changes nothing; otherwise `self`'s nodes are released, `self` takes over
    `other`'s list and `other` is left a fresh empty list of height 1.
   */
  method MoveAssign(store: map<ObjId, SkipList>, self: ObjId, other: ObjId, ghost order: seq<int>)
      returns (store': map<ObjId, SkipList>)
    requires self in store && other in store && Valid(store[other], order)
    ensures store'.Keys == store.Keys
    ensures forall id :: id in store && id != self && id != other ==> store'[id] == store[id]
    ensures self == other ==> store' == store
    ensures self != other ==>
              && store'[self] == store[other]
              && Valid(store'[self], order) && Keys(store'[self], order) == Keys(store[other], order)
              && Elements(store'[self], order) == Elements(store[other], order)
              && store'[self].maxLevel == store[other].maxLevel
              && store'[self].maxAllowedLevel == store[other].maxAllowedLevel
              && store'[self].probability == store[other].probability
              && Valid(store'[other], []) && |store'[other].nodes| == 1 && store'[other].maxLevel == 1
              && store'[other].maxAllowedLevel == store[other].maxAllowedLevel
              && store'[other].probability == store[other].probability
  {
    if self != other {
      // the old nodes of `self` are released: its arena is simply dropped
      var moved := Transfer(store[other]);
      store' := store[self := moved.0][other := moved.1];
    } else {
      store' := store;
    }
  }
}
