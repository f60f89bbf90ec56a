/**
  `randomLevel` (include/skip_list.hpp:253-259). The uniform draws are an
  input: `draws(n)` says whether the n-th draw fell below the promotion
  probability. Everything else is as in the loop: start at 1, and keep going
  up while the draw succeeds, the level is below the cap, and the level does
  not pass the current height plus one.
 */
module RandomLevels {
  import opened Arena

  method RandomLevel(s: SkipList, draws: nat -> bool) returns (level: int)
    ensures 1 <= level
    ensures 1 <= s.maxAllowedLevel ==> level <= s.maxAllowedLevel
    ensures 0 <= s.maxLevel ==> level <= s.maxLevel + 1
    // the level is one more than the run of successful draws, cut at the caps
    ensures forall n :: 0 <= n < level - 1 ==> draws(n)
    ensures level < s.maxAllowedLevel && level < s.maxLevel + 1 ==> !draws(level - 1)
  {
    level := 1;
    while draws(level - 1) && level < s.maxAllowedLevel && level < s.maxLevel + 1
      invariant 1 <= level
      invariant 1 <= s.maxAllowedLevel ==> level <= s.maxAllowedLevel
      invariant 0 <= s.maxLevel ==> level <= s.maxLevel + 1
      invariant forall n :: 0 <= n < level - 1 ==> draws(n)
      decreases s.maxAllowedLevel - level
    {
      level := level + 1;
    }
  }
}
