/** A name that is always true. A definition of the form "for all t, Ask(t) implies
    X" means X, but a proof uses X only where it mentions Ask. It keeps facts with
    products and recursive functions out of the proofs that do not need them. */
module Hints {
  predicate Ask(t: int) { true }

  /** What a folded definition is about. */
  datatype Subject =
    | SimpleLines | OfferedOutcomes | StackDepths | SoundCode
    | LevelCode | AdvanceScans | SimpleScans | Comparisons
    | Shuffles | Heaps | OpenWork | RoundedNumbers
    | RoundingRules | RoundedMantissas | RightShifts | RangeChecks
    | CorrectRounding | LimbDigits | AddingLoops | LeftShifts
    | Congruences | ModularPowers | Transforms | MixedDigits
    | CarryLimbs | SumShapes | Convolutions

  /** Ask, for one subject among several. */
  predicate AskFor(subject: Subject, t: int) { true }
}
