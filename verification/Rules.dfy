/** Ticket-field rules: a name with two inclusive ranges of accepted values. */
module Rules {

  /** The inclusive integer range `lo..=hi`; it is empty when `lo > hi`. */
  datatype Range = Range(lo: int, hi: int)

  datatype Rule = Rule(name: string, range1: Range, range2: Range)

  predicate Contains(r: Range, v: int)
  {
    r.lo <= v <= r.hi
  }

  /** A value is valid for a rule when either of its ranges contains it. */
  predicate Valid(rule: Rule, v: int)
  {
    Contains(rule.range1, v) || Contains(rule.range2, v)
  }

  /** A range whose low end exceeds its high end contains nothing, so a rule
      with such a first range accepts exactly what its second range holds. */
  lemma EmptyFirstRange(rule: Rule)
    requires rule.range1.lo > rule.range1.hi
    ensures forall v :: !Contains(rule.range1, v)
    ensures forall v :: Valid(rule, v) <==> Contains(rule.range2, v)
  {
  }
}
