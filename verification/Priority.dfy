/** Hook types, and how LSPosed turns the priority a module asks for into the framework's. */
module Priority {
  datatype HookType = Before | After

  const INT_MIN := -0x8000_0000
  const INT_MAX := 0x7fff_ffff

  type Int32 = i: int | -0x8000_0000 <= i <= 0x7fff_ffff

  /** The framework's PRIORITY_DEFAULT is not part of this model; it only has to be a non-negative Int. */
  type DefaultPriority = d: Int32 | d >= 0

  function Normalize(d: DefaultPriority, p: Int32): Int32 {
    if 0 - d <= p <= d then d else p
  }

  /** Negation that stays within an Int. */
  function Negate(p: Int32): Int32 {
    if p == INT_MIN then INT_MAX
    else if p == INT_MAX then INT_MIN
    else -p
  }

  function FrameworkPriority(d: DefaultPriority, hookType: HookType, p: Int32): Int32 {
    var normalized := Normalize(d, p);
    if hookType == After then Negate(normalized) else normalized
  }

  /** What the framework is given: the default for every BEFORE priority between its negation and itself and
  that negation for AFTER, and otherwise what was asked for, for AFTER with the sign changed except that the
  two ends of the Ints change places. */
  lemma FrameworkPriorityIs(d: DefaultPriority, p: Int32)
    ensures 0 - d <= p <= d ==> FrameworkPriority(d, Before, p) == d
    ensures p < 0 - d || d < p ==> FrameworkPriority(d, Before, p) == p
    ensures 0 - d <= p <= d < INT_MAX ==> FrameworkPriority(d, After, p) == 0 - d
    ensures (p < 0 - d || d < p) && INT_MIN < p < INT_MAX ==> FrameworkPriority(d, After, p) == 0 - p
    ensures FrameworkPriority(d, After, INT_MIN) == INT_MAX
    ensures d < INT_MAX ==> FrameworkPriority(d, After, INT_MAX) == INT_MIN
  {
  }

  lemma NormalizeIsMonotone(d: DefaultPriority, p: Int32, q: Int32)
    requires p <= q
    ensures Normalize(d, p) <= Normalize(d, q)
  {
  }

  /** Negation reverses the order of all Ints; the only two it does not keep apart are the two least. */
  lemma NegateIsAntitone(p: Int32, q: Int32)
    requires p < q
    ensures Negate(p) >= Negate(q)
    ensures Negate(p) == Negate(q) <==> p == INT_MIN && q == INT_MIN + 1
  {
  }

  /** Hooks of one type are ordered by the framework as the module asked, for BEFORE the same way and for
  AFTER the other way round, up to the priorities that normalising or negating merges. */
  lemma FrameworkOrder(d: DefaultPriority, p: Int32, q: Int32)
    requires p < q
    ensures FrameworkPriority(d, Before, p) <= FrameworkPriority(d, Before, q)
    ensures FrameworkPriority(d, After, p) >= FrameworkPriority(d, After, q)
    ensures FrameworkPriority(d, Before, p) == FrameworkPriority(d, Before, q) <==> 0 - d <= p && q <= d
    ensures FrameworkPriority(d, After, p) == FrameworkPriority(d, After, q)
            <==> (0 - d <= p && q <= d) || (Normalize(d, p) == INT_MIN && Normalize(d, q) == INT_MIN + 1)
  {
  }
}
