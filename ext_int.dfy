/** Integers extended with the two infinities that the searches use as initial
    values (float('inf') and math.inf in the Python sources). */
module ExtInts {
  datatype ExtInt = NegInf | Fin(n: int) | PosInf

  /** a <= b in the extended order. */
  predicate Le(a: ExtInt, b: ExtInt)
  {
    a.NegInf? || b.PosInf? || (a.Fin? && b.Fin? && a.n <= b.n)
  }

  /** a < b in the extended order. */
  predicate Lt(a: ExtInt, b: ExtInt)
  {
    Le(a, b) && a != b
  }

  /** Python's max on two values. */
  function Max(a: ExtInt, b: ExtInt): (m: ExtInt)
    ensures Le(a, m) && Le(b, m)
    ensures m == a || m == b
  {
    if Le(a, b) then b else a
  }

  /** Python's min on two values. */
  function Min(a: ExtInt, b: ExtInt): (m: ExtInt)
    ensures Le(m, a) && Le(m, b)
    ensures m == a || m == b
  {
    if Le(a, b) then a else b
  }

  lemma LeTransitive(a: ExtInt, b: ExtInt, c: ExtInt)
    requires Le(a, b) && Le(b, c)
    ensures Le(a, c)
  {
  }
}
