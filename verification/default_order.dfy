/** The `@DefaultOrder` annotation's sort direction and the comparator that
    orders annotations by their `order()` value. */
module DefaultOrder {
  import opened JavaNumbers

  /** Spring's `Sort.Direction`. */
  datatype Direction = Asc | Desc

  /** `Direction.toString()`, as printed into an ORDER BY clause. */
  function DirectionName(d: Direction): (r: string)
    ensures r == "ASC" || r == "DESC"
    ensures d == Asc <==> r == "ASC"
  {
    match d
    case Asc => "ASC"
    case Desc => "DESC"
  }

  const DEFAULT_ORDER: int := 1
  const DEFAULT_DIRECTION: Direction := Asc

  /** The comparator as written: `o1.order() - o2.order()` in 32-bit
      arithmetic, so the difference wraps when it leaves the `int` range. */
  function CompareAsWritten(o1: int, o2: int): (r: int)
    requires InInt(o1) && InInt(o2)
    ensures InInt(r)
    ensures InInt(o1 - o2) ==> r == o1 - o2
  {
    WrapInt32(o1 - o2)
  }

  /** The comparison the comparator evidently means (`Integer.compare`). */
  function Compare(o1: int, o2: int): (r: int)
    ensures r < 0 <==> o1 < o2
    ensures r == 0 <==> o1 == o2
    ensures r > 0 <==> o1 > o2
  {
    if o1 < o2 then -1 else if o1 == o2 then 0 else 1
  }

  /** Without overflow the comparator as written has the intended sign. */
  lemma AsWrittenAgreesWithoutOverflow(o1: int, o2: int)
    requires InInt(o1) && InInt(o2) && InInt(o1 - o2)
    ensures (CompareAsWritten(o1, o2) < 0) == (Compare(o1, o2) < 0)
    ensures (CompareAsWritten(o1, o2) == 0) == (Compare(o1, o2) == 0)
  {
  }

  /** With `Integer.MIN_VALUE` among the orders the comparator as written
      is not transitive: it places MIN_VALUE below 0, 0 below 1, and 1
      below MIN_VALUE, so a sorted map keyed by it has no consistent order. */
  lemma AsWrittenCycle()
    ensures CompareAsWritten(INT_MIN, 0) < 0
    ensures CompareAsWritten(0, 1) < 0
    ensures CompareAsWritten(1, INT_MIN) < 0
    ensures Compare(1, INT_MIN) > 0
  {
  }

  /** The intended comparison is a total order on the annotation values. */
  lemma CompareTotalOrder(a: int, b: int, c: int)
    ensures Compare(a, b) == -Compare(b, a)
    ensures Compare(a, b) < 0 && Compare(b, c) < 0 ==> Compare(a, c) < 0
  {
  }
}
