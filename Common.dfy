/** Small shared vocabulary of the model: optional values, table cells that
    may hold pandas' missing value, and Python's conversion of a float to int. */
module Common {

  datatype Option<T> = None | Some(value: T)

  datatype Result<T, E> = Ok(value: T) | Err(error: E)

  /** range(200): the frames both the aligned table and the per-frame
      statistics cover. */
  const FrameCount: nat := 200

  /** One cell of a numeric table column: a number, or NaN (missing). */
  datatype Cell = Missing | Num(v: int)

  /** `int(r)` / `astype(int)` on a float: truncation toward zero. */
  function Trunc(r: real): (n: int)
    ensures 0.0 <= r ==> 0 <= n && n as real <= r < n as real + 1.0
    ensures r < 0.0 ==> n <= 0 && n as real - 1.0 < r <= n as real
  {
    if r >= 0.0 then r.Floor else -((-r).Floor)
  }

  /** Truncation toward zero never reverses the order of two values. */
  lemma TruncMonotone(a: real, b: real)
    requires a <= b
    ensures Trunc(a) <= Trunc(b)
  {
  }

  /** Subtract `d` from a cell; NaN stays NaN, as in pandas. */
  function ShiftCell(c: Cell, d: int): (r: Cell)
    ensures r.Missing? <==> c.Missing?
    ensures c.Num? ==> r.v + d == c.v
  {
    match c
    case Missing => Missing
    case Num(v) => Num(v - d)
  }

  /** Subtracting nothing leaves a cell as it is. */
  lemma ShiftCellZero(c: Cell)
    ensures ShiftCell(c, 0) == c
  {
  }

  /** Two successive subtractions are one subtraction of the sum. */
  lemma ShiftCellTwice(c: Cell, a: int, b: int)
    ensures ShiftCell(ShiftCell(c, a), b) == ShiftCell(c, a + b)
  {
  }

  /** The multiset of a sequence is that of all but its last element, plus
      the last. */
  lemma MultisetSnoc<T>(s: seq<T>)
    requires |s| > 0
    ensures multiset(s) == multiset(s[..|s| - 1]) + multiset{s[|s| - 1]}
  {
    assert s == s[..|s| - 1] + [s[|s| - 1]];
  }
}
