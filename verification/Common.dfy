/** Small things that several modules need. */
module Common {

  datatype Option<T> = None | Some(value: T)

  function Repeat<T>(x: T, n: nat): (s: seq<T>)
    ensures |s| == n && forall i :: 0 <= i < n ==> s[i] == x
  {
    seq(n, _ => x)
  }

  /** The next multiple, by dividing and multiplying; for negative numbers too, it rounds up. */
  function RoundUp(n: int, unit: int): (r: int)
    requires unit > 0
    ensures n <= r < n + unit
  {
    var x := n + unit - 1;
    assert x == x / unit * unit + x % unit;
    x / unit * unit
  }

  lemma DivModUnique(x: int, m: int, q: int, r: int)
    requires m > 0 && x == m * q + r && 0 <= r < m
    ensures x / m == q && x % m == r
  {
    var q', r' := x / m, x % m;
    assert m * (q - q') == r' - r;
    assert q - q' >= 1 ==> m * (q - q') >= m;
    assert q - q' <= -1 ==> m * (q - q') <= -m;
  }

  /** Two multiples less than a unit apart are the same. */
  lemma SameMultiple(x: int, y: int, unit: int)
    requires unit > 0 && x % unit == 0 && y % unit == 0 && x <= y < x + unit
    ensures x == y
  {
    var p := x / unit;
    assert x == unit * p;
    DivModUnique(y, unit, p, y - x);
  }

  lemma RoundUpIsMultiple(n: int, unit: int)
    requires unit > 0
    ensures RoundUp(n, unit) % unit == 0
  {
    DivModUnique(RoundUp(n, unit), unit, (n + unit - 1) / unit, 0);
  }
}
