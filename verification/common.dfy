/** Small shared vocabulary: an optional value (JavaScript's `undefined`
    result of an optional-chained lookup) and one fact about successor
    modulo `m` that both cyclic counters of the page rely on. */
module Common {

  /** A lookup that may come back empty. */
  datatype Option<T> = None | Some(value: T) {

    /** The value found, falling back to `default` for an empty lookup. */
    function GetOr(default: T): T {
      if Some? then value else default
    }
  }

  /** A quotient-remainder decomposition with the remainder in range is the
      one `%` computes. */
  lemma ModOfDecomposition(a: int, m: int, q: int, r: int)
    requires m > 0 && 0 <= r < m && a == q * m + r
    ensures a % m == r
  {
    var k := q - a / m;
    assert k * m == a % m - r;
  }

  /** Stepping a residue modulo `m` by one wraps from `m - 1` to `0`. */
  lemma SuccMod(a: int, m: int)
    requires a >= 0 && m > 0
    ensures a % m == m - 1 ==> (a + 1) % m == 0
    ensures a % m < m - 1 ==> (a + 1) % m == a % m + 1
  {
    var q := a / m;
    var r := a % m;
    if r == m - 1 {
      ModOfDecomposition(a + 1, m, q + 1, 0);
    } else {
      ModOfDecomposition(a + 1, m, q, r + 1);
    }
  }
}
