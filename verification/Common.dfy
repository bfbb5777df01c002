/** What several modules share. */
module Common {

  datatype Option<+T> = None | Some(value: T)

  lemma Far(d: int, p: nat)
    requires p > 0 && d != 0
    ensures p * d >= p || p * d + p <= 0
  {
    if d > 0 { assert p * (d - 1) >= 0; } else { assert p * (-d - 1) >= 0; }
  }

  /** A number written as a multiple of `p` and a rest below `p` has that rest. */
  lemma ModIs(x: int, p: nat, q: int, r: int)
    requires p > 0 && 0 <= r < p && x == p * q + r
    ensures x % p == r
  {
    var d := x / p - q;
    assert x == p * (x / p) + x % p;
    assert p * d == r - x % p;
    if d != 0 { Far(d, p); }
  }
}
