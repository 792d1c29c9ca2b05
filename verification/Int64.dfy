/** Signed 64-bit arithmetic with wrap-around, as the service's int64 values behave. */
module Int64 {
  const MAX_INT64: int := 0x7FFF_FFFF_FFFF_FFFF
  const MIN_INT64: int := -0x8000_0000_0000_0000
  const TWO_64: int := 0x1_0000_0000_0000_0000

  predicate Representable(x: int) { MIN_INT64 <= x <= MAX_INT64 }

  function Wrap(x: int): (r: int)
    ensures Representable(r)
    ensures Representable(x) ==> r == x
    ensures exists turns :: x - r == turns * TWO_64
  {
    var r := (x - MIN_INT64) % TWO_64 + MIN_INT64;
    assert x - r == (x - MIN_INT64) / TWO_64 * TWO_64;
    r
  }

  /** Wrapping is the only representable value a whole number of turns away. */
  lemma WrapUnique(x: int, r: int, turns: int)
    requires Representable(r) && x - r == turns * TWO_64
    ensures Wrap(x) == r
  {
    var w :| x - Wrap(x) == w * TWO_64;
    assert Wrap(x) - r == (turns - w) * TWO_64;
    assert -TWO_64 < (turns - w) * TWO_64 < TWO_64;
  }

  /** Wrapping each partial product gives the same as wrapping the whole product. */
  lemma WrapTimes(x: int, y: int)
    ensures Wrap(Wrap(x) * y) == Wrap(x * y)
  {
    var t :| x - Wrap(x) == t * TWO_64;
    var u :| Wrap(x) * y - Wrap(Wrap(x) * y) == u * TWO_64;
    assert x * y - Wrap(x) * y == (t * TWO_64) * y == (t * y) * TWO_64 by { Spread(x, Wrap(x), y, t); }
    WrapUnique(x * y, Wrap(Wrap(x) * y), t * y + u);
  }

  lemma Spread(x: int, w: int, y: int, t: int)
    requires x - w == t * TWO_64
    ensures x * y - w * y == (t * TWO_64) * y == (t * y) * TWO_64
  {
    assert x * y - w * y == (x - w) * y;
  }
}
