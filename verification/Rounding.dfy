// Python's round to four decimal places: nearest, ties to even.
module Rounding {

  function RoundHalfEven(y: real): int {
    var n := y.Floor;
    var fraction := y - n as real;
    if fraction < 0.5 then n
    else if fraction > 0.5 then n + 1
    else if n % 2 == 0 then n else n + 1
  }

  // The score in units of 0.0001.
  function Units(x: real): int {
    RoundHalfEven(x * 10000.0)
  }

  function GridPoint(units: int): real {
    units as real / 10000.0
  }

  function Round4(x: real): real {
    GridPoint(Units(x))
  }

  // A multiple of 0.0001.
  ghost predicate OnGrid(x: real) {
    exists units: int :: x == GridPoint(units)
  }

  // The multiples of 0.0001 are the numbers that rounding leaves alone.
  lemma OnGridMeans(x: real)
    ensures OnGrid(x) <==> Round4(x) == x
  {
    if units: int :| x == GridPoint(units) {
      assert x * 10000.0 == units as real;
      RoundInteger(units);
    }
  }

  lemma RoundNearest(y: real)
    ensures -0.5 <= RoundHalfEven(y) as real - y <= 0.5
  {
  }

  lemma RoundInteger(k: int)
    ensures RoundHalfEven(k as real) == k
  {
  }

  lemma RoundMonotone(y: real, z: real)
    requires y <= z
    ensures RoundHalfEven(y) <= RoundHalfEven(z)
  {
    if y.Floor < z.Floor {
      assert y.Floor + 1 <= z.Floor;
    }
  }

  // Arguments at most half a unit apart round to the same or to neighbouring units.
  lemma RoundNearby(y: real, z: real)
    requires -0.5 <= y - z <= 0.5
    ensures -1 <= RoundHalfEven(y) - RoundHalfEven(z) <= 1
  {
    RoundNearest(y);
    RoundNearest(z);
    var d := RoundHalfEven(y) - RoundHalfEven(z);
    assert -1.5 <= d as real <= 1.5;
  }

  lemma Round4Units(x: real)
    ensures Units(Round4(x)) == Units(x)
    ensures OnGrid(Round4(x))
    ensures -0.00005 <= Round4(x) - x <= 0.00005
  {
    assert Round4(x) * 10000.0 == Units(x) as real;
    RoundInteger(Units(x));
    RoundNearest(x * 10000.0);
  }

  lemma Round4Range(x: real)
    requires 0.0 <= x <= 1.0
    ensures 0.0 <= Round4(x) <= 1.0
  {
    RoundInteger(0);
    RoundInteger(10000);
    RoundMonotone(0.0, x * 10000.0);
    RoundMonotone(x * 10000.0, 10000.0);
  }

  // Moving the number q + r/20 by e/20 carries it over the rounding midpoint on its nearer side,
  // or, from the midpoint itself, off the even neighbour.
  predicate CrossesMidpoint(q: int, r: int, e: real) {
    if r < 10 then r as real + e > 10.0 || (q % 2 == 1 && (r as real + e == 10.0 || r as real + e == -10.0))
    else if r > 10 then r as real + e < 10.0 || (q % 2 == 0 && r as real + e == 10.0)
    else (e > 0.0 && q % 2 == 0) || (e < 0.0 && q % 2 == 1)
  }

  // A number at most half below q, or at most one and a half above it, rounds by its distance to q.
  lemma RoundFrom(q: int, x: real)
    requires -0.5 <= x < 1.5
    ensures RoundHalfEven(q as real + x) ==
            if x == -0.5 && q % 2 == 1 then q - 1
            else if x < 0.5 || (x == 0.5 && q % 2 == 0) then q else q + 1
  {
    var y := q as real + x;
    assert y.Floor == if x < 0.0 then q - 1 else if x < 1.0 then q else q + 1;
  }

  // Moving by at most half a unit changes the rounding exactly then.
  lemma RoundsApart(q: int, r: int, e: real)
    requires 0 <= r < 20 && -10.0 <= e <= 10.0
    ensures RoundHalfEven(q as real + r as real / 20.0) != RoundHalfEven(q as real + (r as real + e) / 20.0)
            <==> CrossesMidpoint(q, r, e)
  {
    RoundFrom(q, r as real / 20.0);
    RoundFrom(q, (r as real + e) / 20.0);
    hide RoundHalfEven;
  }
}
