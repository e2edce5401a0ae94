/** The solver's System.Random, replaced by caller-supplied streams: the k-th
    call to Next uses draws(k) and the k-th call to NextDouble uses
    fractions(k), one shared position for both, as one generator serves both
    in the C# code. */
module Randomness {

  /** Next(minValue, maxValue) maps a raw draw into [minValue, maxValue):
      the upper bound is exclusive, and an empty range gives minValue. */
  function Ranged(raw: nat, minValue: int, maxValue: int): (r: int)
    requires minValue <= maxValue
    ensures minValue <= r
    ensures maxValue > minValue ==> r < maxValue
    ensures maxValue == minValue ==> r == minValue
  {
    if maxValue > minValue then minValue + raw % (maxValue - minValue) else minValue
  }

  /** Called with an inclusive-looking bound max - 1, Next never returns
      max - 1 once the range is not empty. */
  lemma TopNeverDrawn(raw: nat, minValue: int, maxValue: int)
    requires minValue < maxValue - 1
    ensures Ranged(raw, minValue, maxValue - 1) <= maxValue - 2
  {
  }

  /** The k-th raw draw and the k-th fraction of the two streams. */
  function Draw(draws: nat -> nat, k: nat): nat {
    draws(k)
  }

  function Fraction(fractions: nat -> real, k: nat): real {
    fractions(k)
  }

  class Prng {
    const draws: nat -> nat
    const fractions: nat -> real
    var cursor: nat

    constructor(draws: nat -> nat, fractions: nat -> real)
      ensures this.draws == draws && this.fractions == fractions && cursor == 0
    {
      this.draws := draws;
      this.fractions := fractions;
      cursor := 0;
    }

    /** System.Random.Next(minValue, maxValue); it throws when maxValue < minValue. */
    method Next(minValue: int, maxValue: int) returns (r: int)
      requires minValue <= maxValue
      modifies this
      ensures cursor == old(cursor) + 1
      ensures r == Ranged(Draw(draws, old(cursor)), minValue, maxValue)
    {
      r := Ranged(draws(cursor), minValue, maxValue);
      cursor := cursor + 1;
    }

    /** System.Random.NextDouble. */
    method NextDouble() returns (f: real)
      modifies this
      ensures cursor == old(cursor) + 1
      ensures f == Fraction(fractions, old(cursor))
    {
      f := fractions(cursor);
      cursor := cursor + 1;
    }
  }
}
