/** What a run of either program reports, as a function of its arguments and
    its initial road, and the integer facts about that report. */
module Simulation {
  import opened Aggregate
  import opened Rule184
  import opened Ring

  /** Largest value of the C `int` the programs count in. */
  const IntMax := 0x7fff_ffff
  /** Largest value of the C `long long` that holds the cumulative moves. */
  const LongMax := 0x7fff_ffff_ffff_ffff

  datatype Option<T> = None | Some(value: T)

  /** The validation failures both programs report before any simulation. */
  datatype Error =
    | NonPositiveArguments   // N <= 0 or iterations <= 0
    | IndivisibleDomain      // the distributed program: N not a multiple of the rank count

  datatype Result<T> = Ok(value: T) | Err(error: Error)

  /** The integer part of the program's one line of output: either the
      zero-car line "0, 0.0, 0.0", printed without simulating, or the
      cumulative move count together with the car count it is divided by. */
  datatype Outcome = NoCars | Ran(globalMoves: int, totalCars: int)

  /** The report of a run on `init` (the `n` cells generated after the
      arguments were accepted): the sum of the move counts of `iterations`
      ring steps, unless the road has no cars. */
  function Expected(n: int, iterations: int, init: seq<int>): Result<Outcome>
    requires n <= 0 || |init| == n
  {
    if n <= 0 || iterations <= 0 then Err(NonPositiveArguments)
    else if Sum(init) == 0 then Ok(NoCars)
    else Ok(Ran(TotalMoves(init, iterations), Sum(init)))
  }

  /** The distributed program rejects, in addition, a road that the ranks
      cannot share equally; otherwise it must report what the serial one
      does, whatever the number of ranks. */
  function ExpectedDistributed(n: int, size: int, iterations: int, init: seq<int>): Result<Outcome>
    requires size >= 1
    requires n <= 0 || |init| == n
  {
    if n <= 0 || iterations <= 0 then Err(NonPositiveArguments)
    else if n % size != 0 then Err(IndivisibleDomain)
    else Expected(n, iterations, init)
  }

  /** The car count of a road of cells is between 0 and its length, and is
      0 exactly when every cell is empty. */
  lemma {:induction false} CarCount(s: seq<int>)
    requires Binary(s)
    ensures 0 <= Sum(s) <= |s|
    ensures Sum(s) == 0 <==> forall i :: 0 <= i < |s| ==> s[i] == 0
  {
    if |s| > 0 {
      var m := |s| - 1;
      CarCount(s[..m]);
      if Sum(s) == 0 {
        forall i | 0 <= i < |s| ensures s[i] == 0 {
          if i < m {
            assert s[..m][i] == s[i];
          }
        }
      }
    }
  }

  /** What a run reports on a road of cells: the argument errors, the
      zero-car short circuit exactly for an all-empty road, and otherwise a
      car count within the road and a move total within iterations times
      that count. */
  lemma ExpectedReport(n: int, iterations: int, init: seq<int>)
    requires |init| == n && Binary(init)
    ensures Expected(n, iterations, init).Err? <==> n == 0 || iterations <= 0
    ensures Expected(n, iterations, init) == Ok(NoCars) <==>
      n > 0 && iterations > 0 && forall i :: 0 <= i < n ==> init[i] == 0
    ensures Expected(n, iterations, init).Ok? && Expected(n, iterations, init).value.Ran? ==>
      var o := Expected(n, iterations, init).value;
      0 < o.totalCars <= n && 0 <= o.globalMoves <= iterations * o.totalCars
  {
    CarCount(init);
    if n > 0 && iterations > 0 {
      TotalMovesBounded(init, iterations);
    }
  }

  /** The velocity denominator `iterations * total_cars` as the programs
      compute it: a product of two C `int`s, undefined (None) when it does
      not fit in an `int`. */
  function DenominatorAsWritten(iterations: int, totalCars: int): Option<int>
  {
    var p := iterations * totalCars;
    if -IntMax - 1 <= p <= IntMax then Some(p) else None
  }

  /** A road of `n` cars. */
  function AllCars(n: nat): (s: seq<int>)
    ensures |s| == n && Binary(s)
  {
    seq(n, i => 1)
  }

  lemma {:induction false} AllCarsCount(n: nat)
    ensures Sum(AllCars(n)) == n
  {
    if n > 0 {
      AllCarsCount(n - 1);
      assert AllCars(n)[..n - 1] == AllCars(n - 1);
    }
  }

  /** Accepted arguments for which the denominator as written overflows:
      32768 cells all occupied, run for 65536 iterations. */
  lemma DenominatorOverflows()
    ensures Expected(32768, 65536, AllCars(32768)) == Ok(Ran(TotalMoves(AllCars(32768), 65536), 32768))
    ensures DenominatorAsWritten(65536, 32768).None?
  {
    AllCarsCount(32768);
  }

  /** The two integers whose quotient is printed as the average velocity,
      with the product in the denominator taken in 64-bit arithmetic, as the
      cumulative move count already is. */
  function VelocityRatio(iterations: int, o: Outcome): (int, int)
    requires o.Ran?
  {
    (o.globalMoves, iterations * o.totalCars)
  }

  /** For every accepted run whose arguments fit in an `int`, both parts of
      the widened ratio fit in a `long long`, the denominator is positive and
      the numerator does not exceed it: the velocity lies in [0, 1]. */
  lemma VelocityRatioFits(n: int, iterations: int, init: seq<int>)
    requires |init| == n && Binary(init)
    requires n <= IntMax && iterations <= IntMax
    requires Expected(n, iterations, init).Ok? && Expected(n, iterations, init).value.Ran?
    ensures var (num, den) := VelocityRatio(iterations, Expected(n, iterations, init).value);
      0 <= num <= den <= LongMax && 0 < den
  {
    ExpectedReport(n, iterations, init);
    var o := Expected(n, iterations, init).value;
    assert iterations * o.totalCars <= IntMax * IntMax by {
      assert iterations * o.totalCars <= IntMax * o.totalCars;
    }
  }
}
