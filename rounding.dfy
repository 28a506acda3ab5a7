// Math.round applied to an exact quotient: the nearest integer, a half
// rounded up. Completion percentages and heatmap colour steps are both
// such roundings.

module Rounding {

  /** Math.round(a / b) for b > 0: the integer r with a/b in [r - 1/2, r + 1/2). */
  function RoundDiv(a: int, b: int): (r: int)
    requires b > 0
    ensures b * (2 * r - 1) <= 2 * a < b * (2 * r + 1)
  {
    var r := (2 * a + b) / (2 * b);
    DivBounds(2 * a + b, 2 * b);
    r
  }

  lemma DivBounds(x: int, y: int)
    requires y > 0
    ensures y * (x / y) <= x < y * (x / y) + y
  {
  }

  /** The interval in the contract of RoundDiv holds for one integer only. */
  lemma RoundDivUnique(a: int, b: int, r: int)
    requires b > 0 && b * (2 * r - 1) <= 2 * a < b * (2 * r + 1)
    ensures r == RoundDiv(a, b)
  {
    var q := RoundDiv(a, b);
    if r < q {
      MulMonotone(b, 2 * r + 1, 2 * q - 1);
    } else if q < r {
      MulMonotone(b, 2 * q + 1, 2 * r - 1);
    }
  }

  lemma MulMonotone(b: int, x: int, y: int)
    requires b > 0 && x <= y
    ensures b * x <= b * y
  {
  }

  lemma RoundDivMonotone(a1: int, a2: int, b: int)
    requires b > 0 && a1 <= a2
    ensures RoundDiv(a1, b) <= RoundDiv(a2, b)
  {
    var r1, r2 := RoundDiv(a1, b), RoundDiv(a2, b);
    if r2 < r1 {
      MulMonotone(b, 2 * r2 + 1, 2 * r1 - 1);
    }
  }

  /** A whole quotient rounds to itself. */
  lemma RoundDivExact(i: int, b: int)
    requires b > 0
    ensures RoundDiv(i * b, b) == i
  {
    assert b * (2 * i - 1) == 2 * (i * b) - b;
    assert b * (2 * i + 1) == 2 * (i * b) + b;
    RoundDivUnique(i * b, b, i);
  }

  /** `Math.round((completed / total) * 100)`: the completion percent of a list of
      `total` records of which `completed` are done. */
  function Percent(completed: nat, total: nat): (p: nat)
    requires 0 < total && completed <= total
    ensures p <= 100
    ensures completed == total ==> p == 100
    ensures completed == 0 ==> p == 0
  {
    RoundDivMonotone(0, 100 * completed, total);
    RoundDivMonotone(100 * completed, 100 * total, total);
    RoundDivExact(0, total);
    RoundDivExact(100, total);
    assert 100 * total == 100 * total;
    RoundDiv(100 * completed, total)
  }

  /** The percent shows 100 exactly when at least 199 of every 200 records are done. */
  lemma PercentFull(completed: nat, total: nat)
    requires 0 < total && completed <= total
    ensures Percent(completed, total) == 100 <==> 199 * total <= 200 * completed
  {
    var p := Percent(completed, total);
    if 199 * total <= 200 * completed {
      assert total * (2 * 100 - 1) <= 2 * (100 * completed) < total * (2 * 100 + 1);
      RoundDivUnique(100 * completed, total, 100);
    }
  }

  /** For fewer than 200 records, 100 means every record is done. */
  lemma PercentFullSmall(completed: nat, total: nat)
    requires 0 < total < 200 && completed <= total
    ensures Percent(completed, total) == 100 <==> completed == total
  {
    PercentFull(completed, total);
  }

  /** 199 done out of 200 also rounds to 100. */
  lemma NearlyAllRoundsToFull()
    ensures Percent(199, 200) == 100 && 199 < 200
  {
    PercentFull(199, 200);
  }
}
