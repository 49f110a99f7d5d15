/**
 * Penalty scoring of a masked symbol (`maskTest` with `evaluateGroups`,
 * ISO/IEC 18004 section 7.8.3) and the choice of the mask with the lowest
 * score (the `reduce` in `makeMatrix`).
 */
module Penalty {
  import opened BitStream
  import opened Iso
  import opened Matrix
  import Capacity

  /** A module counts as dark when it holds 1; 0 and an empty cell read as light, as `!cell` does. */
  predicate Dark(c: Cell)
  {
    c == Val(1)
  }

  /** The darkness of each cell of a line. */
  function Shade(s: seq<Cell>): (d: seq<bool>)
    ensures |d| == |s|
  {
    seq(|s|, i requires 0 <= i < |s| => Dark(s[i]))
  }

  /** How many cells of darkness `d` follow one another from position `x` on. */
  function RunFrom(s: seq<Cell>, x: nat, d: bool): (k: nat)
    requires x <= |s|
    ensures x + k <= |s|
    ensures x < |s| && Dark(s[x]) == d ==> k >= 1
    decreases |s| - x
  {
    if x == |s| || Dark(s[x]) != d then 0 else 1 + RunFrom(s, x + 1, d)
  }

  /** The runs of the line from position `x` on, a light one first. */
  function GroupsFrom(s: seq<Cell>, x: nat): (g: seq<nat>)
    requires x <= |s|
    ensures |g| % 2 == 0
    decreases |s| - x
  {
    if x == |s| then []
    else
      var w := RunFrom(s, x, false);
      var b := RunFrom(s, x + w, true);
      [w, b] + GroupsFrom(s, x + w + b)
  }

  /**
   * The run lengths of a line as `maskTest` collects them in `groups`:
   * light and dark alternately, a light run first (of length 0 when the
   * line starts dark).
   */
  function Groups(s: seq<Cell>): (g: seq<nat>)
    ensures |g| % 2 == 0
  {
    GroupsFrom(s, 0)
  }

  function Repeat(d: bool, k: nat): (r: seq<bool>)
    ensures |r| == k && forall i :: 0 <= i < k ==> r[i] == d
  {
    seq(k, _ => d)
  }

  /** The line a list of alternating runs describes, light first. */
  function Expand(g: seq<nat>): seq<bool>
    requires |g| % 2 == 0
  {
    if |g| == 0 then [] else Repeat(false, g[0]) + Repeat(true, g[1]) + Expand(g[2..])
  }

  /** A run is all of one darkness and is followed by the other one. */
  lemma {:induction false} RunShade(s: seq<Cell>, x: nat, d: bool)
    requires x <= |s|
    ensures forall i :: x <= i < x + RunFrom(s, x, d) ==> Dark(s[i]) == d
    ensures x + RunFrom(s, x, d) < |s| ==> Dark(s[x + RunFrom(s, x, d)]) != d
    decreases |s| - x
  {
    if x < |s| && Dark(s[x]) == d {
      RunShade(s, x + 1, d);
    }
  }

  /** `groups` describes the line exactly: expanding the runs gives back the line's shades. */
  lemma {:induction false} GroupsRoundTrip(s: seq<Cell>, x: nat)
    requires x <= |s|
    ensures Expand(GroupsFrom(s, x)) == Shade(s)[x..]
    decreases |s| - x
  {
    if x < |s| {
      var w := RunFrom(s, x, false);
      var b := RunFrom(s, x + w, true);
      var g := GroupsFrom(s, x);
      assert g[2..] == GroupsFrom(s, x + w + b);
      GroupsRoundTrip(s, x + w + b);
      ShadeRuns(s, x, w, b);
    }
  }

  /** The shades from `x` on: a light run, a dark run, then the rest. */
  lemma ShadeRuns(s: seq<Cell>, x: nat, w: nat, b: nat)
    requires x <= |s| && w == RunFrom(s, x, false) && b == RunFrom(s, x + w, true)
    ensures Shade(s)[x..] == Repeat(false, w) + Repeat(true, b) + Shade(s)[x + w + b..]
  {
    RunShade(s, x, false);
    RunShade(s, x + w, true);
    SameShade(s, x, w, false);
    SameShade(s, x + w, b, true);
    ThreeParts(Shade(s), x, x + w, x + w + b);
  }

  lemma SameShade(s: seq<Cell>, x: nat, k: nat, d: bool)
    requires x + k <= |s|
    requires forall i :: x <= i < x + k ==> Dark(s[i]) == d
    ensures Shade(s)[x..x + k] == Repeat(d, k)
  {
  }

  lemma ThreeParts<T>(a: seq<T>, i: nat, j: nat, k: nat)
    requires i <= j <= k <= |a|
    ensures a[i..] == a[i..j] + a[j..k] + a[k..]
  {
  }

  /**
   * The runs are maximal: every run but the first and the last is at least
   * one module long, so neighbouring runs never have the same darkness.
   */
  lemma {:induction false} GroupsMaximal(s: seq<Cell>, x: nat)
    requires x <= |s|
    ensures forall i :: 0 < i < |GroupsFrom(s, x)| - 1 ==> GroupsFrom(s, x)[i] > 0
    decreases |s| - x
  {
    if x < |s| {
      var w := RunFrom(s, x, false);
      var b := RunFrom(s, x + w, true);
      GroupsMaximal(s, x + w + b);
      RunShade(s, x, false);
      RunShade(s, x + w, true);
      if x + w + b < |s| {
        assert b > 0;
        assert RunFrom(s, x + w + b, false) > 0;
      }
    }
  }

  // ---- evaluateGroups ----

  /** CONSECUTIVE: a run of five or more modules costs 3, plus 1 per module beyond five. */
  function RunPenalty(len: nat): (p: nat)
    ensures len < 5 <==> p == 0
  {
    if len >= 5 then PENALTY_CONSECUTIVE + (len - 5) else 0
  }

  function ConsecutiveSum(g: seq<nat>, k: nat): nat
    requires k <= |g|
  {
    if k == 0 then 0 else ConsecutiveSum(g, k - 1) + RunPenalty(g[k - 1])
  }

  /**
   * FINDERLIKE at dark run `i`: runs dark 1, light 1, dark 3, light 1,
   * dark 1, with a light run of at least 4 on one side; a side past the end
   * of the line does not count.
   */
  function FinderAt(g: seq<nat>, i: nat): (b: bool)
    requires 5 <= i < |g|
    ensures b ==> g[i - 4] + g[i - 3] + g[i - 2] + g[i - 1] + g[i] == 7 && g[i - 2] == 3 * g[i]
  {
    g[i] == 1 && g[i - 1] == 1 && g[i - 2] == 3 && g[i - 3] == 1 && g[i - 4] == 1 &&
    (g[i - 5] >= 4 || (i + 1 < |g| && g[i + 1] >= 4))
  }

  /** The finder-like patterns at the dark runs `5, 7, ...` below `k`. */
  function FinderCount(g: seq<nat>, k: nat): nat
    requires k % 2 == 1
  {
    if k <= 5 then 0
    else FinderCount(g, k - 2) + (if k - 2 < |g| && FinderAt(g, k - 2) then 1 else 0)
  }

  /** The score of the runs of one line. */
  function GroupsPenalty(g: seq<nat>): nat
    requires |g| % 2 == 0
  {
    ConsecutiveSum(g, |g|) + PENALTY_FINDERLIKE * FinderCount(g, |g| + 1)
  }

  /** `evaluateGroups(groups)`. */
  method EvaluateGroups(groups: seq<nat>) returns (sum: nat)
    requires |groups| % 2 == 0
    ensures sum == GroupsPenalty(groups)
  {
    sum := 0;
    for i := 0 to |groups|
      invariant sum == ConsecutiveSum(groups, i)
    {
      if groups[i] >= 5 {
        sum := sum + PENALTY_CONSECUTIVE + (groups[i] - 5);
      }
    }
    var i := 5;
    while i < |groups|
      invariant 5 <= i && i % 2 == 1 && (i == 5 || i <= |groups| + 1)
      invariant sum == ConsecutiveSum(groups, |groups|) + PENALTY_FINDERLIKE * FinderCount(groups, i)
      decreases |groups| - i
    {
      if groups[i] == 1 && groups[i - 1] == 1 && groups[i - 2] == 3 && groups[i - 3] == 1 && groups[i - 4] == 1 &&
         (groups[i - 5] >= 4 || (i + 1 < |groups| && groups[i + 1] >= 4)) {
        sum := sum + PENALTY_FINDERLIKE;
      }
      i := i + 2;
    }
    assert FinderCount(groups, i) == FinderCount(groups, |groups| + 1);
  }

  /** The run-collecting loop of `maskTest` over one row or column. */
  method CollectGroups(line: seq<Cell>) returns (groups: seq<nat>)
    ensures groups == Groups(line)
  {
    groups := [];
    var x := 0;
    while x < |line|
      invariant 0 <= x <= |line|
      invariant groups + GroupsFrom(line, x) == Groups(line)
      decreases |line| - x
    {
      var light, dark;
      x, light, dark := CollectPair(line, x);
      Assoc(groups, [light, dark], GroupsFrom(line, x));
      groups := groups + [light, dark];
    }
  }

  /** One round of the run collection: a light run, then a dark run, from `x` on. */
  method CollectPair(line: seq<Cell>, x: nat) returns (x': nat, light: nat, dark: nat)
    requires x < |line|
    ensures x < x' <= |line|
    ensures GroupsFrom(line, x) == [light, dark] + GroupsFrom(line, x')
  {
    var mid;
    mid, light := CountRun(line, x, false);
    x', dark := CountRun(line, mid, true);
    GroupsStep(line, x);
  }

  /** `GroupsFrom` unfolded once: a light run, a dark run, then the runs after them. */
  lemma GroupsStep(s: seq<Cell>, x: nat)
    requires x < |s|
    ensures var w := RunFrom(s, x, false); var b := RunFrom(s, x + w, true);
      && x < x + w + b <= |s|
      && GroupsFrom(s, x) == [w, b] + GroupsFrom(s, x + w + b)
  {
  }

  /** One inner loop of the run collection: the cells of darkness `d` from `x` on. */
  method CountRun(line: seq<Cell>, x: nat, d: bool) returns (x': nat, qty: nat)
    requires x <= |line|
    ensures qty == RunFrom(line, x, d) && x' == x + qty
  {
    x', qty := x, 0;
    while x' < |line| && Dark(line[x']) == d
      invariant x <= x' <= |line| && qty == x' - x
      invariant qty + RunFrom(line, x', d) == RunFrom(line, x, d)
      decreases |line| - x'
    {
      x' := x' + 1;
      qty := qty + 1;
    }
  }

  // ---- the score of a symbol ----

  /** Column `c` of a square grid. */
  function Column(g: Grid, c: nat): (col: seq<Cell>)
    requires IsGrid(g, |g|) && c < |g|
    ensures |col| == |g|
  {
    seq(|g|, y requires 0 <= y < |g| => g[y][c])
  }

  /** TWOBYTWO at `(r, x)`: the 2x2 block with lower right corner `(r + 1, x)` has one colour. */
  predicate Block2(g: Grid, r: nat, x: nat)
    requires IsGrid(g, |g|) && r < |g| && 1 <= x < |g|
  {
    r + 1 < |g| && g[r][x] == g[r][x - 1] && g[r][x] == g[r + 1][x] && g[r][x] == g[r + 1][x - 1]
  }

  /** The blocks of row `r` with `x` below `k`. */
  function Blocks2(g: Grid, r: nat, k: nat): nat
    requires IsGrid(g, |g|) && r < |g| && 1 <= k <= |g|
  {
    if k == 1 then 0 else Blocks2(g, r, k - 1) + (if Block2(g, r, k - 1) then 1 else 0)
  }

  /** What a cell adds to `qtyBlack`: its bit, and 0 for an empty cell. */
  function Weight(c: Cell): Bit
  {
    if c.Val? then c.bit else 0
  }

  function RowBlack(row: seq<Cell>, k: nat): nat
    requires k <= |row|
  {
    if k == 0 then 0 else RowBlack(row, k - 1) + Weight(row[k - 1])
  }

  /** The dark modules of the first `k` rows. */
  function BlackUpTo(g: Grid, k: nat): nat
    requires IsGrid(g, |g|) && k <= |g|
  {
    if k == 0 then 0 else BlackUpTo(g, k - 1) + RowBlack(g[k - 1], |g|)
  }

  /** The score of row `r` and column `r`: their runs, and the one-colour blocks below row `r`. */
  function LineScore(g: Grid, r: nat): nat
    requires IsGrid(g, |g|) && r < |g|
  {
    GroupsPenalty(Groups(g[r])) + GroupsPenalty(Groups(Column(g, r))) + PENALTY_TWOBYTWO * Blocks2(g, r, |g|)
  }

  function ScoreUpTo(g: Grid, k: nat): nat
    requires IsGrid(g, |g|) && k <= |g|
  {
    if k == 0 then 0 else ScoreUpTo(g, k - 1) + LineScore(g, k - 1)
  }

  /**
   * DENSITY: 10 points for every full 5% by which the dark share departs
   * from 50%, the first 1% forgiven. The percentage
   * `qtyBlack * 100 / n / n` is taken exactly: with `d = |100 qtyBlack - 50 n^2|`
   * the source's `((d / n^2 - 1) / 5) | 0` is `(d - n^2) / (5 n^2)` truncated
   * toward zero.
   */
  function DensityPenalty(qtyBlack: nat, n: nat): int
    requires n >= 1
  {
    var sq := n * n;
    var d := 100 * qtyBlack - 50 * sq;
    var dev := if d < 0 then -d else d;
    PENALTY_DENSITY * Capacity.TruncDiv(dev - sq, 5 * sq)
  }

  /** The penalty score `maskTest` computes for a square grid. */
  function Score(g: Grid): int
    requires IsGrid(g, |g|) && |g| >= 1
  {
    ScoreUpTo(g, |g|) + DensityPenalty(BlackUpTo(g, |g|), |g|)
  }

  /**
   * The density term is never negative, although its bracket is negative
   * for a dark share within 1% of one half: `| 0` truncates toward zero.
   * It is zero exactly when the dark share departs from 50% by less than 6%.
   */
  lemma DensityBounds(qtyBlack: nat, n: nat)
    requires n >= 1
    ensures DensityPenalty(qtyBlack, n) >= 0
    ensures DensityPenalty(qtyBlack, n) == 0 <==> -6 * (n * n) < 100 * qtyBlack - 50 * (n * n) < 6 * (n * n)
  {
    var sq := n * n;
    assert sq >= 1 by { MulPositive(n); }
    var d := 100 * qtyBlack - 50 * sq;
    var dev := if d < 0 then -d else d;
    TruncQuotient(dev, sq);
  }

  /** The density bracket `(dev - sq) / (5 sq)` truncated: never negative, and zero exactly below `6 sq`. */
  lemma TruncQuotient(dev: int, sq: int)
    requires dev >= 0 && sq >= 1
    ensures Capacity.TruncDiv(dev - sq, 5 * sq) >= 0
    ensures Capacity.TruncDiv(dev - sq, 5 * sq) == 0 <==> dev < 6 * sq
  {
    var q := 5 * sq;
    var a := dev - sq;
    if a < 0 {
      DivMod(-a, q, 0, -a);
    } else if a < q {
      DivMod(a, q, 0, a);
    } else {
      DivAtLeastOne(a, q);
    }
  }

  lemma MulPositive(n: nat)
    requires n >= 1
    ensures n * n >= 1
  {
  }

  lemma DivAtLeastOne(a: int, q: int)
    requires q > 0 && a >= q
    ensures a / q >= 1
  {
  }

  /** Every part of the score is a penalty: the score is never negative. */
  lemma ScoreNonNegative(g: Grid)
    requires IsGrid(g, |g|) && |g| >= 1
    ensures Score(g) >= 0
  {
    DensityBounds(BlackUpTo(g, |g|), |g|);
  }

  /** `maskTest(matrix)`. */
  method MaskTest(matrix: Grid) returns (score: int)
    requires IsGrid(matrix, |matrix|) && |matrix| >= 1
    ensures score == Score(matrix)
  {
    var n := |matrix|;
    var lines, qtyBlack := ScanLines(matrix);
    score := lines + DensityPenalty(qtyBlack, n);
  }

  /** The loop of `maskTest` over the rows and columns: `score` before the density term, and `qtyBlack`. */
  method ScanLines(matrix: Grid) returns (score: nat, qtyBlack: nat)
    requires IsGrid(matrix, |matrix|)
    ensures score == ScoreUpTo(matrix, |matrix|) && qtyBlack == BlackUpTo(matrix, |matrix|)
  {
    score, qtyBlack := 0, 0;
    for xy := 0 to |matrix|
      invariant score == ScoreUpTo(matrix, xy)
      invariant qtyBlack == BlackUpTo(matrix, xy)
    {
      score, qtyBlack := AddLine(matrix, xy, score, qtyBlack);
    }
  }

  /** One pass of the outer loop: line `xy`'s score and dark modules join the running totals. */
  method AddLine(matrix: Grid, xy: nat, score: nat, qtyBlack: nat) returns (score': nat, qtyBlack': nat)
    requires IsGrid(matrix, |matrix|) && xy < |matrix|
    requires score == ScoreUpTo(matrix, xy) && qtyBlack == BlackUpTo(matrix, xy)
    ensures score' == ScoreUpTo(matrix, xy + 1) && qtyBlack' == BlackUpTo(matrix, xy + 1)
  {
    var lineScore, black := ScanLine(matrix, xy);
    UpToStep(matrix, xy);
    score', qtyBlack' := score + lineScore, qtyBlack + black;
  }

  /** One more line added to the running score and dark-module count. */
  lemma UpToStep(g: Grid, k: nat)
    requires IsGrid(g, |g|) && k < |g|
    ensures ScoreUpTo(g, k + 1) == ScoreUpTo(g, k) + LineScore(g, k)
    ensures BlackUpTo(g, k + 1) == BlackUpTo(g, k) + RowBlack(g[k], |g|)
  {
  }

  /** One pass of the loop of `maskTest`: the runs of row and column `xy`, then the blocks and dark modules of row `xy`. */
  method ScanLine(matrix: Grid, xy: nat) returns (lineScore: nat, black: nat)
    requires IsGrid(matrix, |matrix|) && xy < |matrix|
    ensures lineScore == LineScore(matrix, xy)
    ensures black == RowBlack(matrix[xy], |matrix|)
  {
    var groups := CollectGroups(matrix[xy]);
    var rowScore := EvaluateGroups(groups);
    groups := CollectGroups(Column(matrix, xy));
    var columnScore := EvaluateGroups(groups);
    var blocks;
    blocks, black := ScanRow(matrix, xy);
    lineScore := rowScore + columnScore + PENALTY_TWOBYTWO * blocks;
  }

  /** The TWOBYTWO test and the dark count of one row (`nextRowCells` is empty below the last row). */
  method ScanRow(matrix: Grid, xy: nat) returns (blocks: nat, black: nat)
    requires IsGrid(matrix, |matrix|) && xy < |matrix|
    ensures blocks == Blocks2(matrix, xy, |matrix|)
    ensures black == RowBlack(matrix[xy], |matrix|)
  {
    var n := |matrix|;
    var rowCells := matrix[xy];
    var nextRowCells := if xy + 1 < n then matrix[xy + 1] else [];
    black := Weight(rowCells[0]);
    blocks := 0;
    assert RowBlack(rowCells, 1) == Weight(rowCells[0]);
    for x := 1 to n
      invariant blocks == Blocks2(matrix, xy, x)
      invariant black == RowBlack(rowCells, x)
    {
      black := black + Weight(rowCells[x]);
      if rowCells[x] == rowCells[x - 1] && x < |nextRowCells| &&
         rowCells[x] == nextRowCells[x] && rowCells[x] == nextRowCells[x - 1] {
        blocks := blocks + 1;
      }
    }
  }

  // ---- choosing the mask ----

  /** `mask` has the lowest score, and every lower index scores more. */
  predicate IsBest(scores: seq<int>, mask: int)
  {
    0 <= mask < |scores| &&
    (forall i :: 0 <= i < |scores| ==> scores[mask] <= scores[i]) &&
    (forall i :: 0 <= i < mask ==> scores[mask] < scores[i])
  }

  /** At most one index is the best. */
  lemma BestUnique(scores: seq<int>, m1: int, m2: int)
    requires IsBest(scores, m1) && IsBest(scores, m2)
    ensures m1 == m2
  {
    assert scores[m1] <= scores[m2] && scores[m2] <= scores[m1];
  }

  /** The `reduce` over `testScore`: a strictly lower score replaces the best so far. */
  method SelectMask(testScore: seq<int>) returns (mask: int)
    requires |testScore| >= 1
    ensures IsBest(testScore, mask)
  {
    mask := 0;
    var best := testScore[0];
    for i := 1 to |testScore|
      invariant 0 <= mask < i && best == testScore[mask]
      invariant forall j :: 0 <= j < i ==> best <= testScore[j]
      invariant forall j :: 0 <= j < mask ==> best < testScore[j]
    {
      if testScore[i] < best {
        mask := i;
        best := testScore[i];
      }
    }
  }
}
