/** Counting over timetable rows and grids. A row is one day of a class's or a
    professor's timetable (`-1` for a free hour, otherwise an occupant id); a day
    table is a sequence of rows; a grid is a sequence of day tables. Every count is
    defined on a prefix bound `n` so that a loop scanning left to right keeps
    `acc == CountUpTo(..., i)` without slicing. */
module Counting {

  /** What a cell is tested for. `Teaches(s)` reads the cell as a professor id and
      asks whether that professor's subject is `s`. */
  datatype CellTest = Free | Busy | Holds(v: int) | Teaches(s: nat)

  predicate Matches(profSubject: seq<nat>, t: CellTest, x: int) {
    match t
    case Free => x == -1
    case Busy => x != -1
    case Holds(v) => x == v
    case Teaches(s) => 0 <= x < |profSubject| && profSubject[x] == s
  }

  function Bit(b: bool): nat { if b then 1 else 0 }

  // ---------------------------------------------------------------- rows

  function CountUpTo(ps: seq<nat>, t: CellTest, row: seq<int>, n: nat): nat
    requires n <= |row|
  {
    if n == 0 then 0 else CountUpTo(ps, t, row, n - 1) + Bit(Matches(ps, t, row[n - 1]))
  }

  function Count(ps: seq<nat>, t: CellTest, row: seq<int>): nat {
    CountUpTo(ps, t, row, |row|)
  }

  lemma {:induction false} CountUpToBound(ps: seq<nat>, t: CellTest, row: seq<int>, n: nat)
    requires n <= |row|
    ensures CountUpTo(ps, t, row, n) <= n
  {
    if n > 0 { CountUpToBound(ps, t, row, n - 1); }
  }

  /** Changing one cell changes the count by the difference of the two tests. */
  lemma {:induction false} CountUpToUpdate(ps: seq<nat>, t: CellTest, row: seq<int>, n: nat, h: nat, v: int)
    requires n <= |row| && h < |row|
    ensures CountUpTo(ps, t, row[h := v], n) + (if h < n then Bit(Matches(ps, t, row[h])) else 0)
         == CountUpTo(ps, t, row, n) + (if h < n then Bit(Matches(ps, t, v)) else 0)
  {
    if n > 0 { CountUpToUpdate(ps, t, row, n - 1, h, v); }
  }

  lemma CountUpdate(ps: seq<nat>, t: CellTest, row: seq<int>, h: nat, v: int)
    requires h < |row|
    ensures Count(ps, t, row[h := v]) + Bit(Matches(ps, t, row[h]))
         == Count(ps, t, row) + Bit(Matches(ps, t, v))
  {
    CountUpToUpdate(ps, t, row, |row|, h, v);
  }

  /** Two rows whose cells pass two tests in the same places have equal counts. */
  lemma {:induction false} CountUpToPointwise(ps: seq<nat>, t1: CellTest, row1: seq<int>,
                                              t2: CellTest, row2: seq<int>, n: nat)
    requires n <= |row1| && n <= |row2|
    requires forall h :: 0 <= h < n ==> Matches(ps, t1, row1[h]) == Matches(ps, t2, row2[h])
    ensures CountUpTo(ps, t1, row1, n) == CountUpTo(ps, t2, row2, n)
  {
    if n > 0 { CountUpToPointwise(ps, t1, row1, t2, row2, n - 1); }
  }

  lemma {:induction false} CountUpToZero(ps: seq<nat>, t: CellTest, row: seq<int>, n: nat)
    requires n <= |row|
    ensures CountUpTo(ps, t, row, n) == 0 <==> forall h :: 0 <= h < n ==> !Matches(ps, t, row[h])
  {
    if n > 0 { CountUpToZero(ps, t, row, n - 1); }
  }

  lemma {:induction false} CountUpToExists(ps: seq<nat>, t: CellTest, row: seq<int>, n: nat, h: nat)
    requires h < n <= |row| && Matches(ps, t, row[h])
    ensures CountUpTo(ps, t, row, n) > 0
  {
    CountUpToZero(ps, t, row, n);
  }

  /** A row has a busy hour exactly when it is not entirely free. */
  predicate IsFreeRow(row: seq<int>) {
    forall h :: 0 <= h < |row| ==> row[h] == -1
  }

  lemma BusyCountZero(ps: seq<nat>, row: seq<int>)
    ensures Count(ps, Busy, row) == 0 <==> IsFreeRow(row)
  {
    CountUpToZero(ps, Busy, row, |row|);
  }

  // ---------------------------------------------------------------- day tables

  function CountDaysUpTo(ps: seq<nat>, t: CellTest, days: seq<seq<int>>, n: nat): nat
    requires n <= |days|
  {
    if n == 0 then 0 else CountDaysUpTo(ps, t, days, n - 1) + Count(ps, t, days[n - 1])
  }

  function CountDays(ps: seq<nat>, t: CellTest, days: seq<seq<int>>): nat {
    CountDaysUpTo(ps, t, days, |days|)
  }

  lemma {:induction false} CountDaysUpToUpdate(ps: seq<nat>, t: CellTest, days: seq<seq<int>>, n: nat,
                                               d: nat, h: nat, v: int)
    requires n <= |days| && d < |days| && h < |days[d]|
    ensures CountDaysUpTo(ps, t, days[d := days[d][h := v]], n) + (if d < n then Bit(Matches(ps, t, days[d][h])) else 0)
         == CountDaysUpTo(ps, t, days, n) + (if d < n then Bit(Matches(ps, t, v)) else 0)
  {
    if n > 0 {
      CountDaysUpToUpdate(ps, t, days, n - 1, d, h, v);
      if d == n - 1 { CountUpdate(ps, t, days[d], h, v); }
    }
  }

  /** Changing one cell of a day table changes its count by the difference of the tests. */
  lemma CountDaysUpdate(ps: seq<nat>, t: CellTest, days: seq<seq<int>>, d: nat, h: nat, v: int)
    requires d < |days| && h < |days[d]|
    ensures CountDays(ps, t, days[d := days[d][h := v]]) + Bit(Matches(ps, t, days[d][h]))
         == CountDays(ps, t, days) + Bit(Matches(ps, t, v))
  {
    CountDaysUpToUpdate(ps, t, days, |days|, d, h, v);
  }

  lemma {:induction false} CountDaysUpToPointwise(ps: seq<nat>, t1: CellTest, days1: seq<seq<int>>,
                                                  t2: CellTest, days2: seq<seq<int>>, n: nat)
    requires n <= |days1| && n <= |days2|
    requires forall d :: 0 <= d < n ==> |days1[d]| == |days2[d]|
    requires forall d, h :: 0 <= d < n && 0 <= h < |days1[d]| ==>
               Matches(ps, t1, days1[d][h]) == Matches(ps, t2, days2[d][h])
    ensures CountDaysUpTo(ps, t1, days1, n) == CountDaysUpTo(ps, t2, days2, n)
  {
    if n > 0 {
      CountDaysUpToPointwise(ps, t1, days1, t2, days2, n - 1);
      CountUpToPointwise(ps, t1, days1[n - 1], t2, days2[n - 1], |days1[n - 1]|);
    }
  }

  lemma CountDaysPointwise(ps: seq<nat>, t1: CellTest, days1: seq<seq<int>>, t2: CellTest, days2: seq<seq<int>>)
    requires |days1| == |days2|
    requires forall d :: 0 <= d < |days1| ==> |days1[d]| == |days2[d]|
    requires forall d, h :: 0 <= d < |days1| && 0 <= h < |days1[d]| ==>
               Matches(ps, t1, days1[d][h]) == Matches(ps, t2, days2[d][h])
    ensures CountDays(ps, t1, days1) == CountDays(ps, t2, days2)
  {
    CountDaysUpToPointwise(ps, t1, days1, t2, days2, |days1|);
  }

  lemma {:induction false} CountDaysUpToZero(ps: seq<nat>, t: CellTest, days: seq<seq<int>>, n: nat)
    requires n <= |days|
    ensures CountDaysUpTo(ps, t, days, n) == 0 <==>
            forall d, h :: 0 <= d < n && 0 <= h < |days[d]| ==> !Matches(ps, t, days[d][h])
  {
    if n > 0 {
      CountDaysUpToZero(ps, t, days, n - 1);
      CountUpToZero(ps, t, days[n - 1], |days[n - 1]|);
    }
  }

  lemma CountDaysExists(ps: seq<nat>, t: CellTest, days: seq<seq<int>>, d: nat, h: nat)
    requires d < |days| && h < |days[d]| && Matches(ps, t, days[d][h])
    ensures CountDays(ps, t, days) > 0
  {
    CountDaysUpToZero(ps, t, days, |days|);
  }

  lemma {:induction false} CountDaysUpToBound(ps: seq<nat>, t: CellTest, days: seq<seq<int>>, n: nat, width: nat)
    requires n <= |days|
    requires forall d :: 0 <= d < n ==> |days[d]| == width
    ensures CountDaysUpTo(ps, t, days, n) <= n * width
  {
    if n > 0 {
      CountDaysUpToBound(ps, t, days, n - 1, width);
      CountUpToBound(ps, t, days[n - 1], width);
      assert n * width == (n - 1) * width + width;
    }
  }

  // ---------------------------------------------------------------- grids

  function CountGridUpTo(ps: seq<nat>, t: CellTest, g: seq<seq<seq<int>>>, n: nat): nat
    requires n <= |g|
  {
    if n == 0 then 0 else CountGridUpTo(ps, t, g, n - 1) + CountDays(ps, t, g[n - 1])
  }

  function CountGrid(ps: seq<nat>, t: CellTest, g: seq<seq<seq<int>>>): nat {
    CountGridUpTo(ps, t, g, |g|)
  }

  lemma {:induction false} CountGridUpToUpdate(ps: seq<nat>, t: CellTest, g: seq<seq<seq<int>>>, n: nat,
                                               c: nat, d: nat, h: nat, v: int)
    requires n <= |g| && c < |g| && d < |g[c]| && h < |g[c][d]|
    ensures CountGridUpTo(ps, t, g[c := g[c][d := g[c][d][h := v]]], n) + (if c < n then Bit(Matches(ps, t, g[c][d][h])) else 0)
         == CountGridUpTo(ps, t, g, n) + (if c < n then Bit(Matches(ps, t, v)) else 0)
  {
    if n > 0 {
      CountGridUpToUpdate(ps, t, g, n - 1, c, d, h, v);
      if c == n - 1 { CountDaysUpdate(ps, t, g[c], d, h, v); }
    }
  }

  /** Changing one cell of a grid changes its count by the difference of the tests. */
  lemma CountGridUpdate(ps: seq<nat>, t: CellTest, g: seq<seq<seq<int>>>, c: nat, d: nat, h: nat, v: int)
    requires c < |g| && d < |g[c]| && h < |g[c][d]|
    ensures CountGrid(ps, t, g[c := g[c][d := g[c][d][h := v]]]) + Bit(Matches(ps, t, g[c][d][h]))
         == CountGrid(ps, t, g) + Bit(Matches(ps, t, v))
  {
    CountGridUpToUpdate(ps, t, g, |g|, c, d, h, v);
  }

  /** Two grids of equal shape whose cells pass the two tests in the same places
      have equal counts. */
  lemma {:induction false} CountGridUpToPointwise(ps: seq<nat>, t1: CellTest, g1: seq<seq<seq<int>>>,
                                                  t2: CellTest, g2: seq<seq<seq<int>>>, n: nat)
    requires n <= |g1| && n <= |g2|
    requires forall c :: 0 <= c < n ==> |g1[c]| == |g2[c]|
    requires forall c, d :: 0 <= c < n && 0 <= d < |g1[c]| ==> |g1[c][d]| == |g2[c][d]|
    requires forall c, d, h :: 0 <= c < n && 0 <= d < |g1[c]| && 0 <= h < |g1[c][d]| ==>
               Matches(ps, t1, g1[c][d][h]) == Matches(ps, t2, g2[c][d][h])
    ensures CountGridUpTo(ps, t1, g1, n) == CountGridUpTo(ps, t2, g2, n)
  {
    if n > 0 {
      CountGridUpToPointwise(ps, t1, g1, t2, g2, n - 1);
      CountDaysPointwise(ps, t1, g1[n - 1], t2, g2[n - 1]);
    }
  }

  lemma {:induction false} CountGridUpToZero(ps: seq<nat>, t: CellTest, g: seq<seq<seq<int>>>, n: nat)
    requires n <= |g|
    ensures CountGridUpTo(ps, t, g, n) == 0 <==>
            forall c, d, h :: 0 <= c < n && 0 <= d < |g[c]| && 0 <= h < |g[c][d]| ==> !Matches(ps, t, g[c][d][h])
  {
    if n > 0 {
      CountGridUpToZero(ps, t, g, n - 1);
      CountDaysUpToZero(ps, t, g[n - 1], |g[n - 1]|);
    }
  }

  /** Every cell is either free or busy. */
  lemma {:induction false} CountUpToComplement(ps: seq<nat>, row: seq<int>, n: nat)
    requires n <= |row|
    ensures CountUpTo(ps, Free, row, n) + CountUpTo(ps, Busy, row, n) == n
  {
    if n > 0 { CountUpToComplement(ps, row, n - 1); }
  }

  lemma {:induction false} CountDaysUpToComplement(ps: seq<nat>, days: seq<seq<int>>, n: nat, width: nat)
    requires n <= |days|
    requires forall d :: 0 <= d < n ==> |days[d]| == width
    ensures CountDaysUpTo(ps, Free, days, n) + CountDaysUpTo(ps, Busy, days, n) == n * width
  {
    if n > 0 {
      CountDaysUpToComplement(ps, days, n - 1, width);
      CountUpToComplement(ps, days[n - 1], |days[n - 1]|);
      assert n * width == (n - 1) * width + width;
    }
  }

  lemma {:induction false} CountGridUpToComplement(ps: seq<nat>, g: seq<seq<seq<int>>>, n: nat, n2: nat, n3: nat)
    requires n <= |g|
    requires forall c :: 0 <= c < n ==> |g[c]| == n2
    requires forall c, d :: 0 <= c < n && 0 <= d < n2 ==> |g[c][d]| == n3
    ensures CountGridUpTo(ps, Free, g, n) + CountGridUpTo(ps, Busy, g, n) == n * (n2 * n3)
  {
    if n > 0 {
      CountGridUpToComplement(ps, g, n - 1, n2, n3);
      CountDaysUpToComplement(ps, g[n - 1], n2, n3);
      assert n * (n2 * n3) == (n - 1) * (n2 * n3) + n2 * n3;
    }
  }

  // ---------------------------------------------------------------- sums of counters

  function SumUpTo(xs: seq<int>, n: nat): int
    requires n <= |xs|
  {
    if n == 0 then 0 else SumUpTo(xs, n - 1) + xs[n - 1]
  }

  function Sum(xs: seq<int>): int { SumUpTo(xs, |xs|) }

  lemma {:induction false} SumUpToUpdate(xs: seq<int>, n: nat, i: nat, v: int)
    requires n <= |xs| && i < |xs|
    ensures SumUpTo(xs[i := v], n) + (if i < n then xs[i] else 0) == SumUpTo(xs, n) + (if i < n then v else 0)
  {
    if n > 0 { SumUpToUpdate(xs, n - 1, i, v); }
  }

  lemma SumUpdate(xs: seq<int>, i: nat, v: int)
    requires i < |xs|
    ensures Sum(xs[i := v]) + xs[i] == Sum(xs) + v
  {
    SumUpToUpdate(xs, |xs|, i, v);
  }

  lemma {:induction false} SumUpToZero(xs: seq<int>, n: nat)
    requires n <= |xs|
    requires forall i :: 0 <= i < n ==> xs[i] == 0
    ensures SumUpTo(xs, n) == 0
  {
    if n > 0 { SumUpToZero(xs, n - 1); }
  }

  // ---------------------------------------------------------------- excess over a cap

  /** How far a counter goes over its cap: max(0, x - cap). */
  function Excess(x: int, cap: nat): nat { if x > cap then x - cap else 0 }

  function ExcessUpTo(xs: seq<int>, cap: nat, n: nat): nat
    requires n <= |xs|
  {
    if n == 0 then 0 else ExcessUpTo(xs, cap, n - 1) + Excess(xs[n - 1], cap)
  }

  function ExcessSum(xs: seq<int>, cap: nat): nat { ExcessUpTo(xs, cap, |xs|) }

  lemma {:induction false} ExcessUpToUpdate(xs: seq<int>, cap: nat, n: nat, i: nat, v: int)
    requires n <= |xs| && i < |xs|
    ensures ExcessUpTo(xs[i := v], cap, n) + (if i < n then Excess(xs[i], cap) else 0)
         == ExcessUpTo(xs, cap, n) + (if i < n then Excess(v, cap) else 0)
  {
    if n > 0 { ExcessUpToUpdate(xs, cap, n - 1, i, v); }
  }

  /** Changing one counter changes the summed excess by the difference of its excesses. */
  lemma ExcessSumUpdate(xs: seq<int>, cap: nat, i: nat, v: int)
    requires i < |xs|
    ensures ExcessSum(xs[i := v], cap) + Excess(xs[i], cap) == ExcessSum(xs, cap) + Excess(v, cap)
  {
    ExcessUpToUpdate(xs, cap, |xs|, i, v);
  }

  function ExcessDaysUpTo(t: seq<seq<int>>, cap: nat, n: nat): nat
    requires n <= |t|
  {
    if n == 0 then 0 else ExcessDaysUpTo(t, cap, n - 1) + ExcessSum(t[n - 1], cap)
  }

  function ExcessDays(t: seq<seq<int>>, cap: nat): nat { ExcessDaysUpTo(t, cap, |t|) }

  lemma {:induction false} ExcessDaysUpToUpdate(t: seq<seq<int>>, cap: nat, n: nat, d: nat, s: nat, v: int)
    requires n <= |t| && d < |t| && s < |t[d]|
    ensures ExcessDaysUpTo(t[d := t[d][s := v]], cap, n) + (if d < n then Excess(t[d][s], cap) else 0)
         == ExcessDaysUpTo(t, cap, n) + (if d < n then Excess(v, cap) else 0)
  {
    if n > 0 {
      ExcessDaysUpToUpdate(t, cap, n - 1, d, s, v);
      if d == n - 1 { ExcessSumUpdate(t[d], cap, s, v); }
    }
  }

  function ExcessGridUpTo(g: seq<seq<seq<int>>>, cap: nat, n: nat): nat
    requires n <= |g|
  {
    if n == 0 then 0 else ExcessGridUpTo(g, cap, n - 1) + ExcessDays(g[n - 1], cap)
  }

  function ExcessGrid(g: seq<seq<seq<int>>>, cap: nat): nat { ExcessGridUpTo(g, cap, |g|) }

  lemma {:induction false} ExcessGridUpToUpdate(g: seq<seq<seq<int>>>, cap: nat, n: nat, c: nat, d: nat, s: nat, v: int)
    requires n <= |g| && c < |g| && d < |g[c]| && s < |g[c][d]|
    ensures ExcessGridUpTo(g[c := g[c][d := g[c][d][s := v]]], cap, n) + (if c < n then Excess(g[c][d][s], cap) else 0)
         == ExcessGridUpTo(g, cap, n) + (if c < n then Excess(v, cap) else 0)
  {
    if n > 0 {
      ExcessGridUpToUpdate(g, cap, n - 1, c, d, s, v);
      if c == n - 1 { ExcessDaysUpToUpdate(g[c], cap, |g[c]|, d, s, v); }
    }
  }

  /** Changing one counter of a [class][day][subject] table changes the summed
      excess by the difference of that counter's excesses. */
  lemma ExcessGridUpdate(g: seq<seq<seq<int>>>, cap: nat, c: nat, d: nat, s: nat, v: int)
    requires c < |g| && d < |g[c]| && s < |g[c][d]|
    ensures ExcessGrid(g[c := g[c][d := g[c][d][s := v]]], cap) + Excess(g[c][d][s], cap)
         == ExcessGrid(g, cap) + Excess(v, cap)
  {
    ExcessGridUpToUpdate(g, cap, |g|, c, d, s, v);
  }

  /** A summed excess is 0 exactly when no counter is over the cap. */
  lemma {:induction false} ExcessUpToZero(xs: seq<int>, cap: nat, n: nat)
    requires n <= |xs|
    ensures ExcessUpTo(xs, cap, n) == 0 <==> forall i :: 0 <= i < n ==> xs[i] <= cap
  {
    if n > 0 { ExcessUpToZero(xs, cap, n - 1); }
  }

  lemma {:induction false} ExcessDaysUpToZero(t: seq<seq<int>>, cap: nat, n: nat)
    requires n <= |t|
    ensures ExcessDaysUpTo(t, cap, n) == 0 <==>
            forall d, s :: 0 <= d < n && 0 <= s < |t[d]| ==> t[d][s] <= cap
  {
    if n > 0 {
      ExcessDaysUpToZero(t, cap, n - 1);
      ExcessUpToZero(t[n - 1], cap, |t[n - 1]|);
    }
  }

  lemma {:induction false} ExcessGridUpToZero(g: seq<seq<seq<int>>>, cap: nat, n: nat)
    requires n <= |g|
    ensures ExcessGridUpTo(g, cap, n) == 0 <==>
            forall c, d, s :: 0 <= c < n && 0 <= d < |g[c]| && 0 <= s < |g[c][d]| ==> g[c][d][s] <= cap
  {
    if n > 0 {
      ExcessGridUpToZero(g, cap, n - 1);
      ExcessDaysUpToZero(g[n - 1], cap, |g[n - 1]|);
    }
  }

  // ---------------------------------------------------------------- gaps in a mask

  /** The last position before `n` where the mask holds, or -1. */
  function LastUpTo(m: seq<bool>, n: nat): (r: int)
    requires n <= |m|
    ensures -1 <= r < n
    ensures r >= 0 ==> m[r]
  {
    if n == 0 then -1 else if m[n - 1] then n - 1 else LastUpTo(m, n - 1)
  }

  /** The number of positions before `n` where the mask holds and the previous
      position where it holds is more than one step back: the contiguity violations
      of one (class, subject, day). */
  function GapsUpTo(m: seq<bool>, n: nat): nat
    requires n <= |m|
  {
    if n == 0 then 0
    else GapsUpTo(m, n - 1) + Bit(m[n - 1] && LastUpTo(m, n - 1) != -1 && (n - 1) - LastUpTo(m, n - 1) > 1)
  }

  function Gaps(m: seq<bool>): nat { GapsUpTo(m, |m|) }

  /** No gap fits in a row of at most two hours. */
  lemma ShortRowHasNoGaps(m: seq<bool>)
    requires |m| <= 2
    ensures Gaps(m) == 0
  {
    assert GapsUpTo(m, 0) == 0;
    if |m| >= 1 { assert GapsUpTo(m, 1) == 0; }
    if |m| == 2 { assert LastUpTo(m, 1) <= 0; assert GapsUpTo(m, 2) == 0; }
  }

  /** A row with at most one marked hour has no gap. */
  lemma {:induction false} SingleMarkNoGaps(m: seq<bool>, n: nat)
    requires n <= |m|
    requires forall i, j :: 0 <= i < j < n && m[i] ==> !m[j]
    ensures GapsUpTo(m, n) == 0
  {
    if n > 0 {
      SingleMarkNoGaps(m, n - 1);
      if m[n - 1] {
        LastUpToNone(m, n - 1);
      }
    }
  }

  lemma {:induction false} LastUpToNone(m: seq<bool>, n: nat)
    requires n <= |m|
    requires forall i :: 0 <= i < n ==> !m[i]
    ensures LastUpTo(m, n) == -1
  {
    if n > 0 { LastUpToNone(m, n - 1); }
  }

  /** The mask of the hours of a row that hold a professor of subject s. */
  function SubjectMask(ps: seq<nat>, row: seq<int>, s: nat): (m: seq<bool>)
    ensures |m| == |row|
    ensures forall h :: 0 <= h < |row| ==> m[h] == Matches(ps, Teaches(s), row[h])
  {
    seq(|row|, h requires 0 <= h < |row| => Matches(ps, Teaches(s), row[h]))
  }
}
