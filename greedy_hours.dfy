/** The hour scan of the greedy constructor
    (find_randomized_day_ordered_compatible_hours): for a class and a professor,
    visit the days in a shuffled order and, within a day, the hours in ascending
    order, collecting every hour free for both, at most a daily cap of hours per
    day and, optionally, no hour on the professor's unavailability day. The
    shuffled day order is a parameter. The scan itself is stated on a table of
    free flags, one per hour of the week. */
module GreedyHours {
  import opened Input
  import opened ScheduleState
  import opened Output
  import opened SwapProfEffect

  /** A scanning order of the days: every day of the week exactly once. */
  predicate IsDayOrder(inst: Instance, days: seq<nat>) {
    && |days| == inst.nDays
    && (forall i :: 0 <= i < |days| ==> days[i] < inst.nDays)
    && (forall i, j :: 0 <= i < j < |days| ==> days[i] != days[j])
    && (forall d :: 0 <= d < inst.nDays ==> d in days)
  }

  /** Which hours of the week are free for both class c and professor p. */
  ghost function FreeTable(inst: Instance, st: State, c: nat, p: nat): (t: seq<seq<bool>>)
    requires Fits(inst, st) && c < inst.nClasses && p < inst.NProfs()
    ensures |t| == inst.nDays && forall d :: 0 <= d < |t| ==> |t[d]| == inst.nHoursXDay
    ensures forall d, h :: 0 <= d < inst.nDays && 0 <= h < inst.nHoursXDay ==> t[d][h] == CanAssign(inst, st, c, d, h, p)
  {
    seq(inst.nDays, d requires 0 <= d < inst.nDays =>
      seq(inst.nHoursXDay, h requires 0 <= h < inst.nHoursXDay => CanAssign(inst, st, c, d, h, p)))
  }

  // ---------------------------------------------------------------- what the scan takes

  /** The hours the scan of day d takes from hour h on, n of them already taken that
      day: a free hour is taken, and the day ends once n reaches the cap (the cap
      is tested after every hour, so a cap of 0 ends the day after its first hour). */
  function DayScan(row: seq<bool>, d: nat, cap: nat, h: nat, n: nat): seq<Hour>
    requires h <= |row|
    decreases |row| - h
  {
    if h == |row| then []
    else
      var n' := if row[h] then n + 1 else n;
      (if row[h] then [(d, h)] else []) + (if n' >= cap then [] else DayScan(row, d, cap, h + 1, n'))
  }

  /** The hours taken on day d, none when the day is skipped as the unavailability day. */
  function DayPicks(free: seq<seq<bool>>, d: nat, cap: nat, skip: bool): seq<Hour>
    requires d < |free|
  {
    if skip then [] else DayScan(free[d], d, cap, 0, 0)
  }

  /** The hours taken on the first k days of the order, in the order they are taken. */
  function Scan(free: seq<seq<bool>>, days: seq<nat>, cap: nat, checkUnav: bool, unav: nat, k: nat): seq<Hour>
    requires k <= |days| && forall i :: 0 <= i < |days| ==> days[i] < |free|
  {
    if k == 0 then []
    else Scan(free, days, cap, checkUnav, unav, k - 1) + DayPicks(free, days[k - 1], cap, checkUnav && unav == days[k - 1])
  }

  /** The whole list the scan of a day order returns for class c and professor p. */
  ghost function Compatible(inst: Instance, st: State, c: nat, p: nat, days: seq<nat>, cap: nat, checkUnav: bool): seq<Hour>
    requires Fits(inst, st) && c < inst.nClasses && p < inst.NProfs() && IsDayOrder(inst, days)
  {
    Scan(FreeTable(inst, st, c, p), days, cap, checkUnav, inst.profUnavailability[p], |days|)
  }

  // ---------------------------------------------------------------- the scan

  /** find_randomized_day_ordered_compatible_hours with `days` as the shuffled day
      order: the cap is SubjectMaxHoursXDay plus the extra daily hours. */
  method CompatibleHours(out: Schedule, c: nat, p: nat, days: seq<nat>, extra: nat, checkUnav: bool)
    returns (hs: seq<Hour>)
    requires out.Valid() && c < out.inst.nClasses && p < out.inst.NProfs() && IsDayOrder(out.inst, days)
    ensures hs == Compatible(out.inst, out.Model(), c, p, days, out.inst.subjectMaxHoursXDay + extra, checkUnav)
  {
    ghost var free := FreeTable(out.inst, out.Model(), c, p);
    ghost var unav := out.inst.profUnavailability[p];
    var cap := out.inst.subjectMaxHoursXDay + extra;
    hs := [];
    var d := 0;
    while d < out.inst.nDays
      invariant 0 <= d <= out.inst.nDays
      invariant hs == Scan(free, days, cap, checkUnav, unav, d)
    {
      var taken := ScanDay(out, c, p, days[d], cap, checkUnav);
      hs := hs + taken;
      d := d + 1;
    }
  }

  /** The inner loop over the hours of one day: stop at once on the unavailability
      day when that is checked, take every hour free for both, and stop when the
      hours taken reach the cap. */
  method ScanDay(out: Schedule, c: nat, p: nat, day: nat, cap: nat, checkUnav: bool) returns (taken: seq<Hour>)
    requires out.Valid() && c < out.inst.nClasses && p < out.inst.NProfs() && day < out.inst.nDays
    ensures taken == DayPicks(FreeTable(out.inst, out.Model(), c, p), day, cap,
                              checkUnav && out.inst.profUnavailability[p] == day)
  {
    ghost var row := FreeTable(out.inst, out.Model(), c, p)[day];
    DayScanAccIsDayScan(row, day, cap, 0, 0, []);
    var unav := out.inst.profUnavailability[p];
    var perDay: nat := 0;
    taken := [];
    var h: nat := 0;
    while h < out.inst.nHoursXDay
      invariant h <= out.inst.nHoursXDay == |row|
      invariant h > 0 ==> !(checkUnav && unav == day)
      invariant h == 0 ==> taken == [] && perDay == 0
      invariant DayScanAcc(row, day, cap, h, perDay, taken) == DayScan(row, day, cap, 0, 0)
    {
      if checkUnav && unav == day {
        break;
      }
      var isFree := out.ProfSchedule(p, day, h) == -1 && out.ClassSchedule(c, day, h) == -1;
      assert isFree == row[h];
      if isFree {
        taken := taken + [(day, h)];
        perDay := perDay + 1;
      }
      if perDay >= cap {
        break;
      }
      h := h + 1;
    }
  }

  /** The scan of a day with the hours taken so far carried along. */
  function DayScanAcc(row: seq<bool>, d: nat, cap: nat, h: nat, n: nat, acc: seq<Hour>): seq<Hour>
    requires h <= |row|
    decreases |row| - h
  {
    if h == |row| then acc
    else
      var n' := if row[h] then n + 1 else n;
      var acc' := if row[h] then acc + [(d, h)] else acc;
      if n' >= cap then acc' else DayScanAcc(row, d, cap, h + 1, n', acc')
  }

  lemma {:induction false} DayScanAccIsDayScan(row: seq<bool>, d: nat, cap: nat, h: nat, n: nat, acc: seq<Hour>)
    requires h <= |row|
    ensures DayScanAcc(row, d, cap, h, n, acc) == acc + DayScan(row, d, cap, h, n)
    decreases |row| - h
  {
    if h == |row| {
      assert acc + [] == acc;
    } else if row[h] {
      var rest := if n + 1 >= cap then [] else DayScan(row, d, cap, h + 1, n + 1);
      assert DayScan(row, d, cap, h, n) == [(d, h)] + rest;
      if n + 1 < cap {
        DayScanAccIsDayScan(row, d, cap, h + 1, n + 1, acc + [(d, h)]);
      }
      assert (acc + [(d, h)]) + rest == acc + ([(d, h)] + rest);
    } else {
      var rest := if n >= cap then [] else DayScan(row, d, cap, h + 1, n);
      assert DayScan(row, d, cap, h, n) == [] + rest;
      assert [] + rest == rest;
      if n < cap {
        DayScanAccIsDayScan(row, d, cap, h + 1, n, acc);
      } else {
        assert acc + [] == acc;
      }
    }
  }

  /** Every hour of r lies on day d, from hour h on, and is free in the day's row;
      the hours ascend. */
  predicate RowPicks(r: seq<Hour>, row: seq<bool>, d: nat, h: nat) {
    && (forall i :: 0 <= i < |r| ==> r[i].0 == d && h <= r[i].1 < |row| && row[r[i].1])
    && (forall i, j :: 0 <= i < j < |r| ==> r[i].1 < r[j].1)
  }

  lemma {:induction false} DayScanShape(row: seq<bool>, d: nat, cap: nat, h: nat, n: nat)
    requires h <= |row|
    ensures RowPicks(DayScan(row, d, cap, h, n), row, d, h)
    decreases |row| - h
  {
    if h < |row| {
      var n' := if row[h] then n + 1 else n;
      var head: seq<Hour> := if row[h] then [(d, h)] else [];
      if n' < cap {
        var rest := DayScan(row, d, cap, h + 1, n');
        DayScanShape(row, d, cap, h + 1, n');
        assert DayScan(row, d, cap, h, n) == head + rest;
      } else {
        assert DayScan(row, d, cap, h, n) == head;
      }
    }
  }

  /** The scan of a day takes at most `cap` hours, and at most one when the cap is 0. */
  lemma {:induction false} DayScanBound(row: seq<bool>, d: nat, cap: nat, h: nat, n: nat)
    requires h <= |row|
    requires n < cap || (n == 0 && cap == 0)
    ensures n + |DayScan(row, d, cap, h, n)| <= if cap == 0 then 1 else cap
    decreases |row| - h
  {
    if h < |row| {
      var n' := if row[h] then n + 1 else n;
      if n' < cap {
        DayScanBound(row, d, cap, h + 1, n');
      }
    }
  }

  /** With a cap of at least the day's length the scan of a day takes every free hour. */
  lemma {:induction false} DayScanFull(row: seq<bool>, d: nat, cap: nat, h: nat, n: nat, x: nat)
    requires cap >= |row| && n <= h <= x < |row| && row[x]
    ensures (d, x) in DayScan(row, d, cap, h, n)
    decreases |row| - h
  {
    var n' := if row[h] then n + 1 else n;
    if x > h {
      DayScanFull(row, d, cap, h + 1, n', x);
    }
  }

  // ---------------------------------------------------------------- the week

  /** Hour x can come from the first k days of the order: it lies on one of them,
      is free, and is not on the unavailability day when that is checked. */
  predicate Taken(free: seq<seq<bool>>, days: seq<nat>, checkUnav: bool, unav: nat, k: nat, x: Hour)
    requires k <= |days|
  {
    && x.0 in days[..k] && x.0 < |free| && x.1 < |free[x.0]| && free[x.0][x.1]
    && (checkUnav ==> x.0 != unav)
  }

  lemma {:induction false} ScanEach(free: seq<seq<bool>>, days: seq<nat>, cap: nat, checkUnav: bool, unav: nat, k: nat)
    requires k <= |days| && forall i :: 0 <= i < |days| ==> days[i] < |free|
    ensures forall i :: 0 <= i < |Scan(free, days, cap, checkUnav, unav, k)| ==>
              Taken(free, days, checkUnav, unav, k, Scan(free, days, cap, checkUnav, unav, k)[i])
  {
    if k > 0 {
      var a := Scan(free, days, cap, checkUnav, unav, k - 1);
      var b := DayPicks(free, days[k - 1], cap, checkUnav && unav == days[k - 1]);
      ScanEach(free, days, cap, checkUnav, unav, k - 1);
      DayScanShape(free[days[k - 1]], days[k - 1], cap, 0, 0);
      assert days[..k] == days[..k - 1] + [days[k - 1]];
      assert Scan(free, days, cap, checkUnav, unav, k) == a + b;
      forall i | 0 <= i < |a + b|
        ensures Taken(free, days, checkUnav, unav, k, (a + b)[i])
      {
        if i < |a| {
          assert (a + b)[i] == a[i];
          assert Taken(free, days, checkUnav, unav, k - 1, a[i]);
        } else {
          assert (a + b)[i] == b[i - |a|];
        }
      }
    }
  }

  /** Where a day stands in the order (the length of the order for a day not in it). */
  function Position(days: seq<nat>, d: nat): (i: nat)
    ensures i <= |days|
    ensures i < |days| <==> d in days
    ensures i < |days| ==> days[i] == d
    ensures forall j :: 0 <= j < i ==> days[j] != d
  {
    if days == [] then 0 else if days[0] == d then 0 else 1 + Position(days[1..], d)
  }

  predicate NoRepeats(days: seq<nat>) {
    forall i, j :: 0 <= i < j < |days| ==> days[i] != days[j]
  }

  lemma PositionOf(days: seq<nat>, i: nat)
    requires NoRepeats(days) && i < |days|
    ensures Position(days, days[i]) == i
  {
  }

  /** Hour a is visited before hour b: an earlier day in the order, or the same day and an earlier hour. */
  predicate ScanBefore(days: seq<nat>, a: Hour, b: Hour) {
    Position(days, a.0) < Position(days, b.0) || (a.0 == b.0 && a.1 < b.1)
  }

  /** An hour taken in the first k days stands before day k in the order. */
  lemma EarlierDay(free: seq<seq<bool>>, days: seq<nat>, checkUnav: bool, unav: nat, k: nat, x: Hour)
    requires k <= |days| && NoRepeats(days) && Taken(free, days, checkUnav, unav, k, x)
    ensures Position(days, x.0) < k
  {
    var e :| 0 <= e < k && days[e] == x.0;
    PositionOf(days, e);
  }

  /** Every hour of hs is visited strictly before the ones after it. */
  predicate InScanOrder(days: seq<nat>, hs: seq<Hour>) {
    forall i, j :: 0 <= i < j < |hs| ==> ScanBefore(days, hs[i], hs[j])
  }

  /** The hours of the first k days come grouped by day, in the day order, each
      day's hours ascending: strictly in visiting order. */
  lemma {:induction false} ScanOrdered(free: seq<seq<bool>>, days: seq<nat>, cap: nat, checkUnav: bool, unav: nat, k: nat)
    requires k <= |days| && (forall i :: 0 <= i < |days| ==> days[i] < |free|) && NoRepeats(days)
    ensures InScanOrder(days, Scan(free, days, cap, checkUnav, unav, k))
  {
    if k > 0 {
      var a := Scan(free, days, cap, checkUnav, unav, k - 1);
      var b := DayPicks(free, days[k - 1], cap, checkUnav && unav == days[k - 1]);
      var r := a + b;
      assert Scan(free, days, cap, checkUnav, unav, k) == r;
      ScanOrdered(free, days, cap, checkUnav, unav, k - 1);
      ScanEach(free, days, cap, checkUnav, unav, k - 1);
      DayScanShape(free[days[k - 1]], days[k - 1], cap, 0, 0);
      assert RowPicks(b, free[days[k - 1]], days[k - 1], 0);
      PositionOf(days, k - 1);
      forall i, j | 0 <= i < j < |r|
        ensures ScanBefore(days, r[i], r[j])
      {
        if j < |a| {
          assert r[i] == a[i] && r[j] == a[j];
        } else if i < |a| {
          assert r[i] == a[i] && r[j] == b[j - |a|];
          EarlierDay(free, days, checkUnav, unav, k - 1, a[i]);
        } else {
          assert r[i] == b[i - |a|] && r[j] == b[j - |a|];
        }
      }
    }
  }

  /** How many hours of hs lie on day d. */
  function OnDay(hs: seq<Hour>, d: nat): (n: nat)
    ensures n <= |hs|
  {
    if hs == [] then 0 else OnDay(hs[..|hs| - 1], d) + (if hs[|hs| - 1].0 == d then 1 else 0)
  }

  lemma {:induction false} OnDayAppend(a: seq<Hour>, b: seq<Hour>, d: nat)
    ensures OnDay(a + b, d) == OnDay(a, d) + OnDay(b, d)
    decreases |b|
  {
    if b == [] {
      assert a + b == a;
    } else {
      assert (a + b)[..|a + b| - 1] == a + b[..|b| - 1];
      assert (a + b)[|a + b| - 1] == b[|b| - 1];
      OnDayAppend(a, b[..|b| - 1], d);
    }
  }

  lemma {:induction false} OnDayNone(hs: seq<Hour>, d: nat)
    requires forall i :: 0 <= i < |hs| ==> hs[i].0 != d
    ensures OnDay(hs, d) == 0
  {
    if hs != [] {
      OnDayNone(hs[..|hs| - 1], d);
    }
  }

  lemma {:induction false} OnDayAll(hs: seq<Hour>, d: nat)
    requires forall i :: 0 <= i < |hs| ==> hs[i].0 == d
    ensures OnDay(hs, d) == |hs|
  {
    if hs != [] {
      OnDayAll(hs[..|hs| - 1], d);
    }
  }

  /** The hours the scan of day e takes all lie on e. */
  lemma DayPicksOnDay(free: seq<seq<bool>>, e: nat, cap: nat, skip: bool, d: nat)
    requires e < |free|
    ensures OnDay(DayPicks(free, e, cap, skip), d) == if e == d then |DayPicks(free, e, cap, skip)| else 0
  {
    var b := DayPicks(free, e, cap, skip);
    DayScanShape(free[e], e, cap, 0, 0);
    assert RowPicks(b, free[e], e, 0);
    if e == d {
      OnDayAll(b, d);
    } else {
      OnDayNone(b, d);
    }
  }

  /** The first k days hold, on day d, exactly the hours the scan of d takes, once
      d is among them, and none before. */
  lemma {:induction false} ScanOnDay(free: seq<seq<bool>>, days: seq<nat>, cap: nat, checkUnav: bool, unav: nat, k: nat, d: nat)
    requires k <= |days| && (forall i :: 0 <= i < |days| ==> days[i] < |free|) && NoRepeats(days)
    ensures OnDay(Scan(free, days, cap, checkUnav, unav, k), d)
              == if Position(days, d) < k then |DayPicks(free, d, cap, checkUnav && unav == d)| else 0
  {
    if k > 0 {
      var a := Scan(free, days, cap, checkUnav, unav, k - 1);
      var b := DayPicks(free, days[k - 1], cap, checkUnav && unav == days[k - 1]);
      assert Scan(free, days, cap, checkUnav, unav, k) == a + b;
      ScanOnDay(free, days, cap, checkUnav, unav, k - 1, d);
      OnDayAppend(a, b, d);
      DayPicksOnDay(free, days[k - 1], cap, checkUnav && unav == days[k - 1], d);
      if days[k - 1] == d {
        PositionOf(days, k - 1);
      } else {
        assert Position(days, d) != k - 1;
      }
    } else {
      assert Scan(free, days, cap, checkUnav, unav, k) == [];
    }
  }

  /** On any day the scan takes at most the cap, or one hour when the cap is 0. */
  lemma ScanPerDay(free: seq<seq<bool>>, days: seq<nat>, cap: nat, checkUnav: bool, unav: nat, d: nat)
    requires (forall i :: 0 <= i < |days| ==> days[i] < |free|) && NoRepeats(days)
    ensures OnDay(Scan(free, days, cap, checkUnav, unav, |days|), d) <= if cap == 0 then 1 else cap
  {
    ScanOnDay(free, days, cap, checkUnav, unav, |days|, d);
    if Position(days, d) < |days| && !(checkUnav && unav == d) {
      DayScanBound(free[d], d, cap, 0, 0);
    }
  }

  lemma {:induction false} ScanContains(free: seq<seq<bool>>, days: seq<nat>, cap: nat, k: nat, m: nat, unav: nat)
    requires m <= |days| && (forall i :: 0 <= i < |days| ==> days[i] < |free|) && 0 < k <= m
    ensures forall x :: x in DayPicks(free, days[k - 1], cap, false) ==> x in Scan(free, days, cap, false, unav, m)
  {
    if m > k {
      ScanContains(free, days, cap, k, m - 1, unav);
    }
  }

  // ---------------------------------------------------------------- what the scan returns

  /** The hours the scan returns: each free for both the class and the professor,
      never two the same, in visiting order, at most the cap on any day (one when
      the cap is 0), and none on the unavailability day when that is checked. */
  lemma CompatibleHoursProperties(inst: Instance, st: State, c: nat, p: nat, days: seq<nat>, cap: nat, checkUnav: bool)
    requires Fits(inst, st) && c < inst.nClasses && p < inst.NProfs() && IsDayOrder(inst, days)
    ensures InWeek(inst, Compatible(inst, st, c, p, days, cap, checkUnav))
    ensures Ready(inst, st, c, p, Compatible(inst, st, c, p, days, cap, checkUnav))
    ensures Distinct(Compatible(inst, st, c, p, days, cap, checkUnav))
    ensures InScanOrder(days, Compatible(inst, st, c, p, days, cap, checkUnav))
    ensures forall d :: OnDay(Compatible(inst, st, c, p, days, cap, checkUnav), d) <= if cap == 0 then 1 else cap
    ensures checkUnav ==> forall i :: 0 <= i < |Compatible(inst, st, c, p, days, cap, checkUnav)| ==>
              Compatible(inst, st, c, p, days, cap, checkUnav)[i].0 != inst.profUnavailability[p]
  {
    var free := FreeTable(inst, st, c, p);
    var unav := inst.profUnavailability[p];
    var r := Compatible(inst, st, c, p, days, cap, checkUnav);
    ScanEach(free, days, cap, checkUnav, unav, |days|);
    ScanOrdered(free, days, cap, checkUnav, unav, |days|);
    forall i | 0 <= i < |r|
      ensures r[i].0 < inst.nDays && r[i].1 < inst.nHoursXDay && CanAssign(inst, st, c, r[i].0, r[i].1, p)
      ensures checkUnav ==> r[i].0 != unav
    {
      assert Taken(free, days, checkUnav, unav, |days|, r[i]);
    }
    forall i, j | 0 <= i < j < |r|
      ensures r[i] != r[j]
    {
      assert ScanBefore(days, r[i], r[j]);
    }
    forall d: nat {
      ScanPerDay(free, days, cap, checkUnav, unav, d);
    }
  }

  /** The set of hours in a list. */
  function Elems(hs: seq<Hour>): (e: set<Hour>)
    ensures forall x :: x in e <==> x in hs
  {
    if hs == [] then {} else Elems(hs[..|hs| - 1]) + {hs[|hs| - 1]}
  }

  lemma {:induction false} ElemsSize(hs: seq<Hour>)
    ensures |Elems(hs)| <= |hs|
    ensures Distinct(hs) ==> |Elems(hs)| == |hs|
  {
    if hs != [] {
      var init := hs[..|hs| - 1];
      ElemsSize(init);
      if Distinct(hs) {
        assert hs[|hs| - 1] !in init;
      }
    }
  }

  lemma SubsetSize(a: set<Hour>, b: set<Hour>)
    requires a <= b
    ensures |a| <= |b|
  {
    assert b == a + (b - a);
  }

  /** With a cap of at least HoursXDay and no unavailability check, the scan takes
      every hour free for both the class and the professor. */
  lemma CompatibleFull(inst: Instance, st: State, c: nat, p: nat, days: seq<nat>, cap: nat, d: nat, h: nat)
    requires Fits(inst, st) && c < inst.nClasses && p < inst.NProfs() && IsDayOrder(inst, days)
    requires cap >= inst.nHoursXDay && d < inst.nDays && h < inst.nHoursXDay && CanAssign(inst, st, c, d, h, p)
    ensures (d, h) in Compatible(inst, st, c, p, days, cap, false)
  {
    var free := FreeTable(inst, st, c, p);
    var k := Position(days, d);
    DayScanFull(free[d], d, cap, 0, 0, h);
    ScanContains(free, days, cap, k + 1, |days|, inst.profUnavailability[p]);
  }

  /** The fully relaxed scan returns at least as many hours as any list of distinct
      hours free for both the class and the professor: when it returns fewer than
      n, no n such hours exist. */
  lemma FullScanBound(inst: Instance, st: State, c: nat, p: nat, days: seq<nat>, hs: seq<Hour>)
    requires Fits(inst, st) && c < inst.nClasses && p < inst.NProfs() && IsDayOrder(inst, days)
    requires InWeek(inst, hs) && Distinct(hs) && Ready(inst, st, c, p, hs)
    ensures |hs| <= |Compatible(inst, st, c, p, days, inst.nHoursXDay, false)|
  {
    var r := Compatible(inst, st, c, p, days, inst.nHoursXDay, false);
    forall x | x in Elems(hs)
      ensures x in Elems(r)
    {
      var i :| 0 <= i < |hs| && hs[i] == x;
      CompatibleFull(inst, st, c, p, days, inst.nHoursXDay, x.0, x.1);
    }
    ElemsSize(hs);
    ElemsSize(r);
    SubsetSize(Elems(hs), Elems(r));
  }
}
