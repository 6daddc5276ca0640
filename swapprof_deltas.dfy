/** The incremental costs of a SwapProf move (Sched_CostComponents.cc). Both
    deltas are stated on the state before the move and proved equal to the
    change of their full cost across a move that MakeMove makes: the
    ProfUnavailability delta for every feasible move, the ProfMaxWeeklyHours
    delta under invariant I2, which makes a class's subject hours the hours the
    move hands over. */
module SwapProfDeltas {
  import opened Input
  import opened Counting
  import opened ScheduleState
  import opened Output
  import opened Costs
  import opened SwapProfEffect
  import opened SwapProfNeighborhood

  // ---------------------------------------------------------------- ProfUnavailability

  /** Professor p has an hour of day u with a class other than c. */
  ghost predicate BusyElsewhereOn(inst: Instance, st: State, p: nat, c: nat, u: nat)
    requires Fits(inst, st) && p < inst.NProfs() && u < inst.nDays
  {
    exists h :: 0 <= h < inst.nHoursXDay && st.scheduleProf[p][u][h] != -1 && st.scheduleProf[p][u][h] != c
  }

  /** Professor q teaches class c at some hour of day u. */
  ghost predicate TeachesOn(inst: Instance, st: State, q: nat, c: nat, u: nat)
    requires Fits(inst, st) && q < inst.NProfs() && u < inst.nDays
  {
    exists h :: 0 <= h < inst.nHoursXDay && st.scheduleProf[q][u][h] == c
  }

  /** One professor's half of the delta: p gives up class c and takes over
      class c' from q. Nothing changes when p is busy with another class on
      its declared day; otherwise the violation is resolved when q brings no
      lesson of c' to that day, and introduced when q brings one to a day p
      had free. */
  ghost function DayOffTerm(inst: Instance, st: State, p: nat, c: nat, q: nat, c': nat): int
    requires Fits(inst, st) && p < inst.NProfs() && q < inst.NProfs()
  {
    var u := inst.profUnavailability[p];
    if BusyElsewhereOn(inst, st, p, c, u) then 0
    else if !TeachesOn(inst, st, q, c', u) && st.profDayOff[p] != u then -1
    else if TeachesOn(inst, st, q, c', u) && st.profDayOff[p] == u then 1
    else 0
  }

  /** Sched_SwapProfDeltaProfUnavailability: the two professors' halves. */
  ghost function SwapProfProfUnavailabilityDelta(inst: Instance, st: State, mv: SwapProfMove): int
    requires Valid(inst, st) && InRange(inst, mv) && Swappable(inst, st, mv)
  {
    var w := MovePair(inst, st, mv);
    DayOffTerm(inst, st, w.p1, w.c1, w.p2, w.c2) + DayOffTerm(inst, st, w.p2, w.c2, w.p1, w.c1)
  }

  method ComputeSwapProfProfUnavailabilityDelta(out: Schedule, mv: SwapProfMove) returns (cost: int)
    requires out.Valid() && InRange(out.inst, mv) && Swappable(out.inst, out.Model(), mv)
    ensures cost == SwapProfProfUnavailabilityDelta(out.inst, out.Model(), mv)
  {
    var p1 := out.SubjectProf(mv.class1, mv.subject);
    var p2 := out.SubjectProf(mv.class2, mv.subject);
    var t1 := DayOffChange(out, p1 as nat, mv.class1, p2 as nat, mv.class2);
    var t2 := DayOffChange(out, p2 as nat, mv.class2, p1 as nat, mv.class1);
    cost := t1 + t2;
  }

  /** The two scans of one professor's half: the first looks for an hour of
      another class on p's declared day, the second for a lesson of c' by q. */
  method DayOffChange(out: Schedule, p: nat, c: nat, q: nat, c': nat) returns (cost: int)
    requires out.Valid() && p < out.inst.NProfs() && q < out.inst.NProfs()
    ensures cost == DayOffTerm(out.inst, out.Model(), p, c, q, c')
  {
    var u := out.inst.profUnavailability[p];
    cost := 0;
    var h := 0;
    while h < out.inst.nHoursXDay
      invariant 0 <= h <= out.inst.nHoursXDay
      invariant forall k :: 0 <= k < h ==> out.scheduleProf[p][u][k] == -1 || out.scheduleProf[p][u][k] == c
    {
      if !out.IsProfHourFree(p, u, h) && out.ProfSchedule(p, u, h) != c {
        break;
      }
      h := h + 1;
    }
    if h == out.inst.nHoursXDay {
      h := 0;
      while h < out.inst.nHoursXDay
        invariant 0 <= h <= out.inst.nHoursXDay
        invariant forall k :: 0 <= k < h ==> out.scheduleProf[q][u][k] != c'
      {
        if out.ProfSchedule(q, u, h) == c' {
          break;
        }
        h := h + 1;
      }
      if h == out.inst.nHoursXDay && out.ProfAssignedDayOff(p) != u {
        cost := cost - 1;
      } else if h < out.inst.nHoursXDay && out.ProfAssignedDayOff(p) == u {
        cost := cost + 1;
      }
    }
  }

  /** The pair with the roles of the two classes exchanged. */
  function Flip(w: Pair): (f: Pair)
    ensures f.s == w.s && f.c1 == w.c2 && f.p1 == w.p2 && f.c2 == w.c1 && f.p2 == w.p1
  {
    Pair(w.s, w.c2, w.p2, w.c1, w.p1)
  }

  /** With two different classes the swap is the same seen from either class. */
  lemma FlipSwappedCell(inst: Instance, sc: seq<seq<seq<int>>>, w: Pair, c: nat, d: nat, h: nat)
    requires inst.WellFormed() && PairOk(inst, w) && c < |sc| && d < |sc[c]| && h < |sc[c][d]|
    ensures SwappedCell(sc, Flip(w), c, d, h) == SwappedCell(sc, w, c, d, h)
  {
  }

  /** After the swap, professor p1 is busy at (d, h) exactly when it was busy
      there with a class other than c1, or p2 taught c2 there. */
  lemma ProfHourAfter(inst: Instance, st: State, w: Pair, st': State, d: nat, h: nat)
    requires Fits(inst, st) && Mirror(inst, st) && Fits(inst, st') && Mirror(inst, st') && PairOk(inst, w)
    requires d < inst.nDays && h < inst.nHoursXDay
    requires forall c | 0 <= c < inst.nClasses :: st'.scheduleClass[c][d][h] == SwappedCell(st.scheduleClass, w, c, d, h)
    ensures st'.scheduleProf[w.p1][d][h] != -1 <==>
            (st.scheduleProf[w.p1][d][h] != -1 && st.scheduleProf[w.p1][d][h] != w.c1) || st.scheduleProf[w.p2][d][h] == w.c2
  {
    var c := st'.scheduleProf[w.p1][d][h];
    if c != -1 {
      assert st'.scheduleClass[c][d][h] == w.p1;
    }
    var o := st.scheduleProf[w.p1][d][h];
    if o != -1 && o != w.c1 {
      assert st.scheduleClass[o][d][h] == w.p1;
      assert st'.scheduleClass[o][d][h] == w.p1;
    }
    if st.scheduleProf[w.p2][d][h] == w.c2 {
      assert st.scheduleClass[w.c2][d][h] == w.p2;
      assert st'.scheduleClass[w.c2][d][h] == w.p1;
    }
  }

  /** Professor p1's declared day is free after the swap exactly when p1 had no
      other class on it and p2 taught c2 nothing on it. */
  lemma DeclaredDayAfter(inst: Instance, st: State, w: Pair, st': State)
    requires Fits(inst, st) && Mirror(inst, st) && Fits(inst, st') && Mirror(inst, st') && PairOk(inst, w)
    requires forall c, d, h | 0 <= c < inst.nClasses && 0 <= d < inst.nDays && 0 <= h < inst.nHoursXDay ::
               st'.scheduleClass[c][d][h] == SwappedCell(st.scheduleClass, w, c, d, h)
    ensures var u := inst.profUnavailability[w.p1];
            IsFreeRow(st'.scheduleProf[w.p1][u]) <==>
              !BusyElsewhereOn(inst, st, w.p1, w.c1, u) && !TeachesOn(inst, st, w.p2, w.c2, u)
  {
    var u := inst.profUnavailability[w.p1];
    forall h | 0 <= h < inst.nHoursXDay
      ensures st'.scheduleProf[w.p1][u][h] != -1 <==>
              (st.scheduleProf[w.p1][u][h] != -1 && st.scheduleProf[w.p1][u][h] != w.c1) || st.scheduleProf[w.p2][u][h] == w.c2
    {
      ProfHourAfter(inst, st, w, st', u, h);
    }
  }

  /** One professor's term of the full cost changes by its half of the delta. */
  lemma DayOffTermExact(inst: Instance, st: State, w: Pair, st': State)
    requires Valid(inst, st) && Valid(inst, st') && PairOk(inst, w)
    requires forall c, d, h | 0 <= c < inst.nClasses && 0 <= d < inst.nDays && 0 <= h < inst.nHoursXDay ::
               st'.scheduleClass[c][d][h] == SwappedCell(st.scheduleClass, w, c, d, h)
    ensures Bit(BusyOnDeclaredDay(inst, st', w.p1))
         == Bit(BusyOnDeclaredDay(inst, st, w.p1)) + DayOffTerm(inst, st, w.p1, w.c1, w.p2, w.c2)
  {
    var u := inst.profUnavailability[w.p1];
    DeclaredDayAfter(inst, st, w, st');
    DayOffCases(st.scheduleProf[w.p1], u);
    if BusyElsewhereOn(inst, st, w.p1, w.c1, u) {
      var h :| 0 <= h < inst.nHoursXDay && st.scheduleProf[w.p1][u][h] != -1 && st.scheduleProf[w.p1][u][h] != w.c1;
      assert !IsFreeRow(st.scheduleProf[w.p1][u]);
    }
  }

  /** The busy-on-declared-day status of the professors other than p1 and p2 is kept. */
  lemma OthersKept(inst: Instance, st: State, w: Pair, st': State, q: nat)
    requires Fits(inst, st) && Mirror(inst, st) && Fits(inst, st') && Mirror(inst, st') && PairOk(inst, w)
    requires q < inst.NProfs() && q != w.p1 && q != w.p2
    requires forall c, d, h | 0 <= c < inst.nClasses && 0 <= d < inst.nDays && 0 <= h < inst.nHoursXDay ::
               st'.scheduleClass[c][d][h] == SwappedCell(st.scheduleClass, w, c, d, h)
    ensures BusyOnDeclaredDay(inst, st', q) == BusyOnDeclaredDay(inst, st, q)
  {
    var u := inst.profUnavailability[q];
    forall h | 0 <= h < inst.nHoursXDay
      ensures st'.scheduleProf[q][u][h] == st.scheduleProf[q][u][h]
    {
      var a := st'.scheduleProf[q][u][h];
      var b := st.scheduleProf[q][u][h];
      if a != -1 {
        assert st'.scheduleClass[a][u][h] == q;
        assert st.scheduleClass[a][u][h] == q;
      }
      if b != -1 {
        assert st.scheduleClass[b][u][h] == q;
        assert st'.scheduleClass[b][u][h] == q;
      }
    }
    assert st'.scheduleProf[q][u] == st.scheduleProf[q][u];
  }

  /** For a feasible move, the delta is the change of the full ProfUnavailability cost. */
  lemma SwapProfProfUnavailabilityDeltaExact(inst: Instance, st: State, mv: SwapProfMove, st': State)
    requires Valid(inst, st) && InRange(inst, mv) && Feasible(inst, st, mv) && Valid(inst, st')
    requires SwapOutcome(inst, st, MovePair(inst, st, mv), st')
    ensures ProfUnavailabilityCost(inst, st') == ProfUnavailabilityCost(inst, st) + SwapProfProfUnavailabilityDelta(inst, st, mv)
  {
    var w := MovePair(inst, st, mv);
    ProfUnavailabilityCostCounts(inst, st);
    ProfUnavailabilityCostCounts(inst, st');
    forall q | 0 <= q < inst.NProfs() && q != w.p1 && q != w.p2
      ensures BusyOnDeclaredDay(inst, st', q) == BusyOnDeclaredDay(inst, st, q)
    {
      OthersKept(inst, st, w, st', q);
    }
    BusyOnDeclaredDayFrame(inst, st, st', inst.NProfs(), w.p1, w.p2);
    DayOffTermExact(inst, st, w, st');
    forall c, d, h | 0 <= c < inst.nClasses && 0 <= d < inst.nDays && 0 <= h < inst.nHoursXDay
      ensures st'.scheduleClass[c][d][h] == SwappedCell(st.scheduleClass, Flip(w), c, d, h)
    {
      FlipSwappedCell(inst, st.scheduleClass, w, c, d, h);
    }
    DayOffTermExact(inst, st, Flip(w), st');
  }

  // ---------------------------------------------------------------- ProfMaxWeeklyHours

  /** The positive part of x: how far a load is over the cap, given x = load - cap. */
  function Over(x: int): nat { if x > 0 then x else 0 }

  /** The source's branches for k hours moving from a professor with excess
      eFrom to one with excess eTo, both measured against the cap. */
  function ShiftCost(eFrom: int, eTo: int, k: nat): (cost: int)
    ensures cost == Over(eFrom - k) - Over(eFrom) + Over(eTo + k) - Over(eTo)
  {
    var lost := if eFrom > 0 then (if eFrom > k then k else eFrom) else 0;
    var gained := if eTo > 0 then k else if eTo + k > 0 then eTo + k else 0;
    gained - lost
  }

  /** The two branches of the source: the class with more hours of the subject
      (h1 or h2) hands the difference from its professor to the other one; in
      closed form, each professor's excess moves by the hours it trades. */
  function ShiftDelta(e1: int, e2: int, h1: int, h2: int): (cost: int)
    ensures cost == Over(e1 - h1 + h2) - Over(e1) + Over(e2 - h2 + h1) - Over(e2)
  {
    (if h1 > h2 then ShiftCost(e1, e2, h1 - h2) else 0) + (if h1 < h2 then ShiftCost(e2, e1, h2 - h1) else 0)
  }

  /** Sched_SwapProfDeltaProfMaxWeeklyHours, on the two professors' excesses
      over the cap and the two classes' weekly hours of the subject. */
  function SwapProfProfMaxWeeklyDelta(inst: Instance, st: State, mv: SwapProfMove): int
    requires Valid(inst, st) && InRange(inst, mv) && Swappable(inst, st, mv)
  {
    var w := MovePair(inst, st, mv);
    ShiftDelta(st.profWeeklyHours[w.p1] - inst.profMaxWeeklyHours, st.profWeeklyHours[w.p2] - inst.profMaxWeeklyHours,
               st.weeklySubjectHours[w.c1][w.s], st.weeklySubjectHours[w.c2][w.s])
  }

  /** Two loads shifted by the same number of hours in opposite directions
      change the summed excess by the two professors' changes. */
  lemma ShiftedExcess(xs: seq<int>, cap: nat, i: nat, j: nat, a: int, b: int)
    requires i < |xs| && j < |xs| && i != j
    ensures ExcessSum(xs[i := xs[i] - a + b][j := xs[j] - b + a], cap)
         == ExcessSum(xs, cap) + Over(xs[i] - cap - a + b) - Over(xs[i] - cap) + Over(xs[j] - cap - b + a) - Over(xs[j] - cap)
  {
    var ys := xs[i := xs[i] - a + b];
    ExcessSumUpdate(xs, cap, i, xs[i] - a + b);
    ExcessSumUpdate(ys, cap, j, xs[j] - b + a);
  }

  /** The summed excess after the two loads trade h1 and h2 hours. */
  lemma TradedExcess(xs: seq<int>, ys: seq<int>, cap: nat, i: nat, j: nat, h1: int, h2: int)
    requires i < |xs| && j < |xs| && i != j
    requires ys == xs[i := xs[i] - h1 + h2][j := xs[j] - h2 + h1]
    ensures ExcessSum(ys, cap) == ExcessSum(xs, cap) + ShiftDelta(xs[i] - cap, xs[j] - cap, h1, h2)
  {
    ShiftedExcess(xs, cap, i, j, h1, h2);
  }

  /** Under I2, for a feasible move the delta is the change of the full
      ProfMaxWeeklyHours cost. */
  lemma SwapProfProfMaxWeeklyDeltaExact(inst: Instance, st: State, mv: SwapProfMove, st': State)
    requires Valid(inst, st) && InRange(inst, mv) && Swappable(inst, st, mv) && OneProfPerSubject(inst, st)
    requires Fits(inst, st') && SwapOutcome(inst, st, MovePair(inst, st, mv), st')
    ensures ProfMaxWeeklyHoursCost(inst, st') == ProfMaxWeeklyHoursCost(inst, st) + SwapProfProfMaxWeeklyDelta(inst, st, mv)
  {
    var w := MovePair(inst, st, mv);
    HoursOfRecordedProf(inst, st, w.c1, w.p1);
    HoursOfRecordedProf(inst, st, w.c2, w.p2);
    TradedExcess(st.profWeeklyHours, st'.profWeeklyHours, inst.profMaxWeeklyHours, w.p1, w.p2,
                 st.weeklySubjectHours[w.c1][w.s], st.weeklySubjectHours[w.c2][w.s]);
  }
}
