/** The incremental costs of an AssignProf move (Sched_CostComponents.cc). An
    AssignProf move adds one hour, so no old cost is subtracted. The
    MaxSubjectHoursXDay and ProfMaxWeeklyHours deltas are the change of their
    full cost for every move AssignHour accepts. The ProfUnavailability and
    contiguity deltas are modelled as written and characterised exactly; both
    can differ from the change of the full cost. */
module AssignProfDeltas {
  import opened Input
  import opened Counting
  import opened ScheduleState
  import opened Output
  import opened Costs
  import opened AssignProfNeighborhood
  import SH = SwapHoursDeltas

  /** The state a move AssignHour accepts leaves. */
  function AfterMove(inst: Instance, st: State, mv: AssignProfMove): (r: State)
    requires Fits(inst, st) && InRange(inst, mv) && CanAssign(inst, st, mv.cls, mv.day, mv.hour, mv.prof)
    ensures Fits(inst, r)
  {
    Assigned(inst, st, mv.cls, mv.day, mv.hour, mv.prof)
  }

  // ---------------------------------------------------------------- ProfUnavailability

  /** Professor p holds an hour of the row other than hx. */
  ghost predicate InRowBesides(row: seq<int>, p: nat, hx: nat) {
    exists h :: 0 <= h < |row| && h != hx && row[h] == p
  }

  /** Sched_AssignProfDeltaProfUnavailability: on the professor's declared day,
      1 unless the professor already has another hour of this class that day;
      0 on any other day. */
  ghost function AssignProfProfUnavailabilityDelta(inst: Instance, st: State, mv: AssignProfMove): (delta: nat)
    requires Fits(inst, st) && InRange(inst, mv)
    ensures delta <= 1
    ensures inst.profUnavailability[mv.prof] != mv.day ==> delta == 0
  {
    Bit(inst.profUnavailability[mv.prof] == mv.day && !InRowBesides(st.scheduleClass[mv.cls][mv.day], mv.prof, mv.hour))
  }

  method ComputeAssignProfProfUnavailabilityDelta(out: Schedule, mv: AssignProfMove) returns (cost: int)
    requires out.Valid() && InRange(out.inst, mv)
    ensures cost == AssignProfProfUnavailabilityDelta(out.inst, out.Model(), mv)
  {
    if out.inst.profUnavailability[mv.prof] == mv.day {
      var h := 0;
      while h < out.inst.nHoursXDay
        invariant 0 <= h <= out.inst.nHoursXDay
        invariant forall k :: 0 <= k < h && k != mv.hour ==> out.scheduleClass[mv.cls][mv.day][k] != mv.prof
      {
        if out.ClassSchedule(mv.cls, mv.day, h) == mv.prof && h != mv.hour {
          return 0;
        }
        h := h + 1;
      }
      return 1;
    }
    return 0;
  }

  /** The change of the full cost: 1 exactly when the hour lands on the
      professor's declared day and the professor has no hour that day in any
      class. */
  ghost function DeclaredDayDelta(inst: Instance, st: State, mv: AssignProfMove): (delta: nat)
    requires Fits(inst, st) && InRange(inst, mv)
  {
    Bit(inst.profUnavailability[mv.prof] == mv.day && IsFreeRow(st.scheduleProf[mv.prof][mv.day]))
  }

  /** DeclaredDayDelta is the change of the full ProfUnavailability cost. */
  lemma DeclaredDayDeltaExact(inst: Instance, st: State, mv: AssignProfMove)
    requires Valid(inst, st) && InRange(inst, mv) && CanAssign(inst, st, mv.cls, mv.day, mv.hour, mv.prof)
    ensures ProfUnavailabilityCost(inst, AfterMove(inst, st, mv))
         == ProfUnavailabilityCost(inst, st) + DeclaredDayDelta(inst, st, mv)
  {
    var r := AfterMove(inst, st, mv);
    var p := mv.prof;
    AssignedValid(inst, st, mv.cls, mv.day, mv.hour, p);
    ProfUnavailabilityCostCounts(inst, st);
    ProfUnavailabilityCostCounts(inst, r);
    BusyOnDeclaredDayFrame(inst, st, r, inst.NProfs(), p, -1);
    if inst.profUnavailability[p] == mv.day {
      assert r.scheduleProf[p][mv.day][mv.hour] != -1;
    } else {
      assert r.scheduleProf[p][inst.profUnavailability[p]] == st.scheduleProf[p][inst.profUnavailability[p]];
    }
  }

  /** The delta as written overcounts by one exactly when the hour lands on the
      professor's declared day, the professor already teaches that day, and none
      of those hours is in this class. */
  lemma AssignProfProfUnavailabilityDeltaOvercount(inst: Instance, st: State, mv: AssignProfMove)
    requires Valid(inst, st) && InRange(inst, mv)
    ensures AssignProfProfUnavailabilityDelta(inst, st, mv)
         == DeclaredDayDelta(inst, st, mv)
            + Bit(inst.profUnavailability[mv.prof] == mv.day && !IsFreeRow(st.scheduleProf[mv.prof][mv.day])
                  && !InRowBesides(st.scheduleClass[mv.cls][mv.day], mv.prof, mv.hour))
  {
    if InRowBesides(st.scheduleClass[mv.cls][mv.day], mv.prof, mv.hour) {
      var h :| 0 <= h < inst.nHoursXDay && h != mv.hour && st.scheduleClass[mv.cls][mv.day][h] == mv.prof;
      assert st.scheduleProf[mv.prof][mv.day][h] == mv.cls;
    }
  }

  /** One professor, one subject, two classes, one day of two hours; the
      professor's declared day is that day. */
  function OneDayInstance(): (inst: Instance)
    ensures inst.WellFormed() && inst.NProfs() == 1 && inst.nClasses == 2
    ensures inst.nDays == 1 && inst.nHoursXDay == 2 && inst.profUnavailability == [0]
  {
    Instance(1, 2, [2], [0], [0], 2, [[0]], 2, 2, 1, 1, 1, 1)
  }

  /** With the professor teaching class 0 at hour 0, assigning it to class 1 at
      hour 1 of the same day leaves the full cost unchanged, but the delta as
      written is 1. */
  lemma ProfUnavailabilityDeltaCounterexample()
    ensures var inst := OneDayInstance();
            var st := Assigned(inst, Empty(inst), 0, 0, 0, 0);
            var mv := AssignProfMove(1, 0, 1, 0, 0);
            && Valid(inst, st) && CanAssign(inst, st, 1, 0, 1, 0)
            && AssignProfProfUnavailabilityDelta(inst, st, mv) == 1
            && ProfUnavailabilityCost(inst, AfterMove(inst, st, mv)) == ProfUnavailabilityCost(inst, st)
  {
    var inst := OneDayInstance();
    var st0 := Empty(inst);
    var st := Assigned(inst, st0, 0, 0, 0, 0);
    var mv := AssignProfMove(1, 0, 1, 0, 0);
    AssignedValid(inst, st0, 0, 0, 0, 0);
    assert st.scheduleProf[0][0][0] == 0;
    assert !InRowBesides(st.scheduleClass[1][0], 0, 1);
    DeclaredDayDeltaExact(inst, st, mv);
  }

  // ---------------------------------------------------------------- MaxSubjectHoursXDay

  /** Sched_AssignProfDeltaMaxSubjectHoursXDay: 1 when the class already has
      the cap's worth of the subject's hours that day. */
  function AssignProfMaxSubjectDelta(inst: Instance, st: State, mv: AssignProfMove): nat
    requires Fits(inst, st) && InRange(inst, mv)
  {
    Bit(st.dailySubjectHours[mv.cls][mv.day][inst.profSubject[mv.prof]] >= inst.subjectMaxHoursXDay)
  }

  /** For a move AssignHour accepts, the delta is the change of the full cost. */
  lemma AssignProfMaxSubjectDeltaExact(inst: Instance, st: State, mv: AssignProfMove)
    requires Fits(inst, st) && InRange(inst, mv) && CanAssign(inst, st, mv.cls, mv.day, mv.hour, mv.prof)
    ensures MaxSubjectHoursXDayCost(inst, AfterMove(inst, st, mv))
         == MaxSubjectHoursXDayCost(inst, st) + AssignProfMaxSubjectDelta(inst, st, mv)
  {
    SH.AssignedDailyExcess(inst, st, mv.cls, mv.day, mv.hour, mv.prof);
  }

  // ---------------------------------------------------------------- ProfMaxWeeklyHours

  /** Sched_AssignProfDeltaProfMaxWeeklyHours: 1 when the professor already
      teaches the cap's worth of hours. */
  function AssignProfProfMaxWeeklyDelta(inst: Instance, st: State, mv: AssignProfMove): nat
    requires Fits(inst, st) && InRange(inst, mv)
  {
    Bit(st.profWeeklyHours[mv.prof] >= inst.profMaxWeeklyHours)
  }

  /** For a move AssignHour accepts, the delta is the change of the full cost. */
  lemma AssignProfProfMaxWeeklyDeltaExact(inst: Instance, st: State, mv: AssignProfMove)
    requires Fits(inst, st) && InRange(inst, mv) && CanAssign(inst, st, mv.cls, mv.day, mv.hour, mv.prof)
    ensures ProfMaxWeeklyHoursCost(inst, AfterMove(inst, st, mv))
         == ProfMaxWeeklyHoursCost(inst, st) + AssignProfProfMaxWeeklyDelta(inst, st, mv)
  {
    var w := st.profWeeklyHours;
    ExcessSumUpdate(w, inst.profMaxWeeklyHours, mv.prof, w[mv.prof] + 1);
  }

  // ---------------------------------------------------------------- ScheduleContiguity

  /** An hour next to hour h of the row holds professor p. */
  predicate NextToProf(row: seq<int>, p: nat, h: nat)
    requires h < |row|
  {
    (h > 0 && row[h - 1] == p) || (h < |row| - 1 && row[h + 1] == p)
  }

  /** Sched_AssignProfDeltaScheduleContiguity on the row of the move: 0 when an
      hour next to the new one holds the professor; otherwise 1 when the row's
      hours of the professor, the new hour included, have a gap. */
  function AssignProfContiguityDelta(row: seq<int>, p: nat, h: nat): (delta: nat)
    requires h < |row|
    ensures delta <= 1
  {
    if h > 0 && row[h - 1] == p then 0
    else if h < |row| - 1 && row[h + 1] == p then 0
    else Bit(Gaps(SH.Marks(row, p, h, -1)) > 0)
  }

  method ComputeAssignProfContiguityDelta(out: Schedule, mv: AssignProfMove) returns (cost: int)
    requires out.Valid() && InRange(out.inst, mv)
    ensures cost == AssignProfContiguityDelta(out.scheduleClass[mv.cls][mv.day], mv.prof, mv.hour)
  {
    var c, d := mv.cls, mv.day;
    if mv.hour > 0 {
      if out.ClassSchedule(c, d, mv.hour - 1) == mv.prof {
        return 0;
      }
    }
    if mv.hour < out.inst.nHoursXDay - 1 {
      if out.ClassSchedule(c, d, mv.hour + 1) == mv.prof {
        return 0;
      }
    }
    cost := ScanForGap(out.scheduleClass[c][d], mv.prof, mv.hour);
  }

  /** The loop of the contiguity delta: one pass over the row with the position
      of the last hour of the professor (or the new hour), returning 1 at the
      first gap. */
  method ScanForGap(row: seq<int>, p: nat, hin: nat) returns (cost: int)
    requires hin < |row|
    ensures cost == Bit(Gaps(SH.Marks(row, p, hin, -1)) > 0)
  {
    ghost var m := SH.Marks(row, p, hin, -1);
    var last := -1;
    var h := 0;
    while h < |row|
      invariant 0 <= h <= |row|
      invariant last == LastUpTo(m, h) && GapsUpTo(m, h) == 0
    {
      if row[h] == p || h == hin {
        if last != -1 && h - last > 1 {
          GapsUpToMonotone(m, h + 1, |m|);
          return 1;
        }
        last := h;
      }
      h := h + 1;
    }
    return 0;
  }

  lemma {:induction false} GapsUpToMonotone(m: seq<bool>, i: nat, j: nat)
    requires i <= j <= |m|
    ensures GapsUpTo(m, i) <= GapsUpTo(m, j)
  {
    if i < j {
      GapsUpToMonotone(m, i, j - 1);
    }
  }

  /** The first marked position at or after n, or |m| when there is none. */
  function NextMarkFrom(m: seq<bool>, n: nat): (r: nat)
    requires n <= |m|
    ensures n <= r <= |m| && (r < |m| ==> m[r])
    ensures forall i :: n <= i < r ==> !m[i]
    decreases |m| - n
  {
    if n == |m| || m[n] then n else NextMarkFrom(m, n + 1)
  }

  /** The last mark before n is at least any mark before n. */
  lemma {:induction false} LastUpToFinds(m: seq<bool>, n: nat, k: nat)
    requires k < n <= |m| && m[k]
    ensures LastUpTo(m, n) >= k
  {
    if n - 1 != k && !m[n - 1] {
      LastUpToFinds(m, n - 1, k);
    }
  }

  /** With no mark strictly between h and n, the last mark before n is h. */
  lemma {:induction false} LastUpToSkips(m: seq<bool>, h: nat, n: nat)
    requires h < n <= |m| && m[h]
    requires forall i :: h < i < n ==> !m[i]
    ensures LastUpTo(m, n) == h
  {
    if n - 1 > h {
      LastUpToSkips(m, h, n - 1);
    }
  }

  /** A new hour that is not next to any of the professor's hours in the row
      makes a gap exactly when the professor has another hour in the row. */
  lemma FarHourGaps(row: seq<int>, p: nat, h: nat)
    requires h < |row| && !NextToProf(row, p, h)
    ensures Gaps(SH.Marks(row, p, h, -1)) > 0 <==> InRowBesides(row, p, h)
  {
    var m := SH.Marks(row, p, h, -1);
    if InRowBesides(row, p, h) {
      var k :| 0 <= k < |row| && k != h && row[k] == p;
      if k < h {
        LastUpToFinds(m, h, k);
        assert h - LastUpTo(m, h) > 1;
        assert GapsUpTo(m, h + 1) > 0;
        GapsUpToMonotone(m, h + 1, |m|);
      } else {
        var k' := NextMarkFrom(m, h + 1);
        assert k' <= k && k' != h + 1;
        LastUpToSkips(m, h, k');
        assert GapsUpTo(m, k' + 1) > 0;
        GapsUpToMonotone(m, k' + 1, |m|);
      }
    } else {
      SingleMarkNoGaps(m, |m|);
    }
  }

  /** The delta as written, in words: 1 exactly when the new hour is next to
      none of the professor's hours of that row but the professor has another
      hour in it. */
  lemma AssignProfContiguityDeltaMeaning(row: seq<int>, p: nat, h: nat)
    requires h < |row|
    ensures AssignProfContiguityDelta(row, p, h) == Bit(!NextToProf(row, p, h) && InRowBesides(row, p, h))
  {
    if !NextToProf(row, p, h) {
      FarHourGaps(row, p, h);
    }
  }
}
