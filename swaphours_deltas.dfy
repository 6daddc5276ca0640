/** The incremental costs of a SwapHours move (Sched_CostComponents.cc): for a
    move that SwapHours accepts, each delta is the change of its full cost. The
    ProfUnavailability delta is exact for every such move; the
    MaxSubjectHoursXDay delta when the two professors teach different subjects,
    which invariant I2 guarantees; the contiguity delta under I2. */
module SwapHoursDeltas {
  import opened Input
  import opened Counting
  import opened ScheduleState
  import opened Output
  import opened Costs
  import opened SwapHoursNeighborhood

  /** The two-slot outcome of a SwapHours move: whether SwapHours accepts it and the state it leaves. */
  function Applied(inst: Instance, st: State, mv: SwapHoursMove): (r: (bool, State))
    requires Fits(inst, st) && InRange(inst, mv)
    ensures Fits(inst, r.1)
  {
    SwapHoursResult(inst, st, mv.cls, mv.day1, mv.hour1, mv.cls, mv.day2, mv.hour2)
  }

  // ---------------------------------------------------------------- ProfUnavailability

  /** The row has a busy hour other than hx. */
  ghost predicate BusyBesides(row: seq<int>, hx: nat) {
    exists h :: 0 <= h < |row| && h != hx && row[h] != -1
  }

  /** Sched_SwapHoursDeltaProfUnavailability: nothing when both slots are on
      one day; otherwise each professor leaving its declared day from its only
      hour there saves one violation, and each professor arriving on its
      declared day with no other hour there adds one. */
  ghost function SwapHoursProfUnavailabilityDelta(inst: Instance, st: State, mv: SwapHoursMove): int
    requires Fits(inst, st) && InRange(inst, mv)
  {
    var sp := st.scheduleProf;
    var u := inst.profUnavailability;
    var p1 := st.scheduleClass[mv.cls][mv.day1][mv.hour1];
    var p2 := st.scheduleClass[mv.cls][mv.day2][mv.hour2];
    var saved: int := Bit(p1 != -1 && u[p1] == mv.day1 && !BusyBesides(sp[p1][mv.day1], mv.hour1))
                    + Bit(p2 != -1 && u[p2] == mv.day2 && !BusyBesides(sp[p2][mv.day2], mv.hour2));
    var added: int := Bit(p1 != -1 && u[p1] == mv.day2 && !BusyBesides(sp[p1][mv.day2], mv.hour2))
                    + Bit(p2 != -1 && u[p2] == mv.day1 && !BusyBesides(sp[p2][mv.day1], mv.hour1));
    if mv.day1 == mv.day2 then 0 else added - saved
  }

  /** The scan for another busy hour of professor p on day d, stopping at the first. */
  method ProfBusyBesides(out: Schedule, p: nat, d: nat, hx: nat) returns (busy: bool)
    requires out.Valid() && p < out.inst.NProfs() && d < out.inst.nDays
    ensures busy == BusyBesides(out.scheduleProf[p][d], hx)
  {
    var h := 0;
    while h < out.inst.nHoursXDay
      invariant 0 <= h <= out.inst.nHoursXDay
      invariant forall k :: 0 <= k < h && k != hx ==> out.scheduleProf[p][d][k] == -1
    {
      if !out.IsProfHourFree(p, d, h) && hx != h {
        break;
      }
      h := h + 1;
    }
    busy := h < out.inst.nHoursXDay;
  }

  method ComputeSwapHoursProfUnavailabilityDelta(out: Schedule, mv: SwapHoursMove) returns (cost: int)
    requires out.Valid() && InRange(out.inst, mv)
    ensures cost == SwapHoursProfUnavailabilityDelta(out.inst, out.Model(), mv)
    ensures mv.day1 == mv.day2 ==> cost == 0
  {
    var u := out.inst.profUnavailability;
    var p1 := out.ClassSchedule(mv.cls, mv.day1, mv.hour1);
    var p2 := out.ClassSchedule(mv.cls, mv.day2, mv.hour2);
    cost := 0;
    if mv.day1 == mv.day2 {
      return;
    }
    var busy: bool;
    if p1 != -1 && u[p1] == mv.day1 {
      busy := ProfBusyBesides(out, p1, mv.day1, mv.hour1);
      if !busy { cost := cost - 1; }
    }
    if p2 != -1 && u[p2] == mv.day2 {
      busy := ProfBusyBesides(out, p2, mv.day2, mv.hour2);
      if !busy { cost := cost - 1; }
    }
    if p1 != -1 && u[p1] == mv.day2 {
      busy := ProfBusyBesides(out, p1, mv.day2, mv.hour2);
      if !busy { cost := cost + 1; }
    }
    if p2 != -1 && u[p2] == mv.day1 {
      busy := ProfBusyBesides(out, p2, mv.day1, mv.hour1);
      if !busy { cost := cost + 1; }
    }
  }

  /** A professor's week in which one busy hour (da, ha) moves to a free hour
      (db, hb): a day stays busy or free unless it is the day left (which turns
      free when that was its only hour) or the day reached (which turns busy when
      it had no hour). */
  lemma MovedHourBusyDays(days: seq<seq<int>>, da: nat, ha: nat, db: nat, hb: nat, v: nat, u: nat)
    requires da < |days| && ha < |days[da]| && db < |days| && hb < |days[db]| && u < |days|
    requires days[da][ha] != -1 && days[db][hb] == -1
    ensures var moved := Put(Put(days, da, ha, -1), db, hb, v);
            Bit(!IsFreeRow(moved[u])) ==
              if da == db then Bit(!IsFreeRow(days[u]))
              else Bit(!IsFreeRow(days[u])) - Bit(u == da && !BusyBesides(days[da], ha))
                   + Bit(u == db && !BusyBesides(days[db], hb))
  {
    var moved := Put(Put(days, da, ha, -1), db, hb, v);
    assert moved[db][hb] != -1;
    assert !IsFreeRow(days[da]);
    if da != db {
      if u == da {
        assert moved[u] == days[da][ha := -1];
        if BusyBesides(days[da], ha) {
          var h :| 0 <= h < |days[da]| && h != ha && days[da][h] != -1;
          assert moved[u][h] != -1;
        } else {
          forall h | 0 <= h < |moved[u]| ensures moved[u][h] == -1 {
            if h != ha { assert !(0 <= h < |days[da]| && h != ha && days[da][h] != -1); }
          }
        }
      } else if u == db {
        assert IsFreeRow(days[u]) <==> !BusyBesides(days[db], hb);
      } else {
        assert moved[u] == days[u];
      }
    } else if u != da {
      assert moved[u] == days[u];
    }
  }

  /** After the move the cost still counts the professors busy on their declared day. */
  lemma AppliedProfUnavailabilityCounts(inst: Instance, st: State, mv: SwapHoursMove)
    requires Valid(inst, st) && InRange(inst, mv)
    ensures ProfUnavailabilityCost(inst, Applied(inst, st, mv).1)
         == BusyOnDeclaredDayUpTo(inst, Applied(inst, st, mv).1, inst.NProfs())
  {
    SwapHoursValid(inst, st, mv.cls, mv.day1, mv.hour1, mv.cls, mv.day2, mv.hour2);
    ProfUnavailabilityCostCounts(inst, Applied(inst, st, mv).1);
  }

  /** For a move SwapHours accepts, the delta is the change of the full cost. */
  lemma SwapHoursProfUnavailabilityDeltaExact(inst: Instance, st: State, mv: SwapHoursMove)
    requires Valid(inst, st) && InRange(inst, mv) && Applied(inst, st, mv).0
    ensures ProfUnavailabilityCost(inst, Applied(inst, st, mv).1)
         == ProfUnavailabilityCost(inst, st) + SwapHoursProfUnavailabilityDelta(inst, st, mv)
  {
    ProfUnavailabilityCostCounts(inst, st);
    AppliedProfUnavailabilityCounts(inst, st, mv);
    AppliedBusyOnDeclaredDay(inst, st, mv);
  }

  /** The professors busy on their declared day after the move. */
  lemma AppliedBusyOnDeclaredDay(inst: Instance, st: State, mv: SwapHoursMove)
    requires Fits(inst, st) && Mirror(inst, st) && InRange(inst, mv) && Applied(inst, st, mv).0
    ensures BusyOnDeclaredDayUpTo(inst, Applied(inst, st, mv).1, inst.NProfs())
         == BusyOnDeclaredDayUpTo(inst, st, inst.NProfs()) + SwapHoursProfUnavailabilityDelta(inst, st, mv)
  {
    SwapHoursSucceeds(inst, st, mv.cls, mv.day1, mv.hour1, mv.cls, mv.day2, mv.hour2);
    SwapHoursProfWeeks(inst, st, mv.cls, mv.day1, mv.hour1, mv.day2, mv.hour2);
    ProfWeeksBusyChange(inst, st, Applied(inst, st, mv).1, mv);
  }

  /** Only the two professors of the move can change, each as MovedHourBusyDays says. */
  lemma ProfWeeksBusyChange(inst: Instance, st: State, r: State, mv: SwapHoursMove)
    requires Fits(inst, st) && Fits(inst, r) && Mirror(inst, st) && InRange(inst, mv)
    requires var x1 := st.scheduleClass[mv.cls][mv.day1][mv.hour1];
             var x2 := st.scheduleClass[mv.cls][mv.day2][mv.hour2];
             && x1 != x2
             && (x1 != -1 ==> st.scheduleProf[x1][mv.day2][mv.hour2] == -1)
             && (x2 != -1 ==> st.scheduleProf[x2][mv.day1][mv.hour1] == -1)
             && (forall p | 0 <= p < inst.NProfs() && p != x1 && p != x2 :: r.scheduleProf[p] == st.scheduleProf[p])
             && (x1 != -1 ==> r.scheduleProf[x1] == Put(Put(st.scheduleProf[x1], mv.day1, mv.hour1, -1), mv.day2, mv.hour2, mv.cls))
             && (x2 != -1 ==> r.scheduleProf[x2] == Put(Put(st.scheduleProf[x2], mv.day2, mv.hour2, -1), mv.day1, mv.hour1, mv.cls))
    ensures BusyOnDeclaredDayUpTo(inst, r, inst.NProfs())
         == BusyOnDeclaredDayUpTo(inst, st, inst.NProfs()) + SwapHoursProfUnavailabilityDelta(inst, st, mv)
  {
    var c, d1, h1, d2, h2 := mv.cls, mv.day1, mv.hour1, mv.day2, mv.hour2;
    var x1 := st.scheduleClass[c][d1][h1];
    var x2 := st.scheduleClass[c][d2][h2];
    BusyOnDeclaredDayFrame(inst, st, r, inst.NProfs(), x1, x2);
    if x1 != -1 {
      MovedProfBusyTerm(inst, st, r, x1, d1, h1, d2, h2, c);
    }
    if x2 != -1 {
      MovedProfBusyTerm(inst, st, r, x2, d2, h2, d1, h1, c);
    }
  }

  /** The busy-on-declared-day term of one professor whose hour (da, ha) moves to (db, hb). */
  lemma MovedProfBusyTerm(inst: Instance, st: State, r: State, x: nat, da: nat, ha: nat, db: nat, hb: nat, c: nat)
    requires Fits(inst, st) && Fits(inst, r) && x < inst.NProfs()
    requires da < inst.nDays && ha < inst.nHoursXDay && db < inst.nDays && hb < inst.nHoursXDay
    requires st.scheduleProf[x][da][ha] != -1 && st.scheduleProf[x][db][hb] == -1
    requires r.scheduleProf[x] == Put(Put(st.scheduleProf[x], da, ha, -1), db, hb, c)
    ensures var u := inst.profUnavailability[x];
            var n := inst.NProfs();
            BusyTerm(inst, r, x, n) ==
              if da == db then BusyTerm(inst, st, x, n)
              else BusyTerm(inst, st, x, n) - Bit(u == da && !BusyBesides(st.scheduleProf[x][da], ha))
                   + Bit(u == db && !BusyBesides(st.scheduleProf[x][db], hb))
  {
    MovedHourBusyDays(st.scheduleProf[x], da, ha, db, hb, c, inst.profUnavailability[x]);
  }

  // ---------------------------------------------------------------- MaxSubjectHoursXDay

  /** Sched_SwapHoursDeltaMaxSubjectHoursXDay: nothing when both slots are on
      one day; otherwise each subject leaving a day over the cap saves one, and
      each subject arriving on a day at or over the cap adds one. */
  function SwapHoursMaxSubjectDelta(inst: Instance, st: State, mv: SwapHoursMove): int
    requires Fits(inst, st) && InRange(inst, mv)
  {
    var c := mv.cls;
    var daily := st.dailySubjectHours;
    var ps := inst.profSubject;
    var cap := inst.subjectMaxHoursXDay;
    var p1 := st.scheduleClass[c][mv.day1][mv.hour1];
    var p2 := st.scheduleClass[c][mv.day2][mv.hour2];
    var saved: int := Bit(p1 != -1 && daily[c][mv.day1][ps[p1]] > cap)
                    + Bit(p2 != -1 && daily[c][mv.day2][ps[p2]] > cap);
    var added: int := Bit(p2 != -1 && daily[c][mv.day1][ps[p2]] >= cap)
                    + Bit(p1 != -1 && daily[c][mv.day2][ps[p1]] >= cap);
    if mv.day1 == mv.day2 then 0 else added - saved
  }

  /** FreeHour lowers one daily counter: the cost drops by one exactly when it was over the cap. */
  lemma FreedDailyExcess(inst: Instance, st: State, c: nat, d: nat, h: nat)
    requires Fits(inst, st) && c < inst.nClasses && d < inst.nDays && h < inst.nHoursXDay
    requires st.scheduleClass[c][d][h] != -1
    ensures MaxSubjectHoursXDayCost(inst, Freed(inst, st, c, d, h))
            + Bit(st.dailySubjectHours[c][d][inst.profSubject[st.scheduleClass[c][d][h]]] > inst.subjectMaxHoursXDay)
         == MaxSubjectHoursXDayCost(inst, st)
  {
    var s := inst.profSubject[st.scheduleClass[c][d][h]];
    var g := st.dailySubjectHours;
    ExcessGridUpdate(g, inst.subjectMaxHoursXDay, c, d, s, g[c][d][s] - 1);
  }

  /** AssignHour raises one daily counter: the cost grows by one exactly when it was at or over the cap. */
  lemma AssignedDailyExcess(inst: Instance, st: State, c: nat, d: nat, h: nat, p: nat)
    requires Fits(inst, st) && c < inst.nClasses && d < inst.nDays && h < inst.nHoursXDay && p < inst.NProfs()
    requires CanAssign(inst, st, c, d, h, p)
    ensures MaxSubjectHoursXDayCost(inst, Assigned(inst, st, c, d, h, p))
         == MaxSubjectHoursXDayCost(inst, st)
            + Bit(st.dailySubjectHours[c][d][inst.profSubject[p]] >= inst.subjectMaxHoursXDay)
  {
    var s := inst.profSubject[p];
    var g := st.dailySubjectHours;
    ExcessGridUpdate(g, inst.subjectMaxHoursXDay, c, d, s, g[c][d][s] + 1);
  }

  /** The cost change of an exchange inside one class, step by step. */
  lemma ExchangedDailyExcess(inst: Instance, st: State, c: nat, d1: nat, h1: nat, d2: nat, h2: nat)
    requires Fits(inst, st)
    requires c < inst.nClasses && d1 < inst.nDays && h1 < inst.nHoursXDay && d2 < inst.nDays && h2 < inst.nHoursXDay
    requires var x1 := st.scheduleClass[c][d1][h1];
             var x2 := st.scheduleClass[c][d2][h2];
             x1 != x2 && x1 != -1 && x2 != -1 && st.scheduleProf[x1][d2][h2] == -1 && st.scheduleProf[x2][d1][h1] == -1
    requires d1 == d2 || inst.profSubject[st.scheduleClass[c][d1][h1]] != inst.profSubject[st.scheduleClass[c][d2][h2]]
    ensures MaxSubjectHoursXDayCost(inst, Exchanged(inst, st, c, d1, h1, c, d2, h2))
         == MaxSubjectHoursXDayCost(inst, st) + SwapHoursMaxSubjectDelta(inst, st, SwapHoursMove(c, d1, h1, d2, h2))
  {
    var cap := inst.subjectMaxHoursXDay;
    var x1 := st.scheduleClass[c][d1][h1];
    var x2 := st.scheduleClass[c][d2][h2];
    var s1 := Freed(inst, st, c, d1, h1);
    FreedDailyExcess(inst, st, c, d1, h1);
    var s2 := Freed(inst, s1, c, d2, h2);
    FreedDailyExcess(inst, s1, c, d2, h2);
    var s3 := Assigned(inst, s2, c, d1, h1, x2);
    AssignedDailyExcess(inst, s2, c, d1, h1, x2);
    AssignedDailyExcess(inst, s3, c, d2, h2, x1);
  }

  /** The cost change of a move to a free hour of the same class, step by step. */
  lemma MovedDailyExcess(inst: Instance, st: State, c: nat, d1: nat, h1: nat, d2: nat, h2: nat)
    requires Fits(inst, st)
    requires c < inst.nClasses && d1 < inst.nDays && h1 < inst.nHoursXDay && d2 < inst.nDays && h2 < inst.nHoursXDay
    requires var x1 := st.scheduleClass[c][d1][h1];
             x1 != -1 && st.scheduleClass[c][d2][h2] == -1 && st.scheduleProf[x1][d2][h2] == -1
    ensures var cap := inst.subjectMaxHoursXDay;
            var s := inst.profSubject[st.scheduleClass[c][d1][h1]];
            var daily := st.dailySubjectHours;
            (MaxSubjectHoursXDayCost(inst, Moved(inst, st, c, d1, h1, c, d2, h2))
             == MaxSubjectHoursXDayCost(inst, st)
                + (if d1 == d2 then 0 else Bit(daily[c][d2][s] >= cap) - Bit(daily[c][d1][s] > cap)))
  {
    var x1 := st.scheduleClass[c][d1][h1];
    var s1 := Freed(inst, st, c, d1, h1);
    FreedDailyExcess(inst, st, c, d1, h1);
    AssignedDailyExcess(inst, s1, c, d2, h2, x1);
  }

  /** For a move SwapHours accepts whose two professors teach different
      subjects (or that stays on one day, or moves a single hour), the delta is
      the change of the full cost. */
  lemma SwapHoursMaxSubjectDeltaExact(inst: Instance, st: State, mv: SwapHoursMove)
    requires Fits(inst, st) && InRange(inst, mv) && Applied(inst, st, mv).0
    requires var p1 := st.scheduleClass[mv.cls][mv.day1][mv.hour1];
             var p2 := st.scheduleClass[mv.cls][mv.day2][mv.hour2];
             mv.day1 == mv.day2 || p1 == -1 || p2 == -1 || inst.profSubject[p1] != inst.profSubject[p2]
    ensures MaxSubjectHoursXDayCost(inst, Applied(inst, st, mv).1)
         == MaxSubjectHoursXDayCost(inst, st) + SwapHoursMaxSubjectDelta(inst, st, mv)
  {
    var c, d1, h1, d2, h2 := mv.cls, mv.day1, mv.hour1, mv.day2, mv.hour2;
    var x1 := st.scheduleClass[c][d1][h1];
    var x2 := st.scheduleClass[c][d2][h2];
    if x1 != -1 && x2 != -1 {
      ExchangedDailyExcess(inst, st, c, d1, h1, d2, h2);
    } else if x1 != -1 {
      MovedDailyExcess(inst, st, c, d1, h1, d2, h2);
    } else {
      MovedDailyExcess(inst, st, c, d2, h2, d1, h1);
    }
  }

  /** Under invariant I2 two professors of one class teach different subjects,
      so the delta is exact for every move SwapHours accepts. */
  lemma SwapHoursMaxSubjectDeltaExactUnderOneProf(inst: Instance, st: State, mv: SwapHoursMove)
    requires Fits(inst, st) && OneProfPerSubject(inst, st) && InRange(inst, mv) && Applied(inst, st, mv).0
    ensures MaxSubjectHoursXDayCost(inst, Applied(inst, st, mv).1)
         == MaxSubjectHoursXDayCost(inst, st) + SwapHoursMaxSubjectDelta(inst, st, mv)
  {
    SwapHoursMaxSubjectDeltaExact(inst, st, mv);
  }

  // ---------------------------------------------------------------- ScheduleContiguity

  /** The hours h of a row that hold professor p (never, for p == -1), plus the
      hour `hin` and minus the hour `hout` (-1 for none): the masks the delta scan
      tracks, before and after the exchange. */
  function Marks(row: seq<int>, p: int, hin: int, hout: int): (m: seq<bool>)
    ensures |m| == |row|
    ensures forall h :: 0 <= h < |row| ==> m[h] == (p != -1 && (row[h] == p || h == hin) && h != hout)
  {
    seq(|row|, h requires 0 <= h < |row| => p != -1 && (row[h] == p || h == hin) && h != hout)
  }

  /** Sched_SwapHoursDeltaScheduleContiguity on the week of the move's class: the
      gaps of each professor's hours on the rows the move touches, after the
      exchange minus before. On two distinct days both rows count for both
      professors (the hours left behind and the hours arrived at); on a single
      day each professor has one row, with its hour moved. */
  function SwapContiguityDelta(days: seq<seq<int>>, d1: nat, h1: nat, d2: nat, h2: nat): int
    requires d1 < |days| && h1 < |days[d1]| && d2 < |days| && h2 < |days[d2]|
  {
    var row1 := days[d1];
    var row2 := days[d2];
    var p1 := row1[h1];
    var p2 := row2[h2];
    var same := d1 == d2;
    var before: int := Gaps(Marks(row1, p1, -1, -1)) + Gaps(Marks(row2, p2, -1, -1))
                     + (if same then 0 else Gaps(Marks(row2, p1, -1, -1)) + Gaps(Marks(row1, p2, -1, -1)));
    var after: int := Gaps(Marks(row2, p1, h2, if same then h1 else -1)) + Gaps(Marks(row1, p2, h1, if same then h2 else -1))
                    + (if same then 0 else Gaps(Marks(row1, p1, -1, h1)) + Gaps(Marks(row2, p2, -1, h2)));
    after - before
  }

  /** A tracker of the scan holds the last hour before h where its mask holds. */
  ghost predicate Tracks(m: seq<bool>, last: int, h: nat)
    requires h <= |m|
  {
    last == LastUpTo(m, h)
  }

  /** One tracker of the scan at hour h, for the mask of professor p on a row
      with hour hin added and hour hout removed: when the mask holds at h, a gap
      is counted if the tracker's previous hour is more than one hour back, and
      the tracker moves to h. */
  method TrackHour(ghost row: seq<int>, cell: int, p: int, hin: int, hout: int, last: int, h: nat)
    returns (last': int, gap: nat)
    requires h < |row| && cell == row[h] && Tracks(Marks(row, p, hin, hout), last, h)
    ensures Tracks(Marks(row, p, hin, hout), last', h + 1)
    ensures GapsUpTo(Marks(row, p, hin, hout), h + 1) == GapsUpTo(Marks(row, p, hin, hout), h) + gap
  {
    last', gap := last, 0;
    if p != -1 && (cell == p || h == hin) && h != hout {
      if last != -1 && h - last > 1 {
        gap := 1;
      }
      last' := h;
    }
  }

  /** Sched_SwapHoursDeltaScheduleContiguity::ComputeDeltaCost. */
  method ComputeSwapHoursContiguityDelta(out: Schedule, mv: SwapHoursMove) returns (cost: int)
    requires out.Valid() && InRange(out.inst, mv)
    ensures cost == SwapContiguityDelta(out.scheduleClass[mv.cls], mv.day1, mv.hour1, mv.day2, mv.hour2)
  {
    var p1 := out.ClassSchedule(mv.cls, mv.day1, mv.hour1);
    var p2 := out.ClassSchedule(mv.cls, mv.day2, mv.hour2);
    cost := ScanRows(out.scheduleClass[mv.cls][mv.day1], out.scheduleClass[mv.cls][mv.day2],
                     p1, p2, mv.hour1, mv.hour2, mv.day1 == mv.day2);
  }

  /** The gaps, up to hour h, of the two masks every scan tracks: each
      professor's hours after the exchange minus its hours before it. */
  ghost function MovedGapsUpTo(row1: seq<int>, row2: seq<int>, p1: int, p2: int, h1: nat, h2: nat, same: bool, h: nat): int
    requires |row1| == |row2| && h <= |row1|
  {
    var out1, out2 := if same then h1 else -1, if same then h2 else -1;
    GapsUpTo(Marks(row2, p1, h2, out1), h) + GapsUpTo(Marks(row1, p2, h1, out2), h)
      - GapsUpTo(Marks(row1, p1, -1, -1), h) - GapsUpTo(Marks(row2, p2, -1, -1), h)
  }

  /** The gaps, up to hour h, of the masks only a scan over two distinct days
      tracks: each professor's hours on the day it arrives at and on the day it
      leaves, after minus before. */
  ghost function CrossGapsUpTo(row1: seq<int>, row2: seq<int>, p1: int, p2: int, h1: nat, h2: nat, h: nat): int
    requires |row1| == |row2| && h <= |row1|
  {
    GapsUpTo(Marks(row1, p1, -1, h1), h) + GapsUpTo(Marks(row2, p2, -1, h2), h)
      - GapsUpTo(Marks(row2, p1, -1, -1), h) - GapsUpTo(Marks(row1, p2, -1, -1), h)
  }

  /** Hour h of the scan for the four trackers every scan has. */
  method MovedHour(ghost row1: seq<int>, ghost row2: seq<int>, a: int, b: int, p1: int, p2: int, h1: nat, h2: nat, same: bool, h: nat,
                   lastOld1: int, lastOld2: int, lastNew1: int, lastNew2: int)
    returns (lastOld1': int, lastOld2': int, lastNew1': int, lastNew2': int, delta: int)
    requires |row1| == |row2| && h < |row1| && a == row1[h] && b == row2[h]
    requires var out1, out2 := if same then h1 else -1, if same then h2 else -1;
             Tracks(Marks(row1, p1, -1, -1), lastOld1, h) && Tracks(Marks(row2, p2, -1, -1), lastOld2, h) &&
             Tracks(Marks(row2, p1, h2, out1), lastNew1, h) && Tracks(Marks(row1, p2, h1, out2), lastNew2, h)
    ensures var out1, out2 := if same then h1 else -1, if same then h2 else -1;
            Tracks(Marks(row1, p1, -1, -1), lastOld1', h + 1) && Tracks(Marks(row2, p2, -1, -1), lastOld2', h + 1) &&
            Tracks(Marks(row2, p1, h2, out1), lastNew1', h + 1) && Tracks(Marks(row1, p2, h1, out2), lastNew2', h + 1)
    ensures MovedGapsUpTo(row1, row2, p1, p2, h1, h2, same, h + 1) == MovedGapsUpTo(row1, row2, p1, p2, h1, h2, same, h) + delta
  {
    var out1, out2 := if same then h1 else -1, if same then h2 else -1;
    var g1: int, g2: int, g3: int, g4: int;
    lastOld1', g1 := TrackHour(row1, a, p1, -1, -1, lastOld1, h);
    lastOld2', g2 := TrackHour(row2, b, p2, -1, -1, lastOld2, h);
    lastNew1', g3 := TrackHour(row2, b, p1, h2, out1, lastNew1, h);
    lastNew2', g4 := TrackHour(row1, a, p2, h1, out2, lastNew2, h);
    delta := g3 + g4 - g1 - g2;
  }

  /** Hour h of the scan for the four trackers of a scan over two distinct days. */
  method CrossHour(ghost row1: seq<int>, ghost row2: seq<int>, a: int, b: int, p1: int, p2: int, h1: nat, h2: nat, h: nat,
                   lastArr1: int, lastArr2: int, lastRes1: int, lastRes2: int)
    returns (lastArr1': int, lastArr2': int, lastRes1': int, lastRes2': int, delta: int)
    requires |row1| == |row2| && h < |row1| && a == row1[h] && b == row2[h]
    requires Tracks(Marks(row2, p1, -1, -1), lastArr1, h) && Tracks(Marks(row1, p2, -1, -1), lastArr2, h) &&
             Tracks(Marks(row1, p1, -1, h1), lastRes1, h) && Tracks(Marks(row2, p2, -1, h2), lastRes2, h)
    ensures Tracks(Marks(row2, p1, -1, -1), lastArr1', h + 1) && Tracks(Marks(row1, p2, -1, -1), lastArr2', h + 1) &&
            Tracks(Marks(row1, p1, -1, h1), lastRes1', h + 1) && Tracks(Marks(row2, p2, -1, h2), lastRes2', h + 1)
    ensures CrossGapsUpTo(row1, row2, p1, p2, h1, h2, h + 1) == CrossGapsUpTo(row1, row2, p1, p2, h1, h2, h) + delta
  {
    var g1: int, g2: int, g3: int, g4: int;
    lastArr1', g1 := TrackHour(row2, b, p1, -1, -1, lastArr1, h);
    lastArr2', g2 := TrackHour(row1, a, p2, -1, -1, lastArr2, h);
    lastRes1', g3 := TrackHour(row1, a, p1, -1, h1, lastRes1, h);
    lastRes2', g4 := TrackHour(row2, b, p2, -1, h2, lastRes2, h);
    delta := g3 + g4 - g1 - g2;
  }

  /** The loop of the delta scan: one pass over the hours of the rows of day1 and
      day2 with eight position trackers, one per mask; the gaps of the masks
      after the exchange are added and those before it subtracted. On a single
      day the trackers of the hours arrived at and left behind are not used. */
  method ScanRows(row1: seq<int>, row2: seq<int>, p1: int, p2: int, h1: nat, h2: nat, same: bool) returns (cost: int)
    requires |row1| == |row2| && h1 < |row1| && h2 < |row2|
    ensures var before: int := Gaps(Marks(row1, p1, -1, -1)) + Gaps(Marks(row2, p2, -1, -1))
                             + (if same then 0 else Gaps(Marks(row2, p1, -1, -1)) + Gaps(Marks(row1, p2, -1, -1)));
            var after: int := Gaps(Marks(row2, p1, h2, if same then h1 else -1)) + Gaps(Marks(row1, p2, h1, if same then h2 else -1))
                            + (if same then 0 else Gaps(Marks(row1, p1, -1, h1)) + Gaps(Marks(row2, p2, -1, h2)));
            cost == after - before
  {
    var out1, out2 := if same then h1 else -1, if same then h2 else -1;
    cost := 0;
    var lastOld1, lastOld2, lastArr1, lastArr2 := -1, -1, -1, -1;
    var lastNew1, lastNew2, lastRes1, lastRes2 := -1, -1, -1, -1;
    var delta;
    var h := 0;
    while h < |row1|
      invariant 0 <= h <= |row1|
      invariant Tracks(Marks(row1, p1, -1, -1), lastOld1, h) && Tracks(Marks(row2, p2, -1, -1), lastOld2, h)
      invariant Tracks(Marks(row2, p1, h2, out1), lastNew1, h) && Tracks(Marks(row1, p2, h1, out2), lastNew2, h)
      invariant !same ==> Tracks(Marks(row2, p1, -1, -1), lastArr1, h) && Tracks(Marks(row1, p2, -1, -1), lastArr2, h)
      invariant !same ==> Tracks(Marks(row1, p1, -1, h1), lastRes1, h) && Tracks(Marks(row2, p2, -1, h2), lastRes2, h)
      invariant cost == MovedGapsUpTo(row1, row2, p1, p2, h1, h2, same, h)
                        + (if same then 0 else CrossGapsUpTo(row1, row2, p1, p2, h1, h2, h))
    {
      var a, b := row1[h], row2[h];
      lastOld1, lastOld2, lastNew1, lastNew2, delta :=
        MovedHour(row1, row2, a, b, p1, p2, h1, h2, same, h, lastOld1, lastOld2, lastNew1, lastNew2);
      cost := cost + delta;
      if !same {
        lastArr1, lastArr2, lastRes1, lastRes2, delta :=
          CrossHour(row1, row2, a, b, p1, p2, h1, h2, h, lastArr1, lastArr2, lastRes1, lastRes2);
        cost := cost + delta;
      }
      h := h + 1;
    }
  }

  // ---------------------------------------------------------------- the contiguity delta is exact under I2

  /** Every hour of the week that holds a professor of p's subject holds p:
      what invariant I2 says of a professor present in a class. */
  ghost predicate OwnsSubject(ps: seq<nat>, days: seq<seq<int>>, p: nat)
    requires p < |ps|
  {
    forall d, h | 0 <= d < |days| && 0 <= h < |days[d]| && Matches(ps, Teaches(ps[p]), days[d][h]) :: days[d][h] == p
  }

  /** For the owner of a subject, the subject's hours are the owner's hours. */
  lemma OwnedSubjectMask(ps: seq<nat>, days: seq<seq<int>>, p: nat, d: nat)
    requires p < |ps| && OwnsSubject(ps, days, p) && d < |days|
    ensures SubjectMask(ps, days[d], ps[p]) == Marks(days[d], p, -1, -1)
  {
    var m, m' := SubjectMask(ps, days[d], ps[p]), Marks(days[d], p, -1, -1);
    forall h | 0 <= h < |days[d]| ensures m[h] == m'[h] {
      if m[h] { assert days[d][h] == p; }
    }
  }

  /** A mask of nobody's hours has no gap. */
  lemma NoMarksNoGaps(row: seq<int>, hin: int, hout: int)
    ensures Gaps(Marks(row, -1, hin, hout)) == 0
  {
    SingleMarkNoGaps(Marks(row, -1, hin, hout), |row|);
  }

  /** A week with the contents of hours (d1, h1) and (d2, h2) exchanged. */
  function SwappedWeek(days: seq<seq<int>>, d1: nat, h1: nat, d2: nat, h2: nat): (w: seq<seq<int>>)
    requires d1 < |days| && h1 < |days[d1]| && d2 < |days| && h2 < |days[d2]|
    ensures |w| == |days| && forall d :: 0 <= d < |days| ==> |w[d]| == |days[d]|
    ensures (d1, h1) != (d2, h2) ==>
              forall d, h | 0 <= d < |days| && 0 <= h < |days[d]| ::
                w[d][h] == if (d, h) == (d1, h1) then days[d2][h2]
                           else if (d, h) == (d2, h2) then days[d1][h1]
                           else days[d][h]
  {
    Put(Put(days, d1, h1, days[d2][h2]), d2, h2, days[d1][h1])
  }

  lemma SwappedWeekSymmetric(days: seq<seq<int>>, d1: nat, h1: nat, d2: nat, h2: nat)
    requires d1 < |days| && h1 < |days[d1]| && d2 < |days| && h2 < |days[d2]| && (d1, h1) != (d2, h2)
    ensures SwappedWeek(days, d2, h2, d1, h1) == SwappedWeek(days, d1, h1, d2, h2)
  {
    var w, w' := SwappedWeek(days, d2, h2, d1, h1), SwappedWeek(days, d1, h1, d2, h2);
    forall d | 0 <= d < |days| ensures w[d] == w'[d] {
      assert forall h | 0 <= h < |days[d]| :: w[d][h] == w'[d][h];
    }
  }

  /** The gaps of subject s on day d < n; 0 for any other d (-1 included). */
  function DayTerm(ps: seq<nat>, days: seq<seq<int>>, s: nat, d: int, n: nat): nat
    requires n <= |days|
  {
    if 0 <= d < n then Gaps(SubjectMask(ps, days[d], s)) else 0
  }

  /** Two weeks whose gaps of subject s differ at most on days d1 and d2. */
  lemma {:induction false} DayGapsFrame(ps: seq<nat>, days: seq<seq<int>>, days': seq<seq<int>>, s: nat, n: nat, d1: int, d2: int)
    requires n <= |days| && n <= |days'| && d1 != d2
    requires forall d :: 0 <= d < n && d != d1 && d != d2 ==>
               Gaps(SubjectMask(ps, days'[d], s)) == Gaps(SubjectMask(ps, days[d], s))
    ensures DayGapsUpTo(ps, days', s, n) + DayTerm(ps, days, s, d1, n) + DayTerm(ps, days, s, d2, n)
         == DayGapsUpTo(ps, days, s, n) + DayTerm(ps, days', s, d1, n) + DayTerm(ps, days', s, d2, n)
  {
    if n > 0 {
      DayGapsFrame(ps, days, days', s, n - 1, d1, d2);
    }
  }

  /** The gaps of subject s < n over the week; 0 for any other s (-1 included). */
  function SubjectTerm(ps: seq<nat>, days: seq<seq<int>>, s: int, n: nat): nat {
    if 0 <= s < n then DayGapsUpTo(ps, days, s, |days|) else 0
  }

  /** Two weeks whose gaps differ at most for subjects s1 and s2. */
  lemma {:induction false} SubjectGapsFrame(ps: seq<nat>, days: seq<seq<int>>, days': seq<seq<int>>, n: nat, s1: int, s2: int)
    requires |days'| == |days| && s1 != s2
    requires forall s :: 0 <= s < n && s != s1 && s != s2 ==>
               DayGapsUpTo(ps, days', s, |days|) == DayGapsUpTo(ps, days, s, |days|)
    ensures SubjectGapsUpTo(ps, days', n) + SubjectTerm(ps, days, s1, n) + SubjectTerm(ps, days, s2, n)
         == SubjectGapsUpTo(ps, days, n) + SubjectTerm(ps, days', s1, n) + SubjectTerm(ps, days', s2, n)
  {
    if n > 0 {
      SubjectGapsFrame(ps, days, days', n - 1, s1, s2);
    }
  }

  /** Replacing the week of class c changes the total by the change of that week's gaps. */
  lemma {:induction false} ClassGapsFrame(ps: seq<nat>, g: seq<seq<seq<int>>>, w: seq<seq<int>>, nSubjects: nat, n: nat, c: nat)
    requires n <= |g| && c < |g|
    ensures ClassGapsUpTo(ps, g[c := w], nSubjects, n) + (if c < n then SubjectGapsUpTo(ps, g[c], nSubjects) else 0)
         == ClassGapsUpTo(ps, g, nSubjects, n) + (if c < n then SubjectGapsUpTo(ps, w, nSubjects) else 0)
  {
    if n > 0 {
      ClassGapsFrame(ps, g, w, nSubjects, n - 1, c);
    }
  }

  /** A subject neither exchanged hour teaches keeps its hours. */
  lemma OtherSubjectMask(ps: seq<nat>, days: seq<seq<int>>, d1: nat, h1: nat, d2: nat, h2: nat, s: nat, d: nat)
    requires d1 < |days| && h1 < |days[d1]| && d2 < |days| && h2 < |days[d2]| && (d1, h1) != (d2, h2)
    requires !Matches(ps, Teaches(s), days[d1][h1]) && !Matches(ps, Teaches(s), days[d2][h2])
    requires d < |days|
    ensures SubjectMask(ps, SwappedWeek(days, d1, h1, d2, h2)[d], s) == SubjectMask(ps, days[d], s)
  {
    var w := SwappedWeek(days, d1, h1, d2, h2);
    var m, m' := SubjectMask(ps, w[d], s), SubjectMask(ps, days[d], s);
    assert forall h | 0 <= h < |days[d]| :: m[h] == m'[h];
  }

  /** The gaps of the subject of the professor x at (da, ha), which owns it,
      when x's hour and (db, hb) are exchanged: on one day its hour moves; on
      two days it leaves one row and arrives on the other. */
  lemma OwnerDayGaps(ps: seq<nat>, days: seq<seq<int>>, da: nat, ha: nat, db: nat, hb: nat)
    requires da < |days| && ha < |days[da]| && db < |days| && hb < |days[db]| && (da, ha) != (db, hb)
    requires 0 <= days[da][ha] < |ps| && OwnsSubject(ps, days, days[da][ha])
    requires !Matches(ps, Teaches(ps[days[da][ha]]), days[db][hb])
    ensures var x := days[da][ha];
            var w := SwappedWeek(days, da, ha, db, hb);
            DayGapsUpTo(ps, w, ps[x], |days|) - DayGapsUpTo(ps, days, ps[x], |days|) ==
              if da == db then Gaps(Marks(days[da], x, hb, ha)) - Gaps(Marks(days[da], x, -1, -1))
              else Gaps(Marks(days[da], x, -1, ha)) - Gaps(Marks(days[da], x, -1, -1))
                   + Gaps(Marks(days[db], x, hb, -1)) - Gaps(Marks(days[db], x, -1, -1))
  {
    var x := days[da][ha];
    var w := SwappedWeek(days, da, ha, db, hb);
    assert OwnsSubject(ps, w, x);
    OwnedSubjectMask(ps, days, x, da);
    OwnedSubjectMask(ps, days, x, db);
    OwnedSubjectMask(ps, w, x, da);
    OwnedSubjectMask(ps, w, x, db);
    forall d | 0 <= d < |days| && d != da && d != db
      ensures Gaps(SubjectMask(ps, w[d], ps[x])) == Gaps(SubjectMask(ps, days[d], ps[x]))
    {
      assert w[d] == days[d];
    }
    DayGapsFrame(ps, days, w, ps[x], |days|, da, if da == db then -1 else db);
    if da == db {
      assert Marks(w[da], x, -1, -1) == Marks(days[da], x, hb, ha);
    } else {
      assert Marks(w[da], x, -1, -1) == Marks(days[da], x, -1, ha);
      assert Marks(w[db], x, -1, -1) == Marks(days[db], x, hb, -1);
    }
  }

  /** The gaps of one class's week after an exchange of two of its hours whose
      professors own their subjects: the old total plus the delta. */
  lemma WeekContiguityChange(ps: seq<nat>, days: seq<seq<int>>, nSubjects: nat, d1: nat, h1: nat, d2: nat, h2: nat)
    requires d1 < |days| && h1 < |days[d1]| && d2 < |days| && h2 < |days[d2]|
    requires forall p :: 0 <= p < |ps| ==> ps[p] < nSubjects
    requires -1 <= days[d1][h1] < |ps| && -1 <= days[d2][h2] < |ps| && days[d1][h1] != days[d2][h2]
    requires days[d1][h1] != -1 ==> OwnsSubject(ps, days, days[d1][h1])
    requires days[d2][h2] != -1 ==> OwnsSubject(ps, days, days[d2][h2])
    ensures SubjectGapsUpTo(ps, SwappedWeek(days, d1, h1, d2, h2), nSubjects)
         == SubjectGapsUpTo(ps, days, nSubjects) + SwapContiguityDelta(days, d1, h1, d2, h2)
  {
    var x1, x2 := days[d1][h1], days[d2][h2];
    var w := SwappedWeek(days, d1, h1, d2, h2);
    var s1: int := if x1 != -1 then ps[x1] else -1;
    var s2: int := if x2 != -1 then ps[x2] else -1;
    // each professor owns its subject, so two different ones teach different subjects
    assert x1 != -1 && x2 != -1 ==> s1 != s2;
    forall s | 0 <= s < nSubjects && s != s1 && s != s2
      ensures DayGapsUpTo(ps, w, s, |days|) == DayGapsUpTo(ps, days, s, |days|)
    {
      forall d | 0 <= d < |days| ensures Gaps(SubjectMask(ps, w[d], s)) == Gaps(SubjectMask(ps, days[d], s)) {
        OtherSubjectMask(ps, days, d1, h1, d2, h2, s, d);
      }
      DayGapsFrame(ps, days, w, s, |days|, -1, -2);
    }
    SubjectGapsFrame(ps, days, w, nSubjects, s1, s2);
    if x1 != -1 {
      OwnerDayGaps(ps, days, d1, h1, d2, h2);
    } else {
      NoMarksNoGaps(days[d1], -1, -1);
      NoMarksNoGaps(days[d2], -1, -1);
      NoMarksNoGaps(days[d2], h2, if d1 == d2 then h1 else -1);
      NoMarksNoGaps(days[d1], -1, h1);
    }
    if x2 != -1 {
      SwappedWeekSymmetric(days, d1, h1, d2, h2);
      OwnerDayGaps(ps, days, d2, h2, d1, h1);
    } else {
      NoMarksNoGaps(days[d2], -1, -1);
      NoMarksNoGaps(days[d1], -1, -1);
      NoMarksNoGaps(days[d1], h1, if d1 == d2 then h2 else -1);
      NoMarksNoGaps(days[d2], -1, h2);
    }
  }

  /** A grid that differs from g exactly by the exchange of two hours of class c
      is g with c's week swapped. */
  lemma ExchangedGrid(g: seq<seq<seq<int>>>, g': seq<seq<seq<int>>>, nD: nat, nH: nat, c: nat, d1: nat, h1: nat, d2: nat, h2: nat)
    requires Grid(g, |g|, nD, nH) && Grid(g', |g|, nD, nH)
    requires c < |g| && d1 < nD && h1 < nH && d2 < nD && h2 < nH && (d1, h1) != (d2, h2)
    requires g'[c][d1][h1] == g[c][d2][h2] && g'[c][d2][h2] == g[c][d1][h1]
    requires forall c', d, h | 0 <= c' < |g| && 0 <= d < nD && 0 <= h < nH &&
               (c', d, h) != (c, d1, h1) && (c', d, h) != (c, d2, h2) :: g'[c'][d][h] == g[c'][d][h]
    ensures g' == g[c := SwappedWeek(g[c], d1, h1, d2, h2)]
  {
    var g'' := g[c := SwappedWeek(g[c], d1, h1, d2, h2)];
    forall c' | 0 <= c' < |g| ensures g'[c'] == g''[c'] {
      forall d | 0 <= d < nD ensures g'[c'][d] == g''[c'][d] {
        assert forall h | 0 <= h < nH :: g'[c'][d][h] == g''[c'][d][h];
      }
    }
  }

  /** A successful SwapHours inside class c exchanges two hours of c's week and
      leaves every other week as it was. */
  lemma AppliedWeeks(inst: Instance, st: State, mv: SwapHoursMove)
    requires Fits(inst, st) && InRange(inst, mv) && Applied(inst, st, mv).0
    ensures Applied(inst, st, mv).1.scheduleClass
         == st.scheduleClass[mv.cls := SwappedWeek(st.scheduleClass[mv.cls], mv.day1, mv.hour1, mv.day2, mv.hour2)]
  {
    var c := mv.cls;
    SwapHoursExchanges(inst, st, c, mv.day1, mv.hour1, c, mv.day2, mv.hour2);
    SwapHoursSucceeds(inst, st, c, mv.day1, mv.hour1, c, mv.day2, mv.hour2);
    ExchangedGrid(st.scheduleClass, Applied(inst, st, mv).1.scheduleClass, inst.nDays, inst.nHoursXDay,
                  c, mv.day1, mv.hour1, mv.day2, mv.hour2);
  }

  /** Under I2 the professor of an occupied hour owns its subject in the class. */
  lemma OccupantOwnsSubject(inst: Instance, st: State, c: nat, d: nat, h: nat)
    requires Fits(inst, st) && OneProfPerSubject(inst, st)
    requires c < inst.nClasses && d < inst.nDays && h < inst.nHoursXDay && st.scheduleClass[c][d][h] != -1
    ensures OwnsSubject(inst.profSubject, st.scheduleClass[c], st.scheduleClass[c][d][h])
  {
  }

  /** Under invariant I2, for a move SwapHours accepts, the delta is the change of the full cost. */
  lemma SwapHoursContiguityDeltaExact(inst: Instance, st: State, mv: SwapHoursMove)
    requires Fits(inst, st) && OneProfPerSubject(inst, st) && InRange(inst, mv) && Applied(inst, st, mv).0
    ensures ScheduleContiguityCost(inst, Applied(inst, st, mv).1)
         == ScheduleContiguityCost(inst, st)
            + SwapContiguityDelta(st.scheduleClass[mv.cls], mv.day1, mv.hour1, mv.day2, mv.hour2)
  {
    var c, d1, h1, d2, h2 := mv.cls, mv.day1, mv.hour1, mv.day2, mv.hour2;
    var ps := inst.profSubject;
    var days := st.scheduleClass[c];
    AppliedWeeks(inst, st, mv);
    SwapHoursSucceeds(inst, st, c, d1, h1, c, d2, h2);
    ClassGapsFrame(ps, st.scheduleClass, SwappedWeek(days, d1, h1, d2, h2), inst.NSubjects(), inst.nClasses, c);
    if days[d1][h1] != -1 {
      OccupantOwnsSubject(inst, st, c, d1, h1);
    }
    if days[d2][h2] != -1 {
      OccupantOwnsSubject(inst, st, c, d2, h2);
    }
    WeekContiguityChange(ps, days, inst.NSubjects(), d1, h1, d2, h2);
  }
}
