/** The five cost components (Sched_CostComponents.cc): each full recomputation
    is a spec function over the timetable state, paired with a loop method that
    scans the schedule the way ComputeCost does and is proved to return it. The
    costs are raw violation counts; the weights and the hard/soft split live in
    the framework and are not part of this model. */
module Costs {
  import opened Input
  import opened Counting
  import opened ScheduleState
  import opened Output

  // ---------------------------------------------------------------- ProfUnavailability

  /** The professors below n whose day off is missing (-1) or is not their
      declared unavailability day. */
  function DayOffMissesUpTo(dayOff: seq<int>, unav: seq<nat>, n: nat): (r: nat)
    requires n <= |dayOff| && n <= |unav|
    ensures r <= n
  {
    if n == 0 then 0
    else DayOffMissesUpTo(dayOff, unav, n - 1) + Bit(dayOff[n - 1] == -1 || dayOff[n - 1] != unav[n - 1])
  }

  function ProfUnavailabilityCost(inst: Instance, st: State): nat
    requires Fits(inst, st)
  {
    DayOffMissesUpTo(st.profDayOff, inst.profUnavailability, inst.NProfs())
  }

  /** Professor p teaches at some hour of its declared unavailability day. */
  ghost predicate BusyOnDeclaredDay(inst: Instance, st: State, p: nat)
    requires Fits(inst, st) && p < inst.NProfs()
  {
    !IsFreeRow(st.scheduleProf[p][inst.profUnavailability[p]])
  }

  /** The professors below n who teach on their declared day. */
  ghost function BusyOnDeclaredDayUpTo(inst: Instance, st: State, n: nat): nat
    requires Fits(inst, st) && n <= inst.NProfs()
  {
    if n == 0 then 0
    else BusyOnDeclaredDayUpTo(inst, st, n - 1) + Bit(BusyOnDeclaredDay(inst, st, n - 1))
  }

  /** Bit(BusyOnDeclaredDay(p)) for a professor index below n, 0 for anything else (-1 included). */
  ghost function BusyTerm(inst: Instance, st: State, p: int, n: nat): nat
    requires Fits(inst, st) && n <= inst.NProfs()
  {
    if 0 <= p < n then Bit(BusyOnDeclaredDay(inst, st, p)) else 0
  }

  /** Two states in which only professors p1 and p2 may differ in being busy on
      their declared day: their counts differ by those two professors' terms. */
  lemma {:induction false} BusyOnDeclaredDayFrame(inst: Instance, st: State, st': State, n: nat, p1: int, p2: int)
    requires Fits(inst, st) && Fits(inst, st') && n <= inst.NProfs() && p1 != p2
    requires forall p :: 0 <= p < n && p != p1 && p != p2 ==>
               BusyOnDeclaredDay(inst, st', p) == BusyOnDeclaredDay(inst, st, p)
    ensures BusyOnDeclaredDayUpTo(inst, st', n) + BusyTerm(inst, st, p1, n) + BusyTerm(inst, st, p2, n)
         == BusyOnDeclaredDayUpTo(inst, st, n) + BusyTerm(inst, st', p1, n) + BusyTerm(inst, st', p2, n)
  {
    if n > 0 {
      BusyOnDeclaredDayFrame(inst, st, st', n - 1, p1, p2);
    }
  }

  /** With the day offs ComputeProfDayOff derives, the cost is the number of
      professors who teach on their declared unavailability day. */
  lemma {:induction false} ProfUnavailabilityCostIsBusyDeclaredDays(inst: Instance, st: State, n: nat)
    requires Valid(inst, st) && n <= inst.NProfs()
    ensures DayOffMissesUpTo(st.profDayOff, inst.profUnavailability, n) == BusyOnDeclaredDayUpTo(inst, st, n)
  {
    if n > 0 {
      ProfUnavailabilityCostIsBusyDeclaredDays(inst, st, n - 1);
      DayOffCases(st.scheduleProf[n - 1], inst.profUnavailability[n - 1]);
    }
  }

  lemma ProfUnavailabilityCostCounts(inst: Instance, st: State)
    requires Valid(inst, st)
    ensures ProfUnavailabilityCost(inst, st) == BusyOnDeclaredDayUpTo(inst, st, inst.NProfs())
    ensures ProfUnavailabilityCost(inst, st) <= inst.NProfs()
  {
    ProfUnavailabilityCostIsBusyDeclaredDays(inst, st, inst.NProfs());
  }

  method ComputeProfUnavailabilityCost(out: Schedule) returns (violations: nat)
    requires out.Valid()
    ensures violations == ProfUnavailabilityCost(out.inst, out.Model())
  {
    violations := 0;
    var p := 0;
    while p < out.inst.NProfs()
      invariant 0 <= p <= out.inst.NProfs()
      invariant violations == DayOffMissesUpTo(out.profDayOff, out.inst.profUnavailability, p)
    {
      if out.ProfAssignedDayOff(p) == -1 || out.ProfAssignedDayOff(p) != out.inst.profUnavailability[p] {
        violations := violations + 1;
      }
      p := p + 1;
    }
  }

  // ---------------------------------------------------------------- MaxSubjectHoursXDay

  /** Σ over (class, day, subject) of how far the daily hours go over the cap. */
  function MaxSubjectHoursXDayCost(inst: Instance, st: State): nat
    requires Fits(inst, st)
  {
    ExcessGrid(st.dailySubjectHours, inst.subjectMaxHoursXDay)
  }

  /** The cost is 0 exactly when no class has more hours of a subject on a day than the cap. */
  lemma MaxSubjectHoursXDayCostZero(inst: Instance, st: State)
    requires Valid(inst, st)
    ensures MaxSubjectHoursXDayCost(inst, st) == 0 <==>
            forall c, d, s :: 0 <= c < inst.nClasses && 0 <= d < inst.nDays && 0 <= s < inst.NSubjects() ==>
              Count(inst.profSubject, Teaches(s), st.scheduleClass[c][d]) <= inst.subjectMaxHoursXDay
  {
    var cap := inst.subjectMaxHoursXDay;
    ExcessGridUpToZero(st.dailySubjectHours, cap, inst.nClasses);
    if MaxSubjectHoursXDayCost(inst, st) != 0 {
      var c, d, s :| 0 <= c < inst.nClasses && 0 <= d < |st.dailySubjectHours[c]| &&
                     0 <= s < |st.dailySubjectHours[c][d]| && st.dailySubjectHours[c][d][s] > cap;
      assert Count(inst.profSubject, Teaches(s), st.scheduleClass[c][d]) > cap;
    }
  }

  /** A daily subject cap left unspecified in the input (read as 0) becomes
      HoursXDay, which no day can exceed: that limit is then disabled. */
  lemma UnspecifiedSubjectCapDisablesLimit(inst: Instance, st: State)
    requires Valid(inst, st)
    requires inst.subjectMaxHoursXDay == DefaultSubjectMaxHoursXDay(0, inst.nHoursXDay)
    ensures MaxSubjectHoursXDayCost(inst, st) == 0
  {
    forall c, d, s | 0 <= c < inst.nClasses && 0 <= d < inst.nDays && 0 <= s < inst.NSubjects()
      ensures Count(inst.profSubject, Teaches(s), st.scheduleClass[c][d]) <= inst.subjectMaxHoursXDay
    {
      CountUpToBound(inst.profSubject, Teaches(s), st.scheduleClass[c][d], |st.scheduleClass[c][d]|);
    }
    MaxSubjectHoursXDayCostZero(inst, st);
  }

  method ComputeMaxSubjectHoursXDayCost(out: Schedule) returns (violations: nat)
    requires out.Valid()
    ensures violations == MaxSubjectHoursXDayCost(out.inst, out.Model())
  {
    var inst := out.inst;
    var cap := inst.subjectMaxHoursXDay;
    ghost var g := out.dailySubjectHours;
    violations := 0;
    var c := 0;
    while c < inst.nClasses
      invariant 0 <= c <= inst.nClasses
      invariant violations == ExcessGridUpTo(g, cap, c)
    {
      var d := 0;
      while d < inst.nDays
        invariant 0 <= d <= inst.nDays
        invariant violations == ExcessGridUpTo(g, cap, c) + ExcessDaysUpTo(g[c], cap, d)
      {
        var s := 0;
        while s < inst.NSubjects()
          invariant 0 <= s <= inst.NSubjects()
          invariant violations == ExcessGridUpTo(g, cap, c) + ExcessDaysUpTo(g[c], cap, d) + ExcessUpTo(g[c][d], cap, s)
        {
          if out.DailySubjectAssignedHours(c, d, s) > cap {
            violations := violations + (out.DailySubjectAssignedHours(c, d, s) - cap);
          }
          s := s + 1;
        }
        d := d + 1;
      }
      c := c + 1;
    }
  }

  // ---------------------------------------------------------------- ProfMaxWeeklyHours

  /** Σ over professors of how far the weekly hours go over the cap. */
  function ProfMaxWeeklyHoursCost(inst: Instance, st: State): nat
    requires Fits(inst, st)
  {
    ExcessSum(st.profWeeklyHours, inst.profMaxWeeklyHours)
  }

  /** The cost is 0 exactly when no professor teaches more hours in the week than the cap. */
  lemma ProfMaxWeeklyHoursCostZero(inst: Instance, st: State)
    requires Valid(inst, st)
    ensures ProfMaxWeeklyHoursCost(inst, st) == 0 <==>
            forall p :: 0 <= p < inst.NProfs() ==>
              CountDays(inst.profSubject, Busy, st.scheduleProf[p]) <= inst.profMaxWeeklyHours
  {
    ExcessUpToZero(st.profWeeklyHours, inst.profMaxWeeklyHours, inst.NProfs());
  }

  /** A weekly professor cap left unspecified in the input (read as 0) becomes
      HoursXDay times the number of days, which no week can exceed: that limit is
      then disabled. */
  lemma UnspecifiedWeeklyCapDisablesLimit(inst: Instance, st: State)
    requires Valid(inst, st)
    requires inst.profMaxWeeklyHours == DefaultProfMaxWeeklyHours(0, inst.nHoursXDay, inst.nDays)
    ensures ProfMaxWeeklyHoursCost(inst, st) == 0
  {
    forall p | 0 <= p < inst.NProfs()
      ensures CountDays(inst.profSubject, Busy, st.scheduleProf[p]) <= inst.profMaxWeeklyHours
    {
      CountDaysUpToBound(inst.profSubject, Busy, st.scheduleProf[p], inst.nDays, inst.nHoursXDay);
      assert inst.nDays * inst.nHoursXDay == inst.nHoursXDay * inst.nDays;
    }
    ProfMaxWeeklyHoursCostZero(inst, st);
  }

  method ComputeProfMaxWeeklyHoursCost(out: Schedule) returns (violations: nat)
    requires out.Valid()
    ensures violations == ProfMaxWeeklyHoursCost(out.inst, out.Model())
  {
    var cap := out.inst.profMaxWeeklyHours;
    violations := 0;
    var p := 0;
    while p < out.inst.NProfs()
      invariant 0 <= p <= out.inst.NProfs()
      invariant violations == ExcessUpTo(out.profWeeklyHours, cap, p)
    {
      if out.ProfWeeklyAssignedHours(p) > cap {
        violations := violations + (out.ProfWeeklyAssignedHours(p) - cap);
      }
      p := p + 1;
    }
  }

  // ---------------------------------------------------------------- ScheduleContiguity

  /** The gaps of subject s over the first n days of one class. */
  function DayGapsUpTo(ps: seq<nat>, days: seq<seq<int>>, s: nat, n: nat): nat
    requires n <= |days|
  {
    if n == 0 then 0 else DayGapsUpTo(ps, days, s, n - 1) + Gaps(SubjectMask(ps, days[n - 1], s))
  }

  /** The gaps of the first n subjects over all days of one class. */
  function SubjectGapsUpTo(ps: seq<nat>, days: seq<seq<int>>, n: nat): nat {
    if n == 0 then 0 else SubjectGapsUpTo(ps, days, n - 1) + DayGapsUpTo(ps, days, n - 1, |days|)
  }

  /** The gaps of the first n classes. */
  function ClassGapsUpTo(ps: seq<nat>, g: seq<seq<seq<int>>>, nSubjects: nat, n: nat): nat
    requires n <= |g|
  {
    if n == 0 then 0 else ClassGapsUpTo(ps, g, nSubjects, n - 1) + SubjectGapsUpTo(ps, g[n - 1], nSubjects)
  }

  /** For every (class, subject, day), the hours of that subject whose previous
      hour of the same subject that day is more than one hour back. */
  function ScheduleContiguityCost(inst: Instance, st: State): nat
    requires Fits(inst, st)
  {
    ClassGapsUpTo(inst.profSubject, st.scheduleClass, inst.NSubjects(), inst.nClasses)
  }

  lemma {:induction false} ShortDaysHaveNoDayGaps(ps: seq<nat>, days: seq<seq<int>>, s: nat, n: nat)
    requires n <= |days|
    requires forall d :: 0 <= d < |days| ==> |days[d]| <= 2
    ensures DayGapsUpTo(ps, days, s, n) == 0
  {
    if n > 0 {
      ShortDaysHaveNoDayGaps(ps, days, s, n - 1);
      ShortRowHasNoGaps(SubjectMask(ps, days[n - 1], s));
    }
  }

  lemma {:induction false} ShortDaysHaveNoSubjectGaps(ps: seq<nat>, days: seq<seq<int>>, n: nat)
    requires forall d :: 0 <= d < |days| ==> |days[d]| <= 2
    ensures SubjectGapsUpTo(ps, days, n) == 0
  {
    if n > 0 {
      ShortDaysHaveNoSubjectGaps(ps, days, n - 1);
      ShortDaysHaveNoDayGaps(ps, days, n - 1, |days|);
    }
  }

  lemma {:induction false} ShortDaysHaveNoClassGaps(ps: seq<nat>, g: seq<seq<seq<int>>>, nSubjects: nat, n: nat)
    requires n <= |g|
    requires forall c, d :: 0 <= c < |g| && 0 <= d < |g[c]| ==> |g[c][d]| <= 2
    ensures ClassGapsUpTo(ps, g, nSubjects, n) == 0
  {
    if n > 0 {
      ShortDaysHaveNoClassGaps(ps, g, nSubjects, n - 1);
      ShortDaysHaveNoSubjectGaps(ps, g[n - 1], nSubjects);
    }
  }

  /** ComputeCost returns 0 at once when days have fewer than three hours; that
      agrees with the scan, since no gap fits in two hours. */
  lemma ShortDaysHaveNoContiguityCost(inst: Instance, st: State)
    requires Fits(inst, st) && inst.nHoursXDay < 3
    ensures ScheduleContiguityCost(inst, st) == 0
  {
    ShortDaysHaveNoClassGaps(inst.profSubject, st.scheduleClass, inst.NSubjects(), inst.nClasses);
  }

  /** One (class, subject, day) of the contiguity scan: the hours of s whose
      previous hour of s is more than one hour back, tracked by the last position. */
  method SubjectDayGaps(out: Schedule, c: nat, s: nat, d: nat) returns (violations: nat)
    requires out.Valid() && c < out.inst.nClasses && s < out.inst.NSubjects() && d < out.inst.nDays
    ensures violations == Gaps(SubjectMask(out.inst.profSubject, out.scheduleClass[c][d], s))
  {
    var ps := out.inst.profSubject;
    ghost var m := SubjectMask(ps, out.scheduleClass[c][d], s);
    violations := 0;
    var last := -1;
    var h := 0;
    while h < out.inst.nHoursXDay
      invariant 0 <= h <= out.inst.nHoursXDay
      invariant last == LastUpTo(m, h)
      invariant violations == GapsUpTo(m, h)
    {
      var p := out.ClassSchedule(c, d, h);
      if p != -1 && ps[p] == s {
        if last != -1 && h - last > 1 {
          violations := violations + 1;
        }
        last := h;
      }
      h := h + 1;
    }
  }

  /** The contiguity scan of one class: every subject, every day. */
  method ClassContiguityGaps(out: Schedule, c: nat) returns (violations: nat)
    requires out.Valid() && c < out.inst.nClasses
    ensures violations == SubjectGapsUpTo(out.inst.profSubject, out.scheduleClass[c], out.inst.NSubjects())
  {
    var inst := out.inst;
    var ps := inst.profSubject;
    ghost var days := out.scheduleClass[c];
    assert |days| == inst.nDays;
    violations := 0;
    var s := 0;
    while s < inst.NSubjects()
      invariant 0 <= s <= inst.NSubjects()
      invariant violations == SubjectGapsUpTo(ps, days, s)
    {
      ghost var before := violations;
      var d := 0;
      while d < inst.nDays
        invariant 0 <= d <= inst.nDays
        invariant violations == before + DayGapsUpTo(ps, days, s, d)
      {
        var n := SubjectDayGaps(out, c, s, d);
        violations := violations + n;
        d := d + 1;
      }
      s := s + 1;
    }
  }

  method ComputeScheduleContiguityCost(out: Schedule) returns (violations: nat)
    requires out.Valid()
    ensures violations == ScheduleContiguityCost(out.inst, out.Model())
  {
    var inst := out.inst;
    ghost var g := out.scheduleClass;
    if inst.nHoursXDay < 3 {
      ShortDaysHaveNoContiguityCost(inst, out.Model());
      return 0;
    }
    violations := 0;
    var c := 0;
    while c < inst.nClasses
      invariant 0 <= c <= inst.nClasses
      invariant violations == ClassGapsUpTo(inst.profSubject, g, inst.NSubjects(), c)
    {
      var n := ClassContiguityGaps(out, c);
      violations := violations + n;
      c := c + 1;
    }
  }

  // ---------------------------------------------------------------- SolutionComplete

  /** The number of free class hours. */
  function SolutionCompleteCost(inst: Instance, st: State): nat
    requires Fits(inst, st)
  {
    CountGrid(inst.profSubject, Free, st.scheduleClass)
  }

  /** With no occupied class hour, the mirror leaves every professor hour free
      and every weekly load 0. */
  lemma NoOccupiedNoLoad(inst: Instance, st: State)
    requires Valid(inst, st)
    requires forall c, d, h :: 0 <= c < inst.nClasses && 0 <= d < inst.nDays && 0 <= h < inst.nHoursXDay ==>
               st.scheduleClass[c][d][h] == -1
    ensures Sum(st.profWeeklyHours) == 0
  {
    forall p | 0 <= p < inst.NProfs()
      ensures st.profWeeklyHours[p] == 0
    {
      forall d, h | 0 <= d < inst.nDays && 0 <= h < inst.nHoursXDay
        ensures st.scheduleProf[p][d][h] == -1
      {
        ProfHourMirrored(inst, st, p, d, h);
      }
      CountDaysUpToZero(inst.profSubject, Busy, st.scheduleProf[p], inst.nDays);
    }
    SumUpToZero(st.profWeeklyHours, inst.NProfs());
  }

  /** Freeing one hour takes one hour off the professors' total load. */
  lemma FreedLoad(inst: Instance, st: State, c: nat, d: nat, h: nat)
    requires Fits(inst, st) && c < inst.nClasses && d < inst.nDays && h < inst.nHoursXDay
    requires st.scheduleClass[c][d][h] != -1
    ensures Sum(Freed(inst, st, c, d, h).profWeeklyHours) + 1 == Sum(st.profWeeklyHours)
  {
    var p := st.scheduleClass[c][d][h];
    FreedCells(inst, st, c, d, h);
    SumUpdate(st.profWeeklyHours, p, st.profWeeklyHours[p] - 1);
  }

  /** Under the mirror invariant every occupied class hour is one hour of some
      professor's week: the occupied hours add up to the professors' weekly hours. */
  lemma {:induction false} OccupiedIsTotalLoad(inst: Instance, st: State)
    requires Valid(inst, st)
    ensures Occupied(inst, st) == Sum(st.profWeeklyHours)
    decreases Occupied(inst, st)
  {
    CountGridUpToZero(inst.profSubject, Busy, st.scheduleClass, inst.nClasses);
    if Occupied(inst, st) == 0 {
      NoOccupiedNoLoad(inst, st);
    } else {
      var c, d, h :| 0 <= c < inst.nClasses && 0 <= d < inst.nDays && 0 <= h < inst.nHoursXDay &&
                     st.scheduleClass[c][d][h] != -1;
      FreedValid(inst, st, c, d, h);
      FreedOccupied(inst, st, c, d, h);
      FreedLoad(inst, st, c, d, h);
      OccupiedIsTotalLoad(inst, Freed(inst, st, c, d, h));
    }
  }

  /** The free class hours are the grid size minus the professors' weekly hours. */
  lemma SolutionCompleteIsUnassignedLoad(inst: Instance, st: State)
    requires Valid(inst, st)
    ensures SolutionCompleteCost(inst, st) + Sum(st.profWeeklyHours)
            == inst.nClasses * (inst.nDays * inst.nHoursXDay)
  {
    OccupiedIsTotalLoad(inst, st);
    CountGridUpToComplement(inst.profSubject, st.scheduleClass, inst.nClasses, inst.nDays, inst.nHoursXDay);
  }

  method ComputeSolutionCompleteCost(out: Schedule) returns (violations: nat)
    requires out.Valid()
    ensures violations == SolutionCompleteCost(out.inst, out.Model())
  {
    var inst := out.inst;
    var ps := inst.profSubject;
    ghost var g := out.scheduleClass;
    violations := 0;
    var c := 0;
    while c < inst.nClasses
      invariant 0 <= c <= inst.nClasses
      invariant violations == CountGridUpTo(ps, Free, g, c)
    {
      var d := 0;
      while d < inst.nDays
        invariant 0 <= d <= inst.nDays
        invariant violations == CountGridUpTo(ps, Free, g, c) + CountDaysUpTo(ps, Free, g[c], d)
      {
        var h := 0;
        while h < inst.nHoursXDay
          invariant 0 <= h <= inst.nHoursXDay
          invariant violations == CountGridUpTo(ps, Free, g, c) + CountDaysUpTo(ps, Free, g[c], d)
                                  + CountUpTo(ps, Free, g[c][d], h)
        {
          if out.IsClassHourFree(c, d, h) {
            violations := violations + 1;
          }
          h := h + 1;
        }
        d := d + 1;
      }
      c := c + 1;
    }
  }
}
