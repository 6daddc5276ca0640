/** The timetable state (Sched_Output) as a value: the class × day × hour grid of
    professor ids, its professor × day × hour mirror of class ids, and the indexes
    derived from them. `Valid` is the invariant every public mutation keeps;
    `Assigned`, `Freed` and `SwapHoursResult` are what AssignHour, FreeHour and
    SwapHours do to a state. The class in schedule.dfy is proved against these. */
module ScheduleState {
  import opened Input
  import opened Counting

  datatype State = State(
    scheduleClass: seq<seq<seq<int>>>,      // [c][d][h]: professor, or -1 for a free hour
    classProfs: seq<seq<int>>,              // [c][s]: the professor teaching s to c, or -1
    dailySubjectHours: seq<seq<seq<int>>>,  // [c][d][s]
    weeklySubjectHours: seq<seq<int>>,      // [c][s]
    scheduleProf: seq<seq<seq<int>>>,       // [p][d][h]: class, or -1 for a free hour
    profWeeklyHours: seq<int>,              // [p]
    profDayOff: seq<int>)                   // [p]: a day, or -1 when p has no free day

  ghost predicate Grid(g: seq<seq<seq<int>>>, n1: nat, n2: nat, n3: nat) {
    && |g| == n1
    && (forall i :: 0 <= i < n1 ==> |g[i]| == n2)
    && (forall i, j :: 0 <= i < n1 && 0 <= j < n2 ==> |g[i][j]| == n3)
  }

  ghost predicate Table(t: seq<seq<int>>, n1: nat, n2: nat) {
    && |t| == n1
    && (forall i :: 0 <= i < n1 ==> |t[i]| == n2)
  }

  ghost predicate Shaped(inst: Instance, st: State) {
    && Grid(st.scheduleClass, inst.nClasses, inst.nDays, inst.nHoursXDay)
    && Table(st.classProfs, inst.nClasses, inst.NSubjects())
    && Grid(st.dailySubjectHours, inst.nClasses, inst.nDays, inst.NSubjects())
    && Table(st.weeklySubjectHours, inst.nClasses, inst.NSubjects())
    && Grid(st.scheduleProf, inst.NProfs(), inst.nDays, inst.nHoursXDay)
    && |st.profWeeklyHours| == inst.NProfs()
    && |st.profDayOff| == inst.NProfs()
  }

  /** Class cells hold a professor or -1; professor cells hold a class or -1. */
  ghost predicate CellsInRange(inst: Instance, st: State)
    requires Shaped(inst, st)
  {
    && (forall c, d, h :: 0 <= c < inst.nClasses && 0 <= d < inst.nDays && 0 <= h < inst.nHoursXDay ==>
          -1 <= st.scheduleClass[c][d][h] < inst.NProfs())
    && (forall p, d, h :: 0 <= p < inst.NProfs() && 0 <= d < inst.nDays && 0 <= h < inst.nHoursXDay ==>
          -1 <= st.scheduleProf[p][d][h] < inst.nClasses)
  }

  /** Invariant I1: the two grids are mirror images of each other: class c has
      professor p at (d, h) exactly when professor p has class c at (d, h). */
  ghost predicate Mirror(inst: Instance, st: State)
    requires Shaped(inst, st)
  {
    forall c, p, d, h | 0 <= c < inst.nClasses && 0 <= p < inst.NProfs() && 0 <= d < inst.nDays && 0 <= h < inst.nHoursXDay ::
      st.scheduleClass[c][d][h] == p <==> st.scheduleProf[p][d][h] == c
  }

  /** Invariants I3 and I4: every counter is a count over the grids. */
  ghost predicate CountersMatch(inst: Instance, st: State)
    requires Shaped(inst, st)
  {
    && (forall c, s :: 0 <= c < inst.nClasses && 0 <= s < inst.NSubjects() ==>
          st.weeklySubjectHours[c][s] == CountDays(inst.profSubject, Teaches(s), st.scheduleClass[c]))
    && (forall c, d, s :: 0 <= c < inst.nClasses && 0 <= d < inst.nDays && 0 <= s < inst.NSubjects() ==>
          st.dailySubjectHours[c][d][s] == Count(inst.profSubject, Teaches(s), st.scheduleClass[c][d]))
    && (forall p :: 0 <= p < inst.NProfs() ==>
          st.profWeeklyHours[p] == CountDays(inst.profSubject, Busy, st.scheduleProf[p]))
  }

  /** Invariant I5: every professor's day off is the one derived from its timetable. */
  ghost predicate DayOffMatch(inst: Instance, st: State)
    requires inst.WellFormed() && Shaped(inst, st)
  {
    forall p :: 0 <= p < inst.NProfs() ==>
      st.profDayOff[p] == DayOff(st.scheduleProf[p], inst.profUnavailability[p])
  }

  /** class_profs[c][s] is -1 exactly while the subject has no hour in the class,
      and otherwise a professor of that subject. */
  ghost predicate ClassProfsMatch(inst: Instance, st: State)
    requires Shaped(inst, st)
  {
    forall c, s :: 0 <= c < inst.nClasses && 0 <= s < inst.NSubjects() ==>
      if st.weeklySubjectHours[c][s] == 0 then st.classProfs[c][s] == -1
      else 0 <= st.classProfs[c][s] < inst.NProfs() && inst.profSubject[st.classProfs[c][s]] == s
  }

  /** Well-shaped grids over a well-formed instance: enough for every
      mutation below to be defined. */
  ghost predicate Fits(inst: Instance, st: State) {
    && inst.WellFormed()
    && Shaped(inst, st)
    && CellsInRange(inst, st)
  }

  ghost predicate Valid(inst: Instance, st: State) {
    && Fits(inst, st)
    && Mirror(inst, st)
    && CountersMatch(inst, st)
    && DayOffMatch(inst, st)
    && ClassProfsMatch(inst, st)
  }

  /** Invariant I2, kept by the callers of AssignHour rather than by AssignHour
      itself: every occupied hour of a class carries the professor recorded for
      that professor's subject. */
  ghost predicate OneProfPerSubject(inst: Instance, st: State)
    requires Fits(inst, st)
  {
    forall c, d, h | 0 <= c < inst.nClasses && 0 <= d < inst.nDays && 0 <= h < inst.nHoursXDay &&
      st.scheduleClass[c][d][h] != -1 ::
        st.classProfs[c][inst.profSubject[st.scheduleClass[c][d][h]]] == st.scheduleClass[c][d][h]
  }

  /** A busy professor hour is seen from the class it names. */
  lemma ProfHourMirrored(inst: Instance, st: State, p: nat, d: nat, h: nat)
    requires Fits(inst, st) && Mirror(inst, st)
    requires p < inst.NProfs() && d < inst.nDays && h < inst.nHoursXDay
    ensures st.scheduleProf[p][d][h] == -1 || st.scheduleClass[st.scheduleProf[p][d][h]][d][h] == p
  {
  }

  /** Fits does not look at the day-off values, only at how many there are. */
  lemma FitsIgnoresDayOff(inst: Instance, st: State, dayOff: seq<int>)
    requires Fits(inst, st) && |dayOff| == inst.NProfs()
    ensures Fits(inst, st.(profDayOff := dayOff))
  {
  }

  // ------------------------------------------------------------------ day off

  /** The first day from `d` on, other than `u`, on which the professor has no hour; -1 if none. */
  function FirstFreeDayFrom(days: seq<seq<int>>, u: nat, d: nat): (r: int)
    decreases |days| - d
    ensures r == -1 || (d <= r < |days| && r != u && IsFreeRow(days[r]))
    ensures forall e :: d <= e < |days| && e != u && IsFreeRow(days[e]) ==> r != -1 && r <= e
  {
    if d >= |days| then -1
    else if d != u && IsFreeRow(days[d]) then d
    else FirstFreeDayFrom(days, u, d + 1)
  }

  /** ComputeProfDayOff: the declared unavailability day when it is free,
      otherwise the lowest other free day, otherwise -1. */
  function DayOff(days: seq<seq<int>>, u: nat): int
    requires u < |days|
  {
    if IsFreeRow(days[u]) then u else FirstFreeDayFrom(days, u, 0)
  }

  /** The three outcomes of the day-off derivation, and therefore: the day off is
      the declared day exactly when the professor has no hour on it. */
  lemma DayOffCases(days: seq<seq<int>>, u: nat)
    requires u < |days|
    ensures DayOff(days, u) == u <==> IsFreeRow(days[u])
    ensures !IsFreeRow(days[u]) && DayOff(days, u) != -1 ==>
              0 <= DayOff(days, u) < |days| && IsFreeRow(days[DayOff(days, u)]) &&
              forall e :: 0 <= e < DayOff(days, u) && e != u ==> !IsFreeRow(days[e])
    ensures !IsFreeRow(days[u]) && DayOff(days, u) == -1 ==>
              forall e :: 0 <= e < |days| ==> !IsFreeRow(days[e])
  {
  }

  // ------------------------------------------------------------------ the empty state

  function EmptyGrid(n1: nat, n2: nat, n3: nat): (g: seq<seq<seq<int>>>)
    ensures Grid(g, n1, n2, n3)
    ensures forall i, j, k :: 0 <= i < n1 && 0 <= j < n2 && 0 <= k < n3 ==> g[i][j][k] == -1
  {
    seq(n1, _ => seq(n2, _ => seq(n3, _ => -1)))
  }

  function ZeroGrid(n1: nat, n2: nat, n3: nat): (g: seq<seq<seq<int>>>)
    ensures Grid(g, n1, n2, n3)
    ensures forall i, j, k :: 0 <= i < n1 && 0 <= j < n2 && 0 <= k < n3 ==> g[i][j][k] == 0
  {
    seq(n1, _ => seq(n2, _ => seq(n3, _ => 0)))
  }

  function ConstTable(n1: nat, n2: nat, v: int): (t: seq<seq<int>>)
    ensures Table(t, n1, n2)
    ensures forall i, j :: 0 <= i < n1 && 0 <= j < n2 ==> t[i][j] == v
  {
    seq(n1, _ => seq(n2, _ => v))
  }

  /** The state the constructor and Reset produce: every cell free, every counter 0,
      no class professor, each day off the declared unavailability day. */
  function Empty(inst: Instance): (st: State)
    requires inst.WellFormed()
    ensures Valid(inst, st)
  {
    var st := State(
      EmptyGrid(inst.nClasses, inst.nDays, inst.nHoursXDay),
      ConstTable(inst.nClasses, inst.NSubjects(), -1),
      ZeroGrid(inst.nClasses, inst.nDays, inst.NSubjects()),
      ConstTable(inst.nClasses, inst.NSubjects(), 0),
      EmptyGrid(inst.NProfs(), inst.nDays, inst.nHoursXDay),
      seq(inst.NProfs(), _ => 0),
      seq(inst.NProfs(), p requires 0 <= p < inst.NProfs() => inst.profUnavailability[p] as int));
    EmptyValid(inst, st);
    st
  }

  lemma EmptyValid(inst: Instance, st: State)
    requires inst.WellFormed()
    requires st.scheduleClass == EmptyGrid(inst.nClasses, inst.nDays, inst.nHoursXDay)
    requires st.classProfs == ConstTable(inst.nClasses, inst.NSubjects(), -1)
    requires st.dailySubjectHours == ZeroGrid(inst.nClasses, inst.nDays, inst.NSubjects())
    requires st.weeklySubjectHours == ConstTable(inst.nClasses, inst.NSubjects(), 0)
    requires st.scheduleProf == EmptyGrid(inst.NProfs(), inst.nDays, inst.nHoursXDay)
    requires st.profWeeklyHours == seq(inst.NProfs(), _ => 0)
    requires st.profDayOff == seq(inst.NProfs(), p requires 0 <= p < inst.NProfs() => inst.profUnavailability[p] as int)
    ensures Valid(inst, st)
  {
    var ps := inst.profSubject;
    forall c, s | 0 <= c < inst.nClasses && 0 <= s < inst.NSubjects()
      ensures st.weeklySubjectHours[c][s] == CountDays(ps, Teaches(s), st.scheduleClass[c])
    {
      CountDaysUpToZero(ps, Teaches(s), st.scheduleClass[c], inst.nDays);
    }
    forall c, d, s | 0 <= c < inst.nClasses && 0 <= d < inst.nDays && 0 <= s < inst.NSubjects()
      ensures st.dailySubjectHours[c][d][s] == Count(ps, Teaches(s), st.scheduleClass[c][d])
    {
      CountUpToZero(ps, Teaches(s), st.scheduleClass[c][d], inst.nHoursXDay);
    }
    forall p | 0 <= p < inst.NProfs()
      ensures st.profWeeklyHours[p] == CountDays(ps, Busy, st.scheduleProf[p])
    {
      CountDaysUpToZero(ps, Busy, st.scheduleProf[p], inst.nDays);
    }
  }

  // ------------------------------------------------------------------ AssignHour

  /** The precondition AssignHour checks: both the class hour and the professor hour are free. */
  predicate CanAssign(inst: Instance, st: State, c: nat, d: nat, h: nat, p: nat)
    requires Fits(inst, st) && c < inst.nClasses && d < inst.nDays && h < inst.nHoursXDay && p < inst.NProfs()
  {
    st.scheduleClass[c][d][h] == -1 && st.scheduleProf[p][d][h] == -1
  }

  /** A successful AssignHour(c, d, h, p): both hours are written, the three
      counters grow by one, the subject's class professor is set if it had no
      hour yet, and p's day off is recomputed. */
  function Assigned(inst: Instance, st: State, c: nat, d: nat, h: nat, p: nat): (r: State)
    requires Fits(inst, st) && c < inst.nClasses && d < inst.nDays && h < inst.nHoursXDay && p < inst.NProfs()
    requires CanAssign(inst, st, c, d, h, p)
    ensures Fits(inst, r)
  {
    var s := inst.profSubject[p];
    var sp := st.scheduleProf[p := st.scheduleProf[p][d := st.scheduleProf[p][d][h := c]]];
    State(
      st.scheduleClass[c := st.scheduleClass[c][d := st.scheduleClass[c][d][h := p]]],
      if st.weeklySubjectHours[c][s] == 0 then st.classProfs[c := st.classProfs[c][s := p]] else st.classProfs,
      st.dailySubjectHours[c := st.dailySubjectHours[c][d := st.dailySubjectHours[c][d][s := st.dailySubjectHours[c][d][s] + 1]]],
      st.weeklySubjectHours[c := st.weeklySubjectHours[c][s := st.weeklySubjectHours[c][s] + 1]],
      sp,
      st.profWeeklyHours[p := st.profWeeklyHours[p] + 1],
      st.profDayOff[p := DayOff(sp[p], inst.profUnavailability[p])])
  }

  /** AssignHour keeps the invariant. */
  lemma AssignedValid(inst: Instance, st: State, c: nat, d: nat, h: nat, p: nat)
    requires Valid(inst, st) && c < inst.nClasses && d < inst.nDays && h < inst.nHoursXDay && p < inst.NProfs()
    requires CanAssign(inst, st, c, d, h, p)
    ensures Valid(inst, Assigned(inst, st, c, d, h, p))
  {
    AssignedMirror(inst, st, c, d, h, p);
    AssignedCounters(inst, st, c, d, h, p);
    AssignedIndexes(inst, st, c, d, h, p);
  }

  lemma AssignedMirror(inst: Instance, st: State, c: nat, d: nat, h: nat, p: nat)
    requires Fits(inst, st) && Mirror(inst, st)
    requires c < inst.nClasses && d < inst.nDays && h < inst.nHoursXDay && p < inst.NProfs()
    requires CanAssign(inst, st, c, d, h, p)
    ensures Mirror(inst, Assigned(inst, st, c, d, h, p))
  {
  }

  lemma AssignedCounters(inst: Instance, st: State, c: nat, d: nat, h: nat, p: nat)
    requires Fits(inst, st) && CountersMatch(inst, st)
    requires c < inst.nClasses && d < inst.nDays && h < inst.nHoursXDay && p < inst.NProfs()
    requires CanAssign(inst, st, c, d, h, p)
    ensures CountersMatch(inst, Assigned(inst, st, c, d, h, p))
  {
    var ps := inst.profSubject;
    var r := Assigned(inst, st, c, d, h, p);
    forall c', s' | 0 <= c' < inst.nClasses && 0 <= s' < inst.NSubjects()
      ensures r.weeklySubjectHours[c'][s'] == CountDays(ps, Teaches(s'), r.scheduleClass[c'])
    {
      if c' == c { CountDaysUpdate(ps, Teaches(s'), st.scheduleClass[c], d, h, p); }
    }
    forall c', d', s' | 0 <= c' < inst.nClasses && 0 <= d' < inst.nDays && 0 <= s' < inst.NSubjects()
      ensures r.dailySubjectHours[c'][d'][s'] == Count(ps, Teaches(s'), r.scheduleClass[c'][d'])
    {
      if c' == c && d' == d { CountUpdate(ps, Teaches(s'), st.scheduleClass[c][d], h, p); }
    }
    forall p' | 0 <= p' < inst.NProfs()
      ensures r.profWeeklyHours[p'] == CountDays(ps, Busy, r.scheduleProf[p'])
    {
      if p' == p { CountDaysUpdate(ps, Busy, st.scheduleProf[p], d, h, c); }
    }
  }

  lemma AssignedIndexes(inst: Instance, st: State, c: nat, d: nat, h: nat, p: nat)
    requires Fits(inst, st) && DayOffMatch(inst, st) && ClassProfsMatch(inst, st) && CountersMatch(inst, st)
    requires c < inst.nClasses && d < inst.nDays && h < inst.nHoursXDay && p < inst.NProfs()
    requires CanAssign(inst, st, c, d, h, p)
    ensures DayOffMatch(inst, Assigned(inst, st, c, d, h, p))
    ensures ClassProfsMatch(inst, Assigned(inst, st, c, d, h, p))
  {
    var r := Assigned(inst, st, c, d, h, p);
    forall c', s' | 0 <= c' < inst.nClasses && 0 <= s' < inst.NSubjects()
      ensures r.weeklySubjectHours[c'][s'] >= 1 ==> 0 <= r.classProfs[c'][s'] < inst.NProfs() && inst.profSubject[r.classProfs[c'][s']] == s'
      ensures r.weeklySubjectHours[c'][s'] == 0 ==> r.classProfs[c'][s'] == -1
    {
      assert st.weeklySubjectHours[c'][s'] == CountDays(inst.profSubject, Teaches(s'), st.scheduleClass[c']);
    }
  }

  // ------------------------------------------------------------------ FreeHour

  /** A successful FreeHour(c, d, h) on an occupied hour: both hours are cleared,
      the three counters drop by one, the subject's class professor is cleared
      when its last hour goes, and the professor's day off is recomputed. */
  function Freed(inst: Instance, st: State, c: nat, d: nat, h: nat): (r: State)
    requires Fits(inst, st) && c < inst.nClasses && d < inst.nDays && h < inst.nHoursXDay
    requires st.scheduleClass[c][d][h] != -1
    ensures Fits(inst, r)
  {
    var p := st.scheduleClass[c][d][h];
    var s := inst.profSubject[p];
    var sp := st.scheduleProf[p := st.scheduleProf[p][d := st.scheduleProf[p][d][h := -1]]];
    State(
      st.scheduleClass[c := st.scheduleClass[c][d := st.scheduleClass[c][d][h := -1]]],
      if st.weeklySubjectHours[c][s] - 1 == 0 then st.classProfs[c := st.classProfs[c][s := -1]] else st.classProfs,
      st.dailySubjectHours[c := st.dailySubjectHours[c][d := st.dailySubjectHours[c][d][s := st.dailySubjectHours[c][d][s] - 1]]],
      st.weeklySubjectHours[c := st.weeklySubjectHours[c][s := st.weeklySubjectHours[c][s] - 1]],
      sp,
      st.profWeeklyHours[p := st.profWeeklyHours[p] - 1],
      st.profDayOff[p := DayOff(sp[p], inst.profUnavailability[p])])
  }

  /** FreeHour keeps the invariant. */
  lemma FreedValid(inst: Instance, st: State, c: nat, d: nat, h: nat)
    requires Valid(inst, st) && c < inst.nClasses && d < inst.nDays && h < inst.nHoursXDay
    requires st.scheduleClass[c][d][h] != -1
    ensures Valid(inst, Freed(inst, st, c, d, h))
  {
    FreedMirror(inst, st, c, d, h);
    FreedCounters(inst, st, c, d, h);
    FreedIndexes(inst, st, c, d, h);
  }

  lemma FreedMirror(inst: Instance, st: State, c: nat, d: nat, h: nat)
    requires Fits(inst, st) && Mirror(inst, st)
    requires c < inst.nClasses && d < inst.nDays && h < inst.nHoursXDay
    requires st.scheduleClass[c][d][h] != -1
    ensures Mirror(inst, Freed(inst, st, c, d, h))
  {
  }

  lemma FreedCounters(inst: Instance, st: State, c: nat, d: nat, h: nat)
    requires Fits(inst, st) && Mirror(inst, st) && CountersMatch(inst, st)
    requires c < inst.nClasses && d < inst.nDays && h < inst.nHoursXDay
    requires st.scheduleClass[c][d][h] != -1
    ensures CountersMatch(inst, Freed(inst, st, c, d, h))
  {
    var ps := inst.profSubject;
    var p := st.scheduleClass[c][d][h];
    var r := Freed(inst, st, c, d, h);
    forall c', s' | 0 <= c' < inst.nClasses && 0 <= s' < inst.NSubjects()
      ensures r.weeklySubjectHours[c'][s'] == CountDays(ps, Teaches(s'), r.scheduleClass[c'])
    {
      if c' == c { CountDaysUpdate(ps, Teaches(s'), st.scheduleClass[c], d, h, -1); }
    }
    forall c', d', s' | 0 <= c' < inst.nClasses && 0 <= d' < inst.nDays && 0 <= s' < inst.NSubjects()
      ensures r.dailySubjectHours[c'][d'][s'] == Count(ps, Teaches(s'), r.scheduleClass[c'][d'])
    {
      if c' == c && d' == d { CountUpdate(ps, Teaches(s'), st.scheduleClass[c][d], h, -1); }
    }
    forall p' | 0 <= p' < inst.NProfs()
      ensures r.profWeeklyHours[p'] == CountDays(ps, Busy, r.scheduleProf[p'])
    {
      if p' == p { CountDaysUpdate(ps, Busy, st.scheduleProf[p], d, h, -1); }
    }
  }

  /** The class's weekly count of the freed subject is at least 1, so it reaches
      0 exactly when the subject's last hour in the class is freed. */
  lemma FreedIndexes(inst: Instance, st: State, c: nat, d: nat, h: nat)
    requires Fits(inst, st) && DayOffMatch(inst, st) && ClassProfsMatch(inst, st) && CountersMatch(inst, st)
    requires c < inst.nClasses && d < inst.nDays && h < inst.nHoursXDay
    requires st.scheduleClass[c][d][h] != -1
    ensures DayOffMatch(inst, Freed(inst, st, c, d, h))
    ensures ClassProfsMatch(inst, Freed(inst, st, c, d, h))
  {
    var ps := inst.profSubject;
    var p := st.scheduleClass[c][d][h];
    CountDaysExists(ps, Teaches(ps[p]), st.scheduleClass[c], d, h);
  }

  /** The class and professor hours AssignHour changes: exactly the two it writes. */
  lemma AssignedCells(inst: Instance, st: State, c: nat, d: nat, h: nat, p: nat)
    requires Fits(inst, st) && c < inst.nClasses && d < inst.nDays && h < inst.nHoursXDay && p < inst.NProfs()
    requires CanAssign(inst, st, c, d, h, p)
    ensures var r := Assigned(inst, st, c, d, h, p);
            && (forall c', d', h' | 0 <= c' < inst.nClasses && 0 <= d' < inst.nDays && 0 <= h' < inst.nHoursXDay ::
                  r.scheduleClass[c'][d'][h'] == if (c', d', h') == (c, d, h) then p else st.scheduleClass[c'][d'][h'])
            && (forall p', d', h' | 0 <= p' < inst.NProfs() && 0 <= d' < inst.nDays && 0 <= h' < inst.nHoursXDay ::
                  r.scheduleProf[p'][d'][h'] == if (p', d', h') == (p, d, h) then c else st.scheduleProf[p'][d'][h'])
            && r.profWeeklyHours == st.profWeeklyHours[p := st.profWeeklyHours[p] + 1]
  {
  }

  /** The class and professor hours FreeHour changes: exactly the two it clears. */
  lemma FreedCells(inst: Instance, st: State, c: nat, d: nat, h: nat)
    requires Fits(inst, st) && c < inst.nClasses && d < inst.nDays && h < inst.nHoursXDay
    requires st.scheduleClass[c][d][h] != -1
    ensures var r := Freed(inst, st, c, d, h);
            var p := st.scheduleClass[c][d][h];
            && (forall c', d', h' | 0 <= c' < inst.nClasses && 0 <= d' < inst.nDays && 0 <= h' < inst.nHoursXDay ::
                  r.scheduleClass[c'][d'][h'] == if (c', d', h') == (c, d, h) then -1 else st.scheduleClass[c'][d'][h'])
            && (forall p', d', h' | 0 <= p' < inst.NProfs() && 0 <= d' < inst.nDays && 0 <= h' < inst.nHoursXDay ::
                  r.scheduleProf[p'][d'][h'] == if (p', d', h') == (p, d, h) then -1 else st.scheduleProf[p'][d'][h'])
            && r.profWeeklyHours == st.profWeeklyHours[p := st.profWeeklyHours[p] - 1]
  {
  }

  // ------------------------------------------------------------------ round trips

  /** Freeing the hour just assigned gives back the state that was there before. */
  lemma AssignThenFree(inst: Instance, st: State, c: nat, d: nat, h: nat, p: nat)
    requires Valid(inst, st) && c < inst.nClasses && d < inst.nDays && h < inst.nHoursXDay && p < inst.NProfs()
    requires CanAssign(inst, st, c, d, h, p)
    ensures Assigned(inst, st, c, d, h, p).scheduleClass[c][d][h] == p
    ensures Freed(inst, Assigned(inst, st, c, d, h, p), c, d, h) == st
  {
    var a := Assigned(inst, st, c, d, h, p);
    var f := Freed(inst, a, c, d, h);
    var s := inst.profSubject[p];
    assert f.scheduleClass[c][d] == st.scheduleClass[c][d];
    assert f.scheduleClass[c] == st.scheduleClass[c];
    assert f.scheduleProf[p][d] == st.scheduleProf[p][d];
    assert f.scheduleProf[p] == st.scheduleProf[p];
    assert f.dailySubjectHours[c][d] == st.dailySubjectHours[c][d];
    assert f.dailySubjectHours[c] == st.dailySubjectHours[c];
    assert f.weeklySubjectHours[c] == st.weeklySubjectHours[c];
    if st.weeklySubjectHours[c][s] == 0 {
      assert f.classProfs[c] == st.classProfs[c];
    }
    assert f.profDayOff[p] == st.profDayOff[p];
  }

  /** Assigning back the professor just freed gives back the state that was there
      before, provided the class's professor for that subject was that professor
      (which invariant I2 guarantees). */
  lemma FreeThenAssign(inst: Instance, st: State, c: nat, d: nat, h: nat)
    requires Valid(inst, st) && c < inst.nClasses && d < inst.nDays && h < inst.nHoursXDay
    requires st.scheduleClass[c][d][h] != -1
    requires OneProfPerSubject(inst, st)
    ensures var p := st.scheduleClass[c][d][h];
            && CanAssign(inst, Freed(inst, st, c, d, h), c, d, h, p)
            && Assigned(inst, Freed(inst, st, c, d, h), c, d, h, p) == st
  {
    var p := st.scheduleClass[c][d][h];
    var s := inst.profSubject[p];
    var f := Freed(inst, st, c, d, h);
    var a := Assigned(inst, f, c, d, h, p);
    assert a.scheduleClass[c][d] == st.scheduleClass[c][d];
    assert a.scheduleClass[c] == st.scheduleClass[c];
    assert a.scheduleProf[p][d] == st.scheduleProf[p][d];
    assert a.scheduleProf[p] == st.scheduleProf[p];
    assert a.dailySubjectHours[c][d] == st.dailySubjectHours[c][d];
    assert a.dailySubjectHours[c] == st.dailySubjectHours[c];
    assert a.weeklySubjectHours[c] == st.weeklySubjectHours[c];
    assert a.classProfs[c] == st.classProfs[c];
    assert a.profDayOff[p] == st.profDayOff[p];
  }

  // ------------------------------------------------------------------ occupied hours

  /** The number of occupied class hours. */
  function Occupied(inst: Instance, st: State): nat {
    CountGrid(inst.profSubject, Busy, st.scheduleClass)
  }

  lemma AssignedOccupied(inst: Instance, st: State, c: nat, d: nat, h: nat, p: nat)
    requires Fits(inst, st) && c < inst.nClasses && d < inst.nDays && h < inst.nHoursXDay && p < inst.NProfs()
    requires CanAssign(inst, st, c, d, h, p)
    ensures Occupied(inst, Assigned(inst, st, c, d, h, p)) == Occupied(inst, st) + 1
  {
    CountGridUpdate(inst.profSubject, Busy, st.scheduleClass, c, d, h, p);
  }

  lemma FreedOccupied(inst: Instance, st: State, c: nat, d: nat, h: nat)
    requires Fits(inst, st) && c < inst.nClasses && d < inst.nDays && h < inst.nHoursXDay
    requires st.scheduleClass[c][d][h] != -1
    ensures Occupied(inst, Freed(inst, st, c, d, h)) + 1 == Occupied(inst, st)
  {
    CountGridUpdate(inst.profSubject, Busy, st.scheduleClass, c, d, h, -1);
  }

  // ------------------------------------------------------------------ SwapHours

  /** The exchange of two occupied hours whose professors are each free at the other's time. */
  function Exchanged(inst: Instance, st: State, c1: nat, d1: nat, h1: nat, c2: nat, d2: nat, h2: nat): (r: State)
    requires Fits(inst, st)
    requires c1 < inst.nClasses && d1 < inst.nDays && h1 < inst.nHoursXDay
    requires c2 < inst.nClasses && d2 < inst.nDays && h2 < inst.nHoursXDay
    requires var x1 := st.scheduleClass[c1][d1][h1];
             var x2 := st.scheduleClass[c2][d2][h2];
             x1 != x2 && x1 != -1 && x2 != -1 && st.scheduleProf[x1][d2][h2] == -1 && st.scheduleProf[x2][d1][h1] == -1
    ensures Fits(inst, r)
  {
    var x1 := st.scheduleClass[c1][d1][h1];
    var x2 := st.scheduleClass[c2][d2][h2];
    var s1 := Freed(inst, st, c1, d1, h1);
    var s2 := Freed(inst, s1, c2, d2, h2);
    var s3 := Assigned(inst, s2, c1, d1, h1, x2);
    Assigned(inst, s3, c2, d2, h2, x1)
  }

  /** The move of an occupied hour (c1, d1, h1) to a free hour (c2, d2, h2)
      whose time its professor has free. */
  function Moved(inst: Instance, st: State, c1: nat, d1: nat, h1: nat, c2: nat, d2: nat, h2: nat): (r: State)
    requires Fits(inst, st)
    requires c1 < inst.nClasses && d1 < inst.nDays && h1 < inst.nHoursXDay
    requires c2 < inst.nClasses && d2 < inst.nDays && h2 < inst.nHoursXDay
    requires var x1 := st.scheduleClass[c1][d1][h1];
             x1 != -1 && st.scheduleClass[c2][d2][h2] == -1 && st.scheduleProf[x1][d2][h2] == -1
    ensures Fits(inst, r)
  {
    Assigned(inst, Freed(inst, st, c1, d1, h1), c2, d2, h2, st.scheduleClass[c1][d1][h1])
  }

  /** The outcome of SwapHours(c1, d1, h1, c2, d2, h2): whether it changed anything,
      and the resulting state. Two equal slots (both free, or the same professor)
      are refused; two occupied slots exchange their professors when each is free
      at the other's time; one occupied slot moves to the free one when its
      professor is free at the target time. */
  function SwapHoursResult(inst: Instance, st: State, c1: nat, d1: nat, h1: nat, c2: nat, d2: nat, h2: nat): (r: (bool, State))
    requires Fits(inst, st)
    requires c1 < inst.nClasses && d1 < inst.nDays && h1 < inst.nHoursXDay
    requires c2 < inst.nClasses && d2 < inst.nDays && h2 < inst.nHoursXDay
    ensures Fits(inst, r.1)
    ensures !r.0 ==> r.1 == st
  {
    var x1 := st.scheduleClass[c1][d1][h1];
    var x2 := st.scheduleClass[c2][d2][h2];
    if x1 == x2 then (false, st)
    else if x1 != -1 && x2 != -1 then
      if st.scheduleProf[x1][d2][h2] == -1 && st.scheduleProf[x2][d1][h1] == -1 then
        (true, Exchanged(inst, st, c1, d1, h1, c2, d2, h2))
      else (false, st)
    else if x1 != -1 then
      if st.scheduleProf[x1][d2][h2] == -1 then (true, Moved(inst, st, c1, d1, h1, c2, d2, h2))
      else (false, st)
    else
      if st.scheduleProf[x2][d1][h1] == -1 then (true, Moved(inst, st, c2, d2, h2, c1, d1, h1))
      else (false, st)
  }

  /** SwapHours succeeds exactly when the two slots differ and every professor
      involved is free at the hour it would move to. */
  lemma SwapHoursSucceeds(inst: Instance, st: State, c1: nat, d1: nat, h1: nat, c2: nat, d2: nat, h2: nat)
    requires Fits(inst, st)
    requires c1 < inst.nClasses && d1 < inst.nDays && h1 < inst.nHoursXDay
    requires c2 < inst.nClasses && d2 < inst.nDays && h2 < inst.nHoursXDay
    ensures var x1 := st.scheduleClass[c1][d1][h1];
            var x2 := st.scheduleClass[c2][d2][h2];
            SwapHoursResult(inst, st, c1, d1, h1, c2, d2, h2).0 <==>
              && x1 != x2
              && (x1 != -1 ==> st.scheduleProf[x1][d2][h2] == -1)
              && (x2 != -1 ==> st.scheduleProf[x2][d1][h1] == -1)
  {
  }

  /** SwapHours keeps the invariant. */
  lemma SwapHoursValid(inst: Instance, st: State, c1: nat, d1: nat, h1: nat, c2: nat, d2: nat, h2: nat)
    requires Valid(inst, st)
    requires c1 < inst.nClasses && d1 < inst.nDays && h1 < inst.nHoursXDay
    requires c2 < inst.nClasses && d2 < inst.nDays && h2 < inst.nHoursXDay
    ensures Valid(inst, SwapHoursResult(inst, st, c1, d1, h1, c2, d2, h2).1)
  {
    var x1 := st.scheduleClass[c1][d1][h1];
    var x2 := st.scheduleClass[c2][d2][h2];
    if !SwapHoursResult(inst, st, c1, d1, h1, c2, d2, h2).0 {
    } else if x1 != -1 && x2 != -1 {
      ExchangedValid(inst, st, c1, d1, h1, c2, d2, h2);
    } else if x1 != -1 {
      MovedValid(inst, st, c1, d1, h1, c2, d2, h2);
    } else {
      MovedValid(inst, st, c2, d2, h2, c1, d1, h1);
    }
  }

  /** The intermediate states of an exchange are well defined: the second slot
      still holds x2 after the first is freed, and each professor is free at the
      slot it moves to. */
  lemma ExchangeSteps(inst: Instance, st: State, c1: nat, d1: nat, h1: nat, c2: nat, d2: nat, h2: nat)
    requires Fits(inst, st)
    requires c1 < inst.nClasses && d1 < inst.nDays && h1 < inst.nHoursXDay
    requires c2 < inst.nClasses && d2 < inst.nDays && h2 < inst.nHoursXDay
    requires var x1 := st.scheduleClass[c1][d1][h1];
             var x2 := st.scheduleClass[c2][d2][h2];
             x1 != x2 && x1 != -1 && x2 != -1 && st.scheduleProf[x1][d2][h2] == -1 && st.scheduleProf[x2][d1][h1] == -1
    ensures var x1 := st.scheduleClass[c1][d1][h1];
            var x2 := st.scheduleClass[c2][d2][h2];
            var s1 := Freed(inst, st, c1, d1, h1);
            s1.scheduleClass[c2][d2][h2] == x2 &&
            var s2 := Freed(inst, s1, c2, d2, h2);
            CanAssign(inst, s2, c1, d1, h1, x2) &&
            CanAssign(inst, Assigned(inst, s2, c1, d1, h1, x2), c2, d2, h2, x1)
  {
    var x1 := st.scheduleClass[c1][d1][h1];
    var x2 := st.scheduleClass[c2][d2][h2];
    var s1 := Freed(inst, st, c1, d1, h1);
    FreedCells(inst, st, c1, d1, h1);
    var s2 := Freed(inst, s1, c2, d2, h2);
    FreedCells(inst, s1, c2, d2, h2);
    AssignedCells(inst, s2, c1, d1, h1, x2);
  }

  lemma ExchangedValid(inst: Instance, st: State, c1: nat, d1: nat, h1: nat, c2: nat, d2: nat, h2: nat)
    requires Valid(inst, st)
    requires c1 < inst.nClasses && d1 < inst.nDays && h1 < inst.nHoursXDay
    requires c2 < inst.nClasses && d2 < inst.nDays && h2 < inst.nHoursXDay
    requires var x1 := st.scheduleClass[c1][d1][h1];
             var x2 := st.scheduleClass[c2][d2][h2];
             x1 != x2 && x1 != -1 && x2 != -1 && st.scheduleProf[x1][d2][h2] == -1 && st.scheduleProf[x2][d1][h1] == -1
    ensures Valid(inst, Exchanged(inst, st, c1, d1, h1, c2, d2, h2))
  {
    var x1 := st.scheduleClass[c1][d1][h1];
    var x2 := st.scheduleClass[c2][d2][h2];
    ExchangeSteps(inst, st, c1, d1, h1, c2, d2, h2);
    var s1 := Freed(inst, st, c1, d1, h1);
    FreedValid(inst, st, c1, d1, h1);
    var s2 := Freed(inst, s1, c2, d2, h2);
    FreedValid(inst, s1, c2, d2, h2);
    var s3 := Assigned(inst, s2, c1, d1, h1, x2);
    AssignedValid(inst, s2, c1, d1, h1, x2);
    AssignedValid(inst, s3, c2, d2, h2, x1);
  }

  lemma MovedValid(inst: Instance, st: State, c1: nat, d1: nat, h1: nat, c2: nat, d2: nat, h2: nat)
    requires Valid(inst, st)
    requires c1 < inst.nClasses && d1 < inst.nDays && h1 < inst.nHoursXDay
    requires c2 < inst.nClasses && d2 < inst.nDays && h2 < inst.nHoursXDay
    requires var x1 := st.scheduleClass[c1][d1][h1];
             x1 != -1 && st.scheduleClass[c2][d2][h2] == -1 && st.scheduleProf[x1][d2][h2] == -1
    ensures Valid(inst, Moved(inst, st, c1, d1, h1, c2, d2, h2))
  {
    FreedValid(inst, st, c1, d1, h1);
    AssignedValid(inst, Freed(inst, st, c1, d1, h1), c2, d2, h2, st.scheduleClass[c1][d1][h1]);
  }

  /** A successful SwapHours exchanges the contents of the two class hours and
      changes no other class hour. */
  lemma SwapHoursExchanges(inst: Instance, st: State, c1: nat, d1: nat, h1: nat, c2: nat, d2: nat, h2: nat)
    requires Fits(inst, st)
    requires c1 < inst.nClasses && d1 < inst.nDays && h1 < inst.nHoursXDay
    requires c2 < inst.nClasses && d2 < inst.nDays && h2 < inst.nHoursXDay
    requires SwapHoursResult(inst, st, c1, d1, h1, c2, d2, h2).0
    ensures var g := SwapHoursResult(inst, st, c1, d1, h1, c2, d2, h2).1.scheduleClass;
            && g[c1][d1][h1] == st.scheduleClass[c2][d2][h2]
            && g[c2][d2][h2] == st.scheduleClass[c1][d1][h1]
            && forall c, d, h | 0 <= c < inst.nClasses && 0 <= d < inst.nDays && 0 <= h < inst.nHoursXDay &&
                 (c, d, h) != (c1, d1, h1) && (c, d, h) != (c2, d2, h2) :: g[c][d][h] == st.scheduleClass[c][d][h]
  {
    var x1 := st.scheduleClass[c1][d1][h1];
    var x2 := st.scheduleClass[c2][d2][h2];
    if x1 != -1 && x2 != -1 {
      var s1 := Freed(inst, st, c1, d1, h1);
      FreedCells(inst, st, c1, d1, h1);
      var s2 := Freed(inst, s1, c2, d2, h2);
      FreedCells(inst, s1, c2, d2, h2);
      var s3 := Assigned(inst, s2, c1, d1, h1, x2);
      AssignedCells(inst, s2, c1, d1, h1, x2);
      AssignedCells(inst, s3, c2, d2, h2, x1);
    } else if x1 != -1 {
      FreedCells(inst, st, c1, d1, h1);
      AssignedCells(inst, Freed(inst, st, c1, d1, h1), c2, d2, h2, x1);
    } else {
      FreedCells(inst, st, c2, d2, h2);
      AssignedCells(inst, Freed(inst, st, c2, d2, h2), c1, d1, h1, x2);
    }
  }

  /** A successful SwapHours keeps the number of occupied hours and every
      professor's weekly load. */
  lemma SwapHoursKeepsLoad(inst: Instance, st: State, c1: nat, d1: nat, h1: nat, c2: nat, d2: nat, h2: nat)
    requires Fits(inst, st)
    requires c1 < inst.nClasses && d1 < inst.nDays && h1 < inst.nHoursXDay
    requires c2 < inst.nClasses && d2 < inst.nDays && h2 < inst.nHoursXDay
    ensures var r := SwapHoursResult(inst, st, c1, d1, h1, c2, d2, h2).1;
            && Occupied(inst, r) == Occupied(inst, st)
            && r.profWeeklyHours == st.profWeeklyHours
  {
    var x1 := st.scheduleClass[c1][d1][h1];
    var x2 := st.scheduleClass[c2][d2][h2];
    if !SwapHoursResult(inst, st, c1, d1, h1, c2, d2, h2).0 {
    } else if x1 != -1 && x2 != -1 {
      ExchangedKeepsLoad(inst, st, c1, d1, h1, c2, d2, h2);
    } else if x1 != -1 {
      MovedKeepsLoad(inst, st, c1, d1, h1, c2, d2, h2);
    } else {
      MovedKeepsLoad(inst, st, c2, d2, h2, c1, d1, h1);
    }
  }

  lemma ExchangedKeepsLoad(inst: Instance, st: State, c1: nat, d1: nat, h1: nat, c2: nat, d2: nat, h2: nat)
    requires Fits(inst, st)
    requires c1 < inst.nClasses && d1 < inst.nDays && h1 < inst.nHoursXDay
    requires c2 < inst.nClasses && d2 < inst.nDays && h2 < inst.nHoursXDay
    requires var x1 := st.scheduleClass[c1][d1][h1];
             var x2 := st.scheduleClass[c2][d2][h2];
             x1 != x2 && x1 != -1 && x2 != -1 && st.scheduleProf[x1][d2][h2] == -1 && st.scheduleProf[x2][d1][h1] == -1
    ensures var r := Exchanged(inst, st, c1, d1, h1, c2, d2, h2);
            && Occupied(inst, r) == Occupied(inst, st)
            && r.profWeeklyHours == st.profWeeklyHours
  {
    var x1 := st.scheduleClass[c1][d1][h1];
    var x2 := st.scheduleClass[c2][d2][h2];
    var s1 := Freed(inst, st, c1, d1, h1);
    var s2 := Freed(inst, s1, c2, d2, h2);
    FreeBoth(inst, st, c1, d1, h1, c2, d2, h2);
    var s3 := Assigned(inst, s2, c1, d1, h1, x2);
    AssignedOccupied(inst, s2, c1, d1, h1, x2);
    AssignedOccupied(inst, s3, c2, d2, h2, x1);
    var s4 := Assigned(inst, s3, c2, d2, h2, x1);
    assert s4.profWeeklyHours == st.profWeeklyHours;
  }

  /** The first half of an exchange: both occupied hours are freed. */
  lemma FreeBoth(inst: Instance, st: State, c1: nat, d1: nat, h1: nat, c2: nat, d2: nat, h2: nat)
    requires Fits(inst, st)
    requires c1 < inst.nClasses && d1 < inst.nDays && h1 < inst.nHoursXDay
    requires c2 < inst.nClasses && d2 < inst.nDays && h2 < inst.nHoursXDay
    requires var x1 := st.scheduleClass[c1][d1][h1];
             var x2 := st.scheduleClass[c2][d2][h2];
             x1 != x2 && x1 != -1 && x2 != -1 && st.scheduleProf[x1][d2][h2] == -1 && st.scheduleProf[x2][d1][h1] == -1
    ensures var x1 := st.scheduleClass[c1][d1][h1];
            var x2 := st.scheduleClass[c2][d2][h2];
            var s1 := Freed(inst, st, c1, d1, h1);
            s1.scheduleClass[c2][d2][h2] == x2 &&
            var s2 := Freed(inst, s1, c2, d2, h2);
            && Occupied(inst, s2) + 2 == Occupied(inst, st)
            && s2.profWeeklyHours == st.profWeeklyHours[x1 := st.profWeeklyHours[x1] - 1][x2 := st.profWeeklyHours[x2] - 1]
            && s2.scheduleClass[c1][d1][h1] == -1 && s2.scheduleClass[c2][d2][h2] == -1
            && s2.scheduleProf[x2][d1][h1] == -1 && s2.scheduleProf[x1][d2][h2] == -1
  {
    FreedOccupied(inst, st, c1, d1, h1);
    FreedOccupied(inst, Freed(inst, st, c1, d1, h1), c2, d2, h2);
  }

  lemma MovedKeepsLoad(inst: Instance, st: State, c1: nat, d1: nat, h1: nat, c2: nat, d2: nat, h2: nat)
    requires Fits(inst, st)
    requires c1 < inst.nClasses && d1 < inst.nDays && h1 < inst.nHoursXDay
    requires c2 < inst.nClasses && d2 < inst.nDays && h2 < inst.nHoursXDay
    requires var x1 := st.scheduleClass[c1][d1][h1];
             x1 != -1 && st.scheduleClass[c2][d2][h2] == -1 && st.scheduleProf[x1][d2][h2] == -1
    ensures var r := Moved(inst, st, c1, d1, h1, c2, d2, h2);
            && Occupied(inst, r) == Occupied(inst, st)
            && r.profWeeklyHours == st.profWeeklyHours
  {
    var x1 := st.scheduleClass[c1][d1][h1];
    var s1 := Freed(inst, st, c1, d1, h1);
    FreedCells(inst, st, c1, d1, h1);
    FreedOccupied(inst, st, c1, d1, h1);
    AssignedCells(inst, s1, c2, d2, h2, x1);
    AssignedOccupied(inst, s1, c2, d2, h2, x1);
    assert Assigned(inst, s1, c2, d2, h2, x1).profWeeklyHours == st.profWeeklyHours;
  }

  /** A week (of a class or a professor) with hour (d, h) set to v. */
  function Put(days: seq<seq<int>>, d: nat, h: nat, v: int): (r: seq<seq<int>>)
    requires d < |days| && h < |days[d]|
    ensures |r| == |days| && forall e :: 0 <= e < |days| ==> |r[e]| == |days[e]|
  {
    days[d := days[d][h := v]]
  }

  /** How a successful SwapHours inside one class changes the professors' weeks:
      each professor present leaves its slot and takes the other one; every other
      professor's week is untouched. */
  lemma SwapHoursProfWeeks(inst: Instance, st: State, c: nat, d1: nat, h1: nat, d2: nat, h2: nat)
    requires Fits(inst, st)
    requires c < inst.nClasses && d1 < inst.nDays && h1 < inst.nHoursXDay && d2 < inst.nDays && h2 < inst.nHoursXDay
    requires SwapHoursResult(inst, st, c, d1, h1, c, d2, h2).0
    ensures var r := SwapHoursResult(inst, st, c, d1, h1, c, d2, h2).1;
            var x1 := st.scheduleClass[c][d1][h1];
            var x2 := st.scheduleClass[c][d2][h2];
            && (forall p | 0 <= p < inst.NProfs() && p != x1 && p != x2 :: r.scheduleProf[p] == st.scheduleProf[p])
            && (x1 != -1 ==> r.scheduleProf[x1] == Put(Put(st.scheduleProf[x1], d1, h1, -1), d2, h2, c))
            && (x2 != -1 ==> r.scheduleProf[x2] == Put(Put(st.scheduleProf[x2], d2, h2, -1), d1, h1, c))
  {
    var x1 := st.scheduleClass[c][d1][h1];
    var x2 := st.scheduleClass[c][d2][h2];
    if x1 != -1 && x2 != -1 {
      ExchangedProfWeeks(inst, st, c, d1, h1, d2, h2);
    } else if x1 != -1 {
      MovedProfWeeks(inst, st, c, d1, h1, d2, h2);
    } else {
      MovedProfWeeks(inst, st, c, d2, h2, d1, h1);
    }
  }

  lemma ExchangedProfWeeks(inst: Instance, st: State, c: nat, d1: nat, h1: nat, d2: nat, h2: nat)
    requires Fits(inst, st)
    requires c < inst.nClasses && d1 < inst.nDays && h1 < inst.nHoursXDay && d2 < inst.nDays && h2 < inst.nHoursXDay
    requires var x1 := st.scheduleClass[c][d1][h1];
             var x2 := st.scheduleClass[c][d2][h2];
             x1 != x2 && x1 != -1 && x2 != -1 && st.scheduleProf[x1][d2][h2] == -1 && st.scheduleProf[x2][d1][h1] == -1
    ensures var x1 := st.scheduleClass[c][d1][h1];
            var x2 := st.scheduleClass[c][d2][h2];
            Exchanged(inst, st, c, d1, h1, c, d2, h2).scheduleProf
              == st.scheduleProf[x1 := Put(Put(st.scheduleProf[x1], d1, h1, -1), d2, h2, c)]
                                [x2 := Put(Put(st.scheduleProf[x2], d2, h2, -1), d1, h1, c)]
  {
    var x1 := st.scheduleClass[c][d1][h1];
    var x2 := st.scheduleClass[c][d2][h2];
    var s1 := Freed(inst, st, c, d1, h1);
    FreedProfWeek(inst, st, c, d1, h1);
    var s2 := Freed(inst, s1, c, d2, h2);
    FreedProfWeek(inst, s1, c, d2, h2);
    var s3 := Assigned(inst, s2, c, d1, h1, x2);
    AssignedProfWeek(inst, s2, c, d1, h1, x2);
    AssignedProfWeek(inst, s3, c, d2, h2, x1);
  }

  lemma MovedProfWeeks(inst: Instance, st: State, c: nat, d1: nat, h1: nat, d2: nat, h2: nat)
    requires Fits(inst, st)
    requires c < inst.nClasses && d1 < inst.nDays && h1 < inst.nHoursXDay && d2 < inst.nDays && h2 < inst.nHoursXDay
    requires var x1 := st.scheduleClass[c][d1][h1];
             x1 != -1 && st.scheduleClass[c][d2][h2] == -1 && st.scheduleProf[x1][d2][h2] == -1
    ensures var x1 := st.scheduleClass[c][d1][h1];
            Moved(inst, st, c, d1, h1, c, d2, h2).scheduleProf
              == st.scheduleProf[x1 := Put(Put(st.scheduleProf[x1], d1, h1, -1), d2, h2, c)]
  {
    var x1 := st.scheduleClass[c][d1][h1];
    FreedProfWeek(inst, st, c, d1, h1);
    AssignedProfWeek(inst, Freed(inst, st, c, d1, h1), c, d2, h2, x1);
  }

  /** What FreeHour does to the professors' weeks. */
  lemma FreedProfWeek(inst: Instance, st: State, c: nat, d: nat, h: nat)
    requires Fits(inst, st) && c < inst.nClasses && d < inst.nDays && h < inst.nHoursXDay
    requires st.scheduleClass[c][d][h] != -1
    ensures var p := st.scheduleClass[c][d][h];
            Freed(inst, st, c, d, h).scheduleProf == st.scheduleProf[p := Put(st.scheduleProf[p], d, h, -1)]
            && Freed(inst, st, c, d, h).scheduleClass[c][d][h] == -1
  {
  }

  /** What AssignHour does to the professors' weeks. */
  lemma AssignedProfWeek(inst: Instance, st: State, c: nat, d: nat, h: nat, p: nat)
    requires Fits(inst, st) && c < inst.nClasses && d < inst.nDays && h < inst.nHoursXDay && p < inst.NProfs()
    requires CanAssign(inst, st, c, d, h, p)
    ensures Assigned(inst, st, c, d, h, p).scheduleProf == st.scheduleProf[p := Put(st.scheduleProf[p], d, h, c)]
            && Assigned(inst, st, c, d, h, p).scheduleClass[c][d][h] == p
  {
  }

  // ------------------------------------------------------------------ invariant I2

  /** Professor p may take an hour of class c without breaking invariant I2:
      either p's subject has no hour in c yet, or p is already its professor. */
  ghost predicate Teachable(inst: Instance, st: State, c: nat, p: nat)
    requires Fits(inst, st) && c < inst.nClasses && p < inst.NProfs()
  {
    st.weeklySubjectHours[c][inst.profSubject[p]] == 0 || st.classProfs[c][inst.profSubject[p]] == p
  }

  /** Under I2, the professor of an occupied hour may take more hours of the class. */
  lemma OccupantTeachable(inst: Instance, st: State, c: nat, d: nat, h: nat)
    requires Fits(inst, st) && c < inst.nClasses && d < inst.nDays && h < inst.nHoursXDay
    requires OneProfPerSubject(inst, st) && st.scheduleClass[c][d][h] != -1
    ensures Teachable(inst, st, c, st.scheduleClass[c][d][h])
  {
  }

  /** AssignHour keeps I2 when the professor is teachable in the class. */
  lemma AssignedKeepsOneProf(inst: Instance, st: State, c: nat, d: nat, h: nat, p: nat)
    requires Valid(inst, st) && c < inst.nClasses && d < inst.nDays && h < inst.nHoursXDay && p < inst.NProfs()
    requires CanAssign(inst, st, c, d, h, p)
    requires OneProfPerSubject(inst, st) && Teachable(inst, st, c, p)
    ensures OneProfPerSubject(inst, Assigned(inst, st, c, d, h, p))
  {
    var r := Assigned(inst, st, c, d, h, p);
    AssignedCells(inst, st, c, d, h, p);
    forall c', d', h' | 0 <= c' < inst.nClasses && 0 <= d' < inst.nDays && 0 <= h' < inst.nHoursXDay &&
      r.scheduleClass[c'][d'][h'] != -1
      ensures r.classProfs[c'][inst.profSubject[r.scheduleClass[c'][d'][h']]] == r.scheduleClass[c'][d'][h']
    {
      if (c', d', h') != (c, d, h) && c' == c && inst.profSubject[st.scheduleClass[c'][d'][h']] == inst.profSubject[p] {
        // an hour of the same subject is already there, so its weekly count is positive
        CountDaysExists(inst.profSubject, Teaches(inst.profSubject[p]), st.scheduleClass[c], d', h');
      }
    }
  }

  /** FreeHour always keeps I2. */
  lemma FreedKeepsOneProf(inst: Instance, st: State, c: nat, d: nat, h: nat)
    requires Valid(inst, st) && c < inst.nClasses && d < inst.nDays && h < inst.nHoursXDay
    requires st.scheduleClass[c][d][h] != -1
    requires OneProfPerSubject(inst, st)
    ensures OneProfPerSubject(inst, Freed(inst, st, c, d, h))
  {
    var r := Freed(inst, st, c, d, h);
    FreedValid(inst, st, c, d, h);
    FreedCells(inst, st, c, d, h);
    forall c', d', h' | 0 <= c' < inst.nClasses && 0 <= d' < inst.nDays && 0 <= h' < inst.nHoursXDay &&
      r.scheduleClass[c'][d'][h'] != -1
      ensures r.classProfs[c'][inst.profSubject[r.scheduleClass[c'][d'][h']]] == r.scheduleClass[c'][d'][h']
    {
      var q := r.scheduleClass[c'][d'][h'];
      // the hour still holds q, so q's subject still has an hour in c'
      CountDaysExists(inst.profSubject, Teaches(inst.profSubject[q]), r.scheduleClass[c'], d', h');
    }
  }

  /** FreeHour keeps every professor teachable where it was. */
  lemma FreedKeepsTeachable(inst: Instance, st: State, c: nat, d: nat, h: nat, c': nat, p': nat)
    requires Valid(inst, st) && c < inst.nClasses && d < inst.nDays && h < inst.nHoursXDay
    requires st.scheduleClass[c][d][h] != -1
    requires c' < inst.nClasses && p' < inst.NProfs() && Teachable(inst, st, c', p')
    ensures Teachable(inst, Freed(inst, st, c, d, h), c', p')
  {
    var p := st.scheduleClass[c][d][h];
    CountDaysExists(inst.profSubject, Teaches(inst.profSubject[p]), st.scheduleClass[c], d, h);
  }

  /** AssignHour of p in c makes p teachable in c and keeps every professor of
      another class or another subject teachable where it was. */
  lemma AssignedKeepsTeachable(inst: Instance, st: State, c: nat, d: nat, h: nat, p: nat, c': nat, p': nat)
    requires Fits(inst, st) && c < inst.nClasses && d < inst.nDays && h < inst.nHoursXDay && p < inst.NProfs()
    requires CanAssign(inst, st, c, d, h, p)
    requires c' < inst.nClasses && p' < inst.NProfs()
    requires Teachable(inst, st, c, p)
    requires Teachable(inst, st, c', p') && (c' != c || inst.profSubject[p'] != inst.profSubject[p])
    ensures Teachable(inst, Assigned(inst, st, c, d, h, p), c, p)
    ensures Teachable(inst, Assigned(inst, st, c, d, h, p), c', p')
  {
  }

  /** An exchange or move of hours inside one class keeps I2. */
  lemma SwapHoursKeepsOneProf(inst: Instance, st: State, c: nat, d1: nat, h1: nat, d2: nat, h2: nat)
    requires Valid(inst, st) && OneProfPerSubject(inst, st)
    requires c < inst.nClasses && d1 < inst.nDays && h1 < inst.nHoursXDay && d2 < inst.nDays && h2 < inst.nHoursXDay
    ensures OneProfPerSubject(inst, SwapHoursResult(inst, st, c, d1, h1, c, d2, h2).1)
  {
    var x1 := st.scheduleClass[c][d1][h1];
    var x2 := st.scheduleClass[c][d2][h2];
    if !SwapHoursResult(inst, st, c, d1, h1, c, d2, h2).0 {
    } else if x1 != -1 && x2 != -1 {
      ExchangedKeepsOneProf(inst, st, c, d1, h1, d2, h2);
    } else if x1 != -1 {
      MovedKeepsOneProf(inst, st, c, d1, h1, d2, h2);
    } else {
      MovedKeepsOneProf(inst, st, c, d2, h2, d1, h1);
    }
  }

  lemma MovedKeepsOneProf(inst: Instance, st: State, c: nat, d1: nat, h1: nat, d2: nat, h2: nat)
    requires Valid(inst, st) && OneProfPerSubject(inst, st)
    requires c < inst.nClasses && d1 < inst.nDays && h1 < inst.nHoursXDay && d2 < inst.nDays && h2 < inst.nHoursXDay
    requires var x1 := st.scheduleClass[c][d1][h1];
             x1 != -1 && st.scheduleClass[c][d2][h2] == -1 && st.scheduleProf[x1][d2][h2] == -1
    ensures OneProfPerSubject(inst, Moved(inst, st, c, d1, h1, c, d2, h2))
  {
    var x1 := st.scheduleClass[c][d1][h1];
    var s1 := Freed(inst, st, c, d1, h1);
    FreedValid(inst, st, c, d1, h1);
    FreedKeepsOneProf(inst, st, c, d1, h1);
    OccupantTeachable(inst, st, c, d1, h1);
    FreedKeepsTeachable(inst, st, c, d1, h1, c, x1);
    AssignedKeepsOneProf(inst, s1, c, d2, h2, x1);
  }

  lemma ExchangedKeepsOneProf(inst: Instance, st: State, c: nat, d1: nat, h1: nat, d2: nat, h2: nat)
    requires Valid(inst, st) && OneProfPerSubject(inst, st)
    requires c < inst.nClasses && d1 < inst.nDays && h1 < inst.nHoursXDay && d2 < inst.nDays && h2 < inst.nHoursXDay
    requires var x1 := st.scheduleClass[c][d1][h1];
             var x2 := st.scheduleClass[c][d2][h2];
             x1 != x2 && x1 != -1 && x2 != -1 && st.scheduleProf[x1][d2][h2] == -1 && st.scheduleProf[x2][d1][h1] == -1
    ensures OneProfPerSubject(inst, Exchanged(inst, st, c, d1, h1, c, d2, h2))
  {
    var x1 := st.scheduleClass[c][d1][h1];
    var x2 := st.scheduleClass[c][d2][h2];
    // two professors of one class that satisfy I2 teach different subjects
    assert inst.profSubject[x1] != inst.profSubject[x2];
    ExchangeSteps(inst, st, c, d1, h1, c, d2, h2);
    var s1 := Freed(inst, st, c, d1, h1);
    FreedValid(inst, st, c, d1, h1);
    FreedKeepsOneProf(inst, st, c, d1, h1);
    FreedKeepsTeachable(inst, st, c, d1, h1, c, x1);
    FreedKeepsTeachable(inst, st, c, d1, h1, c, x2);
    var s2 := Freed(inst, s1, c, d2, h2);
    FreedValid(inst, s1, c, d2, h2);
    FreedKeepsOneProf(inst, s1, c, d2, h2);
    FreedKeepsTeachable(inst, s1, c, d2, h2, c, x1);
    FreedKeepsTeachable(inst, s1, c, d2, h2, c, x2);
    var s3 := Assigned(inst, s2, c, d1, h1, x2);
    AssignedValid(inst, s2, c, d1, h1, x2);
    AssignedKeepsOneProf(inst, s2, c, d1, h1, x2);
    AssignedKeepsTeachable(inst, s2, c, d1, h1, x2, c, x1);
    AssignedKeepsOneProf(inst, s3, c, d2, h2, x1);
  }

  // ------------------------------------------------------------------ determinacy

  /** Two grids of the same shape with the same cells are equal. */
  lemma GridsEqual(g1: seq<seq<seq<int>>>, g2: seq<seq<seq<int>>>, n1: nat, n2: nat, n3: nat)
    requires Grid(g1, n1, n2, n3) && Grid(g2, n1, n2, n3)
    requires forall i, j, k | 0 <= i < n1 && 0 <= j < n2 && 0 <= k < n3 :: g1[i][j][k] == g2[i][j][k]
    ensures g1 == g2
  {
    forall i | 0 <= i < n1
      ensures g1[i] == g2[i]
    {
      forall j | 0 <= j < n2
        ensures g1[i][j] == g2[i][j]
      {
      }
    }
  }

  /** Two tables of the same shape with the same entries are equal. */
  lemma TablesEqual(t1: seq<seq<int>>, t2: seq<seq<int>>, n1: nat, n2: nat)
    requires Table(t1, n1, n2) && Table(t2, n1, n2)
    requires forall i, j | 0 <= i < n1 && 0 <= j < n2 :: t1[i][j] == t2[i][j]
    ensures t1 == t2
  {
    forall i | 0 <= i < n1
      ensures t1[i] == t2[i]
    {
    }
  }

  /** Under I1 the professor grid is determined by the class grid. */
  lemma ProfGridDetermined(inst: Instance, a: State, b: State)
    requires Fits(inst, a) && Mirror(inst, a) && Fits(inst, b) && Mirror(inst, b)
    requires a.scheduleClass == b.scheduleClass
    ensures a.scheduleProf == b.scheduleProf
  {
    forall p, d, h | 0 <= p < inst.NProfs() && 0 <= d < inst.nDays && 0 <= h < inst.nHoursXDay
      ensures a.scheduleProf[p][d][h] == b.scheduleProf[p][d][h]
    {
      var x := a.scheduleProf[p][d][h];
      var y := b.scheduleProf[p][d][h];
      if x != -1 { assert a.scheduleClass[x][d][h] == p; }
      if y != -1 { assert b.scheduleClass[y][d][h] == p; }
    }
    GridsEqual(a.scheduleProf, b.scheduleProf, inst.NProfs(), inst.nDays, inst.nHoursXDay);
  }

  /** A valid state is determined by its class grid and its class-professor
      table: the professor grid mirrors the class grid, and every counter and
      every day off is computed from the two grids. */
  lemma ValidDetermined(inst: Instance, a: State, b: State)
    requires Valid(inst, a) && Valid(inst, b)
    requires a.scheduleClass == b.scheduleClass && a.classProfs == b.classProfs
    ensures a == b
  {
    ProfGridDetermined(inst, a, b);
    forall c, sj | 0 <= c < inst.nClasses && 0 <= sj < inst.NSubjects()
      ensures a.weeklySubjectHours[c][sj] == b.weeklySubjectHours[c][sj]
    {
      assert a.weeklySubjectHours[c][sj] == CountDays(inst.profSubject, Teaches(sj), a.scheduleClass[c]);
    }
    forall c, d, sj | 0 <= c < inst.nClasses && 0 <= d < inst.nDays && 0 <= sj < inst.NSubjects()
      ensures a.dailySubjectHours[c][d][sj] == b.dailySubjectHours[c][d][sj]
    {
      assert a.dailySubjectHours[c][d][sj] == Count(inst.profSubject, Teaches(sj), a.scheduleClass[c][d]);
    }
    forall p | 0 <= p < inst.NProfs()
      ensures a.profWeeklyHours[p] == b.profWeeklyHours[p] && a.profDayOff[p] == b.profDayOff[p]
    {
      assert a.profWeeklyHours[p] == CountDays(inst.profSubject, Busy, a.scheduleProf[p]);
    }
    TablesEqual(a.weeklySubjectHours, b.weeklySubjectHours, inst.nClasses, inst.NSubjects());
    GridsEqual(a.dailySubjectHours, b.dailySubjectHours, inst.nClasses, inst.nDays, inst.NSubjects());
  }
}
