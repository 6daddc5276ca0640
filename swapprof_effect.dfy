/** What SwapProf's MakeMove (Sched_SwapProf_NHE.cc) does to a timetable, as a
    value. The move runs in two phases. The collection pass walks the week in
    day-major order; it frees every hour where class c1 has professor p1 and,
    separately, every hour where class c2 has professor p2, recording each hour
    it frees. The assignment phase then gives p2 every hour recorded for c1, and
    p1 every hour recorded for c2, one AssignHour at a time. `CollectedBefore`
    and `AssignedBefore` say what each loop has done after a number of
    iterations, and `SwapOutcome` what the whole move does to a feasible pair. */
module SwapProfEffect {
  import opened Input
  import opened Counting
  import opened ScheduleState

  /** A (day, hour) pair, as pushed on hours_prof_1 and hours_prof_2. */
  type Hour = (nat, nat)

  /** Hour x comes before (d, h) in the order the collection pass visits them. */
  predicate Before(x: Hour, d: nat, h: nat) {
    x.0 < d || (x.0 == d && x.1 < h)
  }

  predicate InWeek(inst: Instance, hs: seq<Hour>) {
    forall k :: 0 <= k < |hs| ==> hs[k].0 < inst.nDays && hs[k].1 < inst.nHoursXDay
  }

  predicate Distinct(hs: seq<Hour>) {
    forall j, k :: 0 <= j < k < |hs| ==> hs[j] != hs[k]
  }

  // ---------------------------------------------------------------- recorded hours

  /** The hours of a day table holding p, in visiting order, strictly before (d, h). */
  function HoursBefore(days: seq<seq<int>>, p: int, d: nat, h: nat): seq<Hour>
    requires d <= |days| && (h > 0 ==> d < |days| && h <= |days[d]|)
    decreases d, h
  {
    if h > 0 then HoursBefore(days, p, d, h - 1) + (if days[d][h - 1] == p then [(d, h - 1)] else [])
    else if d > 0 then HoursBefore(days, p, d - 1, |days[d - 1]|)
    else []
  }

  /** The recorded hours are exactly the visited hours holding p. */
  lemma {:induction false} HoursBeforeMembers(days: seq<seq<int>>, p: int, d: nat, h: nat)
    requires d <= |days| && (h > 0 ==> d < |days| && h <= |days[d]|)
    ensures forall x: Hour :: x in HoursBefore(days, p, d, h) <==>
              x.0 < |days| && x.1 < |days[x.0]| && Before(x, d, h) && days[x.0][x.1] == p
    decreases d, h
  {
    if h > 0 {
      HoursBeforeMembers(days, p, d, h - 1);
    } else if d > 0 {
      HoursBeforeMembers(days, p, d - 1, |days[d - 1]|);
    }
  }

  /** No hour is recorded twice. */
  lemma {:induction false} HoursBeforeDistinct(days: seq<seq<int>>, p: int, d: nat, h: nat)
    requires d <= |days| && (h > 0 ==> d < |days| && h <= |days[d]|)
    ensures Distinct(HoursBefore(days, p, d, h))
    decreases d, h
  {
    if h > 0 {
      HoursBeforeDistinct(days, p, d, h - 1);
      HoursBeforeMembers(days, p, d, h - 1);
    } else if d > 0 {
      HoursBeforeDistinct(days, p, d - 1, |days[d - 1]|);
    }
  }

  /** As many hours are recorded as the visited part of the table holds p. */
  lemma {:induction false} HoursBeforeCount(ps: seq<nat>, days: seq<seq<int>>, p: int, d: nat, h: nat)
    requires d <= |days| && (h > 0 ==> d < |days| && h <= |days[d]|)
    ensures |HoursBefore(days, p, d, h)| ==
            CountDaysUpTo(ps, Holds(p), days, d) + (if h > 0 then CountUpTo(ps, Holds(p), days[d], h) else 0)
    decreases d, h
  {
    if h > 0 {
      HoursBeforeCount(ps, days, p, d, h - 1);
    } else if d > 0 {
      HoursBeforeCount(ps, days, p, d - 1, |days[d - 1]|);
    }
  }

  /** The whole week's recorded hours: one per hour of the table holding p. */
  lemma HoursOfWeek(inst: Instance, days: seq<seq<int>>, p: int)
    requires |days| == inst.nDays && forall d :: 0 <= d < |days| ==> |days[d]| == inst.nHoursXDay
    ensures var hs := HoursBefore(days, p, |days|, 0);
            && InWeek(inst, hs) && Distinct(hs)
            && |hs| == CountDays(inst.profSubject, Holds(p), days)
            && forall x: Hour :: x in hs <==> x.0 < |days| && x.1 < |days[x.0]| && days[x.0][x.1] == p
  {
    var hs := HoursBefore(days, p, |days|, 0);
    HoursBeforeMembers(days, p, |days|, 0);
    HoursBeforeDistinct(days, p, |days|, 0);
    HoursBeforeCount(inst.profSubject, days, p, |days|, 0);
    forall k | 0 <= k < |hs|
      ensures hs[k].0 < inst.nDays && hs[k].1 < inst.nHoursXDay
    {
      assert hs[k] in hs;
    }
  }

  // ---------------------------------------------------------------- the pair of a move

  /** A move's subject, its two classes and their professors for the subject. */
  datatype Pair = Pair(s: nat, c1: nat, p1: nat, c2: nat, p2: nat)

  /** Two different classes, two different professors of the subject, all in range. */
  predicate PairOk(inst: Instance, w: Pair)
    requires inst.WellFormed()
  {
    && w.s < inst.NSubjects() && w.c1 < inst.nClasses && w.c2 < inst.nClasses && w.c1 != w.c2
    && w.p1 < inst.NProfs() && w.p2 < inst.NProfs() && w.p1 != w.p2
    && inst.profSubject[w.p1] == w.s && inst.profSubject[w.p2] == w.s
  }

  /** Professor pb teaches class cb at (d, h) while professor pa is busy there
      with a class other than ca: then pa cannot take over cb's hour. */
  ghost predicate Conflict(inst: Instance, st: State, pa: nat, ca: nat, pb: nat, cb: nat, d: nat, h: nat)
    requires Fits(inst, st) && pa < inst.NProfs() && pb < inst.NProfs() && d < inst.nDays && h < inst.nHoursXDay
  {
    st.scheduleProf[pb][d][h] == cb && !(st.scheduleProf[pa][d][h] == ca || st.scheduleProf[pa][d][h] == -1)
  }

  /** Neither professor is kept from taking over the other's hours. */
  ghost predicate NoConflicts(inst: Instance, st: State, w: Pair)
    requires Fits(inst, st) && PairOk(inst, w)
  {
    forall d, h | 0 <= d < inst.nDays && 0 <= h < inst.nHoursXDay ::
      !Conflict(inst, st, w.p1, w.c1, w.p2, w.c2, d, h) && !Conflict(inst, st, w.p2, w.c2, w.p1, w.c1, d, h)
  }

  /** Class c1's hours with p1 and class c2's hours with p2: the ones the move reassigns. */
  predicate Taken(sc: seq<seq<seq<int>>>, w: Pair, c: nat, d: nat, h: nat)
    requires c < |sc| && d < |sc[c]| && h < |sc[c][d]|
  {
    (c == w.c1 && sc[c][d][h] == w.p1) || (c == w.c2 && sc[c][d][h] == w.p2)
  }

  /** The professor a class hour holds once the move is made. */
  function SwappedCell(sc: seq<seq<seq<int>>>, w: Pair, c: nat, d: nat, h: nat): int
    requires c < |sc| && d < |sc[c]| && h < |sc[c][d]|
  {
    if c == w.c1 && sc[c][d][h] == w.p1 then w.p2
    else if c == w.c2 && sc[c][d][h] == w.p2 then w.p1
    else sc[c][d][h]
  }

  /** The class-professor table agrees with t0 outside the entries of class c1
      for subject s1 and of class c2 for subject s2. */
  ghost predicate ProfsKept(inst: Instance, t0: seq<seq<int>>, t: seq<seq<int>>, c1: nat, s1: nat, c2: nat, s2: nat)
    requires Table(t0, inst.nClasses, inst.NSubjects()) && Table(t, inst.nClasses, inst.NSubjects())
  {
    forall c, s | 0 <= c < inst.nClasses && 0 <= s < inst.NSubjects() && (c, s) != (c1, s1) && (c, s) != (c2, s2) ::
      t[c][s] == t0[c][s]
  }

  // ---------------------------------------------------------------- the collection pass

  /** One test of the collection pass: class c's hour (d, h) is freed when it holds p. */
  function FreeIfHolds(inst: Instance, st: State, c: nat, d: nat, h: nat, p: int): (r: State)
    requires Fits(inst, st) && c < inst.nClasses && d < inst.nDays && h < inst.nHoursXDay
    ensures Fits(inst, r)
  {
    if st.scheduleClass[c][d][h] == p && p != -1 then Freed(inst, st, c, d, h) else st
  }

  /** A test clears the tested hour when it holds p and changes no other hour. */
  lemma FreeIfHoldsCells(inst: Instance, st: State, c: nat, d: nat, h: nat, p: int)
    requires Fits(inst, st) && c < inst.nClasses && d < inst.nDays && h < inst.nHoursXDay
    ensures var r := FreeIfHolds(inst, st, c, d, h, p);
            forall c', d', h' | 0 <= c' < inst.nClasses && 0 <= d' < inst.nDays && 0 <= h' < inst.nHoursXDay ::
              r.scheduleClass[c'][d'][h'] ==
                if (c', d', h') == (c, d, h) && st.scheduleClass[c][d][h] == p then -1 else st.scheduleClass[c'][d'][h']
  {
    if st.scheduleClass[c][d][h] == p && p != -1 {
      FreedCells(inst, st, c, d, h);
    }
  }

  /** The pass has visited (c, x) once it is at (d, h): every hour before
      (d, h), and (d, h) itself in class c1 when c1 has been tested there (mid). */
  predicate Visited(w: Pair, c: nat, x: Hour, d: nat, h: nat, mid: bool) {
    Before(x, d, h) || (mid && c == w.c1 && x == (d, h))
  }

  /** Every visited hour that the move reassigns is free in g, and every other
      hour is as in the starting grid. */
  ghost predicate FreedBefore(inst: Instance, sc0: seq<seq<seq<int>>>, w: Pair, g: seq<seq<seq<int>>>,
                              d: nat, h: nat, mid: bool)
    requires Grid(sc0, inst.nClasses, inst.nDays, inst.nHoursXDay) && Grid(g, inst.nClasses, inst.nDays, inst.nHoursXDay)
  {
    forall c, d', h' | 0 <= c < inst.nClasses && 0 <= d' < inst.nDays && 0 <= h' < inst.nHoursXDay ::
      g[c][d'][h'] == if Visited(w, c, (d', h'), d, h, mid) && Taken(sc0, w, c, d', h') then -1 else sc0[c][d'][h']
  }

  /** A point the pass can be at: before the hour (d, h), or between its two tests (mid). */
  ghost predicate Position(inst: Instance, d: nat, h: nat, mid: bool) {
    && d <= inst.nDays && (h > 0 ==> d < inst.nDays && h <= inst.nHoursXDay)
    && (mid ==> d < inst.nDays && h < inst.nHoursXDay)
  }

  /** The loads, counters and class professors of the two classes while the
      collection pass runs: each professor has lost one weekly hour per hour
      recorded for it, and so has the subject in each class; a class keeps its
      professor for the subject while it still has hours of it; nothing else
      in the class-professor table moves. */
  ghost predicate LoadsBefore(inst: Instance, st0: State, w: Pair, st: State, n1: nat, n2: nat)
    requires Fits(inst, st0) && Fits(inst, st) && PairOk(inst, w)
  {
    && st.profWeeklyHours == st0.profWeeklyHours[w.p1 := st0.profWeeklyHours[w.p1] - n1]
                                                [w.p2 := st0.profWeeklyHours[w.p2] - n2]
    && st.weeklySubjectHours[w.c1][w.s] == st0.weeklySubjectHours[w.c1][w.s] - n1
    && st.weeklySubjectHours[w.c2][w.s] == st0.weeklySubjectHours[w.c2][w.s] - n2
    && (st.weeklySubjectHours[w.c1][w.s] != 0 ==> st.classProfs[w.c1][w.s] == st0.classProfs[w.c1][w.s])
    && (st.weeklySubjectHours[w.c2][w.s] != 0 ==> st.classProfs[w.c2][w.s] == st0.classProfs[w.c2][w.s])
    && ProfsKept(inst, st0.classProfs, st.classProfs, w.c1, w.s, w.c2, w.s)
  }

  /** What the collection pass has done at a position: the recorded hours are
      the visited hours of c1 with p1 and of c2 with p2, exactly those hours are
      free now, and the loads are as `LoadsBefore` says. */
  ghost predicate CollectedBefore(inst: Instance, st0: State, w: Pair, st: State, hours1: seq<Hour>, hours2: seq<Hour>,
                                  d: nat, h: nat, mid: bool)
    requires Fits(inst, st0) && Fits(inst, st) && PairOk(inst, w) && Position(inst, d, h, mid)
  {
    && hours1 == HoursBefore(st0.scheduleClass[w.c1], w.p1, d, if mid then h + 1 else h)
    && hours2 == HoursBefore(st0.scheduleClass[w.c2], w.p2, d, h)
    && FreedBefore(inst, st0.scheduleClass, w, st.scheduleClass, d, h, mid)
    && LoadsBefore(inst, st0, w, st, |hours1|, |hours2|)
  }

  /** The pass starts from the state as it is. */
  lemma CollectStart(inst: Instance, st0: State, w: Pair)
    requires Fits(inst, st0) && PairOk(inst, w)
    ensures CollectedBefore(inst, st0, w, st0, [], [], 0, 0, false)
  {
    assert st0.profWeeklyHours[w.p1 := st0.profWeeklyHours[w.p1] - 0][w.p2 := st0.profWeeklyHours[w.p2] - 0]
        == st0.profWeeklyHours;
  }

  /** The cells after class c1's test at (d, h). */
  lemma TestFirstCells(inst: Instance, sc0: seq<seq<seq<int>>>, w: Pair, st: State, d: nat, h: nat)
    requires Grid(sc0, inst.nClasses, inst.nDays, inst.nHoursXDay) && Fits(inst, st) && PairOk(inst, w)
    requires d < inst.nDays && h < inst.nHoursXDay
    requires FreedBefore(inst, sc0, w, st.scheduleClass, d, h, false)
    requires CountersMatch(inst, st)
    ensures st.scheduleClass[w.c1][d][h] == sc0[w.c1][d][h]
    ensures FreedBefore(inst, sc0, w, FreeIfHolds(inst, st, w.c1, d, h, w.p1).scheduleClass, d, h, true)
  {
    assert !Visited(w, w.c1, (d, h), d, h, false);
    FreeIfHoldsCells(inst, st, w.c1, d, h, w.p1);
  }

  /** The cells after class c2's test at (d, h). */
  lemma TestSecondCells(inst: Instance, sc0: seq<seq<seq<int>>>, w: Pair, st: State, d: nat, h: nat)
    requires Grid(sc0, inst.nClasses, inst.nDays, inst.nHoursXDay) && Fits(inst, st) && PairOk(inst, w)
    requires d < inst.nDays && h < inst.nHoursXDay
    requires FreedBefore(inst, sc0, w, st.scheduleClass, d, h, true)
    requires CountersMatch(inst, st)
    ensures st.scheduleClass[w.c2][d][h] == sc0[w.c2][d][h]
    ensures FreedBefore(inst, sc0, w, FreeIfHolds(inst, st, w.c2, d, h, w.p2).scheduleClass, d, h + 1, false)
  {
    assert !Visited(w, w.c2, (d, h), d, h, true);
    FreeIfHoldsCells(inst, st, w.c2, d, h, w.p2);
  }

  /** The loads after one test of class c, which frees the hour when it holds p. */
  lemma TestLoads(inst: Instance, st0: State, w: Pair, st: State, c: nat, p: nat, d: nat, h: nat, n1: nat, n2: nat)
    requires Fits(inst, st0) && Fits(inst, st) && PairOk(inst, w)
    requires (c, p) == (w.c1, w.p1) || (c, p) == (w.c2, w.p2)
    requires d < inst.nDays && h < inst.nHoursXDay
    requires CountersMatch(inst, st) && LoadsBefore(inst, st0, w, st, n1, n2)
    ensures var b := st.scheduleClass[c][d][h] == p;
            LoadsBefore(inst, st0, w, FreeIfHolds(inst, st, c, d, h, p),
                        n1 + (if c == w.c1 && b then 1 else 0), n2 + (if c == w.c2 && b then 1 else 0))
  {
    if st.scheduleClass[c][d][h] == p {
      FreedLoadsOf(inst, st0, w, st, c, p, d, h, n1, n2);
      if c == w.c1 {
        assert Freed(inst, st, c, d, h).profWeeklyHours == st0.profWeeklyHours[w.p1 := st0.profWeeklyHours[w.p1] - (n1 + 1)]
                                                                               [w.p2 := st0.profWeeklyHours[w.p2] - n2];
      } else {
        assert Freed(inst, st, c, d, h).profWeeklyHours == st0.profWeeklyHours[w.p1 := st0.profWeeklyHours[w.p1] - n1]
                                                                               [w.p2 := st0.profWeeklyHours[w.p2] - (n2 + 1)];
      }
    }
  }

  /** Freeing an hour of p in class c takes one hour off p's load and off c's
      count of the pair's subject, and keeps every class professor but c's. */
  lemma FreedLoadsOf(inst: Instance, st0: State, w: Pair, st: State, c: nat, p: nat, d: nat, h: nat, n1: nat, n2: nat)
    requires Fits(inst, st0) && Fits(inst, st) && PairOk(inst, w)
    requires (c, p) == (w.c1, w.p1) || (c, p) == (w.c2, w.p2)
    requires d < inst.nDays && h < inst.nHoursXDay && st.scheduleClass[c][d][h] == p
    requires CountersMatch(inst, st)
    ensures var r := Freed(inst, st, c, d, h);
            && st.weeklySubjectHours[c][w.s] >= 1
            && r.profWeeklyHours == st.profWeeklyHours[p := st.profWeeklyHours[p] - 1]
            && r.weeklySubjectHours[c] == st.weeklySubjectHours[c][w.s := st.weeklySubjectHours[c][w.s] - 1]
            && (forall c' | 0 <= c' < inst.nClasses && c' != c :: r.weeklySubjectHours[c'] == st.weeklySubjectHours[c'])
            && (r.weeklySubjectHours[c][w.s] != 0 ==> r.classProfs == st.classProfs)
            && (r.weeklySubjectHours[c][w.s] == 0 ==> r.classProfs == st.classProfs[c := st.classProfs[c][w.s := -1]])
  {
    CountDaysExists(inst.profSubject, Teaches(w.s), st.scheduleClass[c], d, h);
  }

  /** Class c1's test at (d, h): it sees the starting grid's cell and records
      the hour when it held p1. */
  lemma TestFirst(inst: Instance, st0: State, w: Pair, st: State, hours1: seq<Hour>, hours2: seq<Hour>, d: nat, h: nat)
    requires Fits(inst, st0) && Fits(inst, st) && PairOk(inst, w) && d < inst.nDays && h < inst.nHoursXDay
    requires CollectedBefore(inst, st0, w, st, hours1, hours2, d, h, false)
    requires CountersMatch(inst, st)
    ensures st.scheduleClass[w.c1][d][h] == st0.scheduleClass[w.c1][d][h]
    ensures CollectedBefore(inst, st0, w, FreeIfHolds(inst, st, w.c1, d, h, w.p1),
                            hours1 + (if st0.scheduleClass[w.c1][d][h] == w.p1 then [(d, h)] else []), hours2, d, h, true)
  {
    TestFirstCells(inst, st0.scheduleClass, w, st, d, h);
    TestLoads(inst, st0, w, st, w.c1, w.p1, d, h, |hours1|, |hours2|);
  }

  /** Class c2's test at (d, h), after c1's. */
  lemma TestSecond(inst: Instance, st0: State, w: Pair, st: State, hours1: seq<Hour>, hours2: seq<Hour>, d: nat, h: nat)
    requires Fits(inst, st0) && Fits(inst, st) && PairOk(inst, w) && d < inst.nDays && h < inst.nHoursXDay
    requires CollectedBefore(inst, st0, w, st, hours1, hours2, d, h, true)
    requires CountersMatch(inst, st)
    ensures st.scheduleClass[w.c2][d][h] == st0.scheduleClass[w.c2][d][h]
    ensures CollectedBefore(inst, st0, w, FreeIfHolds(inst, st, w.c2, d, h, w.p2),
                            hours1, hours2 + (if st0.scheduleClass[w.c2][d][h] == w.p2 then [(d, h)] else []), d, h + 1, false)
  {
    TestSecondCells(inst, st0.scheduleClass, w, st, d, h);
    TestLoads(inst, st0, w, st, w.c2, w.p2, d, h, |hours1|, |hours2|);
  }

  /** The end of a day is the start of the next. */
  lemma CollectNextDay(inst: Instance, st0: State, w: Pair, st: State, hours1: seq<Hour>, hours2: seq<Hour>, d: nat)
    requires Fits(inst, st0) && Fits(inst, st) && PairOk(inst, w) && d < inst.nDays
    requires CollectedBefore(inst, st0, w, st, hours1, hours2, d, inst.nHoursXDay, false)
    ensures CollectedBefore(inst, st0, w, st, hours1, hours2, d + 1, 0, false)
  {
    forall c, d', h' | 0 <= c < inst.nClasses && 0 <= d' < inst.nDays && 0 <= h' < inst.nHoursXDay
      ensures Visited(w, c, (d', h'), d, inst.nHoursXDay, false) == Visited(w, c, (d', h'), d + 1, 0, false)
    {
    }
  }

  // ---------------------------------------------------------------- the assignment loops

  /** Every hour of hs can go to professor p in class c. */
  ghost predicate Ready(inst: Instance, st: State, c: nat, p: nat, hs: seq<Hour>)
    requires Fits(inst, st) && c < inst.nClasses && p < inst.NProfs() && InWeek(inst, hs)
  {
    forall k | 0 <= k < |hs| :: CanAssign(inst, st, c, hs[k].0, hs[k].1, p)
  }

  /** The grids after an assignment loop giving p the first i hours of hs in
      class c, starting from s: those hours hold p in c and c in p, and nothing
      else moved. */
  ghost predicate GivenBefore(inst: Instance, s: State, c: nat, p: nat, hs: seq<Hour>, i: nat, st: State)
    requires Fits(inst, s) && Fits(inst, st) && c < inst.nClasses && p < inst.NProfs() && InWeek(inst, hs) && i <= |hs|
  {
    && (forall c', d, h | 0 <= c' < inst.nClasses && 0 <= d < inst.nDays && 0 <= h < inst.nHoursXDay ::
          st.scheduleClass[c'][d][h] == if c' == c && (d, h) in hs[..i] then p else s.scheduleClass[c'][d][h])
    && (forall p', d, h | 0 <= p' < inst.NProfs() && 0 <= d < inst.nDays && 0 <= h < inst.nHoursXDay ::
          st.scheduleProf[p'][d][h] == if p' == p && (d, h) in hs[..i] then c else s.scheduleProf[p'][d][h])
  }

  /** The loads after the same i iterations: p has i more weekly hours, the
      subject i more hours in c, and the class's professor for the subject
      becomes p if the subject had no hour in c before. */
  ghost predicate AddedBefore(inst: Instance, s: State, c: nat, p: nat, i: nat, st: State)
    requires Fits(inst, s) && Fits(inst, st) && c < inst.nClasses && p < inst.NProfs()
  {
    var sj := inst.profSubject[p];
    && st.profWeeklyHours == s.profWeeklyHours[p := s.profWeeklyHours[p] + i]
    && st.weeklySubjectHours == s.weeklySubjectHours[c := s.weeklySubjectHours[c][sj := s.weeklySubjectHours[c][sj] + i]]
    && ProfsKept(inst, s.classProfs, st.classProfs, c, sj, c, sj)
    && st.classProfs[c][sj] == if i > 0 && s.weeklySubjectHours[c][sj] == 0 then p else s.classProfs[c][sj]
  }

  ghost predicate AssignedBefore(inst: Instance, s: State, c: nat, p: nat, hs: seq<Hour>, i: nat, st: State)
    requires Fits(inst, s) && Fits(inst, st) && c < inst.nClasses && p < inst.NProfs() && InWeek(inst, hs) && i <= |hs|
  {
    GivenBefore(inst, s, c, p, hs, i, st) && AddedBefore(inst, s, c, p, i, st)
  }

  /** An assignment loop starts from the state as it is. */
  lemma AssignStart(inst: Instance, s: State, c: nat, p: nat, hs: seq<Hour>)
    requires Fits(inst, s) && c < inst.nClasses && p < inst.NProfs() && InWeek(inst, hs)
    ensures AssignedBefore(inst, s, c, p, hs, 0, s)
  {
    assert s.profWeeklyHours[p := s.profWeeklyHours[p] + 0] == s.profWeeklyHours;
    var sj := inst.profSubject[p];
    assert s.weeklySubjectHours[c][sj := s.weeklySubjectHours[c][sj] + 0] == s.weeklySubjectHours[c];
    assert s.weeklySubjectHours[c := s.weeklySubjectHours[c]] == s.weeklySubjectHours;
  }

  /** The grids after iteration i, which finds its hour free for both. */
  lemma GiveNext(inst: Instance, s: State, c: nat, p: nat, hs: seq<Hour>, i: nat, st: State)
    requires Fits(inst, s) && Fits(inst, st) && c < inst.nClasses && p < inst.NProfs()
    requires InWeek(inst, hs) && Distinct(hs) && i < |hs| && Ready(inst, s, c, p, hs)
    requires GivenBefore(inst, s, c, p, hs, i, st)
    ensures CanAssign(inst, st, c, hs[i].0, hs[i].1, p)
    ensures GivenBefore(inst, s, c, p, hs, i + 1, Assigned(inst, st, c, hs[i].0, hs[i].1, p))
  {
    assert hs[i] !in hs[..i];
    assert hs[..i + 1] == hs[..i] + [hs[i]];
    AssignedCells(inst, st, c, hs[i].0, hs[i].1, p);
  }

  /** The loads after iteration i. */
  lemma AddNext(inst: Instance, s: State, c: nat, p: nat, i: nat, st: State, d: nat, h: nat)
    requires Fits(inst, s) && Fits(inst, st) && c < inst.nClasses && p < inst.NProfs()
    requires d < inst.nDays && h < inst.nHoursXDay && CanAssign(inst, st, c, d, h, p)
    requires s.weeklySubjectHours[c][inst.profSubject[p]] >= 0 && AddedBefore(inst, s, c, p, i, st)
    ensures AddedBefore(inst, s, c, p, i + 1, Assigned(inst, st, c, d, h, p))
  {
    var r := Assigned(inst, st, c, d, h, p);
    assert r.profWeeklyHours == s.profWeeklyHours[p := s.profWeeklyHours[p] + (i + 1)];
    var sj := inst.profSubject[p];
    var row := s.weeklySubjectHours[c][sj := s.weeklySubjectHours[c][sj] + (i + 1)];
    assert st.weeklySubjectHours[c][sj := st.weeklySubjectHours[c][sj] + 1] == row;
    assert r.weeklySubjectHours == s.weeklySubjectHours[c := row];
  }

  // ---------------------------------------------------------------- between the phases

  /** The week's recorded hours of class c with professor p. */
  function WeekHours(inst: Instance, st0: State, c: nat, p: nat): seq<Hour>
    requires Fits(inst, st0) && c < inst.nClasses
  {
    HoursBefore(st0.scheduleClass[c], p, inst.nDays, 0)
  }

  /** A professor hour after the collection pass: free when the class it named
      lost that hour, as it was otherwise. */
  lemma CollectedProfHour(inst: Instance, st0: State, w: Pair, st: State, q: nat, d: nat, h: nat)
    requires Fits(inst, st0) && Mirror(inst, st0) && Fits(inst, st) && Mirror(inst, st) && PairOk(inst, w)
    requires q < inst.NProfs() && d < inst.nDays && h < inst.nHoursXDay
    requires FreedBefore(inst, st0.scheduleClass, w, st.scheduleClass, inst.nDays, 0, false)
    ensures var x := st0.scheduleProf[q][d][h];
            st.scheduleProf[q][d][h] == if x != -1 && Taken(st0.scheduleClass, w, x, d, h) then -1 else x
  {
    var x := st0.scheduleProf[q][d][h];
    var y := st.scheduleProf[q][d][h];
    assert Before((d, h), inst.nDays, 0);
    if x != -1 {
      assert st0.scheduleClass[x][d][h] == q;
    }
    if y != -1 {
      assert st.scheduleClass[y][d][h] == q;
      assert st0.scheduleClass[y][d][h] == q;
    }
  }

  /** One hour of c1 with p1: after the collection pass it is free for p2,
      unless p2 was busy at that time with a third class. */
  lemma HourReadyForSecond(inst: Instance, st0: State, w: Pair, st: State, d: nat, h: nat)
    requires Fits(inst, st0) && Mirror(inst, st0) && Fits(inst, st) && Mirror(inst, st) && PairOk(inst, w)
    requires d < inst.nDays && h < inst.nHoursXDay && st0.scheduleClass[w.c1][d][h] == w.p1
    requires FreedBefore(inst, st0.scheduleClass, w, st.scheduleClass, inst.nDays, 0, false)
    requires !Conflict(inst, st0, w.p2, w.c2, w.p1, w.c1, d, h)
    ensures CanAssign(inst, st, w.c1, d, h, w.p2)
  {
    assert Before((d, h), inst.nDays, 0);
    assert st0.scheduleProf[w.p1][d][h] == w.c1;
    CollectedProfHour(inst, st0, w, st, w.p2, d, h);
  }

  /** One hour of c2 with p2: after the collection pass and the first
      assignment loop it is free for p1, unless p1 was busy with a third class. */
  lemma HourReadyForFirst(inst: Instance, st0: State, w: Pair, s1: State, s2: State, d: nat, h: nat)
    requires Fits(inst, st0) && Mirror(inst, st0) && Fits(inst, s1) && Mirror(inst, s1) && Fits(inst, s2)
    requires PairOk(inst, w) && InWeek(inst, WeekHours(inst, st0, w.c1, w.p1))
    requires d < inst.nDays && h < inst.nHoursXDay && st0.scheduleClass[w.c2][d][h] == w.p2
    requires FreedBefore(inst, st0.scheduleClass, w, s1.scheduleClass, inst.nDays, 0, false)
    requires GivenBefore(inst, s1, w.c1, w.p2, WeekHours(inst, st0, w.c1, w.p1), |WeekHours(inst, st0, w.c1, w.p1)|, s2)
    requires !Conflict(inst, st0, w.p1, w.c1, w.p2, w.c2, d, h)
    ensures CanAssign(inst, s2, w.c2, d, h, w.p1)
  {
    assert Before((d, h), inst.nDays, 0);
    assert st0.scheduleProf[w.p2][d][h] == w.c2;
    CollectedProfHour(inst, st0, w, s1, w.p1, d, h);
  }

  /** After the collection pass, p2 can take every hour recorded for c1. */
  lemma PhaseTwoReady(inst: Instance, st0: State, w: Pair, st: State)
    requires Fits(inst, st0) && Mirror(inst, st0) && Fits(inst, st) && Mirror(inst, st)
    requires PairOk(inst, w) && NoConflicts(inst, st0, w)
    requires FreedBefore(inst, st0.scheduleClass, w, st.scheduleClass, inst.nDays, 0, false)
    ensures InWeek(inst, WeekHours(inst, st0, w.c1, w.p1)) && Distinct(WeekHours(inst, st0, w.c1, w.p1))
    ensures Ready(inst, st, w.c1, w.p2, WeekHours(inst, st0, w.c1, w.p1))
  {
    var hs := WeekHours(inst, st0, w.c1, w.p1);
    HoursOfWeek(inst, st0.scheduleClass[w.c1], w.p1);
    forall k | 0 <= k < |hs|
      ensures CanAssign(inst, st, w.c1, hs[k].0, hs[k].1, w.p2)
    {
      assert hs[k] in hs;
      HourReadyForSecond(inst, st0, w, st, hs[k].0, hs[k].1);
    }
  }

  /** After the collection pass and the first assignment loop, p1 can take
      every hour recorded for c2. */
  lemma PhaseThreeReady(inst: Instance, st0: State, w: Pair, s1: State, s2: State)
    requires Fits(inst, st0) && Mirror(inst, st0) && Fits(inst, s1) && Mirror(inst, s1) && Fits(inst, s2)
    requires PairOk(inst, w) && NoConflicts(inst, st0, w) && InWeek(inst, WeekHours(inst, st0, w.c1, w.p1))
    requires FreedBefore(inst, st0.scheduleClass, w, s1.scheduleClass, inst.nDays, 0, false)
    requires GivenBefore(inst, s1, w.c1, w.p2, WeekHours(inst, st0, w.c1, w.p1), |WeekHours(inst, st0, w.c1, w.p1)|, s2)
    ensures InWeek(inst, WeekHours(inst, st0, w.c2, w.p2)) && Distinct(WeekHours(inst, st0, w.c2, w.p2))
    ensures Ready(inst, s2, w.c2, w.p1, WeekHours(inst, st0, w.c2, w.p2))
  {
    var hs := WeekHours(inst, st0, w.c2, w.p2);
    HoursOfWeek(inst, st0.scheduleClass[w.c2], w.p2);
    forall k | 0 <= k < |hs|
      ensures CanAssign(inst, s2, w.c2, hs[k].0, hs[k].1, w.p1)
    {
      assert hs[k] in hs;
      HourReadyForFirst(inst, st0, w, s1, s2, hs[k].0, hs[k].1);
    }
  }

  // ---------------------------------------------------------------- the whole move

  /** What a feasible SwapProf move does: c1's hours with p1 go to p2 and
      c2's hours with p2 go to p1, and no other hour changes; each professor's
      weekly load trades the hours it gave up for those it took over; a class
      changes professor for the subject exactly when all its hours of the
      subject moved, and nothing else in the class-professor table moves. */
  ghost predicate SwapOutcome(inst: Instance, st0: State, w: Pair, st: State)
    requires Fits(inst, st0) && Fits(inst, st) && PairOk(inst, w)
  {
    var n1 := CountDays(inst.profSubject, Holds(w.p1), st0.scheduleClass[w.c1]);
    var n2 := CountDays(inst.profSubject, Holds(w.p2), st0.scheduleClass[w.c2]);
    && (forall c, d, h | 0 <= c < inst.nClasses && 0 <= d < inst.nDays && 0 <= h < inst.nHoursXDay ::
          st.scheduleClass[c][d][h] == SwappedCell(st0.scheduleClass, w, c, d, h))
    && st.profWeeklyHours == st0.profWeeklyHours[w.p1 := st0.profWeeklyHours[w.p1] - n1 + n2]
                                                [w.p2 := st0.profWeeklyHours[w.p2] - n2 + n1]
    && ProfsKept(inst, st0.classProfs, st.classProfs, w.c1, w.s, w.c2, w.s)
    && st.classProfs[w.c1][w.s] == (if st0.weeklySubjectHours[w.c1][w.s] == n1 then w.p2 else w.p1)
    && st.classProfs[w.c2][w.s] == (if st0.weeklySubjectHours[w.c2][w.s] == n2 then w.p1 else w.p2)
  }

  /** The class grid after the three loops. */
  lemma FinalCells(inst: Instance, st0: State, w: Pair, s1: State, s2: State, s3: State)
    requires Fits(inst, st0) && Fits(inst, s1) && Fits(inst, s2) && Fits(inst, s3) && PairOk(inst, w)
    requires InWeek(inst, WeekHours(inst, st0, w.c1, w.p1)) && InWeek(inst, WeekHours(inst, st0, w.c2, w.p2))
    requires FreedBefore(inst, st0.scheduleClass, w, s1.scheduleClass, inst.nDays, 0, false)
    requires GivenBefore(inst, s1, w.c1, w.p2, WeekHours(inst, st0, w.c1, w.p1), |WeekHours(inst, st0, w.c1, w.p1)|, s2)
    requires GivenBefore(inst, s2, w.c2, w.p1, WeekHours(inst, st0, w.c2, w.p2), |WeekHours(inst, st0, w.c2, w.p2)|, s3)
    ensures forall c, d, h | 0 <= c < inst.nClasses && 0 <= d < inst.nDays && 0 <= h < inst.nHoursXDay ::
              s3.scheduleClass[c][d][h] == SwappedCell(st0.scheduleClass, w, c, d, h)
  {
    var hs1 := WeekHours(inst, st0, w.c1, w.p1);
    var hs2 := WeekHours(inst, st0, w.c2, w.p2);
    HoursOfWeek(inst, st0.scheduleClass[w.c1], w.p1);
    HoursOfWeek(inst, st0.scheduleClass[w.c2], w.p2);
    assert hs1[..|hs1|] == hs1 && hs2[..|hs2|] == hs2;
    forall c, d, h | 0 <= c < inst.nClasses && 0 <= d < inst.nDays && 0 <= h < inst.nHoursXDay
      ensures s3.scheduleClass[c][d][h] == SwappedCell(st0.scheduleClass, w, c, d, h)
    {
      assert Before((d, h), inst.nDays, 0);
    }
  }

  /** The loads and the class-professor table after the three loops. */
  lemma FinalLoads(inst: Instance, st0: State, w: Pair, s1: State, s2: State, s3: State)
    requires Fits(inst, st0) && Fits(inst, s1) && Fits(inst, s2) && Fits(inst, s3) && PairOk(inst, w)
    requires ClassProfsMatch(inst, st0) && ClassProfsMatch(inst, s1)
    requires st0.classProfs[w.c1][w.s] == w.p1 && st0.classProfs[w.c2][w.s] == w.p2
    requires LoadsBefore(inst, st0, w, s1, |WeekHours(inst, st0, w.c1, w.p1)|, |WeekHours(inst, st0, w.c2, w.p2)|)
    requires AddedBefore(inst, s1, w.c1, w.p2, |WeekHours(inst, st0, w.c1, w.p1)|, s2)
    requires AddedBefore(inst, s2, w.c2, w.p1, |WeekHours(inst, st0, w.c2, w.p2)|, s3)
    ensures var n1 := CountDays(inst.profSubject, Holds(w.p1), st0.scheduleClass[w.c1]);
            var n2 := CountDays(inst.profSubject, Holds(w.p2), st0.scheduleClass[w.c2]);
            && s3.profWeeklyHours == st0.profWeeklyHours[w.p1 := st0.profWeeklyHours[w.p1] - n1 + n2]
                                                        [w.p2 := st0.profWeeklyHours[w.p2] - n2 + n1]
            && ProfsKept(inst, st0.classProfs, s3.classProfs, w.c1, w.s, w.c2, w.s)
            && s3.classProfs[w.c1][w.s] == (if st0.weeklySubjectHours[w.c1][w.s] == n1 then w.p2 else w.p1)
            && s3.classProfs[w.c2][w.s] == (if st0.weeklySubjectHours[w.c2][w.s] == n2 then w.p1 else w.p2)
  {
    HoursOfWeek(inst, st0.scheduleClass[w.c1], w.p1);
    HoursOfWeek(inst, st0.scheduleClass[w.c2], w.p2);
    var n1 := |WeekHours(inst, st0, w.c1, w.p1)|;
    var n2 := |WeekHours(inst, st0, w.c2, w.p2)|;
    var q := st0.profWeeklyHours;
    assert s3.profWeeklyHours == q[w.p1 := q[w.p1] - n1 + n2][w.p2 := q[w.p2] - n2 + n1];
  }

  /** The three loops together make the move's outcome. */
  lemma SwapFinal(inst: Instance, st0: State, w: Pair, s1: State, s2: State, s3: State)
    requires Fits(inst, st0) && Fits(inst, s1) && Fits(inst, s2) && Fits(inst, s3) && PairOk(inst, w)
    requires ClassProfsMatch(inst, st0) && ClassProfsMatch(inst, s1)
    requires st0.classProfs[w.c1][w.s] == w.p1 && st0.classProfs[w.c2][w.s] == w.p2
    requires InWeek(inst, WeekHours(inst, st0, w.c1, w.p1)) && InWeek(inst, WeekHours(inst, st0, w.c2, w.p2))
    requires CollectedBefore(inst, st0, w, s1, WeekHours(inst, st0, w.c1, w.p1), WeekHours(inst, st0, w.c2, w.p2),
                             inst.nDays, 0, false)
    requires AssignedBefore(inst, s1, w.c1, w.p2, WeekHours(inst, st0, w.c1, w.p1), |WeekHours(inst, st0, w.c1, w.p1)|, s2)
    requires AssignedBefore(inst, s2, w.c2, w.p1, WeekHours(inst, st0, w.c2, w.p2), |WeekHours(inst, st0, w.c2, w.p2)|, s3)
    ensures SwapOutcome(inst, st0, w, s3)
  {
    FinalCells(inst, st0, w, s1, s2, s3);
    FinalLoads(inst, st0, w, s1, s2, s3);
  }

  /** Every class hour keeps its subject, and stays busy or free, through the
      move, since both professors teach the subject. */
  lemma SwapCellsMatch(inst: Instance, st0: State, w: Pair, st: State, t: CellTest)
    requires Fits(inst, st0) && Fits(inst, st) && PairOk(inst, w) && (t == Busy || t.Teaches?)
    requires forall c, d, h | 0 <= c < inst.nClasses && 0 <= d < inst.nDays && 0 <= h < inst.nHoursXDay ::
               st.scheduleClass[c][d][h] == SwappedCell(st0.scheduleClass, w, c, d, h)
    ensures forall c, d, h | 0 <= c < inst.nClasses && 0 <= d < inst.nDays && 0 <= h < inst.nHoursXDay ::
              Matches(inst.profSubject, t, st.scheduleClass[c][d][h]) == Matches(inst.profSubject, t, st0.scheduleClass[c][d][h])
  {
  }

  /** The move leaves every class's weekly hours of every subject as they were. */
  lemma SwapKeepsWeeklyHours(inst: Instance, st0: State, w: Pair, st: State)
    requires Fits(inst, st0) && Fits(inst, st) && CountersMatch(inst, st0) && CountersMatch(inst, st)
    requires PairOk(inst, w) && SwapOutcome(inst, st0, w, st)
    ensures forall c, sj | 0 <= c < inst.nClasses && 0 <= sj < inst.NSubjects() ::
              st.weeklySubjectHours[c][sj] == st0.weeklySubjectHours[c][sj]
  {
    forall c, sj | 0 <= c < inst.nClasses && 0 <= sj < inst.NSubjects()
      ensures st.weeklySubjectHours[c][sj] == st0.weeklySubjectHours[c][sj]
    {
      SwapCellsMatch(inst, st0, w, st, Teaches(sj));
      CountDaysPointwise(inst.profSubject, Teaches(sj), st.scheduleClass[c], Teaches(sj), st0.scheduleClass[c]);
    }
  }

  /** The move leaves every class's daily hours of every subject as they were. */
  lemma SwapKeepsDailyHours(inst: Instance, st0: State, w: Pair, st: State)
    requires Fits(inst, st0) && Fits(inst, st) && CountersMatch(inst, st0) && CountersMatch(inst, st)
    requires PairOk(inst, w) && SwapOutcome(inst, st0, w, st)
    ensures forall c, d, sj | 0 <= c < inst.nClasses && 0 <= d < inst.nDays && 0 <= sj < inst.NSubjects() ::
              st.dailySubjectHours[c][d][sj] == st0.dailySubjectHours[c][d][sj]
  {
    forall c, d, sj | 0 <= c < inst.nClasses && 0 <= d < inst.nDays && 0 <= sj < inst.NSubjects()
      ensures st.dailySubjectHours[c][d][sj] == st0.dailySubjectHours[c][d][sj]
    {
      SwapCellsMatch(inst, st0, w, st, Teaches(sj));
      CountUpToPointwise(inst.profSubject, Teaches(sj), st.scheduleClass[c][d], Teaches(sj), st0.scheduleClass[c][d],
                         inst.nHoursXDay);
    }
  }

  /** The move leaves the number of occupied class hours as it was. */
  lemma SwapKeepsOccupied(inst: Instance, st0: State, w: Pair, st: State)
    requires Fits(inst, st0) && Fits(inst, st) && PairOk(inst, w) && SwapOutcome(inst, st0, w, st)
    ensures Occupied(inst, st) == Occupied(inst, st0)
  {
    SwapCellsMatch(inst, st0, w, st, Busy);
    CountGridUpToPointwise(inst.profSubject, Busy, st.scheduleClass, Busy, st0.scheduleClass, inst.nClasses);
  }

  /** Under I2, a class's hours of a subject are exactly its hours with the
      subject's recorded professor. */
  lemma HoursOfRecordedProf(inst: Instance, st: State, c: nat, p: nat)
    requires Fits(inst, st) && CountersMatch(inst, st) && OneProfPerSubject(inst, st)
    requires c < inst.nClasses && p < inst.NProfs() && st.classProfs[c][inst.profSubject[p]] == p
    ensures st.weeklySubjectHours[c][inst.profSubject[p]] == CountDays(inst.profSubject, Holds(p), st.scheduleClass[c])
  {
    var ps := inst.profSubject;
    forall d, h | 0 <= d < inst.nDays && 0 <= h < inst.nHoursXDay
      ensures Matches(ps, Teaches(ps[p]), st.scheduleClass[c][d][h]) == Matches(ps, Holds(p), st.scheduleClass[c][d][h])
    {
    }
    CountDaysPointwise(ps, Teaches(ps[p]), st.scheduleClass[c], Holds(p), st.scheduleClass[c]);
  }

  /** Under I2 the move swaps the two classes' professors for the subject,
      changes no other entry of the class-professor table, and keeps I2. */
  lemma SwapKeepsOneProf(inst: Instance, st0: State, w: Pair, st: State)
    requires Fits(inst, st0) && Fits(inst, st) && CountersMatch(inst, st0) && OneProfPerSubject(inst, st0)
    requires PairOk(inst, w) && st0.classProfs[w.c1][w.s] == w.p1 && st0.classProfs[w.c2][w.s] == w.p2
    requires SwapOutcome(inst, st0, w, st)
    ensures st.classProfs == st0.classProfs[w.c1 := st0.classProfs[w.c1][w.s := w.p2]]
                                           [w.c2 := st0.classProfs[w.c2][w.s := w.p1]]
    ensures OneProfPerSubject(inst, st)
  {
    HoursOfRecordedProf(inst, st0, w.c1, w.p1);
    HoursOfRecordedProf(inst, st0, w.c2, w.p2);
    var t := st0.classProfs[w.c1 := st0.classProfs[w.c1][w.s := w.p2]][w.c2 := st0.classProfs[w.c2][w.s := w.p1]];
    forall c | 0 <= c < inst.nClasses
      ensures st.classProfs[c] == t[c]
    {
      assert forall sj | 0 <= sj < inst.NSubjects() :: st.classProfs[c][sj] == t[c][sj];
    }
  }
}
