/** The SwapProf neighbourhood (Sched_SwapProf_NHE.cc): two classes exchange
    their professors for one subject, with all the hours those professors teach
    them. Moves are enumerated in the lexicographic order of (subject, class1,
    class2), keeping class1 strictly below class2. */
module SwapProfNeighborhood {
  import opened Input
  import opened Counting
  import opened ScheduleState
  import opened Output
  import opened Neighborhood
  import opened SwapProfEffect

  /** Sched_SwapProf: the subject and the two classes whose professors for it are exchanged. */
  datatype SwapProfMove = SwapProfMove(subject: nat, class1: nat, class2: nat)

  /** operator==: all three fields agree. */
  predicate Same(a: SwapProfMove, b: SwapProfMove) {
    a.class1 == b.class1 && a.class2 == b.class2 && a.subject == b.subject
  }

  /** operator<: lexicographic on subject, class1, class2. */
  predicate Less(a: SwapProfMove, b: SwapProfMove) {
    if a.subject != b.subject then a.subject < b.subject
    else if a.class1 != b.class1 then a.class1 < b.class1
    else a.class2 < b.class2
  }

  /** The comparison operators form a strict total order whose equality is equality of moves. */
  lemma LessIsStrictTotalOrder(a: SwapProfMove, b: SwapProfMove, c: SwapProfMove)
    ensures Same(a, b) <==> a == b
    ensures !Less(a, a)
    ensures Less(a, b) && Less(b, c) ==> Less(a, c)
    ensures Less(a, b) || Less(b, a) || a == b
    ensures Less(a, b) ==> !Less(b, a)
  {
  }

  predicate InRange(inst: Instance, mv: SwapProfMove) {
    mv.subject < inst.NSubjects() && mv.class1 < inst.nClasses && mv.class2 < inst.nClasses
  }

  // ---------------------------------------------------------------- feasibility

  /** The first three tests of FeasibleMove: two different classes, each with a
      professor for the subject, and not the same professor. */
  ghost predicate Swappable(inst: Instance, st: State, mv: SwapProfMove)
    requires Valid(inst, st) && InRange(inst, mv)
  {
    var p1 := st.classProfs[mv.class1][mv.subject];
    var p2 := st.classProfs[mv.class2][mv.subject];
    mv.class1 != mv.class2 && p1 != -1 && p2 != -1 && p1 != p2
  }

  /** The subject, classes and professors a swappable move exchanges. */
  function MovePair(inst: Instance, st: State, mv: SwapProfMove): (w: Pair)
    requires Valid(inst, st) && InRange(inst, mv) && Swappable(inst, st, mv)
    ensures PairOk(inst, w)
    ensures w.s == mv.subject && w.c1 == mv.class1 && w.c2 == mv.class2
    ensures w.p1 == st.classProfs[mv.class1][mv.subject] && w.p2 == st.classProfs[mv.class2][mv.subject]
  {
    var p1 := st.classProfs[mv.class1][mv.subject];
    var p2 := st.classProfs[mv.class2][mv.subject];
    Pair(mv.subject, mv.class1, p1, mv.class2, p2)
  }

  /** What FeasibleMove answers: the move is swappable and, at no hour of the
      week, one professor teaches their class while the other is busy with a
      third class. */
  ghost predicate Feasible(inst: Instance, st: State, mv: SwapProfMove)
    requires Valid(inst, st) && InRange(inst, mv)
  {
    Swappable(inst, st, mv) && NoConflicts(inst, st, MovePair(inst, st, mv))
  }

  /** No conflict at any hour the scan has passed. */
  ghost predicate NoConflictBefore(inst: Instance, st: State, w: Pair, d: nat, h: nat)
    requires Fits(inst, st) && PairOk(inst, w)
  {
    forall d', h' | 0 <= d' < inst.nDays && 0 <= h' < inst.nHoursXDay && Before((d', h'), d, h) ::
      !Conflict(inst, st, w.p1, w.c1, w.p2, w.c2, d', h') && !Conflict(inst, st, w.p2, w.c2, w.p1, w.c1, d', h')
  }

  /** The scan passes an hour without conflict. */
  lemma ScanStep(inst: Instance, st: State, w: Pair, d: nat, h: nat)
    requires Fits(inst, st) && PairOk(inst, w) && d < inst.nDays && h < inst.nHoursXDay
    requires NoConflictBefore(inst, st, w, d, h)
    requires !Conflict(inst, st, w.p1, w.c1, w.p2, w.c2, d, h) && !Conflict(inst, st, w.p2, w.c2, w.p1, w.c1, d, h)
    ensures NoConflictBefore(inst, st, w, d, h + 1)
  {
  }

  /** The end of a day is the start of the next. */
  lemma ScanNextDay(inst: Instance, st: State, w: Pair, d: nat)
    requires Fits(inst, st) && PairOk(inst, w)
    requires NoConflictBefore(inst, st, w, d, inst.nHoursXDay)
    ensures NoConflictBefore(inst, st, w, d + 1, 0)
  {
    assert forall d', h' | 0 <= d' < inst.nDays && 0 <= h' < inst.nHoursXDay ::
      Before((d', h'), d, inst.nHoursXDay) == Before((d', h'), d + 1, 0);
  }

  /** A scan of the whole week without conflict. */
  lemma ScanDone(inst: Instance, st: State, w: Pair)
    requires Fits(inst, st) && PairOk(inst, w)
    requires NoConflictBefore(inst, st, w, inst.nDays, 0)
    ensures NoConflicts(inst, st, w)
  {
    assert forall d', h' | 0 <= d' < inst.nDays && 0 <= h' < inst.nHoursXDay :: Before((d', h'), inst.nDays, 0);
  }

  /** FeasibleMove: the three quick tests, then a day-major scan of the week
      that stops at the first conflicting hour. */
  method FeasibleMove(out: Schedule, mv: SwapProfMove) returns (ok: bool)
    requires out.Valid() && InRange(out.inst, mv)
    ensures ok == Feasible(out.inst, out.Model(), mv)
  {
    if mv.class1 == mv.class2 {
      return false;
    }
    var p1 := out.SubjectProf(mv.class1, mv.subject);
    var p2 := out.SubjectProf(mv.class2, mv.subject);
    if p1 == -1 || p2 == -1 {
      return false;
    }
    if p1 == p2 {
      return false;
    }
    ghost var st := out.Model();
    ghost var w := MovePair(out.inst, st, mv);
    for d := 0 to out.inst.nDays
      invariant NoConflictBefore(out.inst, st, w, d, 0)
    {
      for h := 0 to out.inst.nHoursXDay
        invariant NoConflictBefore(out.inst, st, w, d, h)
      {
        if out.ProfSchedule(p2, d, h) == mv.class2 &&
           !(out.ProfSchedule(p1, d, h) == mv.class1 || out.IsProfHourFree(p1, d, h)) {
          assert Conflict(out.inst, st, w.p1, w.c1, w.p2, w.c2, d, h);
          return false;
        }
        if out.ProfSchedule(p1, d, h) == mv.class1 &&
           !(out.ProfSchedule(p2, d, h) == mv.class2 || out.IsProfHourFree(p2, d, h)) {
          assert Conflict(out.inst, st, w.p2, w.c2, w.p1, w.c1, d, h);
          return false;
        }
        ScanStep(out.inst, st, w, d, h);
      }
      ScanNextDay(out.inst, st, w, d);
    }
    ScanDone(out.inst, st, w);
    return true;
  }

  // ---------------------------------------------------------------- the move

  /** What a feasible SwapProf move does: the swap of the two classes' hours,
      with the subject counts and the number of occupied hours kept, and under
      I2 the two classes' recorded professors exchanged with I2 kept. */
  ghost predicate Moved(inst: Instance, st0: State, mv: SwapProfMove, st: State)
    requires Valid(inst, st0) && InRange(inst, mv) && Swappable(inst, st0, mv) && Fits(inst, st)
  {
    && SwapOutcome(inst, st0, MovePair(inst, st0, mv), st)
    && (forall c, sj | 0 <= c < inst.nClasses && 0 <= sj < inst.NSubjects() ::
          st.weeklySubjectHours[c][sj] == st0.weeklySubjectHours[c][sj])
    && Occupied(inst, st) == Occupied(inst, st0)
    && (OneProfPerSubject(inst, st0) ==>
          && OneProfPerSubject(inst, st)
          && st.classProfs == st0.classProfs[mv.class1 := st0.classProfs[mv.class1][mv.subject := st0.classProfs[mv.class2][mv.subject]]]
                                            [mv.class2 := st0.classProfs[mv.class2][mv.subject := st0.classProfs[mv.class1][mv.subject]]])
  }

  /** The phases of a feasible move, from the states between them, make it Moved. */
  lemma MoveEffect(inst: Instance, st0: State, mv: SwapProfMove, s1: State, s2: State, s3: State)
    requires Valid(inst, st0) && InRange(inst, mv) && Feasible(inst, st0, mv)
    requires Valid(inst, s1) && Valid(inst, s2) && Valid(inst, s3)
    requires InWeek(inst, WeekHours(inst, st0, mv.class1, MovePair(inst, st0, mv).p1))
    requires InWeek(inst, WeekHours(inst, st0, mv.class2, MovePair(inst, st0, mv).p2))
    requires CollectedBefore(inst, st0, MovePair(inst, st0, mv), s1,
                             WeekHours(inst, st0, mv.class1, MovePair(inst, st0, mv).p1),
                             WeekHours(inst, st0, mv.class2, MovePair(inst, st0, mv).p2), inst.nDays, 0, false)
    requires AssignedBefore(inst, s1, mv.class1, MovePair(inst, st0, mv).p2,
                            WeekHours(inst, st0, mv.class1, MovePair(inst, st0, mv).p1),
                            |WeekHours(inst, st0, mv.class1, MovePair(inst, st0, mv).p1)|, s2)
    requires AssignedBefore(inst, s2, mv.class2, MovePair(inst, st0, mv).p1,
                            WeekHours(inst, st0, mv.class2, MovePair(inst, st0, mv).p2),
                            |WeekHours(inst, st0, mv.class2, MovePair(inst, st0, mv).p2)|, s3)
    ensures Moved(inst, st0, mv, s3)
  {
    var w := MovePair(inst, st0, mv);
    SwapFinal(inst, st0, w, s1, s2, s3);
    SwapKeepsWeeklyHours(inst, st0, w, s3);
    SwapKeepsOccupied(inst, st0, w, s3);
    if OneProfPerSubject(inst, st0) {
      SwapKeepsOneProf(inst, st0, w, s3);
    }
  }

  /** MakeMove applied to a feasible move: the collection pass, then the two
      assignment loops, each AssignHour of which succeeds. */
  method MakeMove(out: Schedule, mv: SwapProfMove)
    requires out.Valid() && InRange(out.inst, mv) && Feasible(out.inst, out.Model(), mv)
    modifies out
    ensures out.Valid()
    ensures Moved(out.inst, old(out.Model()), mv, out.Model())
  {
    var p1 := out.SubjectProf(mv.class1, mv.subject);
    var p2 := out.SubjectProf(mv.class2, mv.subject);
    var hours1, hours2 := Collect(out, mv);
    Reassign(out, old(out.Model()), mv, p1 as nat, p2 as nat, hours1, hours2);
  }

  /** The two assignment loops of MakeMove, after the collection pass. */
  method Reassign(out: Schedule, ghost st0: State, mv: SwapProfMove, p1: nat, p2: nat, hours1: seq<Hour>, hours2: seq<Hour>)
    requires Valid(out.inst, st0) && InRange(out.inst, mv) && Feasible(out.inst, st0, mv) && out.Valid()
    requires p1 == MovePair(out.inst, st0, mv).p1 && p2 == MovePair(out.inst, st0, mv).p2
    requires hours1 == WeekHours(out.inst, st0, mv.class1, MovePair(out.inst, st0, mv).p1)
    requires hours2 == WeekHours(out.inst, st0, mv.class2, MovePair(out.inst, st0, mv).p2)
    requires CollectedBefore(out.inst, st0, MovePair(out.inst, st0, mv), out.Model(), hours1, hours2, out.inst.nDays, 0, false)
    modifies out
    ensures out.Valid()
    ensures Moved(out.inst, st0, mv, out.Model())
  {
    ghost var w := MovePair(out.inst, st0, mv);
    ghost var s1 := out.Model();
    PhaseTwoReady(out.inst, st0, w, s1);
    AssignAll(out, mv.class1, p2, hours1);
    ghost var s2 := out.Model();
    PhaseThreeReady(out.inst, st0, w, s1, s2);
    AssignAll(out, mv.class2, p1, hours2);
    MoveEffect(out.inst, st0, mv, s1, s2, out.Model());
  }

  /** The collection pass of MakeMove: frees every hour where class1 has its
      professor for the subject and every hour where class2 has its own,
      recording both lists in visiting order. */
  method Collect(out: Schedule, mv: SwapProfMove) returns (hours1: seq<Hour>, hours2: seq<Hour>)
    requires out.Valid() && InRange(out.inst, mv) && Swappable(out.inst, out.Model(), mv)
    modifies out
    ensures out.Valid()
    ensures hours1 == WeekHours(out.inst, old(out.Model()), mv.class1, old(MovePair(out.inst, out.Model(), mv)).p1)
    ensures hours2 == WeekHours(out.inst, old(out.Model()), mv.class2, old(MovePair(out.inst, out.Model(), mv)).p2)
    ensures CollectedBefore(out.inst, old(out.Model()), old(MovePair(out.inst, out.Model(), mv)), out.Model(),
                            hours1, hours2, out.inst.nDays, 0, false)
  {
    ghost var st0 := out.Model();
    ghost var w := MovePair(out.inst, st0, mv);
    var p1 := out.SubjectProf(mv.class1, mv.subject);
    var p2 := out.SubjectProf(mv.class2, mv.subject);
    hours1, hours2 := [], [];
    CollectStart(out.inst, st0, w);
    for d := 0 to out.inst.nDays
      invariant out.Valid()
      invariant CollectedBefore(out.inst, st0, w, out.Model(), hours1, hours2, d, 0, false)
    {
      for h := 0 to out.inst.nHoursXDay
        invariant out.Valid()
        invariant CollectedBefore(out.inst, st0, w, out.Model(), hours1, hours2, d, h, false)
      {
        hours1, hours2 := CollectHour(out, st0, w, mv.class1, p1, mv.class2, p2, hours1, hours2, d, h);
      }
      CollectNextDay(out.inst, st0, w, out.Model(), hours1, hours2, d);
    }
  }

  /** One hour of the collection pass: class1's cell, then class2's. */
  method CollectHour(out: Schedule, ghost st0: State, ghost w: Pair, c1: nat, p1: int, c2: nat, p2: int,
                     hours1: seq<Hour>, hours2: seq<Hour>, d: nat, h: nat)
    returns (hours1': seq<Hour>, hours2': seq<Hour>)
    requires out.Valid() && Fits(out.inst, st0) && PairOk(out.inst, w)
    requires c1 == w.c1 && p1 == w.p1 && c2 == w.c2 && p2 == w.p2
    requires d < out.inst.nDays && h < out.inst.nHoursXDay
    requires CollectedBefore(out.inst, st0, w, out.Model(), hours1, hours2, d, h, false)
    modifies out
    ensures out.Valid()
    ensures CollectedBefore(out.inst, st0, w, out.Model(), hours1', hours2', d, h + 1, false)
  {
    ghost var s := out.Model();
    TestFirst(out.inst, st0, w, s, hours1, hours2, d, h);
    hours1', hours2' := hours1, hours2;
    if out.ClassSchedule(c1, d, h) == p1 {
      hours1' := hours1 + [(d, h)];
      var _ := out.FreeHour(c1, d, h);
    }
    assert out.Model() == FreeIfHolds(out.inst, s, w.c1, d, h, p1);
    s := out.Model();
    TestSecond(out.inst, st0, w, s, hours1', hours2, d, h);
    if out.ClassSchedule(c2, d, h) == p2 {
      hours2' := hours2 + [(d, h)];
      var _ := out.FreeHour(c2, d, h);
    }
    assert out.Model() == FreeIfHolds(out.inst, s, w.c2, d, h, p2);
  }

  /** One assignment loop of MakeMove: gives professor p the hours hs of class c,
      every one of which is free for both. */
  method AssignAll(out: Schedule, c: nat, p: nat, hs: seq<Hour>)
    requires out.Valid() && c < out.inst.nClasses && p < out.inst.NProfs()
    requires InWeek(out.inst, hs) && Distinct(hs) && Ready(out.inst, out.Model(), c, p, hs)
    modifies out
    ensures out.Valid()
    ensures AssignedBefore(out.inst, old(out.Model()), c, p, hs, |hs|, out.Model())
  {
    ghost var s0 := out.Model();
    AssignStart(out.inst, s0, c, p, hs);
    ghost var sj := out.inst.profSubject[p];
    assert CountersMatch(out.inst, s0);
    assert s0.weeklySubjectHours[c][sj] == CountDays(out.inst.profSubject, Teaches(sj), s0.scheduleClass[c]);
    for i := 0 to |hs|
      invariant out.Valid()
      invariant AssignedBefore(out.inst, s0, c, p, hs, i, out.Model())
    {
      ghost var s := out.Model();
      GiveNext(out.inst, s0, c, p, hs, i, s);
      AddNext(out.inst, s0, c, p, i, s, hs[i].0, hs[i].1);
      var _ := out.AssignHour(c, hs[i].0, hs[i].1, p);
    }
  }

  // ---------------------------------------------------------------- enumeration

  /** A move the enumeration visits: a subject and two classes, class1 strictly below class2. */
  predicate Candidate(inst: Instance, mv: SwapProfMove) {
    mv.subject < inst.NSubjects() && mv.class1 < mv.class2 < inst.nClasses
  }

  /** The move FirstMove starts from: subject 0, classes 0 and 1. */
  function Start(): SwapProfMove { SwapProfMove(0, 0, 1) }

  /** No candidate comes before the starting move. */
  lemma StartIsLeast(inst: Instance, m: SwapProfMove)
    requires Candidate(inst, m)
    ensures !Less(m, Start())
  {
  }

  /** AnyNextMove: the next candidate in the order, or false after the last
      pair (N-2, N-1) of the last subject. The unsigned bounds N_Classes - 2
      and N_Classes - 1 need at least two classes. */
  method AnyNextMove(inst: Instance, mv: SwapProfMove) returns (more: bool, next: SwapProfMove)
    requires inst.nClasses >= 2
    requires Candidate(inst, mv)
    ensures more ==> Candidate(inst, next) && Less(mv, next)
    ensures more ==> forall m :: Candidate(inst, m) && Less(mv, m) ==> !Less(m, next)
    ensures !more ==> forall m :: Candidate(inst, m) ==> !Less(mv, m)
  {
    next := mv;
    if next.class1 >= inst.nClasses - 2 && next.class2 >= inst.nClasses - 1 {
      if next.subject >= inst.NSubjects() - 1 {
        return false, next;
      }
      next := SwapProfMove(next.subject + 1, 0, 1);
      return true, next;
    }
    next := next.(class2 := next.class2 + 1);
    if next.class2 == inst.nClasses {
      next := next.(class1 := next.class1 + 1);
      next := next.(class2 := next.class1 + 1);
    }
    return true, next;
  }

  /** When professors are as many as subjects, some subject exists unless both are zero. */
  lemma SubjectsExist(inst: Instance)
    requires inst.WellFormed() && inst.NProfs() != inst.NSubjects()
    ensures inst.NSubjects() >= 1
  {
    if inst.NProfs() > 0 {
      assert inst.profSubject[0] < inst.NSubjects();
    }
  }

  /** FirstMove: EmptyNeighborhood straight away when there are as many
      professors as subjects; otherwise the least feasible candidate, or
      EmptyNeighborhood when there is none. */
  method FirstMove(out: Schedule) returns (r: Outcome<SwapProfMove>)
    requires out.Valid() && (out.inst.NProfs() != out.inst.NSubjects() ==> out.inst.nClasses >= 2)
    ensures out.inst.NProfs() == out.inst.NSubjects() ==> r.EmptyNeighborhood?
    ensures r.Found? ==> Candidate(out.inst, r.move) && Feasible(out.inst, out.Model(), r.move)
    ensures r.Found? ==> forall m :: Candidate(out.inst, m) && Less(m, r.move) ==> !Feasible(out.inst, out.Model(), m)
    ensures r.EmptyNeighborhood? && out.inst.NProfs() != out.inst.NSubjects() ==>
              forall m :: Candidate(out.inst, m) ==> !Feasible(out.inst, out.Model(), m)
  {
    if out.inst.NProfs() == out.inst.NSubjects() {
      return EmptyNeighborhood;
    }
    SubjectsExist(out.inst);
    var mv := Start();
    var ok := FeasibleMove(out, mv);
    while !ok
      invariant Candidate(out.inst, mv) && ok == Feasible(out.inst, out.Model(), mv)
      invariant forall m :: Candidate(out.inst, m) && Less(m, mv) ==> !Feasible(out.inst, out.Model(), m)
      decreases out.inst.NSubjects() - mv.subject, out.inst.nClasses - mv.class1, out.inst.nClasses - mv.class2
    {
      var more, next := AnyNextMove(out.inst, mv);
      if !more {
        forall m | Candidate(out.inst, m)
          ensures !Feasible(out.inst, out.Model(), m)
        {
          LessIsStrictTotalOrder(m, mv, m);
        }
        return EmptyNeighborhood;
      }
      forall m | Candidate(out.inst, m) && Less(m, next)
        ensures !Feasible(out.inst, out.Model(), m)
      {
        LessIsStrictTotalOrder(m, mv, next);
      }
      mv := next;
      ok := FeasibleMove(out, mv);
    }
    return Found(mv);
  }

  /** NextMove: the least feasible candidate after mv, or false when there is none. */
  method NextMove(out: Schedule, mv: SwapProfMove) returns (more: bool, next: SwapProfMove)
    requires out.Valid() && out.inst.nClasses >= 2 && Candidate(out.inst, mv)
    ensures more ==> Candidate(out.inst, next) && Less(mv, next) && Feasible(out.inst, out.Model(), next)
    ensures more ==> forall m :: Candidate(out.inst, m) && Less(mv, m) && Less(m, next) ==> !Feasible(out.inst, out.Model(), m)
    ensures !more ==> forall m :: Candidate(out.inst, m) && Less(mv, m) ==> !Feasible(out.inst, out.Model(), m)
  {
    next := mv;
    while true
      invariant Candidate(out.inst, next)
      invariant next == mv || (Less(mv, next) && !Feasible(out.inst, out.Model(), next))
      invariant forall m :: Candidate(out.inst, m) && Less(mv, m) && Less(m, next) ==> !Feasible(out.inst, out.Model(), m)
      decreases out.inst.NSubjects() - next.subject, out.inst.nClasses - next.class1, out.inst.nClasses - next.class2
    {
      var any, n := AnyNextMove(out.inst, next);
      if !any {
        forall m | Candidate(out.inst, m) && Less(mv, m)
          ensures !Feasible(out.inst, out.Model(), m)
        {
          LessIsStrictTotalOrder(m, next, m);
          LessIsStrictTotalOrder(mv, m, m);
        }
        return false, next;
      }
      forall m | Candidate(out.inst, m) && Less(mv, m) && Less(m, n)
        ensures !Feasible(out.inst, out.Model(), m)
      {
        LessIsStrictTotalOrder(m, next, n);
        LessIsStrictTotalOrder(mv, m, m);
      }
      LessIsStrictTotalOrder(mv, next, n);
      next := n;
      var ok := FeasibleMove(out, next);
      if ok {
        return true, next;
      }
    }
  }

  // ---------------------------------------------------------------- random moves

  /** The move drawn at attempt i: three uniform draws, in the order subject,
      class1, class2. */
  function Drawn(inst: Instance, rand: nat -> nat, i: nat): (m: SwapProfMove)
    requires inst.NSubjects() >= 1 && inst.nClasses >= 1
    ensures InRange(inst, m)
  {
    SwapProfMove(Uniform(rand, 3 * i, 0, inst.NSubjects() - 1),
                 Uniform(rand, 3 * i + 1, 0, inst.nClasses - 1),
                 Uniform(rand, 3 * i + 2, 0, inst.nClasses - 1))
  }

  /** RandomMove: EmptyNeighborhood straight away when there are as many
      professors as subjects; otherwise the first feasible drawn move, or
      EmptyNeighborhood once the first MaxIterations draws are all infeasible. */
  method RandomMove(out: Schedule, rand: nat -> nat) returns (r: Outcome<SwapProfMove>)
    requires out.Valid() && (out.inst.NProfs() != out.inst.NSubjects() ==> out.inst.nClasses >= 1)
    ensures out.inst.NProfs() == out.inst.NSubjects() ==> r.EmptyNeighborhood?
    ensures r.Found? ==> InRange(out.inst, r.move) && Feasible(out.inst, out.Model(), r.move)
    ensures r.Found? ==> out.inst.NSubjects() >= 1 &&
                         exists i :: 0 <= i < MaxIterations && r.move == Drawn(out.inst, rand, i) &&
                           forall j :: 0 <= j < i ==> !Feasible(out.inst, out.Model(), Drawn(out.inst, rand, j))
    ensures r.EmptyNeighborhood? && out.inst.NProfs() != out.inst.NSubjects() ==>
              out.inst.NSubjects() >= 1 &&
              forall i :: 0 <= i < MaxIterations ==> !Feasible(out.inst, out.Model(), Drawn(out.inst, rand, i))
  {
    if out.inst.NProfs() == out.inst.NSubjects() {
      return EmptyNeighborhood;
    }
    SubjectsExist(out.inst);
    var iterations := 0;
    while true
      invariant 0 <= iterations <= MaxIterations
      invariant forall j :: 0 <= j < iterations ==> !Feasible(out.inst, out.Model(), Drawn(out.inst, rand, j))
      decreases MaxIterations - iterations
    {
      var mv := Drawn(out.inst, rand, iterations);
      iterations := iterations + 1;
      if iterations > MaxIterations {
        return EmptyNeighborhood;
      }
      var ok := FeasibleMove(out, mv);
      if ok {
        return Found(mv);
      }
    }
  }

  // ---------------------------------------------------------------- one professor per subject

  /** The numbers below n. */
  function Below(n: nat): (ks: set<nat>)
    ensures forall k: nat :: k in ks <==> k < n
    ensures |ks| == n
  {
    if n == 0 then {} else
      var r := Below(n - 1);
      assert n - 1 !in r;
      r + {n - 1}
  }

  /** A set of indices has no more images under ps than members. */
  lemma {:induction false} ImageSize(ps: seq<nat>, ks: set<nat>)
    requires forall k :: k in ks ==> k < |ps|
    ensures |set k | k in ks :: ps[k]| <= |ks|
    decreases ks
  {
    if ks != {} {
      var k :| k in ks;
      ImageSize(ps, ks - {k});
      assert (set j | j in ks :: ps[j]) == (set j | j in ks - {k} :: ps[j]) + {ps[k]};
    }
  }

  /** A subset is no larger than its superset. */
  lemma {:induction false} SubsetSize(a: set<nat>, b: set<nat>)
    requires a <= b
    ensures |a| <= |b|
  {
    assert b == a + (b - a);
  }

  /** Pigeonhole: a map from the indices of ps into them that ps undoes
      (pick) makes ps one to one. */
  lemma Pigeonhole(ps: seq<nat>, pick: seq<nat>, a: nat, b: nat)
    requires |pick| == |ps| && forall s :: 0 <= s < |pick| ==> pick[s] < |ps| && ps[pick[s]] == s
    requires a < |ps| && b < |ps| && ps[a] == ps[b]
    ensures a == b
  {
    if a != b {
      var n := |ps|;
      var ks := Below(n) - {b};
      assert |ks| == n - 1;
      ImageSize(ps, ks);
      var image := set k | k in ks :: ps[k];
      forall s | s in Below(n)
        ensures s in image
      {
        var q := pick[s];
        if q == b {
          assert a in ks && ps[a] == s;
        } else {
          assert q in ks;
        }
      }
      SubsetSize(Below(n), image);
      assert false;
    }
  }

  /** The case FirstMove and RandomMove rule out at once: as many professors as
      subjects and a professor for every subject leave every subject exactly
      one professor, so no move is swappable. */
  lemma OneProfEachNoSwap(inst: Instance, st: State, mv: SwapProfMove)
    requires Valid(inst, st) && InRange(inst, mv)
    requires inst.NProfs() == inst.NSubjects()
    requires forall s :: 0 <= s < inst.NSubjects() ==> |inst.profsXSubject[s]| > 0
    ensures !Swappable(inst, st, mv)
  {
    if Swappable(inst, st, mv) {
      var w := MovePair(inst, st, mv);
      var ps := inst.profSubject;
      var pick := seq(|ps|, s requires 0 <= s < |ps| => inst.profsXSubject[s][0]);
      Pigeonhole(ps, pick, w.p1, w.p2);
    }
  }
}
