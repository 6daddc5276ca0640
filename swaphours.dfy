/** The SwapHours neighbourhood (Sched_SwapHours_NHE.cc): exchange the contents
    of two hours of one class. Moves are enumerated in the lexicographic order of
    (class, day1, hour1, day2, hour2), keeping the first hour strictly before the
    second; a move is feasible when SwapHours would succeed on it. */
module SwapHoursNeighborhood {
  import opened Input
  import opened ScheduleState
  import opened Output
  import opened Neighborhood

  /** Sched_SwapHours: the class and the two (day, hour) slots to exchange. */
  datatype SwapHoursMove = SwapHoursMove(cls: nat, day1: nat, hour1: nat, day2: nat, hour2: nat)

  /** operator==: all five fields agree. */
  predicate Same(a: SwapHoursMove, b: SwapHoursMove) {
    a.cls == b.cls && a.day2 == b.day2 && a.hour2 == b.hour2 && a.day1 == b.day1 && a.hour1 == b.hour1
  }

  /** operator<: lexicographic on class, day1, hour1, day2, hour2. */
  predicate Less(a: SwapHoursMove, b: SwapHoursMove) {
    if a.cls != b.cls then a.cls < b.cls
    else if a.day1 != b.day1 then a.day1 < b.day1
    else if a.hour1 != b.hour1 then a.hour1 < b.hour1
    else if a.day2 != b.day2 then a.day2 < b.day2
    else a.hour2 < b.hour2
  }

  /** The comparison operators form a strict total order whose equality is equality of moves. */
  lemma LessIsStrictTotalOrder(a: SwapHoursMove, b: SwapHoursMove, c: SwapHoursMove)
    ensures Same(a, b) <==> a == b
    ensures !Less(a, a)
    ensures Less(a, b) && Less(b, c) ==> Less(a, c)
    ensures Less(a, b) || Less(b, a) || a == b
    ensures Less(a, b) ==> !Less(b, a)
  {
  }

  predicate InRange(inst: Instance, m: SwapHoursMove) {
    m.cls < inst.nClasses && m.day1 < inst.nDays && m.hour1 < inst.nHoursXDay &&
    m.day2 < inst.nDays && m.hour2 < inst.nHoursXDay
  }

  /** A move the enumeration visits: in range, first slot strictly before the second. */
  predicate Candidate(inst: Instance, m: SwapHoursMove) {
    InRange(inst, m) && (m.day1 < m.day2 || (m.day1 == m.day2 && m.hour1 < m.hour2))
  }

  /** FeasibleMove: the two slots hold different values (not both free, not the
      same professor); with a single class that is enough, otherwise each
      professor present must be free at the other slot's time. */
  function FeasibleMove(out: Schedule, mv: SwapHoursMove): bool
    reads out
    requires out.Valid() && InRange(out.inst, mv)
  {
    var p1 := out.ClassSchedule(mv.cls, mv.day1, mv.hour1);
    var p2 := out.ClassSchedule(mv.cls, mv.day2, mv.hour2);
    if p1 == p2 then false
    else if out.inst.nClasses == 1 then true
    else if (p1 != -1 && !out.IsProfHourFree(p1, mv.day2, mv.hour2)) ||
            (p2 != -1 && !out.IsProfHourFree(p2, mv.day1, mv.hour1)) then false
    else mv.day1 != mv.day2 || mv.hour1 != mv.hour2
  }

  /** A move is feasible exactly when SwapHours on its two slots succeeds. With a
      single class the professors' check is skipped, and it is not needed: a
      professor busy at the other slot would be teaching that same class there. */
  lemma FeasibleMoveIffSwapSucceeds(out: Schedule, mv: SwapHoursMove)
    requires out.Valid() && InRange(out.inst, mv)
    ensures FeasibleMove(out, mv) <==>
            SwapHoursResult(out.inst, out.Model(), mv.cls, mv.day1, mv.hour1, mv.cls, mv.day2, mv.hour2).0
  {
    var st := out.Model();
    var p1 := st.scheduleClass[mv.cls][mv.day1][mv.hour1];
    var p2 := st.scheduleClass[mv.cls][mv.day2][mv.hour2];
    SwapHoursSucceeds(out.inst, st, mv.cls, mv.day1, mv.hour1, mv.cls, mv.day2, mv.hour2);
    if out.inst.nClasses == 1 && p1 != p2 {
      if p1 != -1 {
        ProfHourMirrored(out.inst, st, p1, mv.day2, mv.hour2);
      }
      if p2 != -1 {
        ProfHourMirrored(out.inst, st, p2, mv.day1, mv.hour1);
      }
    }
  }

  /** MakeMove: SwapHours on the move's two slots of its class. A feasible move
      exchanges the two hours and leaves every other class hour, the number of
      occupied hours and every professor's load as they were. */
  method MakeMove(out: Schedule, mv: SwapHoursMove)
    requires out.Valid() && InRange(out.inst, mv)
    modifies out
    ensures out.Valid()
    ensures out.Model() == SwapHoursResult(out.inst, old(out.Model()), mv.cls, mv.day1, mv.hour1, mv.cls, mv.day2, mv.hour2).1
    ensures old(FeasibleMove(out, mv)) ==>
              && out.scheduleClass[mv.cls][mv.day1][mv.hour1] == old(out.scheduleClass[mv.cls][mv.day2][mv.hour2])
              && out.scheduleClass[mv.cls][mv.day2][mv.hour2] == old(out.scheduleClass[mv.cls][mv.day1][mv.hour1])
              && (forall c, d, h | 0 <= c < out.inst.nClasses && 0 <= d < out.inst.nDays && 0 <= h < out.inst.nHoursXDay &&
                    (c, d, h) != (mv.cls, mv.day1, mv.hour1) && (c, d, h) != (mv.cls, mv.day2, mv.hour2) ::
                    out.scheduleClass[c][d][h] == old(out.scheduleClass[c][d][h]))
    ensures Occupied(out.inst, out.Model()) == Occupied(out.inst, old(out.Model()))
    ensures out.profWeeklyHours == old(out.profWeeklyHours)
    ensures old(OneProfPerSubject(out.inst, out.Model())) ==> OneProfPerSubject(out.inst, out.Model())
  {
    ghost var before := out.Model();
    FeasibleMoveIffSwapSucceeds(out, mv);
    if SwapHoursResult(out.inst, before, mv.cls, mv.day1, mv.hour1, mv.cls, mv.day2, mv.hour2).0 {
      SwapHoursExchanges(out.inst, before, mv.cls, mv.day1, mv.hour1, mv.cls, mv.day2, mv.hour2);
    }
    SwapHoursKeepsLoad(out.inst, before, mv.cls, mv.day1, mv.hour1, mv.cls, mv.day2, mv.hour2);
    if OneProfPerSubject(out.inst, before) {
      SwapHoursKeepsOneProf(out.inst, before, mv.cls, mv.day1, mv.hour1, mv.day2, mv.hour2);
    }
    var _ := out.SwapHours(mv.cls, mv.day1, mv.hour1, mv.cls, mv.day2, mv.hour2);
  }

  // ---------------------------------------------------------------- enumeration

  /** The move FirstMove starts from: class 0, slots (0, 0) and (0, 1). */
  function Start(): SwapHoursMove { SwapHoursMove(0, 0, 0, 0, 1) }

  /** No candidate comes before the starting move. */
  lemma StartIsLeast(inst: Instance, m: SwapHoursMove)
    requires Candidate(inst, m)
    ensures !Less(m, Start())
  {
  }

  /** AnyNextMove: the next candidate in the order, or false after the last pair
      ((D-1, H-2), (D-1, H-1)) of the last class. Days need at least two hours. */
  method AnyNextMove(inst: Instance, mv: SwapHoursMove) returns (more: bool, next: SwapHoursMove)
    requires inst.nHoursXDay >= 2
    requires Candidate(inst, mv)
    ensures more ==> Candidate(inst, next) && Less(mv, next)
    ensures more ==> forall m :: Candidate(inst, m) && Less(mv, m) ==> !Less(m, next)
    ensures !more ==> forall m :: Candidate(inst, m) ==> !Less(mv, m)
  {
    var nD := inst.nDays;
    var nH := inst.nHoursXDay;
    next := mv;
    if next.day1 == nD - 1 && next.hour1 >= nH - 2 && next.day2 == nD - 1 && next.hour2 >= nH - 1 {
      next := next.(cls := next.cls + 1);
      if next.cls >= inst.nClasses {
        return false, next;
      }
      next := next.(day1 := 0, hour1 := 0, day2 := 0, hour2 := 1);
      return true, next;
    }
    next := next.(hour2 := next.hour2 + 1);
    if next.hour2 == nH {
      next := next.(day2 := next.day2 + 1, hour2 := 0);
      if next.day2 == nD {
        next := next.(hour1 := next.hour1 + 1);
        if next.hour1 == nH {
          next := next.(day1 := next.day1 + 1, hour1 := 0);
        }
        if next.hour1 < nH - 1 {
          next := next.(day2 := next.day1, hour2 := next.hour1 + 1);
        } else {
          next := next.(day2 := next.day1 + 1, hour2 := 0);
        }
      }
    }
    return true, next;
  }

  /** FirstMove: the least feasible candidate, or EmptyNeighborhood when there is none. */
  method FirstMove(out: Schedule) returns (r: Outcome<SwapHoursMove>)
    requires out.Valid() && out.inst.nClasses >= 1 && out.inst.nDays >= 1 && out.inst.nHoursXDay >= 2
    ensures r.Found? ==> Candidate(out.inst, r.move) && FeasibleMove(out, r.move)
    ensures r.Found? ==> forall m :: Candidate(out.inst, m) && Less(m, r.move) ==> !FeasibleMove(out, m)
    ensures r.EmptyNeighborhood? ==> forall m :: Candidate(out.inst, m) ==> !FeasibleMove(out, m)
  {
    var mv := Start();
    while !FeasibleMove(out, mv)
      invariant Candidate(out.inst, mv)
      invariant forall m :: Candidate(out.inst, m) && Less(m, mv) ==> !FeasibleMove(out, m)
      decreases out.inst.nClasses - mv.cls, out.inst.nDays - mv.day1, out.inst.nHoursXDay - mv.hour1,
                out.inst.nDays - mv.day2, out.inst.nHoursXDay - mv.hour2
    {
      var more, next := AnyNextMove(out.inst, mv);
      if !more {
        forall m | Candidate(out.inst, m)
          ensures !FeasibleMove(out, m)
        {
          LessIsStrictTotalOrder(m, mv, m);
        }
        return EmptyNeighborhood;
      }
      forall m | Candidate(out.inst, m) && Less(m, next)
        ensures !FeasibleMove(out, m)
      {
        LessIsStrictTotalOrder(m, mv, next);
      }
      mv := next;
    }
    return Found(mv);
  }

  /** NextMove: the least feasible candidate after mv, or false when there is none. */
  method NextMove(out: Schedule, mv: SwapHoursMove) returns (more: bool, next: SwapHoursMove)
    requires out.Valid() && out.inst.nHoursXDay >= 2 && Candidate(out.inst, mv)
    ensures more ==> Candidate(out.inst, next) && Less(mv, next) && FeasibleMove(out, next)
    ensures more ==> forall m :: Candidate(out.inst, m) && Less(mv, m) && Less(m, next) ==> !FeasibleMove(out, m)
    ensures !more ==> forall m :: Candidate(out.inst, m) && Less(mv, m) ==> !FeasibleMove(out, m)
  {
    next := mv;
    while true
      invariant Candidate(out.inst, next)
      invariant next == mv || (Less(mv, next) && !FeasibleMove(out, next))
      invariant forall m :: Candidate(out.inst, m) && Less(mv, m) && Less(m, next) ==> !FeasibleMove(out, m)
      decreases out.inst.nClasses - next.cls, out.inst.nDays - next.day1, out.inst.nHoursXDay - next.hour1,
                out.inst.nDays - next.day2, out.inst.nHoursXDay - next.hour2
    {
      var any, n := AnyNextMove(out.inst, next);
      if !any {
        forall m | Candidate(out.inst, m) && Less(mv, m)
          ensures !FeasibleMove(out, m)
        {
          LessIsStrictTotalOrder(m, next, m);
          LessIsStrictTotalOrder(mv, m, m);
        }
        return false, next;
      }
      forall m | Candidate(out.inst, m) && Less(mv, m) && Less(m, n)
        ensures !FeasibleMove(out, m)
      {
        LessIsStrictTotalOrder(m, next, n);
        LessIsStrictTotalOrder(mv, m, m);
      }
      LessIsStrictTotalOrder(mv, next, n);
      next := n;
      if FeasibleMove(out, next) {
        return true, next;
      }
    }
  }

  // ---------------------------------------------------------------- random moves

  /** The move drawn at attempt i: five uniform draws, in the order class, day1,
      hour1, day2, hour2. */
  function Drawn(inst: Instance, rand: nat -> nat, i: nat): (m: SwapHoursMove)
    requires inst.nClasses >= 1 && inst.nDays >= 1 && inst.nHoursXDay >= 1
    ensures InRange(inst, m)
  {
    SwapHoursMove(Uniform(rand, 5 * i, 0, inst.nClasses - 1),
                  Uniform(rand, 5 * i + 1, 0, inst.nDays - 1),
                  Uniform(rand, 5 * i + 2, 0, inst.nHoursXDay - 1),
                  Uniform(rand, 5 * i + 3, 0, inst.nDays - 1),
                  Uniform(rand, 5 * i + 4, 0, inst.nHoursXDay - 1))
  }

  /** RandomMove: the first feasible drawn move; EmptyNeighborhood once the
      first MaxIterations draws are all infeasible. */
  method RandomMove(out: Schedule, rand: nat -> nat) returns (r: Outcome<SwapHoursMove>)
    requires out.Valid() && out.inst.nClasses >= 1 && out.inst.nDays >= 1 && out.inst.nHoursXDay >= 1
    ensures r.Found? ==> InRange(out.inst, r.move) && FeasibleMove(out, r.move)
    ensures r.Found? ==> exists i :: 0 <= i < MaxIterations && r.move == Drawn(out.inst, rand, i) &&
                                     forall j :: 0 <= j < i ==> !FeasibleMove(out, Drawn(out.inst, rand, j))
    ensures r.EmptyNeighborhood? ==> forall i :: 0 <= i < MaxIterations ==> !FeasibleMove(out, Drawn(out.inst, rand, i))
  {
    var iterations := 0;
    while true
      invariant 0 <= iterations <= MaxIterations
      invariant forall j :: 0 <= j < iterations ==> !FeasibleMove(out, Drawn(out.inst, rand, j))
      decreases MaxIterations - iterations
    {
      var mv := Drawn(out.inst, rand, iterations);
      iterations := iterations + 1;
      if iterations > MaxIterations {
        return EmptyNeighborhood;
      }
      if FeasibleMove(out, mv) {
        return Found(mv);
      }
    }
  }
}
