/** The AssignProf neighbourhood (Sched_AssignProf_NHE.cc): put a candidate
    professor into a free hour of a class. The candidates of a class are the
    professors GetAvailableProfs lists for it; moves are enumerated by class,
    day, hour and position in that list, and a move is feasible when both the
    class hour and the professor hour are free. */
module AssignProfNeighborhood {
  import opened Input
  import opened Counting
  import opened ScheduleState
  import opened Output
  import opened Neighborhood

  /** Sched_AssignProf: the class, the hour to fill, the professor, and the
      professor's position in the class's candidate list. */
  datatype AssignProfMove = AssignProfMove(cls: nat, day: nat, hour: nat, prof: nat, index: int)

  /** operator==: class, day and hour agree; the professor is not compared. */
  predicate Same(a: AssignProfMove, b: AssignProfMove) {
    a.cls == b.cls && a.day == b.day && a.hour == b.hour
  }

  /** operator<: lexicographic on class, day, hour. */
  predicate Less(a: AssignProfMove, b: AssignProfMove) {
    if a.cls != b.cls then a.cls < b.cls
    else if a.day != b.day then a.day < b.day
    else a.hour < b.hour
  }

  /** The comparisons order the (class, day, hour) slots strictly and totally,
      and neither looks at the professor or its index. */
  lemma LessIsStrictWeakOrder(a: AssignProfMove, b: AssignProfMove, c: AssignProfMove)
    ensures !Less(a, a)
    ensures Less(a, b) && Less(b, c) ==> Less(a, c)
    ensures Less(a, b) ==> !Less(b, a)
    ensures Less(a, b) || Less(b, a) || Same(a, b)
    ensures Same(a, b) <==> !Less(a, b) && !Less(b, a)
    ensures Same(a, a.(prof := b.prof, index := b.index))
  {
  }

  // ---------------------------------------------------------------- candidate professors

  /** What GetAvailableProfs appends for subject s of class c. Nothing when the
      class has as many hours of s as the subject's target: the source tests the
      unsigned residual target - assigned for > 0, which fails exactly when the
      two are equal. Otherwise the professor recorded for s when the class has
      some hour of s, and every professor of s when it has none. */
  function SubjectCandidates(inst: Instance, st: State, c: nat, s: nat): (r: seq<nat>)
    requires Fits(inst, st) && ClassProfsMatch(inst, st) && c < inst.nClasses && s < inst.NSubjects()
    ensures forall i :: 0 <= i < |r| ==> r[i] < inst.NProfs() && inst.profSubject[r[i]] == s
  {
    if st.weeklySubjectHours[c][s] == inst.subjectHours[s] then []
    else if st.weeklySubjectHours[c][s] != 0 then [st.classProfs[c][s] as nat]
    else inst.profsXSubject[s]
  }

  /** The candidates of the first n subjects, in subject order. */
  function AvailableUpTo(inst: Instance, st: State, c: nat, n: nat): (r: seq<nat>)
    requires Fits(inst, st) && ClassProfsMatch(inst, st) && c < inst.nClasses && n <= inst.NSubjects()
    ensures forall i :: 0 <= i < |r| ==> r[i] < inst.NProfs() && inst.profSubject[r[i]] < n
  {
    if n == 0 then [] else AvailableUpTo(inst, st, c, n - 1) + SubjectCandidates(inst, st, c, n - 1)
  }

  /** GetAvailableProfs(c), as a value. */
  function AvailableProfs(inst: Instance, st: State, c: nat): (r: seq<nat>)
    requires Fits(inst, st) && ClassProfsMatch(inst, st) && c < inst.nClasses
    ensures forall i :: 0 <= i < |r| ==> r[i] < inst.NProfs()
  {
    AvailableUpTo(inst, st, c, inst.NSubjects())
  }

  /** Subject s of class c still lacks hours. */
  ghost predicate Open(inst: Instance, st: State, c: nat, s: nat)
    requires Fits(inst, st) && c < inst.nClasses && s < inst.NSubjects()
  {
    st.weeklySubjectHours[c][s] != inst.subjectHours[s]
  }

  lemma {:induction false} AvailableUpToMembers(inst: Instance, st: State, c: nat, n: nat, p: nat)
    requires Fits(inst, st) && ClassProfsMatch(inst, st) && c < inst.nClasses && n <= inst.NSubjects()
    requires p < inst.NProfs()
    ensures p in AvailableUpTo(inst, st, c, n) <==>
              inst.profSubject[p] < n && Open(inst, st, c, inst.profSubject[p]) && Teachable(inst, st, c, p)
  {
    if n > 0 {
      AvailableUpToMembers(inst, st, c, n - 1, p);
      SubjectCandidatesMembers(inst, st, c, n - 1, p);
      assert AvailableUpTo(inst, st, c, n) == AvailableUpTo(inst, st, c, n - 1) + SubjectCandidates(inst, st, c, n - 1);
    }
  }

  /** The candidates one subject contributes. */
  lemma SubjectCandidatesMembers(inst: Instance, st: State, c: nat, s: nat, p: nat)
    requires Fits(inst, st) && ClassProfsMatch(inst, st) && c < inst.nClasses && s < inst.NSubjects()
    requires p < inst.NProfs()
    ensures p in SubjectCandidates(inst, st, c, s) <==>
              inst.profSubject[p] == s && Open(inst, st, c, s) && Teachable(inst, st, c, p)
  {
    ProfInExactlyOneList(inst, p, s);
  }

  /** The candidates of a class are exactly the professors whose subject still
      lacks hours in the class and who may teach it there: the class has no
      hour of the subject yet, or the professor is the one recorded for it. */
  lemma AvailableProfsMembers(inst: Instance, st: State, c: nat, p: nat)
    requires Fits(inst, st) && ClassProfsMatch(inst, st) && c < inst.nClasses && p < inst.NProfs()
    ensures p in AvailableProfs(inst, st, c) <==> Open(inst, st, c, inst.profSubject[p]) && Teachable(inst, st, c, p)
  {
    AvailableUpToMembers(inst, st, c, inst.NSubjects(), p);
  }

  /** Assigning a candidate keeps invariant I2 (one professor per class and subject). */
  lemma CandidateKeepsOneProf(inst: Instance, st: State, c: nat, d: nat, h: nat, p: nat)
    requires Valid(inst, st) && OneProfPerSubject(inst, st)
    requires c < inst.nClasses && d < inst.nDays && h < inst.nHoursXDay && p < inst.NProfs()
    requires CanAssign(inst, st, c, d, h, p) && p in AvailableProfs(inst, st, c)
    ensures OneProfPerSubject(inst, Assigned(inst, st, c, d, h, p))
  {
    AvailableProfsMembers(inst, st, c, p);
    AssignedKeepsOneProf(inst, st, c, d, h, p);
  }

  /** No class has more hours of a subject than the subject's target. */
  ghost predicate WithinTargets(inst: Instance, st: State)
    requires Fits(inst, st)
  {
    forall c, s :: 0 <= c < inst.nClasses && 0 <= s < inst.NSubjects() ==>
      st.weeklySubjectHours[c][s] <= inst.subjectHours[s]
  }

  /** Assigning a candidate never takes a class past a subject's target. */
  lemma CandidateKeepsWithinTargets(inst: Instance, st: State, c: nat, d: nat, h: nat, p: nat)
    requires Valid(inst, st) && WithinTargets(inst, st)
    requires c < inst.nClasses && d < inst.nDays && h < inst.nHoursXDay && p < inst.NProfs()
    requires CanAssign(inst, st, c, d, h, p) && p in AvailableProfs(inst, st, c)
    ensures WithinTargets(inst, Assigned(inst, st, c, d, h, p))
  {
    AvailableProfsMembers(inst, st, c, p);
  }

  /** The push_back loop over a subject's professors. */
  method AppendAll(front: seq<nat>, list: seq<nat>) returns (r: seq<nat>)
    ensures r == front + list
  {
    r := front;
    var i := 0;
    while i < |list|
      invariant 0 <= i <= |list|
      invariant r == front + list[..i]
    {
      r := r + [list[i]];
      i := i + 1;
    }
    assert list[..i] == list;
  }

  /** One round of GetAvailableProfs's loop appends the subject's candidates. */
  lemma AvailableStep(inst: Instance, st: State, c: nat, s: nat, before: seq<nat>, after: seq<nat>, weekly: int)
    requires Fits(inst, st) && ClassProfsMatch(inst, st) && c < inst.nClasses && s < inst.NSubjects()
    requires before == AvailableUpTo(inst, st, c, s) && weekly == st.weeklySubjectHours[c][s]
    requires after == if weekly == inst.subjectHours[s] then before
                      else if weekly != 0 then before + [st.classProfs[c][s] as nat]
                      else before + inst.profsXSubject[s]
    ensures after == AvailableUpTo(inst, st, c, s + 1)
  {
  }

  /** GetAvailableProfs: for each subject with hours left, the recorded
      professor or all the subject's professors. */
  method GetAvailableProfs(out: Schedule, c: nat) returns (avail: seq<nat>)
    requires out.Valid() && c < out.inst.nClasses
    ensures avail == AvailableProfs(out.inst, out.Model(), c)
  {
    ghost var st := out.Model();
    var inst := out.inst;
    avail := [];
    var s := 0;
    while s < inst.NSubjects()
      invariant 0 <= s <= inst.NSubjects()
      invariant avail == AvailableUpTo(inst, st, c, s)
    {
      // the unsigned residual WeeklySubjectResidualHours(c, s) is positive
      // exactly when the assigned hours differ from the target
      ghost var before := avail;
      var weekly := out.WeeklySubjectAssignedHours(c, s);
      if weekly != inst.subjectHours[s] {
        if weekly != 0 {
          avail := avail + [out.SubjectProf(c, s) as nat];
        } else {
          avail := AppendAll(avail, inst.profsXSubject[s]);
        }
      }
      AvailableStep(inst, st, c, s, before, avail, weekly);
      s := s + 1;
    }
  }

  // ---------------------------------------------------------------- feasibility and MakeMove

  predicate InRange(inst: Instance, mv: AssignProfMove) {
    mv.cls < inst.nClasses && mv.day < inst.nDays && mv.hour < inst.nHoursXDay && mv.prof < inst.NProfs()
  }

  /** FeasibleMove: the class hour and the professor hour are both free. */
  function FeasibleMove(out: Schedule, mv: AssignProfMove): bool
    reads out
    requires out.Valid() && InRange(out.inst, mv)
  {
    out.IsClassHourFree(mv.cls, mv.day, mv.hour) && out.IsProfHourFree(mv.prof, mv.day, mv.hour)
  }

  /** A move is feasible exactly when AssignHour would accept it. */
  lemma FeasibleMoveIsCanAssign(out: Schedule, mv: AssignProfMove)
    requires out.Valid() && InRange(out.inst, mv)
    ensures FeasibleMove(out, mv) == CanAssign(out.inst, out.Model(), mv.cls, mv.day, mv.hour, mv.prof)
  {
  }

  /** MakeMove: AssignHour of the move. A feasible move always succeeds and adds
      one occupied hour; a candidate keeps I2 and the subject targets. */
  method MakeMove(out: Schedule, mv: AssignProfMove)
    requires out.Valid() && InRange(out.inst, mv)
    modifies out
    ensures out.Valid()
    ensures old(FeasibleMove(out, mv)) ==>
              && out.Model() == Assigned(out.inst, old(out.Model()), mv.cls, mv.day, mv.hour, mv.prof)
              && Occupied(out.inst, out.Model()) == Occupied(out.inst, old(out.Model())) + 1
    ensures !old(FeasibleMove(out, mv)) ==> out.Model() == old(out.Model())
    ensures old(mv.prof in AvailableProfs(out.inst, out.Model(), mv.cls)) ==>
              && (old(OneProfPerSubject(out.inst, out.Model())) ==> OneProfPerSubject(out.inst, out.Model()))
              && (old(WithinTargets(out.inst, out.Model())) ==> WithinTargets(out.inst, out.Model()))
  {
    ghost var before := out.Model();
    FeasibleMoveIsCanAssign(out, mv);
    if CanAssign(out.inst, before, mv.cls, mv.day, mv.hour, mv.prof) {
      AssignEffect(out.inst, before, mv);
    }
    var _ := out.AssignHour(mv.cls, mv.day, mv.hour, mv.prof);
  }

  /** What assigning a feasible move does to the occupied hours and to I2 and
      the subject targets. */
  lemma AssignEffect(inst: Instance, st: State, mv: AssignProfMove)
    requires Valid(inst, st) && InRange(inst, mv) && CanAssign(inst, st, mv.cls, mv.day, mv.hour, mv.prof)
    ensures Occupied(inst, Assigned(inst, st, mv.cls, mv.day, mv.hour, mv.prof)) == Occupied(inst, st) + 1
    ensures mv.prof in AvailableProfs(inst, st, mv.cls) && OneProfPerSubject(inst, st) ==>
              OneProfPerSubject(inst, Assigned(inst, st, mv.cls, mv.day, mv.hour, mv.prof))
    ensures mv.prof in AvailableProfs(inst, st, mv.cls) && WithinTargets(inst, st) ==>
              WithinTargets(inst, Assigned(inst, st, mv.cls, mv.day, mv.hour, mv.prof))
  {
    AssignedOccupied(inst, st, mv.cls, mv.day, mv.hour, mv.prof);
    if mv.prof in AvailableProfs(inst, st, mv.cls) {
      if OneProfPerSubject(inst, st) {
        CandidateKeepsOneProf(inst, st, mv.cls, mv.day, mv.hour, mv.prof);
      }
      if WithinTargets(inst, st) {
        CandidateKeepsWithinTargets(inst, st, mv.cls, mv.day, mv.hour, mv.prof);
      }
    }
  }

  // ---------------------------------------------------------------- enumeration

  /** A move the enumeration visits: an hour of a class with candidates, and the
      candidate at position index of that class's list. */
  predicate Candidate(inst: Instance, st: State, mv: AssignProfMove)
    requires Fits(inst, st) && ClassProfsMatch(inst, st)
  {
    && mv.cls < inst.nClasses && mv.day < inst.nDays && mv.hour < inst.nHoursXDay
    && 0 <= mv.index < |AvailableProfs(inst, st, mv.cls)|
    && mv.prof == AvailableProfs(inst, st, mv.cls)[mv.index]
  }

  /** The enumeration order: lexicographic on class, day, hour, index. */
  predicate Precedes(a: AssignProfMove, b: AssignProfMove) {
    if a.cls != b.cls then a.cls < b.cls
    else if a.day != b.day then a.day < b.day
    else if a.hour != b.hour then a.hour < b.hour
    else a.index < b.index
  }

  /** Precedes is a strict total order on candidates; it refines operator<,
      breaking its ties by the index. */
  lemma PrecedesIsStrictTotalOrder(inst: Instance, st: State, a: AssignProfMove, b: AssignProfMove, c: AssignProfMove)
    requires Fits(inst, st) && ClassProfsMatch(inst, st)
    ensures !Precedes(a, a)
    ensures Precedes(a, b) && Precedes(b, c) ==> Precedes(a, c)
    ensures Precedes(a, b) ==> !Precedes(b, a)
    ensures Candidate(inst, st, a) && Candidate(inst, st, b) ==> Precedes(a, b) || Precedes(b, a) || a == b
    ensures Precedes(a, b) <==> Less(a, b) || (Same(a, b) && a.index < b.index)
  {
  }

  /** No class in [from, to) has a candidate. */
  ghost predicate NoCandidatesBetween(inst: Instance, st: State, from: nat, to: nat)
    requires Fits(inst, st) && ClassProfsMatch(inst, st)
  {
    forall k :: from <= k < to && k < inst.nClasses ==> |AvailableProfs(inst, st, k)| == 0
  }

  lemma NoCandidatesStep(inst: Instance, st: State, from: nat, to: nat)
    requires Fits(inst, st) && ClassProfsMatch(inst, st)
    requires NoCandidatesBetween(inst, st, from, to) && to < inst.nClasses && |AvailableProfs(inst, st, to)| == 0
    ensures NoCandidatesBetween(inst, st, from, to + 1)
  {
  }

  /** The first class at or after `from` that has candidates, with its list;
      the class loops of FirstMove and AnyNextMove. */
  method NextClassWithCandidates(out: Schedule, from: nat) returns (found: bool, c: nat, avail: seq<nat>)
    requires out.Valid()
    ensures found ==> from <= c < out.inst.nClasses && avail == AvailableProfs(out.inst, out.Model(), c) && |avail| > 0
    ensures found ==> forall k :: from <= k < c ==> |AvailableProfs(out.inst, out.Model(), k)| == 0
    ensures !found ==> forall k :: from <= k < out.inst.nClasses ==> |AvailableProfs(out.inst, out.Model(), k)| == 0
  {
    ghost var st := out.Model();
    assert Fits(out.inst, st) && ClassProfsMatch(out.inst, st);
    c := from;
    avail := [];
    while c < out.inst.nClasses
      invariant from <= c
      invariant NoCandidatesBetween(out.inst, st, from, c)
      decreases out.inst.nClasses - c
    {
      avail := GetAvailableProfs(out, c);
      if |avail| > 0 {
        return true, c, avail;
      }
      NoCandidatesStep(out.inst, st, from, c);
      c := c + 1;
    }
    return false, c, avail;
  }

  /** next is the candidate that immediately follows mv in the enumeration order. */
  ghost predicate IsSuccessor(inst: Instance, st: State, mv: AssignProfMove, next: AssignProfMove)
    requires Fits(inst, st) && ClassProfsMatch(inst, st)
  {
    && Candidate(inst, st, next) && Precedes(mv, next)
    && forall m :: Candidate(inst, st, m) && Precedes(mv, m) ==> !Precedes(m, next)
  }

  /** No candidate follows mv. */
  ghost predicate IsLast(inst: Instance, st: State, mv: AssignProfMove)
    requires Fits(inst, st) && ClassProfsMatch(inst, st)
  {
    forall m :: Candidate(inst, st, m) ==> !Precedes(mv, m)
  }

  /** mv is at the last index of its class's list, at the last hour of the day
      when `lastHour`, of the last day of the week when also `lastDay`. */
  ghost predicate AtEnd(inst: Instance, st: State, mv: AssignProfMove, lastHour: bool, lastDay: bool)
    requires Fits(inst, st) && ClassProfsMatch(inst, st) && Candidate(inst, st, mv)
  {
    && mv.index + 1 == |AvailableProfs(inst, st, mv.cls)|
    && (lastHour ==> mv.hour + 1 == inst.nHoursXDay)
    && (lastDay ==> mv.day + 1 == inst.nDays)
  }

  lemma SuccessorIndex(inst: Instance, st: State, mv: AssignProfMove)
    requires Fits(inst, st) && ClassProfsMatch(inst, st) && Candidate(inst, st, mv)
    requires mv.index + 1 < |AvailableProfs(inst, st, mv.cls)|
    ensures IsSuccessor(inst, st, mv, mv.(index := mv.index + 1, prof := AvailableProfs(inst, st, mv.cls)[mv.index + 1]))
  {
  }

  lemma SuccessorHour(inst: Instance, st: State, mv: AssignProfMove)
    requires Fits(inst, st) && ClassProfsMatch(inst, st) && Candidate(inst, st, mv)
    requires AtEnd(inst, st, mv, false, false) && mv.hour + 1 < inst.nHoursXDay
    ensures IsSuccessor(inst, st, mv, mv.(hour := mv.hour + 1, index := 0, prof := AvailableProfs(inst, st, mv.cls)[0]))
  {
  }

  lemma SuccessorDay(inst: Instance, st: State, mv: AssignProfMove)
    requires Fits(inst, st) && ClassProfsMatch(inst, st) && Candidate(inst, st, mv)
    requires AtEnd(inst, st, mv, true, false) && mv.day + 1 < inst.nDays
    ensures IsSuccessor(inst, st, mv, mv.(day := mv.day + 1, hour := 0, index := 0, prof := AvailableProfs(inst, st, mv.cls)[0]))
  {
  }

  lemma SuccessorClass(inst: Instance, st: State, mv: AssignProfMove, c: nat)
    requires Fits(inst, st) && ClassProfsMatch(inst, st) && Candidate(inst, st, mv) && AtEnd(inst, st, mv, true, true)
    requires mv.cls < c < inst.nClasses && |AvailableProfs(inst, st, c)| > 0
    requires forall k :: mv.cls + 1 <= k < c ==> |AvailableProfs(inst, st, k)| == 0
    ensures IsSuccessor(inst, st, mv, mv.(cls := c, day := 0, hour := 0, index := 0, prof := AvailableProfs(inst, st, c)[0]))
  {
  }

  lemma LastOne(inst: Instance, st: State, mv: AssignProfMove)
    requires Fits(inst, st) && ClassProfsMatch(inst, st) && Candidate(inst, st, mv) && AtEnd(inst, st, mv, true, true)
    requires forall k :: mv.cls + 1 <= k < inst.nClasses ==> |AvailableProfs(inst, st, k)| == 0
    ensures IsLast(inst, st, mv)
  {
  }

  /** AnyNextMove: the next index of the list, else the next hour, else the
      next day, else the next class with candidates; false past the last class.
      When it returns true the professor is the listed one at the new index. */
  method AnyNextMove(out: Schedule, mv: AssignProfMove) returns (more: bool, next: AssignProfMove)
    requires out.Valid()
    requires mv.cls < out.inst.nClasses && mv.day < out.inst.nDays && mv.hour < out.inst.nHoursXDay
    ensures more ==> Candidate(out.inst, out.Model(), next)
    ensures Candidate(out.inst, out.Model(), mv) && more ==> IsSuccessor(out.inst, out.Model(), mv, next)
    ensures Candidate(out.inst, out.Model(), mv) && !more ==> IsLast(out.inst, out.Model(), mv)
  {
    var inst := out.inst;
    ghost var st := out.Model();
    ghost var isCandidate := Candidate(inst, st, mv);
    var found, c, avail := NextClassWithCandidates(out, mv.cls);
    if !found {
      return false, mv;
    }
    assert isCandidate ==> c == mv.cls && avail == AvailableProfs(inst, st, mv.cls);
    next := mv;
    if c != mv.cls {
      next := next.(cls := c, index := -1);
    }
    // the source compares the index unsigned, so an index of -1 is never below the bound
    if 0 <= next.index < |avail| - 1 {
      next := next.(index := next.index + 1, prof := avail[next.index + 1]);
      if isCandidate {
        SuccessorIndex(inst, st, mv);
      }
      return true, next;
    }
    next := next.(hour := next.hour + 1, index := 0);
    if next.hour < inst.nHoursXDay {
      next := next.(prof := avail[0]);
      if isCandidate {
        SuccessorHour(inst, st, mv);
      }
      return true, next;
    }
    next := next.(day := next.day + 1, hour := 0);
    if next.day < inst.nDays {
      next := next.(prof := avail[0]);
      if isCandidate {
        SuccessorDay(inst, st, mv);
      }
      return true, next;
    }
    found, c, avail := NextClassWithCandidates(out, next.cls + 1);
    if !found {
      if isCandidate {
        assert next.cls == mv.cls;
        assert out.Model() == st;
        assert forall k :: mv.cls + 1 <= k < inst.nClasses ==> |AvailableProfs(inst, out.Model(), k)| == 0;
        LastOne(inst, st, mv);
      }
      return false, next;
    }
    next := next.(cls := c, day := 0, prof := avail[0]);
    if isCandidate {
      SuccessorClass(inst, st, mv, c);
    }
    return true, next;
  }

  /** FirstMove: the first feasible candidate, or EmptyNeighborhood when no
      class has candidates or none of the candidates is feasible. */
  method FirstMove(out: Schedule) returns (r: Outcome<AssignProfMove>)
    requires out.Valid() && out.inst.nDays >= 1 && out.inst.nHoursXDay >= 1
    ensures r.Found? ==> Candidate(out.inst, out.Model(), r.move) && FeasibleMove(out, r.move)
    ensures r.Found? ==> forall m :: Candidate(out.inst, out.Model(), m) && Precedes(m, r.move) ==> !FeasibleMove(out, m)
    ensures r.EmptyNeighborhood? ==> forall m :: Candidate(out.inst, out.Model(), m) ==> !FeasibleMove(out, m)
  {
    ghost var st := out.Model();
    var found, c, avail := NextClassWithCandidates(out, 0);
    if !found {
      return EmptyNeighborhood;
    }
    var mv := AssignProfMove(c, 0, 0, avail[0], 0);
    FirstCandidate(out, mv);
    while !FeasibleMove(out, mv)
      invariant Candidate(out.inst, st, mv)
      invariant NoFeasibleBefore(out, mv)
      decreases out.inst.nClasses - mv.cls, out.inst.nDays - mv.day, out.inst.nHoursXDay - mv.hour,
                |AvailableProfs(out.inst, st, mv.cls)| - mv.index
    {
      var more, next := AnyNextMove(out, mv);
      if !more {
        BeforeEnd(out, mv);
        return EmptyNeighborhood;
      }
      BeforeStep(out, mv, next);
      mv := next;
    }
    return Found(mv);
  }

  /** No candidate before b is feasible. */
  ghost predicate NoFeasibleBefore(out: Schedule, b: AssignProfMove)
    reads out
    requires out.Valid()
  {
    forall m :: Candidate(out.inst, out.Model(), m) && Precedes(m, b) ==> !FeasibleMove(out, m)
  }

  /** The first slot of the first class with candidates has no candidate before it. */
  lemma FirstCandidate(out: Schedule, mv: AssignProfMove)
    requires out.Valid() && mv.cls < out.inst.nClasses && mv.day == 0 && mv.hour == 0 && mv.index == 0
    requires forall k :: 0 <= k < mv.cls ==> |AvailableProfs(out.inst, out.Model(), k)| == 0
    ensures NoFeasibleBefore(out, mv)
  {
  }

  lemma BeforeStep(out: Schedule, mv: AssignProfMove, next: AssignProfMove)
    requires out.Valid() && Candidate(out.inst, out.Model(), mv) && !FeasibleMove(out, mv)
    requires NoFeasibleBefore(out, mv) && IsSuccessor(out.inst, out.Model(), mv, next)
    ensures NoFeasibleBefore(out, next)
  {
    ghost var st := out.Model();
    forall m | Candidate(out.inst, st, m) && Precedes(m, next)
      ensures !FeasibleMove(out, m)
    {
      PrecedesIsStrictTotalOrder(out.inst, st, m, mv, next);
    }
  }

  lemma BeforeEnd(out: Schedule, mv: AssignProfMove)
    requires out.Valid() && Candidate(out.inst, out.Model(), mv) && !FeasibleMove(out, mv)
    requires NoFeasibleBefore(out, mv) && IsLast(out.inst, out.Model(), mv)
    ensures forall m :: Candidate(out.inst, out.Model(), m) ==> !FeasibleMove(out, m)
  {
    ghost var st := out.Model();
    forall m | Candidate(out.inst, st, m)
      ensures !FeasibleMove(out, m)
    {
      PrecedesIsStrictTotalOrder(out.inst, st, m, mv, m);
    }
  }

  /** NextMove: the first feasible candidate after mv, or false when there is none. */
  method NextMove(out: Schedule, mv: AssignProfMove) returns (more: bool, next: AssignProfMove)
    requires out.Valid() && Candidate(out.inst, out.Model(), mv)
    ensures more ==> Candidate(out.inst, out.Model(), next) && Precedes(mv, next) && FeasibleMove(out, next)
    ensures more ==> forall m :: Candidate(out.inst, out.Model(), m) && Precedes(mv, m) && Precedes(m, next) ==>
                                 !FeasibleMove(out, m)
    ensures !more ==> forall m :: Candidate(out.inst, out.Model(), m) && Precedes(mv, m) ==> !FeasibleMove(out, m)
  {
    ghost var st := out.Model();
    next := mv;
    while true
      invariant Candidate(out.inst, st, next)
      invariant next == mv || (Precedes(mv, next) && !FeasibleMove(out, next))
      invariant NoFeasibleBetween(out, mv, next)
      decreases out.inst.nClasses - next.cls, out.inst.nDays - next.day, out.inst.nHoursXDay - next.hour,
                |AvailableProfs(out.inst, st, next.cls)| - next.index
    {
      var any, n := AnyNextMove(out, next);
      if !any {
        GapEnd(out, mv, next);
        return false, next;
      }
      GapStep(out, mv, next, n);
      next := n;
      if FeasibleMove(out, next) {
        return true, next;
      }
    }
  }

  /** No candidate strictly between a and b is feasible. */
  ghost predicate NoFeasibleBetween(out: Schedule, a: AssignProfMove, b: AssignProfMove)
    reads out
    requires out.Valid()
  {
    forall m :: Candidate(out.inst, out.Model(), m) && Precedes(a, m) && Precedes(m, b) ==> !FeasibleMove(out, m)
  }

  lemma GapStep(out: Schedule, mv: AssignProfMove, next: AssignProfMove, n: AssignProfMove)
    requires out.Valid() && Candidate(out.inst, out.Model(), mv) && Candidate(out.inst, out.Model(), next)
    requires next == mv || (Precedes(mv, next) && !FeasibleMove(out, next))
    requires NoFeasibleBetween(out, mv, next) && IsSuccessor(out.inst, out.Model(), next, n)
    ensures Precedes(mv, n) && NoFeasibleBetween(out, mv, n)
  {
    ghost var st := out.Model();
    forall m | Candidate(out.inst, st, m) && Precedes(mv, m) && Precedes(m, n)
      ensures !FeasibleMove(out, m)
    {
      PrecedesIsStrictTotalOrder(out.inst, st, m, next, n);
      PrecedesIsStrictTotalOrder(out.inst, st, mv, m, m);
    }
    PrecedesIsStrictTotalOrder(out.inst, st, mv, next, n);
  }

  lemma GapEnd(out: Schedule, mv: AssignProfMove, next: AssignProfMove)
    requires out.Valid() && Candidate(out.inst, out.Model(), mv) && Candidate(out.inst, out.Model(), next)
    requires next == mv || (Precedes(mv, next) && !FeasibleMove(out, next))
    requires NoFeasibleBetween(out, mv, next) && IsLast(out.inst, out.Model(), next)
    ensures forall m :: Candidate(out.inst, out.Model(), m) && Precedes(mv, m) ==> !FeasibleMove(out, m)
  {
    ghost var st := out.Model();
    forall m | Candidate(out.inst, st, m) && Precedes(mv, m)
      ensures !FeasibleMove(out, m)
    {
      PrecedesIsStrictTotalOrder(out.inst, st, m, next, m);
      PrecedesIsStrictTotalOrder(out.inst, st, mv, m, m);
    }
  }

  // ---------------------------------------------------------------- random moves

  /** Whether each class has candidates. */
  function HasCandidates(inst: Instance, st: State): (r: seq<bool>)
    requires Fits(inst, st) && ClassProfsMatch(inst, st)
    ensures |r| == inst.nClasses
    ensures forall c :: 0 <= c < |r| ==> r[c] == (|AvailableProfs(inst, st, c)| > 0)
  {
    seq(inst.nClasses, c requires 0 <= c < inst.nClasses => |AvailableProfs(inst, st, c)| > 0)
  }

  /** The positions below n that are marked, ascending. */
  function Marked(marks: seq<bool>, n: nat): (r: seq<nat>)
    requires n <= |marks|
    ensures forall i :: 0 <= i < |r| ==> r[i] < n
  {
    if n == 0 then []
    else if marks[n - 1] then Marked(marks, n - 1) + [n - 1]
    else Marked(marks, n - 1)
  }

  lemma {:induction false} MarkedMembers(marks: seq<bool>, n: nat, c: nat)
    requires n <= |marks|
    ensures c in Marked(marks, n) <==> c < n && marks[c]
  {
    if n > 0 {
      MarkedMembers(marks, n - 1, c);
    }
  }

  lemma MarkedStep(marks: seq<bool>, n: nat, before: seq<nat>)
    requires n < |marks| && before == Marked(marks, n)
    ensures Marked(marks, n + 1) == if marks[n] then before + [n] else before
  {
  }

  /** class_with_moves: the classes that have candidates, ascending. */
  function ClassesWithMoves(inst: Instance, st: State): (r: seq<nat>)
    requires Fits(inst, st) && ClassProfsMatch(inst, st)
    ensures forall i :: 0 <= i < |r| ==> r[i] < inst.nClasses
  {
    Marked(HasCandidates(inst, st), inst.nClasses)
  }

  /** class_with_moves lists exactly the classes that have candidates. */
  lemma ClassesWithMovesMembers(inst: Instance, st: State, c: nat)
    requires Fits(inst, st) && ClassProfsMatch(inst, st)
    ensures c in ClassesWithMoves(inst, st) <==> c < inst.nClasses && |AvailableProfs(inst, st, c)| > 0
  {
    MarkedMembers(HasCandidates(inst, st), inst.nClasses, c);
  }

  /** The first loop of RandomMove. */
  method CollectClassesWithMoves(out: Schedule) returns (classes: seq<nat>)
    requires out.Valid()
    ensures classes == ClassesWithMoves(out.inst, out.Model())
  {
    ghost var st := out.Model();
    assert Fits(out.inst, st) && ClassProfsMatch(out.inst, st);
    ghost var marks := HasCandidates(out.inst, st);
    classes := [];
    var c := 0;
    while c < out.inst.nClasses
      invariant 0 <= c <= out.inst.nClasses
      invariant classes == Marked(marks, c)
    {
      var avail := GetAvailableProfs(out, c);
      MarkedStep(marks, c, classes);
      if |avail| > 0 {
        classes := classes + [c];
      }
      c := c + 1;
    }
  }

  /** The move drawn at attempt i: a class with candidates, a day, an hour and
      one of the class's candidates, four uniform draws in that order. The
      source never sets the index in RandomMove, so it keeps `index`. */
  function Drawn(inst: Instance, st: State, rand: nat -> nat, i: nat, index: int): (m: AssignProfMove)
    requires Fits(inst, st) && ClassProfsMatch(inst, st)
    requires |ClassesWithMoves(inst, st)| > 0 && inst.nDays >= 1 && inst.nHoursXDay >= 1
    ensures InRange(inst, m) && m.cls in ClassesWithMoves(inst, st) && m.prof in AvailableProfs(inst, st, m.cls)
    ensures m.index == index
  {
    var classes := ClassesWithMoves(inst, st);
    var c := classes[Uniform(rand, 4 * i, 0, |classes| - 1)];
    ClassesWithMovesMembers(inst, st, c);
    var avail := AvailableProfs(inst, st, c);
    AssignProfMove(c, Uniform(rand, 4 * i + 1, 0, inst.nDays - 1), Uniform(rand, 4 * i + 2, 0, inst.nHoursXDay - 1),
                   avail[Uniform(rand, 4 * i + 3, 0, |avail| - 1)], index)
  }

  /** The move drawn at attempt i passes FeasibleMove. */
  predicate DrawnFeasible(inst: Instance, st: State, rand: nat -> nat, i: nat, index: int)
    requires Fits(inst, st) && ClassProfsMatch(inst, st)
    requires |ClassesWithMoves(inst, st)| > 0 && inst.nDays >= 1 && inst.nHoursXDay >= 1
  {
    var m := Drawn(inst, st, rand, i, index);
    CanAssign(inst, st, m.cls, m.day, m.hour, m.prof)
  }

  /** None of the first n drawn moves is feasible. */
  ghost predicate Rejected(inst: Instance, st: State, rand: nat -> nat, n: nat, index: int)
    requires Fits(inst, st) && ClassProfsMatch(inst, st)
    requires |ClassesWithMoves(inst, st)| > 0 && inst.nDays >= 1 && inst.nHoursXDay >= 1
  {
    forall j :: 0 <= j < n ==> !DrawnFeasible(inst, st, rand, j, index)
  }

  lemma RejectedStep(inst: Instance, st: State, rand: nat -> nat, n: nat, index: int)
    requires Fits(inst, st) && ClassProfsMatch(inst, st)
    requires |ClassesWithMoves(inst, st)| > 0 && inst.nDays >= 1 && inst.nHoursXDay >= 1
    requires Rejected(inst, st, rand, n, index) && !DrawnFeasible(inst, st, rand, n, index)
    ensures Rejected(inst, st, rand, n + 1, index)
  {
  }

  /** One round of RandomMove's loop: the four draws of attempt i. */
  method DrawMove(out: Schedule, classes: seq<nat>, rand: nat -> nat, i: nat, index: int) returns (mv: AssignProfMove)
    requires out.Valid() && out.inst.nDays >= 1 && out.inst.nHoursXDay >= 1
    requires classes == ClassesWithMoves(out.inst, out.Model()) && |classes| > 0
    ensures mv == Drawn(out.inst, out.Model(), rand, i, index)
  {
    var c := classes[Uniform(rand, 4 * i, 0, |classes| - 1)];
    ClassesWithMovesMembers(out.inst, out.Model(), c);
    var avail := GetAvailableProfs(out, c);
    var day := Uniform(rand, 4 * i + 1, 0, out.inst.nDays - 1);
    var hour := Uniform(rand, 4 * i + 2, 0, out.inst.nHoursXDay - 1);
    mv := AssignProfMove(c, day, hour, avail[Uniform(rand, 4 * i + 3, 0, |avail| - 1)], index);
  }

  /** RandomMove's second loop: draw until a feasible move turns up, at most
      MaxIterations times. */
  method DrawUntilFeasible(out: Schedule, classes: seq<nat>, rand: nat -> nat, index: int)
    returns (r: Outcome<AssignProfMove>)
    requires out.Valid() && out.inst.nDays >= 1 && out.inst.nHoursXDay >= 1
    requires classes == ClassesWithMoves(out.inst, out.Model()) && |classes| > 0
    ensures r.Found? ==>
              exists i :: 0 <= i < MaxIterations && r.move == Drawn(out.inst, out.Model(), rand, i, index) &&
                DrawnFeasible(out.inst, out.Model(), rand, i, index) && Rejected(out.inst, out.Model(), rand, i, index)
    ensures r.EmptyNeighborhood? ==> Rejected(out.inst, out.Model(), rand, MaxIterations, index)
  {
    ghost var st := out.Model();
    var iterations := 0;
    while true
      invariant 0 <= iterations <= MaxIterations
      invariant Rejected(out.inst, st, rand, iterations, index)
      decreases MaxIterations - iterations
    {
      var mv, feasible := Attempt(out, classes, rand, iterations, index);
      iterations := iterations + 1;
      if iterations > MaxIterations {
        return EmptyNeighborhood;
      }
      if feasible {
        return Found(mv);
      }
    }
  }

  /** One draw of RandomMove's loop and its FeasibleMove test. */
  method Attempt(out: Schedule, classes: seq<nat>, rand: nat -> nat, i: nat, index: int)
    returns (mv: AssignProfMove, feasible: bool)
    requires out.Valid() && out.inst.nDays >= 1 && out.inst.nHoursXDay >= 1
    requires classes == ClassesWithMoves(out.inst, out.Model()) && |classes| > 0
    requires Rejected(out.inst, out.Model(), rand, i, index)
    ensures mv == Drawn(out.inst, out.Model(), rand, i, index)
    ensures feasible == DrawnFeasible(out.inst, out.Model(), rand, i, index)
    ensures !feasible ==> Rejected(out.inst, out.Model(), rand, i + 1, index)
  {
    mv := DrawMove(out, classes, rand, i, index);
    FeasibleMoveIsCanAssign(out, mv);
    feasible := FeasibleMove(out, mv);
    if !feasible {
      RejectedStep(out.inst, out.Model(), rand, i, index);
    }
  }

  /** RandomMove: EmptyNeighborhood when no class has candidates; otherwise the
      first feasible drawn move, or EmptyNeighborhood once the first
      MaxIterations draws are all infeasible. */
  method RandomMove(out: Schedule, rand: nat -> nat, index: int) returns (r: Outcome<AssignProfMove>)
    requires out.Valid() && out.inst.nDays >= 1 && out.inst.nHoursXDay >= 1
    ensures r.Found? ==> |ClassesWithMoves(out.inst, out.Model())| > 0
    ensures r.Found? ==> InRange(out.inst, r.move) && FeasibleMove(out, r.move)
    ensures r.Found? ==> r.move.prof in AvailableProfs(out.inst, out.Model(), r.move.cls)
    ensures r.Found? ==>
              exists i :: 0 <= i < MaxIterations && r.move == Drawn(out.inst, out.Model(), rand, i, index) &&
                Rejected(out.inst, out.Model(), rand, i, index)
    ensures r.EmptyNeighborhood? ==>
              || (forall c :: 0 <= c < out.inst.nClasses ==> |AvailableProfs(out.inst, out.Model(), c)| == 0)
              || (|ClassesWithMoves(out.inst, out.Model())| > 0 &&
                  Rejected(out.inst, out.Model(), rand, MaxIterations, index))
  {
    ghost var st := out.Model();
    var classes := CollectClassesWithMoves(out);
    if |classes| == 0 {
      forall c | 0 <= c < out.inst.nClasses
        ensures |AvailableProfs(out.inst, st, c)| == 0
      {
        ClassesWithMovesMembers(out.inst, st, c);
      }
      return EmptyNeighborhood;
    }
    r := DrawUntilFeasible(out, classes, rand, index);
  }
}
