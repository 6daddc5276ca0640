/** The greedy constructor (Sched_SolutionManager::GreedyState): after a reset,
    for every class and every subject, in decreasing order of weekly hours, try
    the subject's professors from the least loaded up and give the first one whose
    compatible hours cover the subject's weekly hours exactly that many of them;
    when no professor fits, relax the search (drop the unavailability check or
    allow one more hour per day) and try again, until the daily cap would exceed
    HoursXDay. The random choices (the order of subjects with equal hours, the
    shuffle of professors before sorting, the shuffled day orders) are parameters. */
module Greedy {
  import opened Input
  import opened Counting
  import opened ScheduleState
  import opened Output
  import opened SwapProfEffect
  import opened GreedyHours

  // ---------------------------------------------------------------- professors by load

  predicate InRange(xs: seq<nat>, n: nat) {
    forall i :: 0 <= i < |xs| ==> xs[i] < n
  }

  /** xs in non-decreasing order of load. */
  predicate ByLoad(xs: seq<nat>, load: seq<int>)
    requires InRange(xs, |load|)
  {
    forall i, j :: 0 <= i < j < |xs| ==> load[xs[i]] <= load[xs[j]]
  }

  /** Insertion of one professor into a list. */
  function InsertByLoad(q: nat, xs: seq<nat>, load: seq<int>): (r: seq<nat>)
    requires q < |load| && InRange(xs, |load|)
    ensures multiset(r) == multiset(xs) + multiset{q}
    ensures InRange(r, |load|)
  {
    if xs == [] then [q]
    else if load[q] <= load[xs[0]] then [q] + xs
    else
      assert xs == [xs[0]] + xs[1..];
      [xs[0]] + InsertByLoad(q, xs[1..], load)
  }

  /** Every professor of xs has at least load m. */
  predicate AtLeast(xs: seq<nat>, load: seq<int>, m: int)
    requires InRange(xs, |load|)
  {
    forall i :: 0 <= i < |xs| ==> m <= load[xs[i]]
  }

  lemma {:induction false} InsertBound(q: nat, xs: seq<nat>, load: seq<int>, m: int)
    requires q < |load| && InRange(xs, |load|) && AtLeast(xs, load, m) && m <= load[q]
    ensures AtLeast(InsertByLoad(q, xs, load), load, m)
  {
    if xs != [] && load[q] > load[xs[0]] {
      InsertBound(q, xs[1..], load, m);
    }
  }

  /** Inserting into a list in order of load keeps it in order. */
  lemma {:induction false} InsertSorted(q: nat, xs: seq<nat>, load: seq<int>)
    requires q < |load| && InRange(xs, |load|) && ByLoad(xs, load)
    ensures ByLoad(InsertByLoad(q, xs, load), load)
  {
    if xs != [] && load[q] > load[xs[0]] {
      InsertSorted(q, xs[1..], load);
      InsertBound(q, xs[1..], load, load[xs[0]]);
    }
  }

  /** The sort of a professor list by ProfWeeklyAssignedHours: the same professors,
      in non-decreasing order of assigned weekly hours. */
  function SortByLoad(xs: seq<nat>, load: seq<int>): (r: seq<nat>)
    requires InRange(xs, |load|)
    ensures multiset(r) == multiset(xs)
    ensures InRange(r, |load|) && ByLoad(r, load)
  {
    if xs == [] then []
    else
      assert xs == [xs[0]] + xs[1..];
      var rest := SortByLoad(xs[1..], load);
      InsertSorted(xs[0], rest, load);
      InsertByLoad(xs[0], rest, load)
  }

  // ---------------------------------------------------------------- one round

  /** The shuffled day order the scan uses in the round (extra, check) for the i-th
      professor of the list. */
  type DayOrders = (nat, bool, nat) -> seq<nat>

  ghost predicate DayOrdersOk(inst: Instance, days: DayOrders) {
    forall e, b, i :: IsDayOrder(inst, days(e, b, i))
  }

  /** Every professor of the list teaches the subject. */
  ghost predicate ProfsOf(inst: Instance, profs: seq<nat>, subj: nat) {
    forall i :: 0 <= i < |profs| ==> profs[i] < inst.NProfs() && inst.profSubject[profs[i]] == subj
  }

  /** What a round is given: a consistent timetable, a class, a subject, a
      list of the subject's professors and the day orders. */
  ghost predicate Setting(inst: Instance, st: State, c: nat, subj: nat, profs: seq<nat>, days: DayOrders) {
    && Fits(inst, st) && c < inst.nClasses && subj < inst.NSubjects()
    && ProfsOf(inst, profs, subj) && DayOrdersOk(inst, days)
  }

  /** In the round with `extra` extra daily hours, checking the unavailability day
      or not, the i-th professor has enough compatible hours for the subject. */
  ghost predicate Fit(inst: Instance, st: State, c: nat, subj: nat, profs: seq<nat>, days: DayOrders,
                      extra: nat, check: bool, i: nat)
    requires Setting(inst, st, c, subj, profs, days) && i < |profs|
  {
    |Compatible(inst, st, c, profs[i], days(extra, check, i), inst.subjectMaxHoursXDay + extra, check)|
      >= inst.subjectHours[subj]
  }

  /** No professor before the q-th fits in the round. */
  ghost predicate NoneBefore(inst: Instance, st: State, c: nat, subj: nat, profs: seq<nat>, days: DayOrders,
                             extra: nat, check: bool, q: nat)
    requires Setting(inst, st, c, subj, profs, days) && q <= |profs|
  {
    forall i :: 0 <= i < q ==> !Fit(inst, st, c, subj, profs, days, extra, check, i)
  }

  /** The outcome of a round that placed the subject: the q-th professor is the
      first that fits, and st is st0 with the first N_HoursXSubject of its
      compatible hours given to it in class c. */
  ghost predicate PlacedBy(inst: Instance, st0: State, c: nat, subj: nat, profs: seq<nat>, days: DayOrders,
                           extra: nat, check: bool, q: nat, hours: seq<Hour>, st: State)
    requires Setting(inst, st0, c, subj, profs, days) && Fits(inst, st)
  {
    && q < |profs|
    && NoneBefore(inst, st0, c, subj, profs, days, extra, check, q)
    && Fit(inst, st0, c, subj, profs, days, extra, check, q)
    && hours == Compatible(inst, st0, c, profs[q], days(extra, check, q), inst.subjectMaxHoursXDay + extra, check)
    && InWeek(inst, hours)
    && AssignedBefore(inst, st0, c, profs[q], hours, inst.subjectHours[subj], st)
  }

  /** The inner loop of GreedyState over the sorted professors, with the cycle
      that assigns the hours: the first professor that fits gets the subject. */
  method TryRound(out: Schedule, c: nat, subj: nat, profs: seq<nat>, days: DayOrders, extra: nat, check: bool)
    returns (placed: bool, q: nat, hours: seq<Hour>)
    requires out.Valid() && Setting(out.inst, out.Model(), c, subj, profs, days)
    modifies out
    ensures out.Valid()
    ensures placed ==> PlacedBy(out.inst, old(out.Model()), c, subj, profs, days, extra, check, q, hours, out.Model())
    ensures !placed ==> out.Model() == old(out.Model())
    ensures !placed ==> NoneBefore(out.inst, old(out.Model()), c, subj, profs, days, extra, check, |profs|)
  {
    ghost var st0 := out.Model();
    for i := 0 to |profs|
      invariant out.Valid() && out.Model() == st0
      invariant NoneBefore(out.inst, st0, c, subj, profs, days, extra, check, i)
    {
      var cand := CompatibleHours(out, c, profs[i], days(extra, check, i), extra, check);
      if |cand| >= out.inst.subjectHours[subj] {
        Give(out, c, subj, profs, days, extra, check, i, cand);
        return true, i, cand;
      }
      NoneBeforeNext(out.inst, st0, c, subj, profs, days, extra, check, i);
    }
    return false, 0, [];
  }

  lemma NoneBeforeNext(inst: Instance, st: State, c: nat, subj: nat, profs: seq<nat>, days: DayOrders,
                       extra: nat, check: bool, i: nat)
    requires Setting(inst, st, c, subj, profs, days) && i < |profs|
    requires NoneBefore(inst, st, c, subj, profs, days, extra, check, i)
    requires !Fit(inst, st, c, subj, profs, days, extra, check, i)
    ensures NoneBefore(inst, st, c, subj, profs, days, extra, check, i + 1)
  {
  }

  /** The body of the professor loop once the i-th professor fits. */
  method Give(out: Schedule, c: nat, subj: nat, profs: seq<nat>, days: DayOrders, extra: nat, check: bool,
              i: nat, cand: seq<Hour>)
    requires out.Valid() && Setting(out.inst, out.Model(), c, subj, profs, days) && i < |profs|
    requires NoneBefore(out.inst, out.Model(), c, subj, profs, days, extra, check, i)
    requires cand == Compatible(out.inst, out.Model(), c, profs[i], days(extra, check, i), out.inst.subjectMaxHoursXDay + extra, check)
    requires |cand| >= out.inst.subjectHours[subj]
    modifies out
    ensures out.Valid()
    ensures PlacedBy(out.inst, old(out.Model()), c, subj, profs, days, extra, check, i, cand, out.Model())
  {
    CompatibleHoursProperties(out.inst, out.Model(), c, profs[i], days(extra, check, i), out.inst.subjectMaxHoursXDay + extra, check);
    AssignFirst(out, c, profs[i], cand, out.inst.subjectHours[subj]);
  }

  /** `for (i = 0; i < N_HoursXSubject; i++) out.AssignHour(...)`: every call succeeds
      because the hours are distinct and free for both. */
  method AssignFirst(out: Schedule, c: nat, p: nat, hs: seq<Hour>, n: nat)
    requires out.Valid() && c < out.inst.nClasses && p < out.inst.NProfs()
    requires InWeek(out.inst, hs) && Distinct(hs) && Ready(out.inst, out.Model(), c, p, hs) && n <= |hs|
    modifies out
    ensures out.Valid()
    ensures AssignedBefore(out.inst, old(out.Model()), c, p, hs, n, out.Model())
  {
    ghost var s0 := out.Model();
    AssignStart(out.inst, s0, c, p, hs);
    ghost var sj := out.inst.profSubject[p];
    assert CountersMatch(out.inst, s0);
    assert s0.weeklySubjectHours[c][sj] == CountDays(out.inst.profSubject, Teaches(sj), s0.scheduleClass[c]);
    for i := 0 to n
      invariant out.Valid()
      invariant AssignedBefore(out.inst, s0, c, p, hs, i, out.Model())
    {
      ghost var s := out.Model();
      GiveNext(out.inst, s0, c, p, hs, i, s);
      AddNext(out.inst, s0, c, p, i, s, hs[i].0, hs[i].1);
      var ok := out.AssignHour(c, hs[i].0, hs[i].1, p);
      assert ok;
    }
  }

  // ---------------------------------------------------------------- relaxation

  /** The round after one in which no professor fitted: the unavailability check
      is dropped first when its weight is below (extra + 1) times the daily-cap
      weight, or when the cap has reached HoursXDay; otherwise one more hour per
      day is allowed. */
  function Relax(inst: Instance, extra: nat, check: bool): (r: (nat, bool))
    ensures r == (extra, false) || r == (extra + 1, check)
  {
    if (inst.unavailabilityCost < (extra + 1) * inst.maxSubjectHoursXDayCost
        || inst.subjectMaxHoursXDay + extra == inst.nHoursXDay) && check
    then (extra, false)
    else (extra + 1, check)
  }

  /** The subject was left without a professor: either the daily cap already
      exceeds HoursXDay, so no round runs, or in the last round (cap HoursXDay, no
      unavailability check) no professor had enough compatible hours. */
  ghost predicate GaveUp(inst: Instance, st: State, c: nat, subj: nat, profs: seq<nat>, days: DayOrders)
    requires Setting(inst, st, c, subj, profs, days)
  {
    || inst.subjectMaxHoursXDay > inst.nHoursXDay
    || NoneBefore(inst, st, c, subj, profs, days, LastExtra(inst), false, |profs|)
  }

  /** The extra daily hours of the last round, whose cap is HoursXDay. */
  function LastExtra(inst: Instance): nat {
    if inst.subjectMaxHoursXDay <= inst.nHoursXDay then inst.nHoursXDay - inst.subjectMaxHoursXDay else 0
  }

  /** The rounds GreedyState runs for one class and subject, in order: the first
      checks the unavailability day with no extra daily hours, and each later one
      is the relaxation of the one before. */
  ghost function Round(inst: Instance, n: nat): (nat, bool) {
    if n == 0 then (0, true) else Relax(inst, Round(inst, n - 1).0, Round(inst, n - 1).1)
  }

  /** The body of GreedyState for one class and one subject with its professors
      already sorted: rounds of TryRound, relaxed after each failure, while the
      daily cap does not exceed HoursXDay. The subject is placed in round n, all
      earlier rounds having failed; or, when it is not placed, every round whose
      daily cap does not exceed HoursXDay failed and round n is the first whose
      cap does. */
  method PlaceSubject(out: Schedule, c: nat, subj: nat, profs: seq<nat>, days: DayOrders)
    returns (placed: bool, q: nat, hours: seq<Hour>, extra: nat, check: bool, ghost n: nat)
    requires out.Valid() && Setting(out.inst, out.Model(), c, subj, profs, days)
    modifies out
    ensures out.Valid()
    ensures (extra, check) == Round(out.inst, n)
    ensures forall m :: 0 <= m < n ==>
              && out.inst.subjectMaxHoursXDay + Round(out.inst, m).0 <= out.inst.nHoursXDay
              && NoneBefore(out.inst, old(out.Model()), c, subj, profs, days, Round(out.inst, m).0, Round(out.inst, m).1, |profs|)
    ensures placed ==> out.inst.subjectMaxHoursXDay + extra <= out.inst.nHoursXDay
    ensures placed ==> PlacedBy(out.inst, old(out.Model()), c, subj, profs, days, extra, check, q, hours, out.Model())
    ensures !placed ==> out.inst.subjectMaxHoursXDay + extra > out.inst.nHoursXDay
    ensures !placed ==> out.Model() == old(out.Model())
    ensures !placed ==> GaveUp(out.inst, old(out.Model()), c, subj, profs, days)
  {
    ghost var st0 := out.Model();
    var cap0 := out.inst.subjectMaxHoursXDay;
    var nH := out.inst.nHoursXDay;
    extra, check := 0, true;
    n := 0;
    while cap0 + extra <= nH
      invariant out.Valid() && out.Model() == st0
      invariant (extra, check) == Round(out.inst, n)
      invariant forall m :: 0 <= m < n ==>
                  && cap0 + Round(out.inst, m).0 <= nH
                  && NoneBefore(out.inst, st0, c, subj, profs, days, Round(out.inst, m).0, Round(out.inst, m).1, |profs|)
      decreases nH - (cap0 + extra), if check then 1 else 0
    {
      placed, q, hours := TryRound(out, c, subj, profs, days, extra, check);
      if placed {
        return;
      }
      if (out.inst.unavailabilityCost < (extra + 1) * out.inst.maxSubjectHoursXDayCost || cap0 + extra == nH) && check {
        check := false;
      } else {
        extra := extra + 1;
      }
      n := n + 1;
    }
    placed, q, hours := false, 0, [];
    if n > 0 {
      LastRound(out.inst, n);
    }
  }

  /** When round n is the first whose daily cap exceeds HoursXDay, the round
      before it had cap HoursXDay and no unavailability check. */
  lemma LastRound(inst: Instance, n: nat)
    requires n > 0 && inst.subjectMaxHoursXDay + Round(inst, n - 1).0 <= inst.nHoursXDay
    requires inst.subjectMaxHoursXDay + Round(inst, n).0 > inst.nHoursXDay
    ensures Round(inst, n - 1) == (LastExtra(inst), false)
  {
  }

  // ---------------------------------------------------------------- the construction

  /** The order subjects are visited in: every subject once, by non-increasing
      weekly hours (ties in any order). */
  predicate IsSubjectOrder(inst: Instance, subjects: seq<nat>) {
    && |subjects| == inst.NSubjects()
    && (forall i :: 0 <= i < |subjects| ==> subjects[i] < inst.NSubjects())
    && (forall i, j :: 0 <= i < j < |subjects| ==> subjects[i] != subjects[j])
    && (forall s :: 0 <= s < inst.NSubjects() ==> s in subjects)
    && (forall i, j :: 0 <= i < j < |subjects| ==> inst.subjectHours[subjects[i]] >= inst.subjectHours[subjects[j]])
  }

  /** Class c' and subject s have had their turn once GreedyState is at class c,
      k subjects into the order. */
  ghost predicate Visited(subjects: seq<nat>, c: nat, k: nat, c': nat, s: nat)
    requires k <= |subjects|
  {
    c' < c || (c' == c && s in subjects[..k])
  }

  /** Every pair that has had its turn holds all the subject's weekly hours, or
      none and then the subject cannot be placed in the class; every other pair
      holds none. */
  ghost predicate Progress(inst: Instance, st: State, subjects: seq<nat>, c: nat, k: nat)
    requires Fits(inst, st) && k <= |subjects|
  {
    forall c': nat, s: nat | c' < inst.nClasses && s < inst.NSubjects() :: Settled(inst, st, subjects, c, k, c', s)
  }

  /** The invariant for one class and subject. */
  ghost predicate Settled(inst: Instance, st: State, subjects: seq<nat>, c: nat, k: nat, c': nat, s: nat)
    requires Fits(inst, st) && k <= |subjects| && c' < inst.nClasses && s < inst.NSubjects()
  {
    || (st.weeklySubjectHours[c'][s] == 0 && (Visited(subjects, c, k, c', s) ==> Unplaceable(inst, st, c', s)))
    || (Visited(subjects, c, k, c', s) && st.weeklySubjectHours[c'][s] == inst.subjectHours[s])
  }

  /** No professor of subject s has as many hours free in common with class c as
      the subject needs per week. */
  ghost predicate NoRoom(inst: Instance, st: State, c: nat, s: nat)
    requires Fits(inst, st) && c < inst.nClasses && s < inst.NSubjects()
  {
    forall p: nat, hs: seq<Hour> | p in inst.profsXSubject[s] && InWeek(inst, hs) && Distinct(hs) && Ready(inst, st, c, p, hs) ::
      |hs| < inst.subjectHours[s]
  }

  /** Why a subject may be left out of a class: it has no weekly hours, its daily
      cap exceeds HoursXDay so no round runs, or there is no room for it. */
  ghost predicate Unplaceable(inst: Instance, st: State, c: nat, s: nat)
    requires Fits(inst, st) && c < inst.nClasses && s < inst.NSubjects()
  {
    || inst.subjectHours[s] == 0
    || inst.subjectMaxHoursXDay > inst.nHoursXDay
    || NoRoom(inst, st, c, s)
  }

  /** GreedyState with its random choices as parameters: `subjects` is the sorted
      subject order, `profOrders(c, k)` the shuffled professor list of the k-th
      subject before it is sorted by load, `days(c, k, e, b, i)` the day order of
      each scan. The result is a valid timetable in which every class has one
      professor per subject and, for every subject, either all its weekly hours
      or none; a subject with weekly hours and a daily cap within HoursXDay is
      left out of a class only when none of its professors has that many hours
      free in common with the class in the final timetable. */
  method GreedyState(out: Schedule, subjects: seq<nat>, profOrders: (nat, nat) -> seq<nat>,
                     days: (nat, nat, nat, bool, nat) -> seq<nat>)
    requires out.Valid() && IsSubjectOrder(out.inst, subjects)
    requires forall c, k :: 0 <= k < |subjects| ==>
               multiset(profOrders(c, k)) == multiset(out.inst.profsXSubject[subjects[k]])
    requires forall c, k, e, b, i :: IsDayOrder(out.inst, days(c, k, e, b, i))
    modifies out
    ensures out.Valid()
    ensures OneProfPerSubject(out.inst, out.Model())
    ensures forall c, s :: 0 <= c < out.inst.nClasses && 0 <= s < out.inst.NSubjects() ==>
              out.weeklySubjectHours[c][s] == 0 || out.weeklySubjectHours[c][s] == out.inst.subjectHours[s]
    ensures forall c: nat, s: nat, p: nat, hs: seq<Hour> |
              && c < out.inst.nClasses && s < out.inst.NSubjects()
              && out.weeklySubjectHours[c][s] == 0 && out.inst.subjectHours[s] > 0
              && out.inst.subjectMaxHoursXDay <= out.inst.nHoursXDay
              && p in out.inst.profsXSubject[s] && InWeek(out.inst, hs) && Distinct(hs)
              && Ready(out.inst, out.Model(), c, p, hs) ::
              |hs| < out.inst.subjectHours[s]
  {
    out.Reset();
    EmptyReady(out.inst, out.Model(), subjects);
    for c := 0 to out.inst.nClasses
      invariant out.Valid() && OneProfPerSubject(out.inst, out.Model())
      invariant Progress(out.inst, out.Model(), subjects, c, 0)
    {
      for k := 0 to |subjects|
        invariant out.Valid() && OneProfPerSubject(out.inst, out.Model())
        invariant Progress(out.inst, out.Model(), subjects, c, k)
      {
        ghost var st0 := out.Model();
        var subj := subjects[k];
        ProfListOk(out.inst, profOrders(c, k), subj);
        var profs := SortByLoad(profOrders(c, k), out.profWeeklyHours);
        assert multiset(profs) == multiset(profOrders(c, k));
        ProfListOk(out.inst, profs, subj);
        var dayOrders: DayOrders := (e, b, i) => days(c, k, e, b, i);
        ghost var rounds;
        var placed, q, hours, extra, check;
        placed, q, hours, extra, check, rounds := PlaceSubject(out, c, subj, profs, dayOrders);
        if placed {
          TurnTaken(out.inst, st0, subjects, c, k, profs[q], hours, out.Model());
        } else {
          GaveUpUnplaceable(out.inst, st0, c, subj, profs, dayOrders);
          TurnSkipped(out.inst, st0, subjects, c, k);
        }
      }
      NextClass(out.inst, out.Model(), subjects, c);
    }
    FinalProgress(out.inst, out.Model(), subjects);
  }

  // ---------------------------------------------------------------- the invariant's steps

  /** A professor list with the same professors as the subject's list teaches the subject. */
  lemma ProfListOk(inst: Instance, profs: seq<nat>, subj: nat)
    requires inst.WellFormed() && subj < inst.NSubjects()
    requires multiset(profs) == multiset(inst.profsXSubject[subj])
    ensures ProfsOf(inst, profs, subj) && InRange(profs, inst.NProfs())
  {
    forall i | 0 <= i < |profs|
      ensures profs[i] < inst.NProfs() && inst.profSubject[profs[i]] == subj
    {
      assert profs[i] in multiset(inst.profsXSubject[subj]);
      var j :| 0 <= j < |inst.profsXSubject[subj]| && inst.profsXSubject[subj][j] == profs[i];
    }
  }

  /** The empty timetable satisfies the invariant before the first class. */
  lemma EmptyReady(inst: Instance, st: State, subjects: seq<nat>)
    requires inst.WellFormed() && st == Empty(inst)
    ensures OneProfPerSubject(inst, st) && Progress(inst, st, subjects, 0, 0)
  {
  }

  /** A turn that placed the subject keeps the invariant. */
  lemma TurnTaken(inst: Instance, st0: State, subjects: seq<nat>, c: nat, k: nat, p: nat, hours: seq<Hour>, st: State)
    requires Valid(inst, st0) && Valid(inst, st) && OneProfPerSubject(inst, st0)
    requires IsSubjectOrder(inst, subjects) && c < inst.nClasses && k < |subjects|
    requires Progress(inst, st0, subjects, c, k)
    requires p < inst.NProfs() && inst.profSubject[p] == subjects[k]
    requires InWeek(inst, hours) && inst.subjectHours[subjects[k]] <= |hours|
    requires AssignedBefore(inst, st0, c, p, hours, inst.subjectHours[subjects[k]], st)
    ensures OneProfPerSubject(inst, st)
    ensures Progress(inst, st, subjects, c, k + 1)
  {
    var subj := subjects[k];
    assert subjects[..k + 1] == subjects[..k] + [subj];
    assert subj !in subjects[..k];
    assert !Visited(subjects, c, k, c, subj);
    assert Settled(inst, st0, subjects, c, k, c, subj);
    OneProfKept(inst, st0, c, p, hours, inst.subjectHours[subj], st);
    var k1 := k + 1;
    forall c': nat, s: nat | c' < inst.nClasses && s < inst.NSubjects()
      ensures Settled(inst, st, subjects, c, k1, c', s)
    {
      if (c', s) != (c, subj) {
        assert Settled(inst, st0, subjects, c, k, c', s);
        assert st.weeklySubjectHours[c'][s] == st0.weeklySubjectHours[c'][s];
        assert Visited(subjects, c, k, c', s) <==> Visited(subjects, c, k + 1, c', s);
        if st0.weeklySubjectHours[c'][s] == 0 && Visited(subjects, c, k, c', s) && NoRoom(inst, st0, c', s) {
          NoRoomKept(inst, st0, c, p, hours, inst.subjectHours[subj], st, c', s);
        }
      } else {
        assert subj in subjects[..k + 1];
        assert st.weeklySubjectHours[c][subj] == inst.subjectHours[subj];
      }
    }
  }

  /** A turn that placed nothing keeps the invariant. */
  lemma TurnSkipped(inst: Instance, st: State, subjects: seq<nat>, c: nat, k: nat)
    requires Fits(inst, st) && IsSubjectOrder(inst, subjects) && c < inst.nClasses && k < |subjects|
    requires Progress(inst, st, subjects, c, k)
    requires Unplaceable(inst, st, c, subjects[k])
    ensures Progress(inst, st, subjects, c, k + 1)
  {
    assert subjects[..k + 1] == subjects[..k] + [subjects[k]];
    var k1 := k + 1;
    forall c': nat, s: nat | c' < inst.nClasses && s < inst.NSubjects()
      ensures Settled(inst, st, subjects, c, k1, c', s)
    {
      assert Settled(inst, st, subjects, c, k, c', s);
      assert Visited(subjects, c, k, c', s) ==> Visited(subjects, c, k + 1, c', s);
    }
  }

  /** Giving a professor hours of a subject the class had no hour of keeps one
      professor per subject in every class. */
  lemma OneProfKept(inst: Instance, st0: State, c: nat, p: nat, hours: seq<Hour>, n: nat, st: State)
    requires Valid(inst, st0) && Valid(inst, st) && OneProfPerSubject(inst, st0)
    requires c < inst.nClasses && p < inst.NProfs() && InWeek(inst, hours) && n <= |hours|
    requires st0.weeklySubjectHours[c][inst.profSubject[p]] == 0
    requires AssignedBefore(inst, st0, c, p, hours, n, st)
    ensures OneProfPerSubject(inst, st)
  {
    var sj := inst.profSubject[p];
    forall c', d, h | 0 <= c' < inst.nClasses && 0 <= d < inst.nDays && 0 <= h < inst.nHoursXDay &&
        st.scheduleClass[c'][d][h] != -1
      ensures st.classProfs[c'][inst.profSubject[st.scheduleClass[c'][d][h]]] == st.scheduleClass[c'][d][h]
    {
      if c' == c && (d, h) in hours[..n] {
        assert st.scheduleClass[c'][d][h] == p;
      } else {
        var q := st0.scheduleClass[c'][d][h];
        assert st.scheduleClass[c'][d][h] == q;
        assert st0.classProfs[c'][inst.profSubject[q]] == q;
        if c' == c && inst.profSubject[q] == sj {
          assert false;
        }
      }
    }
  }

  /** After the last subject of class c, the pairs visited are those of the classes up to c. */
  lemma NextClass(inst: Instance, st: State, subjects: seq<nat>, c: nat)
    requires Fits(inst, st) && IsSubjectOrder(inst, subjects)
    requires Progress(inst, st, subjects, c, |subjects|)
    ensures Progress(inst, st, subjects, c + 1, 0)
  {
    assert subjects[..|subjects|] == subjects;
    var c1 := c + 1;
    forall c': nat, s: nat | c' < inst.nClasses && s < inst.NSubjects()
      ensures Settled(inst, st, subjects, c1, 0, c', s)
    {
      assert Settled(inst, st, subjects, c, |subjects|, c', s);
      assert Visited(subjects, c + 1, 0, c', s) == Visited(subjects, c, |subjects|, c', s);
    }
  }

  lemma FinalProgress(inst: Instance, st: State, subjects: seq<nat>)
    requires Fits(inst, st) && IsSubjectOrder(inst, subjects)
    requires Progress(inst, st, subjects, inst.nClasses, 0)
    ensures forall c, s :: 0 <= c < inst.nClasses && 0 <= s < inst.NSubjects() ==>
              st.weeklySubjectHours[c][s] == 0 || st.weeklySubjectHours[c][s] == inst.subjectHours[s]
    ensures forall c: nat, s: nat | c < inst.nClasses && s < inst.NSubjects() && st.weeklySubjectHours[c][s] == 0 ::
              Unplaceable(inst, st, c, s)
  {
    forall c: nat, s: nat | c < inst.nClasses && s < inst.NSubjects()
      ensures st.weeklySubjectHours[c][s] == 0 || st.weeklySubjectHours[c][s] == inst.subjectHours[s]
      ensures st.weeklySubjectHours[c][s] == 0 ==> Unplaceable(inst, st, c, s)
    {
      assert Settled(inst, st, subjects, inst.nClasses, 0, c, s);
      assert Visited(subjects, inst.nClasses, 0, c, s);
    }
  }

  /** Filling hours of class c for professor p only takes free hours away: a
      subject with no room before has none after. */
  lemma NoRoomKept(inst: Instance, st0: State, c: nat, p: nat, hours: seq<Hour>, n: nat, st: State, c': nat, s: nat)
    requires Fits(inst, st0) && Fits(inst, st) && c < inst.nClasses && p < inst.NProfs() && InWeek(inst, hours) && n <= |hours|
    requires GivenBefore(inst, st0, c, p, hours, n, st)
    requires c' < inst.nClasses && s < inst.NSubjects() && NoRoom(inst, st0, c', s)
    ensures NoRoom(inst, st, c', s)
  {
    forall q: nat, hs: seq<Hour> | q in inst.profsXSubject[s] && InWeek(inst, hs) && Distinct(hs) && Ready(inst, st, c', q, hs)
      ensures |hs| < inst.subjectHours[s]
    {
      forall i | 0 <= i < |hs|
        ensures CanAssign(inst, st0, c', hs[i].0, hs[i].1, q)
      {
        assert CanAssign(inst, st, c', hs[i].0, hs[i].1, q);
      }
      assert Ready(inst, st0, c', q, hs);
    }
  }

  // ---------------------------------------------------------------- giving up

  /** When GreedyState gives a subject up although the daily cap does not exceed
      HoursXDay, no professor of the list has as many hours free in common with the
      class as the subject needs. */
  lemma GaveUpMeansNoRoom(inst: Instance, st: State, c: nat, subj: nat, profs: seq<nat>, days: DayOrders,
                          i: nat, hs: seq<Hour>)
    requires Setting(inst, st, c, subj, profs, days)
    requires GaveUp(inst, st, c, subj, profs, days) && inst.subjectMaxHoursXDay <= inst.nHoursXDay
    requires i < |profs| && InWeek(inst, hs) && Distinct(hs) && Ready(inst, st, c, profs[i], hs)
    ensures |hs| < inst.subjectHours[subj]
  {
    var e := LastExtra(inst);
    assert !Fit(inst, st, c, subj, profs, days, e, false, i);
    FullScanBound(inst, st, c, profs[i], days(e, false, i), hs);
  }

  /** A subject GreedyState gives up, with the subject's full professor list,
      cannot be placed in the class. */
  lemma GaveUpUnplaceable(inst: Instance, st: State, c: nat, subj: nat, profs: seq<nat>, days: DayOrders)
    requires Setting(inst, st, c, subj, profs, days)
    requires multiset(profs) == multiset(inst.profsXSubject[subj])
    requires GaveUp(inst, st, c, subj, profs, days)
    ensures Unplaceable(inst, st, c, subj)
  {
    if inst.subjectMaxHoursXDay <= inst.nHoursXDay {
      forall q: nat, hs: seq<Hour> | q in inst.profsXSubject[subj] && InWeek(inst, hs) && Distinct(hs) && Ready(inst, st, c, q, hs)
        ensures |hs| < inst.subjectHours[subj]
      {
        assert q in multiset(profs);
        var i :| 0 <= i < |profs| && profs[i] == q;
        GaveUpMeansNoRoom(inst, st, c, subj, profs, days, i, hs);
      }
    }
  }
}
