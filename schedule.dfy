/** Sched_Output as an object: the timetable fields, updated in place by
    AssignHour, FreeHour and SwapHours, each proved to do to `Model()` what the
    value-level function of the same name in ScheduleState describes. */
module Output {
  import opened Input
  import opened Counting
  import opened ScheduleState

  class Schedule {
    const inst: Instance
    var scheduleClass: seq<seq<seq<int>>>
    var classProfs: seq<seq<int>>
    var dailySubjectHours: seq<seq<seq<int>>>
    var weeklySubjectHours: seq<seq<int>>
    var scheduleProf: seq<seq<seq<int>>>
    var profWeeklyHours: seq<int>
    var profDayOff: seq<int>

    ghost function Model(): State
      reads this
    {
      State(scheduleClass, classProfs, dailySubjectHours, weeklySubjectHours,
            scheduleProf, profWeeklyHours, profDayOff)
    }

    ghost predicate Valid()
      reads this
    {
      ScheduleState.Valid(inst, Model())
    }

    /** The empty timetable of an instance (the Sched_Output constructor). */
    constructor (input: Instance)
      requires input.WellFormed()
      ensures inst == input
      ensures Model() == Empty(input)
      ensures Valid()
    {
      inst := input;
      scheduleClass := EmptyGrid(input.nClasses, input.nDays, input.nHoursXDay);
      classProfs := ConstTable(input.nClasses, input.NSubjects(), -1);
      dailySubjectHours := ZeroGrid(input.nClasses, input.nDays, input.NSubjects());
      weeklySubjectHours := ConstTable(input.nClasses, input.NSubjects(), 0);
      scheduleProf := EmptyGrid(input.NProfs(), input.nDays, input.nHoursXDay);
      profWeeklyHours := seq(input.NProfs(), _ => 0);
      var dayOff := seq(input.NProfs(), _ => 0);
      var i := 0;
      while i < input.NProfs()
        invariant 0 <= i <= input.NProfs() && |dayOff| == input.NProfs()
        invariant forall k :: 0 <= k < i ==> dayOff[k] == input.profUnavailability[k] as int
      {
        dayOff := dayOff[i := input.profUnavailability[i] as int];
        i := i + 1;
      }
      profDayOff := dayOff;
      new;
      assert Model().profDayOff == Empty(input).profDayOff;
    }

    /** Sched_Output::Reset: back to the constructor's state, class by class and
        professor by professor. */
    method Reset()
      requires Valid()
      modifies this
      ensures Model() == Empty(inst)
      ensures Valid()
    {
      ResetClasses();
      ResetProfs();
      ghost var e := Empty(inst);
      assert Model() == e;
    }

    /** The class loop of Reset. */
    method ResetClasses()
      requires Valid()
      modifies this
      ensures scheduleClass == Empty(inst).scheduleClass && classProfs == Empty(inst).classProfs
      ensures dailySubjectHours == Empty(inst).dailySubjectHours && weeklySubjectHours == Empty(inst).weeklySubjectHours
      ensures scheduleProf == old(scheduleProf) && profWeeklyHours == old(profWeeklyHours) && profDayOff == old(profDayOff)
    {
      ghost var e := Empty(inst);
      var c := 0;
      while c < inst.nClasses
        invariant 0 <= c <= inst.nClasses
        invariant |scheduleClass| == |classProfs| == |dailySubjectHours| == |weeklySubjectHours| == inst.nClasses
        invariant forall i :: 0 <= i < c ==> scheduleClass[i] == e.scheduleClass[i] && classProfs[i] == e.classProfs[i]
        invariant forall i :: 0 <= i < c ==> dailySubjectHours[i] == e.dailySubjectHours[i] && weeklySubjectHours[i] == e.weeklySubjectHours[i]
        invariant scheduleProf == old(scheduleProf) && profWeeklyHours == old(profWeeklyHours) && profDayOff == old(profDayOff)
      {
        scheduleClass := scheduleClass[c := seq(inst.nDays, _ => seq(inst.nHoursXDay, _ => -1))];
        dailySubjectHours := dailySubjectHours[c := seq(inst.nDays, _ => seq(inst.NSubjects(), _ => 0))];
        classProfs := classProfs[c := seq(inst.NSubjects(), _ => -1)];
        weeklySubjectHours := weeklySubjectHours[c := seq(inst.NSubjects(), _ => 0)];
        c := c + 1;
      }
    }

    /** The professor loop of Reset. */
    method ResetProfs()
      requires inst.WellFormed() && |scheduleProf| == |profWeeklyHours| == |profDayOff| == inst.NProfs()
      modifies this
      ensures scheduleProf == Empty(inst).scheduleProf && profWeeklyHours == Empty(inst).profWeeklyHours
      ensures profDayOff == Empty(inst).profDayOff
      ensures scheduleClass == old(scheduleClass) && classProfs == old(classProfs)
      ensures dailySubjectHours == old(dailySubjectHours) && weeklySubjectHours == old(weeklySubjectHours)
    {
      ghost var e := Empty(inst);
      var p := 0;
      while p < inst.NProfs()
        invariant 0 <= p <= inst.NProfs()
        invariant |scheduleProf| == |profWeeklyHours| == |profDayOff| == inst.NProfs()
        invariant forall i :: 0 <= i < p ==> scheduleProf[i] == e.scheduleProf[i]
        invariant forall i :: 0 <= i < p ==> profWeeklyHours[i] == 0 && profDayOff[i] == inst.profUnavailability[i] as int
        invariant scheduleClass == old(scheduleClass) && classProfs == old(classProfs)
        invariant dailySubjectHours == old(dailySubjectHours) && weeklySubjectHours == old(weeklySubjectHours)
      {
        scheduleProf := scheduleProf[p := seq(inst.nDays, _ => seq(inst.nHoursXDay, _ => -1))];
        profWeeklyHours := profWeeklyHours[p := 0];
        profDayOff := profDayOff[p := inst.profUnavailability[p] as int];
        p := p + 1;
      }
      assert scheduleProf == e.scheduleProf;
      assert profWeeklyHours == e.profWeeklyHours;
      assert profDayOff == e.profDayOff;
    }

    /** operator==: field-by-field equality of the two timetables. */
    method Equals(other: Schedule) returns (eq: bool)
      ensures eq <==> Model() == other.Model()
    {
      eq := scheduleClass == other.scheduleClass && classProfs == other.classProfs &&
            dailySubjectHours == other.dailySubjectHours && weeklySubjectHours == other.weeklySubjectHours &&
            scheduleProf == other.scheduleProf && profWeeklyHours == other.profWeeklyHours &&
            profDayOff == other.profDayOff;
    }

    // ---------------------------------------------------------------- selectors

    /** Class_Schedule: a professor index, or -1. */
    function ClassSchedule(c: nat, d: nat, h: nat): (p: int)
      reads this
      requires Valid() && c < inst.nClasses && d < inst.nDays && h < inst.nHoursXDay
      ensures -1 <= p < inst.NProfs()
      ensures p != -1 ==> scheduleProf[p][d][h] == c
    {
      scheduleClass[c][d][h]
    }

    /** Prof_Schedule: a class index, or -1. */
    function ProfSchedule(p: nat, d: nat, h: nat): (c: int)
      reads this
      requires Valid() && p < inst.NProfs() && d < inst.nDays && h < inst.nHoursXDay
      ensures -1 <= c < inst.nClasses
      ensures c != -1 ==> scheduleClass[c][d][h] == p
    {
      scheduleProf[p][d][h]
    }

    /** IsClassHourFree: no professor teaches class c at (d, h). */
    function IsClassHourFree(c: nat, d: nat, h: nat): (free: bool)
      reads this
      requires Valid() && c < inst.nClasses && d < inst.nDays && h < inst.nHoursXDay
      ensures free <==> scheduleClass[c][d][h] == -1
      ensures free <==> forall p :: 0 <= p < inst.NProfs() ==> scheduleProf[p][d][h] != c
    {
      ClassSchedule(c, d, h) == -1
    }

    /** IsProfHourFree: professor p teaches no class at (d, h). */
    function IsProfHourFree(p: nat, d: nat, h: nat): (free: bool)
      reads this
      requires Valid() && p < inst.NProfs() && d < inst.nDays && h < inst.nHoursXDay
      ensures free <==> scheduleProf[p][d][h] == -1
      ensures free <==> forall c :: 0 <= c < inst.nClasses ==> scheduleClass[c][d][h] != p
    {
      ProfSchedule(p, d, h) == -1
    }

    /** Subject_Prof: the professor teaching subject s to class c, or -1 when the
        class has no hour of s. */
    function SubjectProf(c: nat, s: nat): (p: int)
      reads this
      requires Valid() && c < inst.nClasses && s < inst.NSubjects()
      ensures p == -1 <==> CountDays(inst.profSubject, Teaches(s), scheduleClass[c]) == 0
      ensures p != -1 ==> 0 <= p < inst.NProfs() && inst.profSubject[p] == s
    {
      classProfs[c][s]
    }

    /** DailySubjectAssignedHours: the hours of subject s class c has on day d. */
    function DailySubjectAssignedHours(c: nat, d: nat, s: nat): (n: int)
      reads this
      requires Valid() && c < inst.nClasses && d < inst.nDays && s < inst.NSubjects()
      ensures n == Count(inst.profSubject, Teaches(s), scheduleClass[c][d])
    {
      dailySubjectHours[c][d][s]
    }

    /** WeeklySubjectAssignedHours: the hours of subject s class c has in the week. */
    function WeeklySubjectAssignedHours(c: nat, s: nat): (n: int)
      reads this
      requires Valid() && c < inst.nClasses && s < inst.NSubjects()
      ensures n == CountDays(inst.profSubject, Teaches(s), scheduleClass[c])
    {
      weeklySubjectHours[c][s]
    }

    /** WeeklySubjectResidualHours: the hours of s class c still lacks. The source
        computes it unsigned, so it is defined only while the class has no more
        hours of s than the target. */
    function WeeklySubjectResidualHours(c: nat, s: nat): (r: int)
      reads this
      requires Valid() && c < inst.nClasses && s < inst.NSubjects()
      requires weeklySubjectHours[c][s] <= inst.subjectHours[s]
      ensures r >= 0
      ensures r + CountDays(inst.profSubject, Teaches(s), scheduleClass[c]) == inst.subjectHours[s]
    {
      inst.subjectHours[s] - weeklySubjectHours[c][s]
    }

    /** ProfWeeklyAssignedHours: the hours professor p teaches in the week. */
    function ProfWeeklyAssignedHours(p: nat): (n: int)
      reads this
      requires Valid() && p < inst.NProfs()
      ensures n == CountDays(inst.profSubject, Busy, scheduleProf[p])
    {
      profWeeklyHours[p]
    }

    /** ProfAssignedDayOff: the day off ComputeProfDayOff derived for p. */
    function ProfAssignedDayOff(p: nat): (d: int)
      reads this
      requires Valid() && p < inst.NProfs()
      ensures d == inst.profUnavailability[p] <==> IsFreeRow(scheduleProf[p][inst.profUnavailability[p]])
      ensures d != -1 ==> 0 <= d < inst.nDays && IsFreeRow(scheduleProf[p][d])
    {
      DayOffCases(scheduleProf[p], inst.profUnavailability[p]);
      profDayOff[p]
    }

    // ---------------------------------------------------------------- mutators

    /** Whether professor p teaches at some hour of day d. */
    method HasHourOn(p: nat, d: nat) returns (busy: bool)
      requires Fits(inst, Model()) && p < inst.NProfs() && d < inst.nDays
      ensures busy <==> !IsFreeRow(scheduleProf[p][d])
    {
      busy := false;
      var h := 0;
      while h < inst.nHoursXDay
        invariant 0 <= h <= inst.nHoursXDay
        invariant !busy
        invariant forall k :: 0 <= k < h ==> scheduleProf[p][d][k] == -1
      {
        if scheduleProf[p][d][h] != -1 {
          busy := true;
          return;
        }
        h := h + 1;
      }
    }

    /** Sched_Output::ComputeProfDayOff: re-derives p's day off from p's timetable. */
    method ComputeProfDayOff(p: nat)
      requires Fits(inst, Model()) && p < inst.NProfs()
      modifies this
      ensures scheduleClass == old(scheduleClass) && classProfs == old(classProfs)
      ensures dailySubjectHours == old(dailySubjectHours) && weeklySubjectHours == old(weeklySubjectHours)
      ensures scheduleProf == old(scheduleProf) && profWeeklyHours == old(profWeeklyHours)
      ensures profDayOff == old(profDayOff)[p := DayOff(scheduleProf[p], inst.profUnavailability[p])]
    {
      var u := inst.profUnavailability[p];
      var schoolDay := HasHourOn(p, u);
      if !schoolDay {
        profDayOff := profDayOff[p := u as int];
        return;
      }
      var d := 0;
      while d < inst.nDays
        invariant 0 <= d <= inst.nDays
        invariant Model() == old(Model())
        invariant FirstFreeDayFrom(scheduleProf[p], u, d) == DayOff(scheduleProf[p], u)
      {
        if d != u {
          schoolDay := HasHourOn(p, d);
          if !schoolDay {
            profDayOff := profDayOff[p := d as int];
            return;
          }
        }
        d := d + 1;
      }
      profDayOff := profDayOff[p := -1];
    }

    /** The writes of a successful AssignHour, before p's day off is recomputed. */
    method WriteHour(c: nat, d: nat, h: nat, p: nat)
      requires Fits(inst, Model()) && c < inst.nClasses && d < inst.nDays && h < inst.nHoursXDay && p < inst.NProfs()
      requires CanAssign(inst, Model(), c, d, h, p)
      modifies this
      ensures Model() == Assigned(inst, old(Model()), c, d, h, p).(profDayOff := old(profDayOff))
    {
      var s := inst.profSubject[p];
      scheduleClass := scheduleClass[c := scheduleClass[c][d := scheduleClass[c][d][h := p]]];
      scheduleProf := scheduleProf[p := scheduleProf[p][d := scheduleProf[p][d][h := c]]];
      if weeklySubjectHours[c][s] == 0 {
        classProfs := classProfs[c := classProfs[c][s := p]];
      }
      weeklySubjectHours := weeklySubjectHours[c := weeklySubjectHours[c][s := weeklySubjectHours[c][s] + 1]];
      dailySubjectHours := dailySubjectHours[c := dailySubjectHours[c][d := dailySubjectHours[c][d][s := dailySubjectHours[c][d][s] + 1]]];
      profWeeklyHours := profWeeklyHours[p := profWeeklyHours[p] + 1];
    }

    /** Sched_Output::AssignHour: puts p in class c at (d, h) when both hours are
        free; otherwise changes nothing and answers false. */
    method AssignHour(c: nat, d: nat, h: nat, p: nat) returns (ok: bool)
      requires Valid() && c < inst.nClasses && d < inst.nDays && h < inst.nHoursXDay && p < inst.NProfs()
      modifies this
      ensures ok == CanAssign(inst, old(Model()), c, d, h, p)
      ensures ok ==> Model() == Assigned(inst, old(Model()), c, d, h, p)
      ensures !ok ==> Model() == old(Model())
      ensures Valid()
    {
      if scheduleClass[c][d][h] != -1 || scheduleProf[p][d][h] != -1 {
        return false;
      }
      ghost var before := Model();
      WriteHour(c, d, h, p);
      FitsIgnoresDayOff(inst, Assigned(inst, before, c, d, h, p), before.profDayOff);
      ComputeProfDayOff(p);
      AssignedValid(inst, before, c, d, h, p);
      return true;
    }

    /** Sched_Output::FreeHour: empties class c's hour (d, h) and its professor's
        mirror hour; answers false, changing nothing, when it was already free. */
    method FreeHour(c: nat, d: nat, h: nat) returns (ok: bool)
      requires Valid() && c < inst.nClasses && d < inst.nDays && h < inst.nHoursXDay
      modifies this
      ensures ok == (old(scheduleClass[c][d][h]) != -1)
      ensures ok ==> Model() == Freed(inst, old(Model()), c, d, h)
      ensures !ok ==> Model() == old(Model())
      ensures Valid()
    {
      if scheduleClass[c][d][h] == -1 {
        return false;
      }
      ghost var before := Model();
      ghost var after := Freed(inst, before, c, d, h);
      var p := scheduleClass[c][d][h];
      var s := inst.profSubject[p];
      scheduleClass := scheduleClass[c := scheduleClass[c][d := scheduleClass[c][d][h := -1]]];
      scheduleProf := scheduleProf[p := scheduleProf[p][d := scheduleProf[p][d][h := -1]]];
      weeklySubjectHours := weeklySubjectHours[c := weeklySubjectHours[c][s := weeklySubjectHours[c][s] - 1]];
      dailySubjectHours := dailySubjectHours[c := dailySubjectHours[c][d := dailySubjectHours[c][d][s := dailySubjectHours[c][d][s] - 1]]];
      profWeeklyHours := profWeeklyHours[p := profWeeklyHours[p] - 1];
      if weeklySubjectHours[c][s] == 0 {
        classProfs := classProfs[c := classProfs[c][s := -1]];
      }
      assert Model() == after.(profDayOff := before.profDayOff);
      FitsIgnoresDayOff(inst, after, before.profDayOff);
      ComputeProfDayOff(p);
      FreedValid(inst, before, c, d, h);
      return true;
    }

    /** Sched_Output::SwapHours: exchanges the contents of two hours, or moves an
        occupied hour to a free one, as SwapHoursResult describes. */
    method SwapHours(c1: nat, d1: nat, h1: nat, c2: nat, d2: nat, h2: nat) returns (ok: bool)
      requires Valid()
      requires c1 < inst.nClasses && d1 < inst.nDays && h1 < inst.nHoursXDay
      requires c2 < inst.nClasses && d2 < inst.nDays && h2 < inst.nHoursXDay
      modifies this
      ensures ok == SwapHoursResult(inst, old(Model()), c1, d1, h1, c2, d2, h2).0
      ensures Model() == SwapHoursResult(inst, old(Model()), c1, d1, h1, c2, d2, h2).1
      ensures Valid()
    {
      var x1 := scheduleClass[c1][d1][h1];
      var x2 := scheduleClass[c2][d2][h2];
      if x1 == x2 {
        return false;
      } else if x1 != -1 && x2 != -1 {
        if scheduleProf[x1][d2][h2] == -1 && scheduleProf[x2][d1][h1] == -1 {
          ExchangeHours(c1, d1, h1, c2, d2, h2);
        } else {
          return false;
        }
      } else {
        var ca, da, ha, cb, db, hb := c1, d1, h1, c2, d2, h2;
        if x1 == -1 && x2 != -1 {
          ca, da, ha, cb, db, hb := c2, d2, h2, c1, d1, h1;
        }
        var p1 := scheduleClass[ca][da][ha];
        if scheduleProf[p1][db][hb] == -1 {
          MoveHour(ca, da, ha, cb, db, hb);
        } else {
          return false;
        }
      }
      return true;
    }

    /** The both-occupied branch of SwapHours: free both hours, then assign each
        professor to the other's hour. */
    method ExchangeHours(c1: nat, d1: nat, h1: nat, c2: nat, d2: nat, h2: nat)
      requires Valid()
      requires c1 < inst.nClasses && d1 < inst.nDays && h1 < inst.nHoursXDay
      requires c2 < inst.nClasses && d2 < inst.nDays && h2 < inst.nHoursXDay
      requires var x1 := scheduleClass[c1][d1][h1];
               var x2 := scheduleClass[c2][d2][h2];
               x1 != x2 && x1 != -1 && x2 != -1 && scheduleProf[x1][d2][h2] == -1 && scheduleProf[x2][d1][h1] == -1
      modifies this
      ensures Model() == Exchanged(inst, old(Model()), c1, d1, h1, c2, d2, h2)
      ensures Valid()
    {
      var x1 := scheduleClass[c1][d1][h1];
      var x2 := scheduleClass[c2][d2][h2];
      FreeBoth(inst, Model(), c1, d1, h1, c2, d2, h2);
      var _ := FreeHour(c1, d1, h1);
      var _ := FreeHour(c2, d2, h2);
      AssignedCells(inst, Model(), c1, d1, h1, x2);
      var _ := AssignHour(c1, d1, h1, x2);
      var _ := AssignHour(c2, d2, h2, x1);
    }

    /** The one-empty branch of SwapHours, with (c1, d1, h1) the occupied hour:
        free it, assign its professor to the empty hour, then recompute that
        professor's day off once more. */
    method MoveHour(c1: nat, d1: nat, h1: nat, c2: nat, d2: nat, h2: nat)
      requires Valid()
      requires c1 < inst.nClasses && d1 < inst.nDays && h1 < inst.nHoursXDay
      requires c2 < inst.nClasses && d2 < inst.nDays && h2 < inst.nHoursXDay
      requires var x1 := scheduleClass[c1][d1][h1];
               x1 != -1 && scheduleClass[c2][d2][h2] == -1 && scheduleProf[x1][d2][h2] == -1
      modifies this
      ensures Model() == Moved(inst, old(Model()), c1, d1, h1, c2, d2, h2)
      ensures Valid()
    {
      var p1 := scheduleClass[c1][d1][h1];
      FreedCells(inst, Model(), c1, d1, h1);
      var _ := FreeHour(c1, d1, h1);
      var _ := AssignHour(c2, d2, h2, p1);
      ghost var moved := Model();
      ComputeProfDayOff(p1);
      assert profDayOff == moved.profDayOff;
    }
  }
}
