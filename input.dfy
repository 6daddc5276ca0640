/** The problem definition (Sched_Input): the read-only instance data every other
    module consumes, the seven days of the week, and the two derivations the loader
    performs on already-parsed values (default caps, professors grouped by subject). */
module Input {

  /** The days of the week, in the order the instance file numbers them. */
  datatype Day = Lun | Mar | Mer | Gio | Ven | Sab | Dom

  function DayIndex(d: Day): (i: nat)
    ensures i < 7
  {
    match d
    case Lun => 0
    case Mar => 1
    case Mer => 2
    case Gio => 3
    case Ven => 4
    case Sab => 5
    case Dom => 6
  }

  function DayOf(i: nat): (d: Day)
    requires i < 7
    ensures DayIndex(d) == i
  {
    if i == 0 then Lun
    else if i == 1 then Mar
    else if i == 2 then Mer
    else if i == 3 then Gio
    else if i == 4 then Ven
    else if i == 5 then Sab
    else Dom
  }

  /** Days are numbered 0..6 without gaps or repetitions. */
  lemma DayNumbering(d: Day, i: nat)
    requires i < 7
    ensures DayOf(DayIndex(d)) == d
    ensures DayIndex(DayOf(i)) == i
    ensures DayIndex(d) == i <==> d == DayOf(i)
  {
  }

  /** The tokens of the instance file for the days, by day number. */
  const DayNames: seq<string> := ["lun", "mar", "mer", "gio", "ven", "sab", "dom"]

  /** The token the instance file uses for a professor's unavailability day;
      any other token is the loader's "Inexistent day of week" error. */
  function ParseDay(token: string): (r: Option<Day>)
    ensures r.Some? <==> token in DayNames
    ensures r.Some? ==> DayNames[DayIndex(r.value)] == token
  {
    if token == "lun" then Some(Lun)
    else if token == "mar" then Some(Mar)
    else if token == "mer" then Some(Mer)
    else if token == "gio" then Some(Gio)
    else if token == "ven" then Some(Ven)
    else if token == "sab" then Some(Sab)
    else if token == "dom" then Some(Dom)
    else None
  }

  /** Every day's own token parses back to that day. */
  lemma ParseDayNames(d: Day)
    ensures ParseDay(DayNames[DayIndex(d)]) == Some(d)
  {
  }

  datatype Option<T> = None | Some(value: T)

  /** The parsed instance: grid size, subjects with their weekly hours,
      professors with their subject and unavailability day, classes, the two caps
      and the four violation weights. */
  datatype Instance = Instance(
    nDays: nat,
    nHoursXDay: nat,
    subjectHours: seq<nat>,        // N_HoursXSubject(s); N_Subjects() == |subjectHours|
    profSubject: seq<nat>,         // ProfSubject(p); N_Profs() == |profSubject|
    profUnavailability: seq<nat>,  // ProfUnavailability(p), a day number
    nClasses: nat,
    profsXSubject: seq<seq<nat>>,  // SubjectProf(s, i) == profsXSubject[s][i]
    subjectMaxHoursXDay: nat,
    profMaxWeeklyHours: nat,
    unavailabilityCost: nat,
    maxSubjectHoursXDayCost: nat,
    maxProfWeeklyHoursCost: nat,
    scheduleContiguityCost: nat)
  {
    function NSubjects(): nat { |subjectHours| }
    function NProfs(): nat { |profSubject| }

    /** What the loader guarantees once it has returned without error. */
    ghost predicate WellFormed() {
      && |profUnavailability| == |profSubject|
      && (forall p :: 0 <= p < |profSubject| ==> profSubject[p] < |subjectHours|)
      && (forall p :: 0 <= p < |profUnavailability| ==> profUnavailability[p] < nDays)
      && GroupsProfs(profsXSubject, profSubject, |subjectHours|)
    }
  }

  /** A SubjectMaxHoursXDay of 0 (not given) disables the cap: it becomes HoursXDay. */
  function DefaultSubjectMaxHoursXDay(read: nat, hoursXDay: nat): (cap: nat)
    ensures read == 0 ==> cap == hoursXDay
    ensures read != 0 ==> cap == read
  {
    if read == 0 then hoursXDay else read
  }

  /** A ProfMaxWeeklyHours of 0 (not given) disables the cap: it becomes the grid size. */
  function DefaultProfMaxWeeklyHours(read: nat, hoursXDay: nat, days: nat): (cap: nat)
    ensures read == 0 ==> cap == hoursXDay * days
    ensures read != 0 ==> cap == read
  {
    if read == 0 then hoursXDay * days else read
  }

  /** `lists[s]` holds exactly the professors whose subject is s, in ascending order. */
  ghost predicate GroupsProfs(lists: seq<seq<nat>>, profSubject: seq<nat>, nSubjects: nat) {
    && |lists| == nSubjects
    && (forall s, i :: 0 <= s < nSubjects && 0 <= i < |lists[s]| ==>
          lists[s][i] < |profSubject| && profSubject[lists[s][i]] == s)
    && (forall s, i, j :: 0 <= s < nSubjects && 0 <= i < j < |lists[s]| ==> lists[s][i] < lists[s][j])
    && (forall p :: 0 <= p < |profSubject| && profSubject[p] < nSubjects ==> p in lists[profSubject[p]])
  }

  /** Builds profs_x_subject as the loader does: one empty list per subject, then
      every professor, in index order, appended to the list of its subject. */
  method BuildProfsXSubject(profSubject: seq<nat>, nSubjects: nat) returns (lists: seq<seq<nat>>)
    requires forall p :: 0 <= p < |profSubject| ==> profSubject[p] < nSubjects
    ensures GroupsProfs(lists, profSubject, nSubjects)
  {
    lists := seq(nSubjects, _ => []);
    var i := 0;
    while i < |profSubject|
      invariant 0 <= i <= |profSubject|
      invariant |lists| == nSubjects
      invariant forall s, k :: 0 <= s < nSubjects && 0 <= k < |lists[s]| ==>
                  lists[s][k] < i && profSubject[lists[s][k]] == s
      invariant forall s, k, j :: 0 <= s < nSubjects && 0 <= k < j < |lists[s]| ==> lists[s][k] < lists[s][j]
      invariant forall p :: 0 <= p < i ==> p in lists[profSubject[p]]
    {
      var s := profSubject[i];
      lists := lists[s := lists[s] + [i]];
      i := i + 1;
    }
  }

  /** Each professor teaches exactly one subject: it occurs in its own subject's
      list and in no other. */
  lemma ProfInExactlyOneList(inst: Instance, p: nat, s: nat)
    requires inst.WellFormed()
    requires p < inst.NProfs() && s < inst.NSubjects()
    ensures p in inst.profsXSubject[s] <==> s == inst.profSubject[p]
  {
    if p in inst.profsXSubject[s] {
      var i :| 0 <= i < |inst.profsXSubject[s]| && inst.profsXSubject[s][i] == p;
    }
  }
}
