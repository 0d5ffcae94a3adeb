/**
 `SchedulesService`: the repository of schedule rows and the six
 operations on it — the daily driver, the rolling-window fill, the pruner,
 the full schedule of a doctor, the update of one row's slots, and the
 lookup of one date's working times.
 */
module Service {
  import opened Civil
  import opened Wrappers
  import opened Entities
  import DateText
  import Fill
  import Prune

  /** One element of `data` in a doctor's full schedule: `{ id, date, working_times }`. */
  datatype ScheduleRecord = ScheduleRecord(id: Id, date: string, workingTimes: string)

  /** The answer of the date lookup: the stored text, or `{ code, message }` when there is none. */
  datatype DateLookup = WorkingTimes(text: string) | NotFound(code: int, message: string)

  /** The answer of a successful update: the saved row and a message. */
  datatype Updated = Updated(schedule: Schedule, message: string)

  function RecordOf(e: Schedule): ScheduleRecord {
    ScheduleRecord(e.id, DateText.Text(e.date), e.workingTimes)
  }

  /** `find({ where: { doctor } })`: the doctor's rows, whatever their date, in repository order. */
  function EntriesOf(s: seq<Schedule>, doctor: Id): seq<Schedule> {
    if |s| == 0 then []
    else EntriesOf(s[..|s| - 1], doctor) + (if s[|s| - 1].doctor == doctor then [s[|s| - 1]] else [])
  }

  /** `f` applied to every element, in order (left-recursive, like a loop that pushes). */
  function Map<A, B>(f: A -> B, s: seq<A>): seq<B> {
    if |s| == 0 then [] else Map(f, s[..|s| - 1]) + [f(s[|s| - 1])]
  }

  lemma {:induction false} MapAt<A, B>(f: A -> B, s: seq<A>)
    ensures |Map(f, s)| == |s|
    ensures forall k :: 0 <= k < |s| ==> Map(f, s)[k] == f(s[k])
  {
    if |s| > 0 {
      var p := s[..|s| - 1];
      MapAt(f, p);
      assert forall k :: 0 <= k < |p| ==> p[k] == s[k];
    }
  }

  /** The `forEach`/`push` over the found rows: one record per row, in order. */
  function Records(s: seq<Schedule>): seq<ScheduleRecord> {
    Map(RecordOf, s)
  }

  /** One record per row, in order: the row's id, its `day/month/year` text and its working times. */
  lemma RecordsAt(s: seq<Schedule>)
    ensures |Records(s)| == |s|
    ensures forall k :: 0 <= k < |s| ==> Records(s)[k] == RecordOf(s[k])
  {
    MapAt(RecordOf, s);
  }

  /** The query returns exactly the doctor's rows, each as often as it is stored. */
  lemma {:induction false} EntriesOfExact(s: seq<Schedule>, doctor: Id)
    ensures forall e :: e in EntriesOf(s, doctor) <==> e in s && e.doctor == doctor
    ensures forall e :: multiset(EntriesOf(s, doctor))[e] == if e.doctor == doctor then multiset(s)[e] else 0
  {
    if |s| > 0 {
      EntriesOfExact(s[..|s| - 1], doctor);
      assert s == s[..|s| - 1] + [s[|s| - 1]];
    }
  }

  /**
   The repository after the daily job. The fill and the pruner each read the
   clock: the fill sees `fillDay`, the pruner `pruneDay`.
   */
  function DailyRun(st: Store, codec: Codec, doctors: seq<Doctor>, fillDay: Date, pruneDay: Date): Store
    requires IsValid(fillDay)
  {
    var filled := Fill.FillAll(st, codec, doctors, fillDay);
    Store(Prune.Kept(filled.entries, pruneDay), filled.nextId)
  }

  /**
   After the daily job the repository invariant holds, no row is dated
   before the pruner's day, and every doctor has a row on each window date
   of the fill that is not before the pruner's day.
   */
  lemma DailyRunResult(st: Store, codec: Codec, doctors: seq<Doctor>, fillDay: Date, pruneDay: Date)
    requires IsValid(fillDay)
    requires ValidStore(st)
    ensures ValidStore(DailyRun(st, codec, doctors, fillDay, pruneDay))
    ensures forall j, i :: 0 <= j < |doctors| && 0 <= i < Fill.Horizon && !Before(AddDays(fillDay, i), pruneDay) ==>
      HasEntry(DailyRun(st, codec, doctors, fillDay, pruneDay).entries, doctors[j].id, AddDays(fillDay, i))
    ensures forall k :: 0 <= k < |DailyRun(st, codec, doctors, fillDay, pruneDay).entries| ==>
      !Before(DailyRun(st, codec, doctors, fillDay, pruneDay).entries[k].date, pruneDay)
  {
    var filled := Fill.FillAll(st, codec, doctors, fillDay);
    Fill.FillAllValid(st, codec, doctors, fillDay);
    Fill.FillAllCovers(st, codec, doctors, fillDay);
    Prune.KeptValid(filled, pruneDay);
    Prune.KeptNotPast(filled.entries, pruneDay);
    forall j, i | 0 <= j < |doctors| && 0 <= i < Fill.Horizon && !Before(AddDays(fillDay, i), pruneDay)
      ensures HasEntry(Prune.Kept(filled.entries, pruneDay), doctors[j].id, AddDays(fillDay, i))
    {
      Prune.KeptHasEntry(filled.entries, pruneDay, doctors[j].id, AddDays(fillDay, i));
    }
  }

  /**
   When both clock reads fall on the same day, pruning removes no window
   date: the whole window stays covered.
   */
  lemma DailyRunSameDay(st: Store, codec: Codec, doctors: seq<Doctor>, today: Date)
    requires IsValid(today)
    requires ValidStore(st)
    ensures Fill.Covered(DailyRun(st, codec, doctors, today, today).entries, doctors, today)
  {
    DailyRunResult(st, codec, doctors, today, today);
    forall i | 0 <= i < Fill.Horizon ensures !Before(AddDays(today, i), today) {
      AddDaysNotBefore(today, i);
    }
  }

  /** When the pruner's day is later than the fill's, the fill's own day is pruned away again. */
  lemma DailyRunLaterPrune(st: Store, codec: Codec, doctors: seq<Doctor>, fillDay: Date, pruneDay: Date, doctor: Id)
    requires IsValid(fillDay)
    requires ValidStore(st)
    requires Before(fillDay, pruneDay)
    ensures !HasEntry(DailyRun(st, codec, doctors, fillDay, pruneDay).entries, doctor, fillDay)
  {
    DailyRunResult(st, codec, doctors, fillDay, pruneDay);
  }

  class SchedulesService {
    /** `fixedStringToArray` and `arrayToString` of the base class. */
    const codec: Codec
    /** The rows of the schedule repository, in order. */
    var schedules: seq<Schedule>
    /** The id the repository gives the next saved row. */
    var nextId: Id

    function Repository(): Store
      reads this
    {
      Store(schedules, nextId)
    }

    predicate Valid()
      reads this
    {
      ValidStore(Repository())
    }

    constructor (codec: Codec)
      ensures this.codec == codec && schedules == [] && nextId == 0
      ensures Valid()
    {
      this.codec := codec;
      schedules := [];
      nextId := 0;
    }

    /**
     The daily job: fill the window for every doctor, then prune the past
     rows. Each of the two steps reads the clock itself, so the pruner's day
     may be later than the fill's.
     */
    method CronSchedule(fillDay: Date, pruneDay: Date, doctors: seq<Doctor>)
      requires IsValid(fillDay)
      requires Valid()
      modifies this
      ensures Repository() == DailyRun(old(Repository()), codec, doctors, fillDay, pruneDay)
      ensures Valid()
      ensures forall j, i :: 0 <= j < |doctors| && 0 <= i < Fill.Horizon && !Before(AddDays(fillDay, i), pruneDay) ==>
        HasEntry(schedules, doctors[j].id, AddDays(fillDay, i))
      ensures fillDay == pruneDay ==> Fill.Covered(schedules, doctors, fillDay)
      ensures forall k :: 0 <= k < |schedules| ==> !Before(schedules[k].date, pruneDay)
    {
      EnsureSchedulesForDoctors(fillDay, doctors);
      SchedulesToDelete(pruneDay);
      DailyRunResult(old(Repository()), codec, doctors, fillDay, pruneDay);
      if fillDay == pruneDay {
        DailyRunSameDay(old(Repository()), codec, doctors, fillDay);
      }
    }

    /**
     The rolling-window fill. For every doctor, and every day of
     `[today, today + 14)` that has no row for the doctor yet, a row is
     built from the doctor's weekly template; each doctor's rows are saved
     in one batch.
     */
    method EnsureSchedulesForDoctors(today: Date, doctors: seq<Doctor>)
      requires IsValid(today)
      requires Valid()
      modifies this
      ensures Repository() == Fill.FillAll(old(Repository()), codec, doctors, today)
      ensures Valid()
      ensures |old(schedules)| <= |schedules| && schedules[..|old(schedules)|] == old(schedules)
      ensures Fill.Covered(schedules, doctors, today)
      ensures forall k :: |old(schedules)| <= k < |schedules| ==>
        Fill.Generated(schedules[k], codec, doctors, today) && !HasEntry(old(schedules), schedules[k].doctor, schedules[k].date)
    {
      var k := 0;
      while k < |doctors|
        invariant 0 <= k <= |doctors|
        invariant Repository() == Fill.FillAll(old(Repository()), codec, doctors[..k], today)
        invariant Valid()
      {
        FillDoctor(doctors[k], today);
        assert doctors[..k + 1][..k] == doctors[..k];
        k := k + 1;
      }
      assert doctors[..k] == doctors;
      Fill.FillAllValid(old(Repository()), codec, doctors, today);
      Fill.FillAllCovers(old(Repository()), codec, doctors, today);
      Fill.FillAllAdds(old(Repository()), codec, doctors, today);
    }

    /** One pass of the outer loop: the count guard, then the doctor's batch. */
    method FillDoctor(doctor: Doctor, today: Date)
      requires IsValid(today)
      requires Valid()
      modifies this
      ensures Repository() == Fill.FillDoctor(old(Repository()), codec, doctor, today)
      ensures Valid()
    {
      var existing := Fill.GuardCount(schedules, doctor.id, today);
      if existing < Fill.Horizon {
        var toCreate := StageBatch(doctor, today);
        Fill.BatchFresh(schedules, codec, doctor, today, Fill.Horizon);
        SaveAll(toCreate);
      }
    }

    /** The inner loop of the fill: `schedulesToCreate` for one doctor. */
    method StageBatch(doctor: Doctor, today: Date) returns (toCreate: seq<Fill.Draft>)
      requires IsValid(today)
      ensures toCreate == Fill.Batch(schedules, codec, doctor, today, Fill.Horizon)
    {
      toCreate := [];
      var i := 0;
      while i < Fill.Horizon
        invariant 0 <= i <= Fill.Horizon
        invariant toCreate == Fill.Batch(schedules, codec, doctor, today, i)
      {
        var currentDate := AddDays(today, i);
        var scheduleExists := FindEntry(schedules, doctor.id, currentDate);
        if scheduleExists.None? {
          toCreate := toCreate + [Fill.NewDraft(codec, doctor, currentDate)];
        }
        i := i + 1;
      }
    }

    /** The repository's batch save: the rows are appended under fresh ids. */
    method SaveAll(drafts: seq<Fill.Draft>)
      requires Valid() && Fill.FreshKeys(schedules, drafts)
      modifies this
      ensures Repository() == Fill.Save(old(Repository()), drafts)
      ensures Valid()
    {
      Fill.SaveValid(Repository(), drafts);
      var saved := Fill.Save(Repository(), drafts);
      schedules, nextId := saved.entries, saved.nextId;
    }

    /** The pruner: find the rows dated before today and remove them, if there are any. */
    method SchedulesToDelete(today: Date)
      requires Valid()
      modifies this
      ensures Valid()
      ensures schedules == Prune.Kept(old(schedules), today) && nextId == old(nextId)
      ensures forall e :: e in schedules <==> e in old(schedules) && !Before(e.date, today)
    {
      var toDelete: seq<Schedule> := [];
      var remaining: seq<Schedule> := [];
      var i := 0;
      while i < |schedules|
        invariant 0 <= i <= |schedules|
        invariant toDelete == Prune.Due(schedules[..i], today)
        invariant remaining == Prune.Kept(schedules[..i], today)
      {
        assert schedules[..i + 1][..i] == schedules[..i];
        var schedule := schedules[i];
        if Prune.DeletionFilter(schedule.date, today) {
          toDelete := toDelete + [schedule];
        } else {
          remaining := remaining + [schedule];
        }
        i := i + 1;
      }
      assert schedules[..i] == schedules;
      Prune.DueExact(schedules, today);
      Prune.KeptExact(schedules, today);
      Prune.KeptValid(Repository(), today);
      if |toDelete| > 0 {
        schedules := remaining;
      } else {
        forall k | 0 <= k < |schedules| ensures !Before(schedules[k].date, today) {
          assert schedules[k] !in toDelete;
        }
        Prune.NothingDue(schedules, today);
      }
    }

    /**
     A doctor's full schedule: one record per row of the doctor, with its
     id, its date as `day/month/year` and its working times; fails with
     `schedules_not_found` for a doctor the directory does not know.
     */
    method ScheduleByDoctorId(doctors: seq<Doctor>, id: Id) returns (r: Result<seq<ScheduleRecord>>)
      ensures FindDoctor(doctors, id).None? ==> r == Failure("schedules_not_found")
      ensures FindDoctor(doctors, id).Some? ==> r == Success(Records(EntriesOf(schedules, id)))
    {
      var doctor := FindDoctor(doctors, id);
      if doctor.None? {
        return Failure("schedules_not_found");
      }
      var found := EntriesOf(schedules, id);
      var data: seq<ScheduleRecord> := [];
      var i := 0;
      while i < |found|
        invariant 0 <= i <= |found|
        invariant data == Records(found[..i])
      {
        assert found[..i + 1][..i] == found[..i];
        data := data + [RecordOf(found[i])];
        i := i + 1;
      }
      assert found[..i] == found;
      r := Success(data);
    }

    /**
     Replaces the working times of the row with id `id` by the text of
     `arr`; fails with `schedule_not_found` when there is no such row.
     */
    method UpdateWorkingTime(arr: seq<int>, id: Id) returns (r: Result<Updated>)
      requires Valid()
      modifies this
      ensures Valid() && nextId == old(nextId)
      ensures IndexOfId(old(schedules), id).None? ==>
        r == Failure("schedule_not_found") && schedules == old(schedules)
      ensures IndexOfId(old(schedules), id).Some? ==>
        var k := IndexOfId(old(schedules), id).value;
        |schedules| == |old(schedules)|
        && schedules[k] == old(schedules)[k].(workingTimes := codec.toText(Some(arr)))
        && (forall j :: 0 <= j < |schedules| && j != k ==> schedules[j] == old(schedules)[j])
        && r == Success(Updated(schedules[k], "successfully"))
    {
      var found := IndexOfId(schedules, id);
      if found.None? {
        return Failure("schedule_not_found");
      }
      var k := found.value;
      var schedule := schedules[k].(workingTimes := codec.toText(Some(arr)));
      schedules := schedules[k := schedule];
      r := Success(Updated(schedule, "successfully"));
    }

    /**
     The working times of a doctor on a date: `schedules_not_found` for an
     unknown doctor, `working_times_not_found` when the doctor has no row
     on that date, and otherwise that row's stored text.
     */
    function WorkingTimeByDate(doctors: seq<Doctor>, doctorId: Id, date: Date): (r: DateLookup)
      reads this
      ensures r == NotFound(404, "schedules_not_found") <==> FindDoctor(doctors, doctorId).None?
      ensures r == NotFound(404, "working_times_not_found")
        <==> FindDoctor(doctors, doctorId).Some? && !HasEntry(schedules, doctorId, date)
      ensures r.WorkingTimes? <==> FindDoctor(doctors, doctorId).Some? && HasEntry(schedules, doctorId, date)
      ensures r.WorkingTimes? ==>
        exists k :: 0 <= k < |schedules| && schedules[k].doctor == doctorId && schedules[k].date == date
                    && r.text == schedules[k].workingTimes
      ensures r.WorkingTimes? && KeysUnique(schedules) ==>
        forall k :: 0 <= k < |schedules| && schedules[k].doctor == doctorId && schedules[k].date == date
                    ==> r.text == schedules[k].workingTimes
    {
      match FindDoctor(doctors, doctorId)
      case None => NotFound(404, "schedules_not_found")
      case Some(doctor) =>
        match FindEntry(schedules, doctor.id, date)
        case None => NotFound(404, "working_times_not_found")
        case Some(k) => WorkingTimes(schedules[k].workingTimes)
    }
  }
}
