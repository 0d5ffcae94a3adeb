/**
 The rolling-window fill of `ensureSchedulesForDoctors` as functions on the
 repository, and what it guarantees: every doctor has a row for each of the
 fourteen days starting today, a row is created only for a missing
 (doctor, date), existing rows are never touched, and a second run adds
 nothing.
 */
module Fill {
  import opened Civil
  import opened Wrappers
  import opened Entities

  /** Number of days in the rolling window, `numberOfDays`. */
  const Horizon: nat := 14

  /** A row staged for the batch save, before the repository gives it an id. */
  datatype Draft = Draft(doctor: Id, date: Date, workingTimes: string)

  /** `date` is one of the `n` days starting at `today`. */
  predicate WithinDays(date: Date, today: Date, n: nat)
    requires IsValid(today)
  {
    exists i :: 0 <= i < n && date == AddDays(today, i)
  }

  /** `date` lies in the rolling window `[today, today + 14)`. */
  predicate InWindow(date: Date, today: Date)
    requires IsValid(today)
  {
    WithinDays(date, today, Horizon)
  }

  /**
   The filter of the count taken before filling: the row's own `id` equals
   the doctor's id, its day of month lies between today's and that of
   today + 14 (both included), and month and year are today's.
   */
  predicate InGuard(e: Schedule, doctorId: Id, today: Date)
    requires IsValid(today)
  {
    var end := AddDays(today, Horizon);
    e.id == doctorId && today.day <= e.date.day <= end.day
    && e.date.month == today.month && e.date.year == today.year
  }

  /** `existingSchedules`: the number of rows the count's filter selects. */
  function GuardCount(s: seq<Schedule>, doctorId: Id, today: Date): nat
    requires IsValid(today)
  {
    if |s| == 0 then 0
    else GuardCount(s[..|s| - 1], doctorId, today) + (if InGuard(s[|s| - 1], doctorId, today) then 1 else 0)
  }

  lemma {:induction false} GuardCountNoMatch(s: seq<Schedule>, doctorId: Id, today: Date)
    requires IsValid(today)
    requires forall k :: 0 <= k < |s| ==> s[k].id != doctorId
    ensures GuardCount(s, doctorId, today) == 0
  {
    if |s| > 0 {
      GuardCountNoMatch(s[..|s| - 1], doctorId, today);
    }
  }

  /**
   Since the count filters on the row id, and row ids are unique, it is at
   most one: the guard `existingSchedules < numberOfDays` always lets the
   fill run.
   */
  lemma {:induction false} GuardAlwaysPasses(s: seq<Schedule>, doctorId: Id, today: Date)
    requires IsValid(today)
    requires IdsUnique(s)
    ensures GuardCount(s, doctorId, today) <= 1 < Horizon
  {
    if |s| > 0 {
      var p := s[..|s| - 1];
      assert forall k :: 0 <= k < |p| ==> p[k] == s[k];
      GuardAlwaysPasses(p, doctorId, today);
      if InGuard(s[|s| - 1], doctorId, today) {
        GuardCountNoMatch(p, doctorId, today);
      }
    }
  }

  /** The row built for a doctor and a date: the slots of the date's weekday in the doctor's template. */
  function NewDraft(codec: Codec, doctor: Doctor, date: Date): Draft
    requires IsValid(date)
  {
    Draft(doctor.id, date, DayTemplate(codec, doctor.fixedTimes, date))
  }

  /**
   `schedulesToCreate` after the first `n` passes of the inner loop: a row
   for each of the days `today + i`, `i < n`, that has none in `s` yet.
   */
  function Batch(s: seq<Schedule>, codec: Codec, doctor: Doctor, today: Date, n: nat): seq<Draft>
    requires IsValid(today)
  {
    if n == 0 then []
    else
      var date := AddDays(today, n - 1);
      Batch(s, codec, doctor, today, n - 1)
      + (if HasEntry(s, doctor.id, date) then [] else [NewDraft(codec, doctor, date)])
  }

  function Stamp(d: Draft, id: Id): Schedule {
    Schedule(id, d.doctor, d.date, d.workingTimes)
  }

  /** The repository's batch `save`: the drafts are appended in order, each under the next fresh id. */
  function Save(st: Store, drafts: seq<Draft>): (r: Store)
    ensures |r.entries| == |st.entries| + |drafts| && r.entries[..|st.entries|] == st.entries
    ensures r.nextId == st.nextId + |drafts|
    ensures forall k :: |st.entries| <= k < |r.entries| ==>
      r.entries[k] == Stamp(drafts[k - |st.entries|], st.nextId + (k - |st.entries|))
  {
    var stamped := seq(|drafts|, k requires 0 <= k < |drafts| => Stamp(drafts[k], st.nextId + k));
    Store(st.entries + stamped, st.nextId + |drafts|)
  }

  /** One pass of the outer loop: the count guard, then the batch for that doctor. */
  function FillDoctor(st: Store, codec: Codec, doctor: Doctor, today: Date): Store
    requires IsValid(today)
  {
    if GuardCount(st.entries, doctor.id, today) < Horizon then
      Save(st, Batch(st.entries, codec, doctor, today, Horizon))
    else
      st
  }

  /** `ensureSchedulesForDoctors`: the passes for the doctors in the directory's order. */
  function FillAll(st: Store, codec: Codec, doctors: seq<Doctor>, today: Date): Store
    requires IsValid(today)
    decreases |doctors|
  {
    if |doctors| == 0 then st
    else FillDoctor(FillAll(st, codec, doctors[..|doctors| - 1], today), codec, doctors[|doctors| - 1], today)
  }

  /** `r` is `st` with rows appended under consecutive fresh ids. */
  predicate Extends(st: Store, r: Store) {
    |st.entries| <= |r.entries| && r.entries[..|st.entries|] == st.entries
    && r.nextId == st.nextId + (|r.entries| - |st.entries|)
    && forall k :: |st.entries| <= k < |r.entries| ==> r.entries[k].id == st.nextId + (k - |st.entries|)
  }

  /** A row generated for `doctor`: a window date, with that date's slots from the doctor's template. */
  predicate NewFor(e: Schedule, codec: Codec, doctor: Doctor, today: Date)
    requires IsValid(today)
  {
    e.doctor == doctor.id && IsValid(e.date) && InWindow(e.date, today)
    && e.workingTimes == DayTemplate(codec, doctor.fixedTimes, e.date)
  }

  predicate Generated(e: Schedule, codec: Codec, doctors: seq<Doctor>, today: Date)
    requires IsValid(today)
  {
    exists j :: 0 <= j < |doctors| && NewFor(e, codec, doctors[j], today)
  }

  /** Every doctor has a row on every date of the window. */
  predicate Covered(s: seq<Schedule>, doctors: seq<Doctor>, today: Date)
    requires IsValid(today)
  {
    forall j, i :: 0 <= j < |doctors| && 0 <= i < Horizon ==> HasEntry(s, doctors[j].id, AddDays(today, i))
  }

  lemma ExtendsTransitive(a: Store, b: Store, c: Store)
    requires Extends(a, b) && Extends(b, c)
    ensures Extends(a, c)
  {
    assert c.entries[..|a.entries|] == c.entries[..|b.entries|][..|a.entries|];
    forall k | |a.entries| <= k < |c.entries|
      ensures c.entries[k].id == a.nextId + (k - |a.entries|)
    {
      if k < |b.entries| {
        assert c.entries[k] == b.entries[k];
      }
    }
  }

  lemma HasEntryExtends(st: Store, r: Store, doctor: Id, date: Date)
    requires Extends(st, r)
    requires HasEntry(st.entries, doctor, date)
    ensures HasEntry(r.entries, doctor, date)
  {
    var k :| 0 <= k < |st.entries| && st.entries[k].doctor == doctor && st.entries[k].date == date;
    assert r.entries[k] == st.entries[k];
  }

  /** What the staged rows are: each is a missing window date, built from the template. */
  lemma {:induction false} BatchDrafts(s: seq<Schedule>, codec: Codec, doctor: Doctor, today: Date, n: nat)
    requires IsValid(today)
    ensures forall k :: 0 <= k < |Batch(s, codec, doctor, today, n)| ==>
      var d := Batch(s, codec, doctor, today, n)[k];
      IsValid(d.date) && WithinDays(d.date, today, n) && d == NewDraft(codec, doctor, d.date)
      && !HasEntry(s, doctor.id, d.date)
  {
    if n > 0 {
      BatchDrafts(s, codec, doctor, today, n - 1);
      var b := Batch(s, codec, doctor, today, n);
      var p := Batch(s, codec, doctor, today, n - 1);
      forall k | 0 <= k < |b|
        ensures WithinDays(b[k].date, today, n)
      {
        if k < |p| {
          assert b[k] == p[k];
          var i :| 0 <= i < n - 1 && p[k].date == AddDays(today, i);
        } else {
          assert b[k].date == AddDays(today, n - 1);
        }
      }
    }
  }

  /** The staged dates are increasing, hence distinct. */
  lemma {:induction false} BatchSorted(s: seq<Schedule>, codec: Codec, doctor: Doctor, today: Date, n: nat)
    requires IsValid(today)
    ensures forall k, l :: 0 <= k < l < |Batch(s, codec, doctor, today, n)| ==>
      Before(Batch(s, codec, doctor, today, n)[k].date, Batch(s, codec, doctor, today, n)[l].date)
  {
    if n > 0 {
      BatchSorted(s, codec, doctor, today, n - 1);
      BatchDrafts(s, codec, doctor, today, n - 1);
      var b := Batch(s, codec, doctor, today, n);
      var p := Batch(s, codec, doctor, today, n - 1);
      forall k, l | 0 <= k < l < |b| ensures Before(b[k].date, b[l].date) {
        assert b[k] == p[k];
        if l >= |p| {
          var i :| 0 <= i < n - 1 && p[k].date == AddDays(today, i);
          AddDaysMonotone(today, i, n - 1);
        } else {
          assert b[l] == p[l];
        }
      }
    }
  }

  /** Some staged row is on `date`. */
  predicate Staged(b: seq<Draft>, date: Date) {
    exists k :: 0 <= k < |b| && b[k].date == date
  }

  /** Every one of the `n` days has a row already or a staged one. */
  lemma {:induction false} BatchCovers(s: seq<Schedule>, codec: Codec, doctor: Doctor, today: Date, n: nat)
    requires IsValid(today)
    ensures forall i :: 0 <= i < n ==>
      HasEntry(s, doctor.id, AddDays(today, i)) || Staged(Batch(s, codec, doctor, today, n), AddDays(today, i))
  {
    if n > 0 {
      BatchCovers(s, codec, doctor, today, n - 1);
      var b := Batch(s, codec, doctor, today, n);
      var p := Batch(s, codec, doctor, today, n - 1);
      forall i | 0 <= i < n && !HasEntry(s, doctor.id, AddDays(today, i))
        ensures Staged(b, AddDays(today, i))
      {
        if i < n - 1 {
          var k :| 0 <= k < |p| && p[k].date == AddDays(today, i);
          assert b[k] == p[k];
        } else {
          assert b[|p|].date == AddDays(today, i);
        }
      }
    }
  }

  lemma {:induction false} BatchEmptyWhenCovered(s: seq<Schedule>, codec: Codec, doctor: Doctor, today: Date, n: nat)
    requires IsValid(today)
    requires forall i :: 0 <= i < n ==> HasEntry(s, doctor.id, AddDays(today, i))
    ensures Batch(s, codec, doctor, today, n) == []
  {
    if n > 0 {
      BatchEmptyWhenCovered(s, codec, doctor, today, n - 1);
    }
  }

  lemma SaveExtends(st: Store, drafts: seq<Draft>)
    ensures Extends(st, Save(st, drafts))
  {
    var r := Save(st, drafts);
    forall k | |st.entries| <= k < |r.entries| ensures r.entries[k].id == st.nextId + (k - |st.entries|) {
      assert r.entries[k] == Stamp(drafts[k - |st.entries|], st.nextId + (k - |st.entries|));
    }
  }

  /** No staged row duplicates a stored (doctor, date), nor another staged one. */
  predicate FreshKeys(s: seq<Schedule>, drafts: seq<Draft>) {
    (forall k :: 0 <= k < |drafts| ==> !HasEntry(s, drafts[k].doctor, drafts[k].date))
    && (forall k, l :: 0 <= k < l < |drafts| ==> drafts[k].doctor != drafts[l].doctor || drafts[k].date != drafts[l].date)
  }

  /** Saving rows with fresh keys keeps the repository invariant. */
  lemma SaveValid(st: Store, drafts: seq<Draft>)
    requires ValidStore(st)
    requires FreshKeys(st.entries, drafts)
    ensures ValidStore(Save(st, drafts))
  {
    var r := Save(st, drafts);
    var s, n := st.entries, |st.entries|;
    forall i, j | 0 <= i < j < |r.entries|
      ensures r.entries[i].id != r.entries[j].id
      ensures r.entries[i].doctor != r.entries[j].doctor || r.entries[i].date != r.entries[j].date
    {
      if j < n {
        assert r.entries[i] == s[i] && r.entries[j] == s[j];
      } else if i < n {
        assert r.entries[i] == s[i];
        assert r.entries[j] == Stamp(drafts[j - n], st.nextId + (j - n));
      } else {
        assert r.entries[i] == Stamp(drafts[i - n], st.nextId + (i - n));
        assert r.entries[j] == Stamp(drafts[j - n], st.nextId + (j - n));
      }
    }
    forall k | 0 <= k < |r.entries| ensures r.entries[k].id < r.nextId {
      if k < n {
        assert r.entries[k] == s[k];
      } else {
        assert r.entries[k] == Stamp(drafts[k - n], st.nextId + (k - n));
      }
    }
  }

  lemma FillDoctorIsSave(st: Store, codec: Codec, doctor: Doctor, today: Date)
    requires IsValid(today)
    requires IdsUnique(st.entries)
    ensures FillDoctor(st, codec, doctor, today) == Save(st, Batch(st.entries, codec, doctor, today, Horizon))
  {
    GuardAlwaysPasses(st.entries, doctor.id, today);
  }

  /** One doctor's pass keeps the repository invariant and only appends rows. */
  lemma FillDoctorValid(st: Store, codec: Codec, doctor: Doctor, today: Date)
    requires IsValid(today)
    requires ValidStore(st)
    ensures Extends(st, FillDoctor(st, codec, doctor, today))
    ensures ValidStore(FillDoctor(st, codec, doctor, today))
  {
    FillDoctorIsSave(st, codec, doctor, today);
    var b := Batch(st.entries, codec, doctor, today, Horizon);
    SaveExtends(st, b);
    BatchFresh(st.entries, codec, doctor, today, Horizon);
    SaveValid(st, b);
  }

  /** A staged batch neither repeats a stored (doctor, date) nor one of its own. */
  lemma BatchFresh(s: seq<Schedule>, codec: Codec, doctor: Doctor, today: Date, n: nat)
    requires IsValid(today)
    ensures FreshKeys(s, Batch(s, codec, doctor, today, n))
  {
    BatchDrafts(s, codec, doctor, today, n);
    BatchSorted(s, codec, doctor, today, n);
  }

  /** The rows one doctor's pass adds: missing window dates, with the template's slots. */
  lemma FillDoctorAdds(st: Store, codec: Codec, doctor: Doctor, today: Date)
    requires IsValid(today)
    requires IdsUnique(st.entries)
    ensures forall k :: |st.entries| <= k < |FillDoctor(st, codec, doctor, today).entries| ==>
      NewFor(FillDoctor(st, codec, doctor, today).entries[k], codec, doctor, today)
      && !HasEntry(st.entries, doctor.id, FillDoctor(st, codec, doctor, today).entries[k].date)
  {
    FillDoctorIsSave(st, codec, doctor, today);
    var b := Batch(st.entries, codec, doctor, today, Horizon);
    var r := Save(st, b);
    var n := |st.entries|;
    BatchDrafts(st.entries, codec, doctor, today, Horizon);
    forall k | n <= k < |r.entries|
      ensures NewFor(r.entries[k], codec, doctor, today) && !HasEntry(st.entries, doctor.id, r.entries[k].date)
    {
      var d := b[k - n];
      assert r.entries[k] == Stamp(d, st.nextId + (k - n));
      assert IsValid(d.date) && InWindow(d.date, today) && d == NewDraft(codec, doctor, d.date);
    }
  }

  /** After a save, every stored and every saved (doctor, date) has a row. */
  lemma SaveHas(st: Store, drafts: seq<Draft>, doctor: Id, date: Date)
    requires HasEntry(st.entries, doctor, date) || exists k :: 0 <= k < |drafts| && drafts[k].doctor == doctor && drafts[k].date == date
    ensures HasEntry(Save(st, drafts).entries, doctor, date)
  {
    var r := Save(st, drafts);
    if HasEntry(st.entries, doctor, date) {
      SaveExtends(st, drafts);
      HasEntryExtends(st, r, doctor, date);
    } else {
      var k :| 0 <= k < |drafts| && drafts[k].doctor == doctor && drafts[k].date == date;
      assert r.entries[|st.entries| + k] == Stamp(drafts[k], st.nextId + k);
    }
  }

  /** After one doctor's pass, that doctor has a row on every window date. */
  lemma FillDoctorCovers(st: Store, codec: Codec, doctor: Doctor, today: Date)
    requires IsValid(today)
    requires IdsUnique(st.entries)
    ensures forall i :: 0 <= i < Horizon ==> HasEntry(FillDoctor(st, codec, doctor, today).entries, doctor.id, AddDays(today, i))
  {
    FillDoctorIsSave(st, codec, doctor, today);
    var b := Batch(st.entries, codec, doctor, today, Horizon);
    BatchCovers(st.entries, codec, doctor, today, Horizon);
    BatchDrafts(st.entries, codec, doctor, today, Horizon);
    forall i | 0 <= i < Horizon ensures HasEntry(Save(st, b).entries, doctor.id, AddDays(today, i)) {
      SaveHas(st, b, doctor.id, AddDays(today, i));
    }
  }

  /** A run only appends rows under fresh ids and keeps the repository invariant. */
  lemma {:induction false} FillAllValid(st: Store, codec: Codec, doctors: seq<Doctor>, today: Date)
    requires IsValid(today)
    requires ValidStore(st)
    ensures Extends(st, FillAll(st, codec, doctors, today))
    ensures ValidStore(FillAll(st, codec, doctors, today))
    decreases |doctors|
  {
    if |doctors| > 0 {
      var mid := FillAll(st, codec, doctors[..|doctors| - 1], today);
      FillAllValid(st, codec, doctors[..|doctors| - 1], today);
      FillDoctorValid(mid, codec, doctors[|doctors| - 1], today);
      ExtendsTransitive(st, mid, FillAll(st, codec, doctors, today));
    }
  }

  /** Coverage survives appending rows, and one more covered doctor extends it. */
  lemma CoveredSnoc(mid: Store, r: Store, init: seq<Doctor>, last: Doctor, today: Date)
    requires IsValid(today)
    requires Covered(mid.entries, init, today)
    requires Extends(mid, r)
    requires forall i :: 0 <= i < Horizon ==> HasEntry(r.entries, last.id, AddDays(today, i))
    ensures Covered(r.entries, init + [last], today)
  {
    var doctors := init + [last];
    forall j, i | 0 <= j < |doctors| && 0 <= i < Horizon
      ensures HasEntry(r.entries, doctors[j].id, AddDays(today, i))
    {
      if j < |init| {
        assert doctors[j] == init[j];
        HasEntryExtends(mid, r, init[j].id, AddDays(today, i));
      }
    }
  }

  /** Window coverage: after a run every doctor has a row on each of the fourteen days from today. */
  lemma {:induction false} FillAllCovers(st: Store, codec: Codec, doctors: seq<Doctor>, today: Date)
    requires IsValid(today)
    requires ValidStore(st)
    ensures Covered(FillAll(st, codec, doctors, today).entries, doctors, today)
    decreases |doctors|
  {
    if |doctors| > 0 {
      var init, last := doctors[..|doctors| - 1], doctors[|doctors| - 1];
      var mid := FillAll(st, codec, init, today);
      FillAllCovers(st, codec, init, today);
      FillAllValid(st, codec, init, today);
      FillDoctorValid(mid, codec, last, today);
      FillDoctorCovers(mid, codec, last, today);
      assert doctors == init + [last];
      CoveredSnoc(mid, FillDoctor(mid, codec, last, today), init, last, today);
    }
  }

  /** Every row a run adds was missing before and is built from its doctor's template for a window date. */
  lemma {:induction false} FillAllAdds(st: Store, codec: Codec, doctors: seq<Doctor>, today: Date)
    requires IsValid(today)
    requires ValidStore(st)
    ensures forall k :: |st.entries| <= k < |FillAll(st, codec, doctors, today).entries| ==>
      Generated(FillAll(st, codec, doctors, today).entries[k], codec, doctors, today)
      && !HasEntry(st.entries, FillAll(st, codec, doctors, today).entries[k].doctor, FillAll(st, codec, doctors, today).entries[k].date)
    decreases |doctors|
  {
    if |doctors| > 0 {
      var init, last := doctors[..|doctors| - 1], doctors[|doctors| - 1];
      var mid := FillAll(st, codec, init, today);
      var r := FillDoctor(mid, codec, last, today);
      assert FillAll(st, codec, doctors, today) == r;
      assert doctors == init + [last];
      FillAllAdds(st, codec, init, today);
      FillAllValid(st, codec, init, today);
      FillDoctorValid(mid, codec, last, today);
      FillDoctorAdds(mid, codec, last, today);
      AddsSnoc(st, mid, r, codec, init, last, today);
    }
  }

  /** The rows added for the earlier doctors and those added for one more doctor are all generated and were missing. */
  lemma AddsSnoc(st: Store, mid: Store, r: Store, codec: Codec, init: seq<Doctor>, last: Doctor, today: Date)
    requires IsValid(today)
    requires Extends(st, mid) && Extends(mid, r)
    requires forall k :: |st.entries| <= k < |mid.entries| ==>
      Generated(mid.entries[k], codec, init, today) && !HasEntry(st.entries, mid.entries[k].doctor, mid.entries[k].date)
    requires forall k :: |mid.entries| <= k < |r.entries| ==>
      NewFor(r.entries[k], codec, last, today) && !HasEntry(mid.entries, last.id, r.entries[k].date)
    ensures forall k :: |st.entries| <= k < |r.entries| ==>
      Generated(r.entries[k], codec, init + [last], today) && !HasEntry(st.entries, r.entries[k].doctor, r.entries[k].date)
  {
    var doctors := init + [last];
    forall k | |st.entries| <= k < |r.entries|
      ensures Generated(r.entries[k], codec, doctors, today) && !HasEntry(st.entries, r.entries[k].doctor, r.entries[k].date)
    {
      var e := r.entries[k];
      if k < |mid.entries| {
        assert e == mid.entries[k];
        var j :| 0 <= j < |init| && NewFor(e, codec, init[j], today);
        assert doctors[j] == init[j];
      } else {
        assert NewFor(e, codec, doctors[|init|], today);
        if HasEntry(st.entries, e.doctor, e.date) {
          HasEntryExtends(st, mid, e.doctor, e.date);
        }
      }
    }
  }

  /** Some doctor of the directory has this id. */
  predicate Listed(doctors: seq<Doctor>, id: Id) {
    exists j :: 0 <= j < |doctors| && doctors[j].id == id
  }

  /** `r` has a row for (doctor, date) past the rows of `st`. */
  predicate AddedOn(st: Store, r: Store, doctor: Id, date: Date) {
    exists k :: |st.entries| <= k < |r.entries| && r.entries[k].doctor == doctor && r.entries[k].date == date
  }

  /**
   Gap filling is exact: a run adds a row for (doctor, date) exactly when the
   doctor is listed, the date is in the window and no row for it existed.
   */
  lemma FillAllAddsExactlyMissing(st: Store, codec: Codec, doctors: seq<Doctor>, today: Date, doctor: Id, date: Date)
    requires IsValid(today)
    requires ValidStore(st)
    ensures AddedOn(st, FillAll(st, codec, doctors, today), doctor, date)
      <==> Listed(doctors, doctor) && InWindow(date, today) && !HasEntry(st.entries, doctor, date)
  {
    var r := FillAll(st, codec, doctors, today);
    FillAllValid(st, codec, doctors, today);
    FillAllCovers(st, codec, doctors, today);
    FillAllAdds(st, codec, doctors, today);
    if AddedOn(st, r, doctor, date) {
      AddedOnlyMissing(st, r, codec, doctors, today, doctor, date);
    }
    if Listed(doctors, doctor) && InWindow(date, today) && !HasEntry(st.entries, doctor, date) {
      MissingIsAdded(st, r, doctors, today, doctor, date);
    }
  }

  /** A row added by a run that only adds generated, missing rows is for a listed doctor, a window date and a gap. */
  lemma AddedOnlyMissing(st: Store, r: Store, codec: Codec, doctors: seq<Doctor>, today: Date, doctor: Id, date: Date)
    requires IsValid(today)
    requires forall k :: |st.entries| <= k < |r.entries| ==>
      Generated(r.entries[k], codec, doctors, today) && !HasEntry(st.entries, r.entries[k].doctor, r.entries[k].date)
    requires AddedOn(st, r, doctor, date)
    ensures Listed(doctors, doctor) && InWindow(date, today) && !HasEntry(st.entries, doctor, date)
  {
    var k :| |st.entries| <= k < |r.entries| && r.entries[k].doctor == doctor && r.entries[k].date == date;
    var j :| 0 <= j < |doctors| && NewFor(r.entries[k], codec, doctors[j], today);
  }

  /** A gap of a listed doctor in the window, once the window is covered, is filled past the old rows. */
  lemma MissingIsAdded(st: Store, r: Store, doctors: seq<Doctor>, today: Date, doctor: Id, date: Date)
    requires IsValid(today)
    requires Extends(st, r)
    requires Covered(r.entries, doctors, today)
    requires Listed(doctors, doctor) && InWindow(date, today) && !HasEntry(st.entries, doctor, date)
    ensures AddedOn(st, r, doctor, date)
  {
    var j :| 0 <= j < |doctors| && doctors[j].id == doctor;
    var i :| 0 <= i < Horizon && date == AddDays(today, i);
    assert HasEntry(r.entries, doctors[j].id, AddDays(today, i));
    var k :| 0 <= k < |r.entries| && r.entries[k].doctor == doctor && r.entries[k].date == date;
  }

  /** When every window date of every doctor already has a row, a run changes nothing. */
  lemma {:induction false} FillAllWhenCovered(st: Store, codec: Codec, doctors: seq<Doctor>, today: Date)
    requires IsValid(today)
    requires Covered(st.entries, doctors, today)
    ensures FillAll(st, codec, doctors, today) == st
    decreases |doctors|
  {
    if |doctors| > 0 {
      var init := doctors[..|doctors| - 1];
      var last := doctors[|doctors| - 1];
      assert forall j :: 0 <= j < |init| ==> init[j] == doctors[j];
      FillAllWhenCovered(st, codec, init, today);
      BatchEmptyWhenCovered(st.entries, codec, last, today, Horizon);
      assert st.entries + [] == st.entries;
    }
  }

  /** Idempotence: a second consecutive run adds nothing. */
  lemma FillAllTwice(st: Store, codec: Codec, doctors: seq<Doctor>, today: Date)
    requires IsValid(today)
    requires ValidStore(st)
    ensures FillAll(FillAll(st, codec, doctors, today), codec, doctors, today) == FillAll(st, codec, doctors, today)
  {
    FillAllCovers(st, codec, doctors, today);
    FillAllWhenCovered(FillAll(st, codec, doctors, today), codec, doctors, today);
  }

  lemma {:induction false} BatchOnEmpty(codec: Codec, doctor: Doctor, today: Date, n: nat)
    requires IsValid(today)
    ensures var b := Batch([], codec, doctor, today, n);
      |b| == n && forall i :: 0 <= i < n ==> b[i] == NewDraft(codec, doctor, AddDays(today, i))
  {
    if n > 0 {
      BatchOnEmpty(codec, doctor, today, n - 1);
    }
  }

  /**
   A doctor with no rows gets one row for each of the fourteen days, in date
   order, each holding its weekday's slots: a day whose slot list is empty
   still gets its row.
   */
  lemma FillFromEmpty(codec: Codec, doctor: Doctor, today: Date, next: Id)
    requires IsValid(today)
    ensures var r := FillAll(Store([], next), codec, [doctor], today);
      |r.entries| == Horizon && r.nextId == next + Horizon
      && forall i :: 0 <= i < Horizon ==>
        r.entries[i] == Schedule(next + i, doctor.id, AddDays(today, i), DayTemplate(codec, doctor.fixedTimes, AddDays(today, i)))
  {
    var st := Store([], next);
    assert [doctor][..0] == [];
    assert FillAll(st, codec, [doctor], today) == FillDoctor(st, codec, doctor, today);
    FillDoctorIsSave(st, codec, doctor, today);
    var b := Batch([], codec, doctor, today, Horizon);
    BatchOnEmpty(codec, doctor, today, Horizon);
    var r := Save(st, b);
    forall i | 0 <= i < Horizon
      ensures r.entries[i] == Schedule(next + i, doctor.id, AddDays(today, i), DayTemplate(codec, doctor.fixedTimes, AddDays(today, i)))
    {
      assert r.entries[i] == Stamp(b[i], next + i);
    }
  }
}
