/**
 The entities the schedule service works on: doctors (read from the doctor
 directory), schedule rows `(id, doctor, day, month, year, workingTimes)`
 held by the repository, and the slot codec of the service's base class.
 */
module Entities {
  import opened Civil
  import opened Wrappers

  /** Identifiers of doctors and of schedule rows; the service only compares them. */
  type Id = nat

  /** A doctor as the directory gives it: its id and its weekly template `fixed_times`. */
  datatype Doctor = Doctor(id: Id, fixedTimes: string)

  /** One schedule row: a doctor's working times on one calendar date. */
  datatype Schedule = Schedule(id: Id, doctor: Id, date: Date, workingTimes: string)

  /**
   The two conversions of the base class, given as functions:
   `fixedStringToArray` turns a weekly template into one slot list per
   weekday, and `arrayToString` turns one slot list into its stored text.
   Indexing the template array at a weekday it has no element for yields
   `undefined`, which the codec receives as `None`.
   */
  datatype Codec = Codec(toArray: string -> seq<seq<int>>, toText: Option<seq<int>> -> string)

  /** JavaScript array indexing: the element, or `undefined` off the end. */
  function Element(days: seq<seq<int>>, w: int): Option<seq<int>> {
    if 0 <= w < |days| then Some(days[w]) else None
  }

  /** The working-times text a doctor's template gives for a date: the slots of its weekday. */
  function DayTemplate(codec: Codec, fixedTimes: string, date: Date): string
    requires IsValid(date)
  {
    codec.toText(Element(codec.toArray(fixedTimes), Weekday(date)))
  }

  /** The repository: its rows in order, and the next identifier it will assign. */
  datatype Store = Store(entries: seq<Schedule>, nextId: Id)

  predicate HasEntry(s: seq<Schedule>, doctor: Id, date: Date) {
    exists k :: 0 <= k < |s| && s[k].doctor == doctor && s[k].date == date
  }

  predicate IdsBelow(s: seq<Schedule>, next: Id) {
    forall k :: 0 <= k < |s| ==> s[k].id < next
  }

  predicate IdsUnique(s: seq<Schedule>) {
    forall i, j :: 0 <= i < j < |s| ==> s[i].id != s[j].id
  }

  /** At most one row per (doctor, day, month, year). */
  predicate KeysUnique(s: seq<Schedule>) {
    forall i, j :: 0 <= i < j < |s| ==> s[i].doctor != s[j].doctor || s[i].date != s[j].date
  }

  /** The repository invariant: identifiers are unique and already issued, dates unique per doctor. */
  predicate ValidStore(st: Store) {
    IdsBelow(st.entries, st.nextId) && IdsUnique(st.entries) && KeysUnique(st.entries)
  }

  /** `findOne` on (doctor, day, month, year): the position of the first matching row. */
  function FindEntry(s: seq<Schedule>, doctor: Id, date: Date): (r: Option<nat>)
    ensures r.None? <==> !HasEntry(s, doctor, date)
    ensures r.Some? ==> r.value < |s| && s[r.value].doctor == doctor && s[r.value].date == date
    ensures r.Some? ==> forall j :: 0 <= j < r.value ==> s[j].doctor != doctor || s[j].date != date
  {
    if |s| == 0 then None
    else if s[0].doctor == doctor && s[0].date == date then Some(0)
    else match FindEntry(s[1..], doctor, date)
      case None => None
      case Some(k) => Some(k + 1)
  }

  /** `findOne` on the row id: the position of the row with that id. */
  function IndexOfId(s: seq<Schedule>, id: Id): (r: Option<nat>)
    ensures r.None? <==> forall k :: 0 <= k < |s| ==> s[k].id != id
    ensures r.Some? ==> r.value < |s| && s[r.value].id == id
    ensures r.Some? ==> forall j :: 0 <= j < r.value ==> s[j].id != id
  {
    if |s| == 0 then None
    else if s[0].id == id then Some(0)
    else match IndexOfId(s[1..], id)
      case None => None
      case Some(k) => Some(k + 1)
  }

  /** `findDoctorById` of the doctor directory: the first doctor with that id. */
  function FindDoctor(doctors: seq<Doctor>, id: Id): (r: Option<Doctor>)
    ensures r.None? <==> forall k :: 0 <= k < |doctors| ==> doctors[k].id != id
    ensures r.Some? ==> r.value in doctors && r.value.id == id
  {
    if |doctors| == 0 then None
    else if doctors[0].id == id then Some(doctors[0])
    else FindDoctor(doctors[1..], id)
  }

  lemma KeysUniqueSnoc(s: seq<Schedule>, e: Schedule)
    ensures KeysUnique(s + [e]) <==> KeysUnique(s) && !HasEntry(s, e.doctor, e.date)
  {
    var t := s + [e];
    if KeysUnique(t) {
      forall i, j | 0 <= i < j < |s| ensures s[i].doctor != s[j].doctor || s[i].date != s[j].date {
        assert t[i] == s[i] && t[j] == s[j];
      }
      forall k | 0 <= k < |s| ensures s[k].doctor != e.doctor || s[k].date != e.date {
        assert t[k] == s[k] && t[|s|] == e;
      }
    }
  }

  lemma IdsUniqueSnoc(s: seq<Schedule>, e: Schedule)
    ensures IdsUnique(s + [e]) <==> IdsUnique(s) && forall k :: 0 <= k < |s| ==> s[k].id != e.id
  {
    var t := s + [e];
    if IdsUnique(t) {
      forall i, j | 0 <= i < j < |s| ensures s[i].id != s[j].id {
        assert t[i] == s[i] && t[j] == s[j];
      }
      forall k | 0 <= k < |s| ensures s[k].id != e.id {
        assert t[k] == s[k] && t[|s|] == e;
      }
    }
  }
}
