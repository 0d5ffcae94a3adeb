/**
 The retention pruner of `schedulesToDelete`: the rows its three-way filter
 selects are exactly those dated before today, and removing them leaves
 every other row, in order.
 */
module Prune {
  import opened Civil
  import opened Wrappers
  import opened Entities

  /**
   The `where` clause of the deletion query as written: any of
   year < Y; year <= Y and month < M; year <= Y, month <= M and day < D.
   It selects exactly the dates lexicographically before today.
   */
  function DeletionFilter(date: Date, today: Date): (r: bool)
    ensures r <==> Before(date, today)
  {
    date.year < today.year
    || (date.year <= today.year && date.month < today.month)
    || (date.year <= today.year && date.month <= today.month && date.day < today.day)
  }

  /** The rows the deletion query finds, in repository order. */
  function Due(s: seq<Schedule>, today: Date): seq<Schedule> {
    if |s| == 0 then []
    else Due(s[..|s| - 1], today) + (if DeletionFilter(s[|s| - 1].date, today) then [s[|s| - 1]] else [])
  }

  /** The rows that remain once the found rows are removed, in repository order. */
  function Kept(s: seq<Schedule>, today: Date): seq<Schedule> {
    if |s| == 0 then []
    else Kept(s[..|s| - 1], today) + (if DeletionFilter(s[|s| - 1].date, today) then [] else [s[|s| - 1]])
  }

  /** Removal splits the rows: what is found plus what is kept is the whole repository. */
  lemma {:induction false} PrunePartition(s: seq<Schedule>, today: Date)
    ensures multiset(Due(s, today)) + multiset(Kept(s, today)) == multiset(s)
  {
    if |s| > 0 {
      PrunePartition(s[..|s| - 1], today);
      assert s == s[..|s| - 1] + [s[|s| - 1]];
    }
  }

  /** The kept rows are exactly the rows dated today or later. */
  lemma {:induction false} KeptExact(s: seq<Schedule>, today: Date)
    ensures forall e :: e in Kept(s, today) <==> e in s && !Before(e.date, today)
  {
    if |s| > 0 {
      KeptExact(s[..|s| - 1], today);
      assert s == s[..|s| - 1] + [s[|s| - 1]];
    }
  }

  /** The removed rows are exactly the rows dated before today. */
  lemma {:induction false} DueExact(s: seq<Schedule>, today: Date)
    ensures forall e :: e in Due(s, today) <==> e in s && Before(e.date, today)
  {
    if |s| > 0 {
      DueExact(s[..|s| - 1], today);
      assert s == s[..|s| - 1] + [s[|s| - 1]];
    }
  }

  /** When no row is dated before today, the query finds nothing and nothing is removed. */
  lemma {:induction false} NothingDue(s: seq<Schedule>, today: Date)
    requires forall k :: 0 <= k < |s| ==> !Before(s[k].date, today)
    ensures Due(s, today) == [] && Kept(s, today) == s
  {
    if |s| > 0 {
      NothingDue(s[..|s| - 1], today);
      assert s == s[..|s| - 1] + [s[|s| - 1]];
    }
  }

  /** A row for (doctor, date) that is not past survives pruning. */
  lemma KeptHasEntry(s: seq<Schedule>, today: Date, doctor: Id, date: Date)
    requires HasEntry(s, doctor, date) && !Before(date, today)
    ensures HasEntry(Kept(s, today), doctor, date)
  {
    KeptExact(s, today);
    var k :| 0 <= k < |s| && s[k].doctor == doctor && s[k].date == date;
    assert s[k] in Kept(s, today);
    var j :| 0 <= j < |Kept(s, today)| && Kept(s, today)[j] == s[k];
  }

  /** No row of the pruned repository is dated before today. */
  lemma KeptNotPast(s: seq<Schedule>, today: Date)
    ensures forall k :: 0 <= k < |Kept(s, today)| ==> !Before(Kept(s, today)[k].date, today)
  {
    KeptExact(s, today);
    forall k | 0 <= k < |Kept(s, today)| ensures !Before(Kept(s, today)[k].date, today) {
      assert Kept(s, today)[k] in Kept(s, today);
    }
  }

  /** Pruning keeps the repository invariant. */
  lemma {:induction false} KeptValid(st: Store, today: Date)
    requires ValidStore(st)
    ensures ValidStore(Store(Kept(st.entries, today), st.nextId))
    decreases |st.entries|
  {
    var s := st.entries;
    if |s| > 0 {
      var p, e := s[..|s| - 1], s[|s| - 1];
      assert forall k :: 0 <= k < |p| ==> p[k] == s[k];
      KeptValid(Store(p, st.nextId), today);
      var kp := Kept(p, today);
      if !DeletionFilter(e.date, today) {
        KeptExact(p, today);
        forall k | 0 <= k < |kp| ensures kp[k].id != e.id && (kp[k].doctor != e.doctor || kp[k].date != e.date) {
          assert kp[k] in p;
        }
        KeysUniqueSnoc(kp, e);
        IdsUniqueSnoc(kp, e);
      }
    }
  }
}
