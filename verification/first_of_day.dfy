/**
 The first-reading-of-day flag: the earliest timestamp of each date is
 computed, and a reading is flagged when its timestamp equals the minimum of
 its own date. Readings tied at that minimum are all flagged.
 */
module FirstOfDay {
  import opened Readings

  /** The dates that occur among the readings. */
  function Dates(rs: seq<Reading>): set<int>
  {
    set i | 0 <= i < |rs| :: rs[i].time.day
  }

  /**
   `m` holds, for every date that occurs and for no other, the earliest
   timestamp recorded on that date.
   */
  ghost predicate IsDailyMinimum(rs: seq<Reading>, m: map<int, Timestamp>) {
    && m.Keys == Dates(rs)
    && (forall d | d in m :: m[d].day == d)
    && (forall d | d in m :: exists i :: 0 <= i < |rs| && rs[i].time == m[d])
    && (forall i | 0 <= i < |rs| :: m[rs[i].time.day].nanos <= rs[i].time.nanos)
  }

  /** Maps each date to the earliest timestamp recorded on it. */
  function DailyMinimum(rs: seq<Reading>): (m: map<int, Timestamp>)
    ensures IsDailyMinimum(rs, m)
  {
    if rs == [] then map[]
    else
      var m0 := DailyMinimum(rs[..|rs| - 1]);
      var t := rs[|rs| - 1].time;
      var m := if t.day in m0 && m0[t.day].nanos <= t.nanos then m0 else m0[t.day := t];
      MinimumStep(rs, m0, m);
      m
  }

  /** The dates of a list are those of all but its last reading, plus the last one's. */
  lemma DatesSnoc(rs: seq<Reading>)
    requires rs != []
    ensures Dates(rs) == Dates(rs[..|rs| - 1]) + {rs[|rs| - 1].time.day}
  {
    var init := rs[..|rs| - 1];
    forall d | d in Dates(rs) ensures d in Dates(init) + {rs[|rs| - 1].time.day} {
      var i :| 0 <= i < |rs| && rs[i].time.day == d;
      if i < |init| {
        assert init[i].time.day == d;
      }
    }
    forall d | d in Dates(init) ensures d in Dates(rs) {
      var i :| 0 <= i < |init| && init[i].time.day == d;
      assert rs[i].time.day == d;
    }
  }

  /** Folding one more reading into the minima of the readings before it. */
  lemma MinimumStep(rs: seq<Reading>, m0: map<int, Timestamp>, m: map<int, Timestamp>)
    requires rs != []
    requires IsDailyMinimum(rs[..|rs| - 1], m0)
    requires var t := rs[|rs| - 1].time;
             m == if t.day in m0 && m0[t.day].nanos <= t.nanos then m0 else m0[t.day := t]
    ensures IsDailyMinimum(rs, m)
  {
    var init := rs[..|rs| - 1];
    var n := |rs| - 1;
    var t := rs[n].time;
    DatesSnoc(rs);
    forall d | d in m ensures exists i :: 0 <= i < |rs| && rs[i].time == m[d] {
      if d == t.day && m[d] == t {
        assert rs[n].time == m[d];
      } else {
        assert d in m0 && m[d] == m0[d];
        var i :| 0 <= i < |init| && init[i].time == m0[d];
        assert rs[i].time == m[d];
      }
    }
    forall i | 0 <= i < |rs| ensures m[rs[i].time.day].nanos <= rs[i].time.nanos {
      if i < n {
        assert init[i] == rs[i];
        assert rs[i].time.day in m0;
      }
    }
  }

  /** No reading on the same date has an earlier timestamp than reading `i`. */
  ghost predicate EarliestOnItsDay(rs: seq<Reading>, i: int)
    requires 0 <= i < |rs|
  {
    forall j | 0 <= j < |rs| && rs[j].time.day == rs[i].time.day :: !Earlier(rs[j].time, rs[i].time)
  }

  /**
   The flag: the reading's timestamp equals the minimum timestamp of its
   date, which holds exactly when no reading on that date is earlier.
   */
  predicate IsFirstOfDay(rs: seq<Reading>, i: int): (b: bool)
    requires 0 <= i < |rs|
    ensures b <==> EarliestOnItsDay(rs, i)
  {
    var m := DailyMinimum(rs);
    var d := rs[i].time.day;
    assert EarliestOnItsDay(rs, i) ==> rs[i].time == m[d] by {
      if EarliestOnItsDay(rs, i) {
        var k :| 0 <= k < |rs| && rs[k].time == m[d];
        assert !Earlier(rs[k].time, rs[i].time);
      }
    }
    rs[i].time == m[d]
  }

  /** Every date that has a reading has at least one flagged reading. */
  lemma EveryDateHasFirst(rs: seq<Reading>, d: int)
    requires d in Dates(rs)
    ensures exists k :: 0 <= k < |rs| && rs[k].time.day == d && IsFirstOfDay(rs, k)
  {
    var m := DailyMinimum(rs);
    var k :| 0 <= k < |rs| && rs[k].time == m[d];
    assert IsFirstOfDay(rs, k);
  }

  /** Readings tied at a date's earliest timestamp are all flagged, not just one of them. */
  lemma TiedReadingsAllFlagged(rs: seq<Reading>, i: int, j: int)
    requires 0 <= i < |rs| && 0 <= j < |rs|
    requires IsFirstOfDay(rs, i) && rs[j].time == rs[i].time
    ensures IsFirstOfDay(rs, j)
  {
  }

  /** Two flagged readings of one date carry the same timestamp. */
  lemma FlaggedReadingsOfADateTie(rs: seq<Reading>, i: int, j: int)
    requires 0 <= i < |rs| && 0 <= j < |rs|
    requires rs[i].time.day == rs[j].time.day
    requires IsFirstOfDay(rs, i) && IsFirstOfDay(rs, j)
    ensures rs[i].time == rs[j].time
  {
  }
}
