/**
 The analyzer: cleaning and enriching the rows once, then the three
 queries over the enriched records (daily and per-period category
 percentages, and the category count of each day's first reading).
 */
module Analyzer {
  import opened Readings
  import opened Classify
  import opened FirstOfDay
  import opened Grouping

  /** A cleaned reading with the columns derived from it. */
  datatype Record = Record(
    reading: Reading,
    date: int,
    hour: int,
    category: Category,
    period: Period,
    firstOfDay: bool)

  /**
   The derived columns of one reading, given its first-of-day flag: the
   record is dated by the timestamp's day, its hour is the one whose span
   holds the time of day and lies in its period's hours, and its category is
   the classifier's verdict on its pressures, never Unclassified.
   */
  function EnrichOne(r: Reading, first: bool): (rec: Record)
    ensures rec.reading == r && rec.firstOfDay == first && rec.date == r.time.day
    ensures 0 <= rec.hour < 24 && rec.hour in HoursOf(rec.period)
    ensures rec.hour * NanosPerHour <= r.time.nanos < (rec.hour + 1) * NanosPerHour
    ensures rec.category == ClassifyBp(r.systolic, r.diastolic) && rec.category != Unclassified
  {
    var hour := HourOf(r.time);
    Record(r, r.time.day, hour, ClassifyBp(r.systolic, r.diastolic), PeriodOf(hour), first)
  }

  /** Derives date, hour, category, period and the first-of-day flag for every reading. */
  function Enrich(rs: seq<Reading>): (recs: seq<Record>)
    ensures |recs| == |rs|
    ensures forall i | 0 <= i < |rs| :: recs[i] == EnrichOne(rs[i], recs[i].firstOfDay)
    ensures forall i | 0 <= i < |rs| :: recs[i].firstOfDay <==> EarliestOnItsDay(rs, i)
  {
    seq(|rs|, i requires 0 <= i < |rs| => EnrichOne(rs[i], IsFirstOfDay(rs, i)))
  }

  /**
   The analyzer's working table: one record per complete row, in input
   order, carrying that row's reading; a record is flagged exactly when no
   complete row of its date is earlier.
   */
  function Prepare(rows: seq<RawRow>): (recs: seq<Record>)
    ensures |recs| == |Clean(rows)| == |CompleteIndices(rows)|
    ensures forall j | 0 <= j < |recs| ::
              var i := CompleteIndices(rows)[j];
              && 0 <= i < |rows| && Complete(rows[i])
              && recs[j].reading == ToReading(rows[i])
              && recs[j] == EnrichOne(ToReading(rows[i]), recs[j].firstOfDay)
    ensures forall j | 0 <= j < |recs| :: recs[j].firstOfDay <==> EarliestOnItsDay(Clean(rows), j)
  {
    CleanPicksIndexedRows(rows);
    Enrich(Clean(rows))
  }

  /** The (date, category) pair of every record. */
  function ByDate(recs: seq<Record>): (rows: seq<(int, Category)>)
    ensures |rows| == |recs|
    ensures forall i | 0 <= i < |recs| :: rows[i] == (recs[i].date, recs[i].category)
  {
    seq(|recs|, i requires 0 <= i < |recs| => (recs[i].date, recs[i].category))
  }

  /** The (period, category) pair of every record. */
  function ByPeriod(recs: seq<Record>): (rows: seq<(Period, Category)>)
    ensures |rows| == |recs|
    ensures forall i | 0 <= i < |recs| :: rows[i] == (recs[i].period, recs[i].category)
  {
    seq(|recs|, i requires 0 <= i < |recs| => (recs[i].period, recs[i].category))
  }

  /** The categories that occur among the records. */
  function Categories(recs: seq<Record>): set<Category>
  {
    set i | 0 <= i < |recs| :: recs[i].category
  }

  /** The dates of a list of records. */
  function DateSet(recs: seq<Record>): set<int>
  {
    set r | r in recs :: r.date
  }

  /** The periods of a list of records. */
  function PeriodSet(recs: seq<Record>): set<Period>
  {
    set r | r in recs :: r.period
  }

  /**
   Category percentages per date: one row per date that has a record, one
   column per category that occurs anywhere, each row adding up to 100.
   */
  function DailyDistribution(recs: seq<Record>): (t: map<int, map<Category, real>>)
    ensures t.Keys == DateSet(recs)
    ensures forall d | d in t :: t[d].Keys == Categories(recs)
    ensures forall d, c | d in t ::
              Cell(t[d], c) == Percent(Count(ByDate(recs), d, c), Size(ByDate(recs), d))
    ensures forall d | d in t :: RowSum(t[d]) == 100.0
  {
    var rows := ByDate(recs);
    assert Columns(rows) == Categories(recs) by {
      forall c | c in Categories(recs) ensures c in Columns(rows) {
        var i :| 0 <= i < |recs| && recs[i].category == c;
        assert rows[i].1 == c;
      }
    }
    assert Keys(rows) == DateSet(recs) by {
      forall d | d in Keys(rows) ensures d in DateSet(recs) {
        var i :| 0 <= i < |rows| && rows[i].0 == d;
        assert recs[i] in recs;
      }
      forall d | d in DateSet(recs) ensures d in Keys(rows) {
        var r :| r in recs && r.date == d;
        var i :| 0 <= i < |recs| && recs[i] == r;
        assert rows[i].0 == d;
      }
    }
    PercentTable(rows)
  }

  /**
   Category percentages per period of the day: one row per period that has
   a record, one column per category that occurs anywhere, each row adding up to 100.
   */
  function PeriodDistribution(recs: seq<Record>): (t: map<Period, map<Category, real>>)
    ensures t.Keys == PeriodSet(recs)
    ensures forall p | p in t :: t[p].Keys == Categories(recs)
    ensures forall p, c | p in t ::
              Cell(t[p], c) == Percent(Count(ByPeriod(recs), p, c), Size(ByPeriod(recs), p))
    ensures forall p | p in t :: RowSum(t[p]) == 100.0
  {
    var rows := ByPeriod(recs);
    assert Columns(rows) == Categories(recs) by {
      forall c | c in Categories(recs) ensures c in Columns(rows) {
        var i :| 0 <= i < |recs| && recs[i].category == c;
        assert rows[i].1 == c;
      }
    }
    assert Keys(rows) == PeriodSet(recs) by {
      forall p | p in Keys(rows) ensures p in PeriodSet(recs) {
        var i :| 0 <= i < |rows| && rows[i].0 == p;
        assert recs[i] in recs;
      }
      forall p | p in PeriodSet(recs) ensures p in Keys(rows) {
        var r :| r in recs && r.period == p;
        var i :| 0 <= i < |recs| && recs[i] == r;
        assert rows[i].0 == p;
      }
    }
    PercentTable(rows)
  }

  /**
   The records flagged as their date's first reading, in order. Every
   flagged record is kept as often as it occurs, so readings tied at a
   date's earliest timestamp are all counted.
   */
  function Flagged(recs: seq<Record>): (fs: seq<Record>)
    ensures |fs| <= |recs|
    ensures forall r :: r in fs <==> r in recs && r.firstOfDay
  {
    if recs == [] then []
    else
      var init, last := recs[..|recs| - 1], recs[|recs| - 1];
      assert recs == init + [last];
      if last.firstOfDay then Flagged(init) + [last] else Flagged(init)
  }

  /** A flagged record occurs in the result as often as in the input; an unflagged one not at all. */
  lemma {:induction false} FlaggedMultiplicity(recs: seq<Record>)
    ensures forall r :: multiset(Flagged(recs))[r] == if r.firstOfDay then multiset(recs)[r] else 0
  {
    if recs != [] {
      var init, last := recs[..|recs| - 1], recs[|recs| - 1];
      FlaggedMultiplicity(init);
      assert recs == init + [last];
      assert multiset(recs) == multiset(init) + multiset{last};
    }
  }

  /** Filtering keeps the input order: flagging a concatenation concatenates the flagged parts. */
  lemma {:induction false} FlaggedAppend(a: seq<Record>, b: seq<Record>)
    ensures Flagged(a + b) == Flagged(a) + Flagged(b)
  {
    if b == [] {
      assert a + b == a;
    } else {
      var b0 := b[..|b| - 1];
      FlaggedAppend(a, b0);
      assert (a + b)[..|a + b| - 1] == a + b0;
      assert (a + b)[|a + b| - 1] == b[|b| - 1];
    }
  }

  /** A single record is kept exactly when it is flagged. */
  lemma FlaggedOne(r: Record)
    ensures Flagged([r]) == if r.firstOfDay then [r] else []
  {
    assert [r][..0] == [];
  }

  /** The categories of a list of records, in order. */
  function CategoryList(recs: seq<Record>): (cs: seq<Category>)
    ensures |cs| == |recs|
    ensures forall i | 0 <= i < |recs| :: cs[i] == recs[i].category
  {
    seq(|recs|, i requires 0 <= i < |recs| => recs[i].category)
  }

  /**
   How many first-of-day readings fall into each category; a category
   without any such reading is absent, and the counts add up to the
   number of flagged records.
   */
  function FirstReadingDistribution(recs: seq<Record>): (t: map<Category, nat>)
    ensures forall c :: c in t <==> exists r :: r in recs && r.firstOfDay && r.category == c
    ensures forall c | c in t :: t[c] == multiset(CategoryList(Flagged(recs)))[c]
    ensures Total(t) == |Flagged(recs)|
  {
    var fs := Flagged(recs);
    var cs := CategoryList(fs);
    assert forall c :: c in cs <==> exists r :: r in fs && r.category == c by {
      forall c ensures c in cs <==> exists r :: r in fs && r.category == c {
        if c in cs {
          var i :| 0 <= i < |cs| && cs[i] == c;
          assert fs[i] in fs;
        }
        if exists r :: r in fs && r.category == c {
          var r :| r in fs && r.category == c;
          var i :| 0 <= i < |fs| && fs[i] == r;
          assert cs[i] == c;
        }
      }
    }
    Tally(cs)
  }

  /** A list has at least as many entries as it has distinct dates. */
  lemma {:induction false} DateSetBound(recs: seq<Record>)
    ensures |DateSet(recs)| <= |recs|
  {
    if recs != [] {
      var init := recs[..|recs| - 1];
      DateSetBound(init);
      assert recs == init + [recs[|recs| - 1]];
      assert DateSet(recs) == DateSet(init) + {recs[|recs| - 1].date};
    }
  }

  /** Among enriched readings, every date with a record has a first-of-day record. */
  lemma EnrichedDatesHaveFirst(rs: seq<Reading>, i: int)
    requires 0 <= i < |rs|
    ensures exists j :: 0 <= j < |rs| && Enrich(rs)[j].date == Enrich(rs)[i].date && Enrich(rs)[j].firstOfDay
  {
    var recs := Enrich(rs);
    var d := rs[i].time.day;
    assert d in Dates(rs);
    EveryDateHasFirst(rs, d);
    var k :| 0 <= k < |rs| && rs[k].time.day == d && IsFirstOfDay(rs, k);
    assert recs[k].date == recs[i].date && recs[k].firstOfDay;
  }

  /** Some record dated `d` is flagged as that date's first reading. */
  ghost predicate HasFirstOn(recs: seq<Record>, d: int) {
    exists j :: 0 <= j < |recs| && recs[j].date == d && recs[j].firstOfDay
  }

  /** When every date has a flagged record, the flagged records cover all dates. */
  lemma FlaggedCoverDates(recs: seq<Record>)
    requires forall d | d in DateSet(recs) :: HasFirstOn(recs, d)
    ensures DateSet(Flagged(recs)) == DateSet(recs)
  {
    var fs := Flagged(recs);
    forall d | d in DateSet(recs) ensures d in DateSet(fs) {
      assert HasFirstOn(recs, d);
      var j :| 0 <= j < |recs| && recs[j].date == d && recs[j].firstOfDay;
      assert recs[j] in recs;
      assert recs[j] in fs;
    }
  }

  /**
   The first-reading counts add up to the number of flagged records, which
   is at least the number of distinct dates in the working table.
   */
  lemma FirstReadingsCoverEveryDate(rows: seq<RawRow>)
    ensures Total(FirstReadingDistribution(Prepare(rows))) == |Flagged(Prepare(rows))|
    ensures |Flagged(Prepare(rows))| >= |DateSet(Prepare(rows))|
  {
    var recs := Prepare(rows);
    forall d | d in DateSet(recs) ensures HasFirstOn(recs, d) {
      var i :| 0 <= i < |recs| && recs[i].date == d;
      EnrichedDatesHaveFirst(Clean(rows), i);
    }
    FlaggedCoverDates(recs);
    DateSetBound(Flagged(recs));
  }

  /** A row with a missing pressure contributes to none of the three queries. */
  lemma IncompleteRowIgnored(rows: seq<RawRow>, k: int, x: RawRow)
    requires 0 <= k <= |rows|
    requires !Complete(x)
    ensures var rows' := rows[..k] + [x] + rows[k..];
            && DailyDistribution(Prepare(rows')) == DailyDistribution(Prepare(rows))
            && PeriodDistribution(Prepare(rows')) == PeriodDistribution(Prepare(rows))
            && FirstReadingDistribution(Prepare(rows')) == FirstReadingDistribution(Prepare(rows))
  {
    IncompleteRowIsDropped(rows, k, x);
  }
}

module AnalyzerScenario {
  import opened Readings
  import opened Classify
  import opened FirstOfDay
  import opened Grouping
  import opened Analyzer

  /**
   Three readings on one day at 08:00 (110/70), 09:00 (135/85) and 14:00
   (150/95), plus a 10:00 row whose systolic value is blank.
   */
  function ScenarioRows(): seq<RawRow>
  {
    [ RawRow(Timestamp(0, 8 * NanosPerHour), Some(110), Some(70)),
      RawRow(Timestamp(0, 9 * NanosPerHour), Some(135), Some(85)),
      RawRow(Timestamp(0, 10 * NanosPerHour), None, Some(80)),
      RawRow(Timestamp(0, 14 * NanosPerHour), Some(150), Some(95)) ]
  }

  /** Cleaning the scenario drops the 10:00 row and keeps the other three in order. */
  lemma ScenarioClean()
    ensures Clean(ScenarioRows()) ==
              [ Reading(Timestamp(0, 8 * NanosPerHour), 110, 70),
                Reading(Timestamp(0, 9 * NanosPerHour), 135, 85),
                Reading(Timestamp(0, 14 * NanosPerHour), 150, 95) ]
  {
    var rows := ScenarioRows();
    assert Clean(rows[..1]) == [ToReading(rows[0])] by { assert rows[..1][..0] == []; }
    assert Clean(rows[..2]) == [ToReading(rows[0]), ToReading(rows[1])] by { assert rows[..2][..1] == rows[..1]; }
    assert Clean(rows[..3]) == [ToReading(rows[0]), ToReading(rows[1])] by { assert rows[..3][..2] == rows[..2]; }
    assert rows[..3] == rows[..|rows| - 1];
  }

  /** The enriched scenario: one date, one record per category, only the 08:00 record flagged. */
  lemma ScenarioRecords()
    ensures var recs := Prepare(ScenarioRows());
            && |recs| == 3
            && recs[0].date == recs[1].date == recs[2].date == 0
            && recs[0].category == Normal && recs[1].category == Elevated && recs[2].category == Hypertensive
            && recs[0].firstOfDay && !recs[1].firstOfDay && !recs[2].firstOfDay
  {
    ScenarioClean();
    var rs := Clean(ScenarioRows());
    assert EarliestOnItsDay(rs, 0);
    assert !EarliestOnItsDay(rs, 1) by { assert Earlier(rs[0].time, rs[1].time); }
    assert !EarliestOnItsDay(rs, 2) by { assert Earlier(rs[0].time, rs[2].time); }
  }

  /**
   A day holding one Normal, one Elevated and one Hypertensive record gives
   each a third; no Unclassified column appears, since no record has that category.
   */
  lemma OneOfEachDay(recs: seq<Record>)
    requires |recs| == 3 && recs[0].date == recs[1].date == recs[2].date == 0
    requires recs[0].category == Normal && recs[1].category == Elevated && recs[2].category == Hypertensive
    ensures var t := DailyDistribution(recs);
            && t.Keys == {0}
            && t[0].Keys == {Normal, Elevated, Hypertensive}
            && Cell(t[0], Normal) == Cell(t[0], Elevated) == Cell(t[0], Hypertensive) == 100.0 / 3.0
  {
    var rows := ByDate(recs);
    assert Categories(recs) == {Normal, Elevated, Hypertensive} by {
      forall c | c in Categories(recs) ensures c in {Normal, Elevated, Hypertensive} {
        var i :| 0 <= i < |recs| && recs[i].category == c;
      }
      assert recs[0].category in Categories(recs);
      assert recs[1].category in Categories(recs);
      assert recs[2].category in Categories(recs);
    }
    assert rows == [(0, Normal), (0, Elevated), (0, Hypertensive)];
    assert rows[..2] == [(0, Normal), (0, Elevated)] && rows[..2][..1] == [(0, Normal)];
    assert rows[..2][..1][..0] == [];
    assert Count(rows[..2][..1], 0, Normal) == 1 && Count(rows[..2][..1], 0, Elevated) == 0;
    assert Count(rows[..2], 0, Normal) == 1 && Count(rows[..2], 0, Elevated) == 1;
    assert Size(rows, 0) == 3;
    assert Count(rows, 0, Normal) == 1 && Count(rows, 0, Elevated) == 1;
    assert Count(rows, 0, Hypertensive) == 1 && Count(rows, 0, Unclassified) == 0;
    SingleDateKeys(recs);
    assert Percent(1, 3) == 100.0 / 3.0;
  }

  /** A table over records that all carry date 0 has the single row 0. */
  lemma SingleDateKeys(recs: seq<Record>)
    requires |recs| == 3 && recs[0].date == recs[1].date == recs[2].date == 0
    ensures DailyDistribution(recs).Keys == {0}
  {
    forall d | d in DateSet(recs) ensures d == 0 {
      var r :| r in recs && r.date == d;
      var i :| 0 <= i < |recs| && recs[i] == r;
    }
    assert recs[0] in recs;
  }

  /** When only the first of three records is flagged, the first-reading count is its category, once. */
  lemma OnlyFirstFlagged(recs: seq<Record>)
    requires |recs| == 3 && recs[0].firstOfDay && !recs[1].firstOfDay && !recs[2].firstOfDay
    ensures FirstReadingDistribution(recs) == map[recs[0].category := 1]
  {
    var fs := Flagged(recs);
    assert recs[..2][..1] == [recs[0]] && recs[..3] == recs && [recs[0]][..0] == [];
    assert Flagged([recs[0]]) == [recs[0]];
    assert Flagged(recs[..2]) == [recs[0]];
    assert fs == [recs[0]];
    assert CategoryList(fs) == [recs[0].category];
    assert FirstReadingDistribution(recs) == Tally([recs[0].category]);
    TallyOfOne(recs[0].category);
  }

  /** Counting a one-element list. */
  lemma TallyOfOne(c: Category)
    ensures Tally([c]) == map[c := 1]
  {
    var t := Tally([c]);
    assert multiset([c]) == multiset{c};
    forall x | x in t ensures x == c {
      assert x in [c];
    }
    assert t.Keys == {c};
  }

  /**
   The day's row has exactly the three categories that occur, each a third,
   and the only first reading of the day is the Normal one at 08:00.
   */
  lemma ScenarioDistributions()
    ensures var t := DailyDistribution(Prepare(ScenarioRows()));
            && t.Keys == {0}
            && t[0].Keys == {Normal, Elevated, Hypertensive}
            && Cell(t[0], Normal) == Cell(t[0], Elevated) == Cell(t[0], Hypertensive) == 100.0 / 3.0
    ensures FirstReadingDistribution(Prepare(ScenarioRows())) == map[Normal := 1]
  {
    ScenarioRecords();
    OneOfEachDay(Prepare(ScenarioRows()));
    OnlyFirstFlagged(Prepare(ScenarioRows()));
  }
}
