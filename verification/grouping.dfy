/**
 Group-by-and-count over rows labelled with a group key and a category:
 per-group category counts, the zero-filled percentage table built from
 them, and the plain per-category count of a list of categories.
 */
module Grouping {
  import opened Classify

  /** The keys that occur among the rows. */
  function Keys<K>(rows: seq<(K, Category)>): set<K>
  {
    set i | 0 <= i < |rows| :: rows[i].0
  }

  /** The categories that occur among the rows: the columns of every table row. */
  function Columns<K>(rows: seq<(K, Category)>): set<Category>
  {
    set i | 0 <= i < |rows| :: rows[i].1
  }

  /** The number of rows in group `k`. */
  function Size<K(==)>(rows: seq<(K, Category)>, k: K): (n: nat)
    ensures n <= |rows|
    ensures n > 0 <==> k in Keys(rows)
  {
    if rows == [] then 0
    else
      var init := rows[..|rows| - 1];
      assert forall i | 0 <= i < |init| :: init[i] == rows[i];
      assert Keys(rows) == Keys(init) + {rows[|rows| - 1].0} by {
        forall x | x in Keys(rows) ensures x in Keys(init) + {rows[|rows| - 1].0} {
          var i :| 0 <= i < |rows| && rows[i].0 == x;
          if i < |init| { assert init[i].0 == x; }
        }
      }
      Size(init, k) + (if rows[|rows| - 1].0 == k then 1 else 0)
  }

  /** The number of rows in group `k` that carry category `c`. */
  function Count<K(==)>(rows: seq<(K, Category)>, k: K, c: Category): (n: nat)
    ensures n <= Size(rows, k)
    ensures n > 0 ==> c in Columns(rows)
  {
    if rows == [] then 0
    else
      var init := rows[..|rows| - 1];
      assert forall i | 0 <= i < |init| :: init[i] == rows[i];
      assert Columns(init) <= Columns(rows);
      Count(init, k, c) + (if rows[|rows| - 1] == (k, c) then 1 else 0)
  }

  /** A category's count within a group is the number of occurrences of the pair `(k, c)`. */
  lemma {:induction false} CountIsMultiplicity<K>(rows: seq<(K, Category)>, k: K, c: Category)
    ensures Count(rows, k, c) == multiset(rows)[(k, c)]
  {
    if rows != [] {
      var init := rows[..|rows| - 1];
      CountIsMultiplicity(init, k, c);
      assert rows == init + [rows[|rows| - 1]];
      assert multiset(rows) == multiset(init) + multiset{rows[|rows| - 1]};
    }
  }

  /** The counts of the four categories within a group add up to the group's size. */
  lemma {:induction false} CountsPartitionGroup<K>(rows: seq<(K, Category)>, k: K)
    ensures Count(rows, k, Normal) + Count(rows, k, Elevated) + Count(rows, k, Hypertensive)
            + Count(rows, k, Unclassified) == Size(rows, k)
  {
    if rows != [] {
      var init := rows[..|rows| - 1];
      CountsPartitionGroup(init, k);
      var (key, cat) := rows[|rows| - 1];
      var step := if key == k then 1 else 0;
      assert Size(rows, k) == Size(init, k) + step;
      match cat
      case Normal =>
        assert Count(rows, k, Normal) == Count(init, k, Normal) + step;
        assert Count(rows, k, Elevated) == Count(init, k, Elevated);
        assert Count(rows, k, Hypertensive) == Count(init, k, Hypertensive);
        assert Count(rows, k, Unclassified) == Count(init, k, Unclassified);
      case Elevated =>
        assert Count(rows, k, Normal) == Count(init, k, Normal);
        assert Count(rows, k, Elevated) == Count(init, k, Elevated) + step;
        assert Count(rows, k, Hypertensive) == Count(init, k, Hypertensive);
        assert Count(rows, k, Unclassified) == Count(init, k, Unclassified);
      case Hypertensive =>
        assert Count(rows, k, Normal) == Count(init, k, Normal);
        assert Count(rows, k, Elevated) == Count(init, k, Elevated);
        assert Count(rows, k, Hypertensive) == Count(init, k, Hypertensive) + step;
        assert Count(rows, k, Unclassified) == Count(init, k, Unclassified);
      case Unclassified =>
        assert Count(rows, k, Normal) == Count(init, k, Normal);
        assert Count(rows, k, Elevated) == Count(init, k, Elevated);
        assert Count(rows, k, Hypertensive) == Count(init, k, Hypertensive);
        assert Count(rows, k, Unclassified) == Count(init, k, Unclassified) + step;
    }
  }

  /** A group's size is the number of rows carrying its key, with whichever category. */
  lemma SizeIsMultiplicity<K>(rows: seq<(K, Category)>, k: K)
    ensures Size(rows, k) == multiset(rows)[(k, Normal)] + multiset(rows)[(k, Elevated)]
                             + multiset(rows)[(k, Hypertensive)] + multiset(rows)[(k, Unclassified)]
  {
    CountsPartitionGroup(rows, k);
    CountIsMultiplicity(rows, k, Normal);
    CountIsMultiplicity(rows, k, Elevated);
    CountIsMultiplicity(rows, k, Hypertensive);
    CountIsMultiplicity(rows, k, Unclassified);
  }

  /** The value of column `c` in a table row, zero where the row has no such column. */
  function Cell(row: map<Category, real>, c: Category): real
  {
    if c in row then row[c] else 0.0
  }

  /** The sum of a table row over all categories. */
  function RowSum(row: map<Category, real>): real
  {
    Cell(row, Normal) + Cell(row, Elevated) + Cell(row, Hypertensive) + Cell(row, Unclassified)
  }

  /** `count` out of `size` as a percentage. */
  function Percent(count: nat, size: nat): (p: real)
    requires 0 < size && count <= size
    ensures 0.0 <= p <= 100.0
    ensures p * (size as real) == (count as real) * 100.0
    ensures p == 0.0 <==> count == 0
    ensures p == 100.0 <==> count == size
  {
    var q := (count as real) * 100.0 / (size as real);
    assert q * (size as real) == (count as real) * 100.0;
    assert (100.0 - q) * (size as real) == ((size - count) as real) * 100.0;
    q
  }

  /** The percentages of four counts that make up a whole add up to 100. */
  lemma PercentsAddUp(a: nat, b: nat, h: nat, u: nat, n: nat)
    requires 0 < n && a + b + h + u == n
    ensures Percent(a, n) + Percent(b, n) + Percent(h, n) + Percent(u, n) == 100.0
  {
    var pa, pb, ph, pu := Percent(a, n), Percent(b, n), Percent(h, n), Percent(u, n);
    var rn := n as real;
    assert (pa + pb + ph + pu) * rn == pa * rn + pb * rn + ph * rn + pu * rn;
    assert (a as real) * 100.0 + (b as real) * 100.0 + (h as real) * 100.0 + (u as real) * 100.0
           == (n as real) * 100.0;
    assert (pa + pb + ph + pu - 100.0) * rn == 0.0;
  }

  /**
   One table row: the percentage of each category within group `k`, over
   every category that occurs anywhere in the data (zero-filled).
   */
  function Row<K(==)>(rows: seq<(K, Category)>, k: K): (row: map<Category, real>)
    requires k in Keys(rows)
    ensures row.Keys == Columns(rows)
    ensures forall c :: Cell(row, c) == Percent(Count(rows, k, c), Size(rows, k))
    ensures RowSum(row) == 100.0
  {
    var n := Size(rows, k);
    var row := map c | c in Columns(rows) :: Percent(Count(rows, k, c), n);
    assert forall c :: Cell(row, c) == Percent(Count(rows, k, c), n) by {
      forall c ensures Cell(row, c) == Percent(Count(rows, k, c), n) {
        if c !in row {
          assert Count(rows, k, c) == 0;
        }
      }
    }
    CountsPartitionGroup(rows, k);
    PercentsAddUp(Count(rows, k, Normal), Count(rows, k, Elevated), Count(rows, k, Hypertensive),
                  Count(rows, k, Unclassified), n);
    row
  }

  /**
   The percentage table: one row per group key that occurs, each row holding
   every category that occurs in the data (zero where the group has none).
   */
  function PercentTable<K(==)>(rows: seq<(K, Category)>): (t: map<K, map<Category, real>>)
    ensures t.Keys == Keys(rows)
    ensures forall k | k in t :: t[k].Keys == Columns(rows)
    ensures forall k, c | k in t :: Cell(t[k], c) == Percent(Count(rows, k, c), Size(rows, k))
    ensures forall k | k in t :: RowSum(t[k]) == 100.0
  {
    map k | k in Keys(rows) :: Row(rows, k)
  }

  /** The sum of a count table over all categories. */
  function Total(t: map<Category, nat>): nat
  {
    (if Normal in t then t[Normal] else 0)
    + (if Elevated in t then t[Elevated] else 0)
    + (if Hypertensive in t then t[Hypertensive] else 0)
    + (if Unclassified in t then t[Unclassified] else 0)
  }

  /** The occurrences of the four categories in a list add up to its length. */
  lemma {:induction false} OccurrencesAddUp(cats: seq<Category>)
    ensures multiset(cats)[Normal] + multiset(cats)[Elevated] + multiset(cats)[Hypertensive]
            + multiset(cats)[Unclassified] == |cats|
  {
    if cats != [] {
      var init, last := cats[..|cats| - 1], cats[|cats| - 1];
      OccurrencesAddUp(init);
      assert cats == init + [last];
      assert multiset(cats) == multiset(init) + multiset{last};
      assert |multiset(cats)| == |multiset(init)| + 1;
      match last
      case Normal => assert multiset(cats)[Normal] == multiset(init)[Normal] + 1;
      case Elevated => assert multiset(cats)[Elevated] == multiset(init)[Elevated] + 1;
      case Hypertensive => assert multiset(cats)[Hypertensive] == multiset(init)[Hypertensive] + 1;
      case Unclassified => assert multiset(cats)[Unclassified] == multiset(init)[Unclassified] + 1;
    }
  }

  /** Counts each category of a list; categories that do not occur are left out. */
  function Tally(cats: seq<Category>): (t: map<Category, nat>)
    ensures forall c :: c in t <==> c in cats
    ensures forall c | c in t :: t[c] == multiset(cats)[c] && t[c] > 0
    ensures Total(t) == |cats|
  {
    var t := map c | c in cats :: multiset(cats)[c];
    OccurrencesAddUp(cats);
    t
  }
}
