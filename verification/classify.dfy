/**
 The two per-row classifiers: the blood-pressure category of a reading and
 the time-of-day period of an hour.
 */
module Classify {

  /** The labels 正常, 偏高, 高血壓 and 未分類. */
  datatype Category = Normal | Elevated | Hypertensive | Unclassified

  /** The labels 早上, 下午, 晚上 and 夜間. */
  datatype Period = Morning | Afternoon | Evening | Night

  /**
   Three tests in a fixed order. A reading whose systolic value lies in
   [120, 140] or whose diastolic value lies in [80, 90] is Elevated even when
   the other value is above the hypertensive threshold.
   */
  function ClassifyBp(systolic: int, diastolic: int): (c: Category)
    ensures c == Normal <==> systolic < 120 && diastolic < 80
    ensures c == Elevated <==> 120 <= systolic <= 140 || 80 <= diastolic <= 90
    ensures c == Hypertensive <==>
              && (systolic < 120 || 140 < systolic)
              && (diastolic < 80 || 90 < diastolic)
              && (140 < systolic || 90 < diastolic)
    ensures c != Unclassified
  {
    if systolic < 120 && diastolic < 80 then Normal
    else if (120 <= systolic <= 140) || (80 <= diastolic <= 90) then Elevated
    else if systolic > 140 || diastolic > 90 then Hypertensive
    else Unclassified
  }

  /** The hours of the day (0 to 23) that make up each period, written out as a table. */
  function HoursOf(p: Period): set<int>
  {
    match p
    case Morning => {5, 6, 7, 8, 9, 10, 11}
    case Afternoon => {12, 13, 14, 15, 16}
    case Evening => {17, 18, 19, 20, 21}
    case Night => {22, 23, 0, 1, 2, 3, 4}
  }

  /** The period an hour falls in; anything outside the three daytime ranges is Night. */
  function PeriodOf(hour: int): (p: Period)
    ensures 0 <= hour < 24 ==> hour in HoursOf(p)
    ensures hour < 0 || 24 <= hour ==> p == Night
  {
    if 5 <= hour < 12 then Morning
    else if 12 <= hour < 17 then Afternoon
    else if 17 <= hour < 22 then Evening
    else Night
  }

  /** The four periods cover exactly the hours 0 to 23. */
  lemma PeriodsCoverDay()
    ensures forall h :: 0 <= h < 24 <==>
              h in HoursOf(Morning) || h in HoursOf(Afternoon) || h in HoursOf(Evening) || h in HoursOf(Night)
  {
  }

  /** No hour belongs to two periods. */
  lemma PeriodsDisjoint()
    ensures forall p, q | p != q :: HoursOf(p) !! HoursOf(q)
  {
  }

  /** For an hour of the day, the period is the one and only period whose table contains it. */
  lemma PeriodOfIsUnique(hour: int, q: Period)
    requires 0 <= hour < 24
    ensures PeriodOf(hour) == q <==> hour in HoursOf(q)
  {
    PeriodsDisjoint();
  }

  /** Worked cases of both classifiers, including the branch-order case 145/85. */
  lemma ClassifierExamples()
    ensures ClassifyBp(110, 70) == Normal
    ensures ClassifyBp(135, 85) == Elevated
    ensures ClassifyBp(145, 85) == Elevated
    ensures ClassifyBp(150, 95) == Hypertensive
    ensures PeriodOf(5) == Morning && PeriodOf(21) == Evening && PeriodOf(23) == Night
  {
  }
}
