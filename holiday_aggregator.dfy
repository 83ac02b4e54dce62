/**
 * The five views the handlers build from one fetched holiday list: buckets by
 * month, the holidays of one month, the upcoming holidays with their distance
 * in days, the holiday on one date, and buckets by type.
 */
module HolidayAggregator {
  import opened Wrappers
  import opened Calendar
  import opened Sequences
  import opened HolidaySource

  // ---------------------------------------------------------------------------
  // Holidays of one month, and buckets by month

  function InMonth(m: int): Holiday -> bool {
    (h: Holiday) => h.date.month == m
  }

  /** The holidays whose month is m, in list order (the month query's `filter`). */
  function OfMonth(hs: seq<Holiday>, m: int): seq<Holiday> {
    Filter(hs, InMonth(m))
  }

  /** The English month names; the month query reports MonthNames[month - 1]. */
  const MonthNames: seq<string> := [
    "January", "February", "March", "April", "May", "June",
    "July", "August", "September", "October", "November", "December"
  ]

  /** OfMonth is exactly the holidays of month m: an order-preserving subsequence that keeps every copy of them. */
  lemma OfMonthIsMonthFilter(hs: seq<Holiday>, m: int)
    ensures IsSubsequence(OfMonth(hs, m), hs)
    ensures forall h :: h in OfMonth(hs, m) ==> h.date.month == m
    ensures forall h :: multiset(OfMonth(hs, m))[h] == if h.date.month == m then multiset(hs)[h] else 0
  {
    FilterIsSubsequence(hs, InMonth(m));
    forall h ensures multiset(OfMonth(hs, m))[h] == if h.date.month == m then multiset(hs)[h] else 0 {
      FilterCounts(hs, InMonth(m), h);
    }
  }

  /** g holds a bucket for exactly the months that occur in hs, bucket m being OfMonth(hs, m). */
  ghost predicate IsMonthGrouping(hs: seq<Holiday>, g: map<int, seq<Holiday>>) {
    && (forall m :: m in g ==> exists h :: h in hs && h.date.month == m)
    && (forall h :: h in hs ==> h.date.month in g)
    && (forall m :: m in g ==> g[m] == OfMonth(hs, m))
  }

  /** The year query's loop: a bucket is created on a month's first holiday, then each holiday is pushed. */
  method GroupByMonth(hs: seq<Holiday>) returns (g: map<int, seq<Holiday>>)
    ensures IsMonthGrouping(hs, g)
  {
    g := map[];
    var i := 0;
    while i < |hs|
      invariant 0 <= i <= |hs|
      invariant IsMonthGrouping(hs[..i], g)
    {
      var h := hs[i];
      var m := h.date.month;
      assert hs[..i + 1] == hs[..i] + [h];
      MonthStep(hs[..i], h, g);
      if m !in g {
        g := g[m := []];
      }
      g := g[m := g[m] + [h]];
      i := i + 1;
    }
    assert hs[..i] == hs;
  }

  /** One turn of GroupByMonth's loop keeps the grouping exact. */
  lemma MonthStep(done: seq<Holiday>, h: Holiday, g: map<int, seq<Holiday>>)
    requires IsMonthGrouping(done, g)
    ensures var m := h.date.month;
      var g1 := if m in g then g else g[m := []];
      IsMonthGrouping(done + [h], g1[m := g1[m] + [h]])
  {
    MonthStepKeys(done, h, g);
    MonthStepBuckets(done, h, g);
  }

  lemma MonthStepKeys(done: seq<Holiday>, h: Holiday, g: map<int, seq<Holiday>>)
    requires forall k :: k in g ==> exists x :: x in done && x.date.month == k
    requires forall x :: x in done ==> x.date.month in g
    ensures var m := h.date.month;
      var g1 := if m in g then g else g[m := []];
      var g2 := g1[m := g1[m] + [h]];
      && (forall k :: k in g2 ==> exists x :: x in done + [h] && x.date.month == k)
      && (forall x :: x in done + [h] ==> x.date.month in g2)
  {
    var m := h.date.month;
    var all := done + [h];
    forall x | x in all ensures x.date.month in g || x.date.month == m {
      if x != h {
        assert x in done;
      }
    }
    forall k | k in g || k == m ensures exists x :: x in all && x.date.month == k {
      if k != m {
        var x :| x in done && x.date.month == k;
        assert x in all;
      } else {
        assert h in all;
      }
    }
  }

  lemma MonthStepBuckets(done: seq<Holiday>, h: Holiday, g: map<int, seq<Holiday>>)
    requires IsMonthGrouping(done, g)
    ensures var m := h.date.month;
      var g1 := if m in g then g else g[m := []];
      var g2 := g1[m := g1[m] + [h]];
      forall k :: k in g2 ==> g2[k] == OfMonth(done + [h], k)
  {
    var m := h.date.month;
    var g1 := if m in g then g else g[m := []];
    var g2 := g1[m := g1[m] + [h]];
    MonthViewsAgree(done, g, m);
    assert g1[m] == OfMonth(done, m);
    forall k | k in g2 ensures g2[k] == OfMonth(done + [h], k) {
      OfMonthSnoc(done, h, k);
      if k != m {
        assert k in g && g2[k] == g[k];
      }
    }
  }

  lemma OfMonthSnoc(done: seq<Holiday>, h: Holiday, k: int)
    ensures OfMonth(done + [h], k) == OfMonth(done, k) + (if h.date.month == k then [h] else [])
  {
    var all := done + [h];
    assert all[..|all| - 1] == done;
    assert all[|all| - 1] == h;
    assert InMonth(k)(h) == (h.date.month == k);
  }

  /** The buckets of months m..12 joined in ascending month order, the order of the response's keys. */
  function JoinBuckets(g: map<int, seq<Holiday>>, m: int): seq<Holiday>
    decreases 13 - m
  {
    if m > 12 then [] else (if m in g then g[m] else []) + JoinBuckets(g, m + 1)
  }

  lemma {:induction false} JoinBucketsCounts(hs: seq<Holiday>, g: map<int, seq<Holiday>>, m: int, x: Holiday)
    requires IsMonthGrouping(hs, g)
    requires 1 <= m
    ensures multiset(JoinBuckets(g, m))[x] == if m <= x.date.month <= 12 then multiset(hs)[x] else 0
    decreases 13 - m
  {
    if m <= 12 {
      JoinBucketsCounts(hs, g, m + 1, x);
      if m in g {
        FilterCounts(hs, InMonth(m), x);
      } else if x.date.month == m {
        assert x !in hs;
      }
    }
  }

  lemma JoinBucketsMultiset(hs: seq<Holiday>, g: map<int, seq<Holiday>>)
    requires IsMonthGrouping(hs, g)
    requires forall h :: h in hs ==> 1 <= h.date.month <= 12
    ensures multiset(JoinBuckets(g, 1)) == multiset(hs)
  {
    forall x ensures multiset(JoinBuckets(g, 1))[x] == multiset(hs)[x] {
      JoinBucketsCounts(hs, g, 1, x);
      MonthOfListed(hs, x);
    }
    SameCounts(multiset(JoinBuckets(g, 1)), multiset(hs));
  }

  lemma SameCounts(a: multiset<Holiday>, b: multiset<Holiday>)
    requires forall x :: a[x] == b[x]
    ensures a == b
  {
  }

  lemma MonthOfListed(hs: seq<Holiday>, x: Holiday)
    requires forall h :: h in hs ==> 1 <= h.date.month <= 12
    ensures 1 <= x.date.month <= 12 || multiset(hs)[x] == 0
  {
  }

  /** Grouping by month is a partition: joining the buckets gives back the list, up to order. */
  lemma MonthBucketsPartition(hs: seq<Holiday>, g: map<int, seq<Holiday>>)
    requires IsMonthGrouping(hs, g)
    requires forall h :: h in hs ==> 1 <= h.date.month <= 12
    ensures multiset(JoinBuckets(g, 1)) == multiset(hs)
    ensures |JoinBuckets(g, 1)| == |hs|
  {
    JoinBucketsMultiset(hs, g);
    assert |multiset(JoinBuckets(g, 1))| == |multiset(hs)|;
  }

  /** The month query and the year query's buckets agree on every month. */
  lemma MonthViewsAgree(hs: seq<Holiday>, g: map<int, seq<Holiday>>, m: int)
    requires IsMonthGrouping(hs, g)
    ensures OfMonth(hs, m) == if m in g then g[m] else []
  {
    if m !in g {
      FilterNone(hs, InMonth(m));
    }
  }

  // ---------------------------------------------------------------------------
  // Upcoming holidays

  /** The sort key of a holiday: its day number. */
  function DayKey(h: Holiday): int {
    DayNumber(h.date)
  }

  function OnOrAfter(today: Date): Holiday -> bool {
    (h: Holiday) => DayNumber(h.date) >= DayNumber(today)
  }

  /** Whole days from today to d. */
  function DaysUntil(today: Date, d: Date): int {
    DayNumber(d) - DayNumber(today)
  }

  /** A holiday record extended with `daysUntil`. */
  datatype UpcomingHoliday = UpcomingHoliday(holiday: Holiday, daysUntil: int)

  function Annotate(hs: seq<Holiday>, today: Date): seq<UpcomingHoliday> {
    seq(|hs|, i requires 0 <= i < |hs| => UpcomingHoliday(hs[i], DaysUntil(today, hs[i].date)))
  }

  /** Holidays on or after today, stably sorted by date, cut to count. */
  function SelectUpcoming(all: seq<Holiday>, today: Date, count: int): seq<Holiday> {
    SliceTo(SortByKey(Filter(all, OnOrAfter(today)), DayKey), count)
  }

  /** The upcoming query's filter / sort / slice / map chain. */
  function Upcoming(all: seq<Holiday>, today: Date, count: int): seq<UpcomingHoliday> {
    Annotate(SelectUpcoming(all, today, count), today)
  }

  /** What the upcoming selection keeps, in which order, and how many. */
  lemma UpcomingSelection(all: seq<Holiday>, today: Date, count: int)
    ensures var r, q := Upcoming(all, today, count), Filter(all, OnOrAfter(today));
      && |r| == (if count >= 0 then Min(count, |q|) else Max(0, |q| + count))
      && (forall i :: 0 <= i < |r| ==> r[i].holiday in all)
      && (forall i :: 0 <= i < |r| ==> DayNumber(r[i].holiday.date) >= DayNumber(today))
      && (forall i :: 0 <= i < |r| ==> r[i].daysUntil == DaysUntil(today, r[i].holiday.date) >= 0)
      && (forall i, j :: 0 <= i < j < |r| ==> DayNumber(r[i].holiday.date) <= DayNumber(r[j].holiday.date))
      && (forall i :: 0 <= i < |r| ==> r[i].holiday == SortByKey(q, DayKey)[i])
  {
    var sel := SelectUpcoming(all, today, count);
    SelectionFacts(all, today, count);
    var r := Upcoming(all, today, count);
    assert |r| == |sel|;
    forall i | 0 <= i < |r|
      ensures r[i].holiday == sel[i] && r[i].daysUntil == DaysUntil(today, sel[i].date)
    {
    }
  }

  /** The selected holidays, before annotation: a sorted prefix of the sorted on-or-after list. */
  lemma SelectionFacts(all: seq<Holiday>, today: Date, count: int)
    ensures var sel, q := SelectUpcoming(all, today, count), Filter(all, OnOrAfter(today));
      && |sel| == (if count >= 0 then Min(count, |q|) else Max(0, |q| + count))
      && (forall i :: 0 <= i < |sel| ==> sel[i] in all && DayNumber(sel[i].date) >= DayNumber(today))
      && (forall i, j :: 0 <= i < j < |sel| ==> DayNumber(sel[i].date) <= DayNumber(sel[j].date))
      && (forall i :: 0 <= i < |sel| ==> sel[i] == SortByKey(q, DayKey)[i])
  {
    var q := Filter(all, OnOrAfter(today));
    var sorted := SortByKey(q, DayKey);
    var sel := SelectUpcoming(all, today, count);
    assert sel == sorted[..|sel|];
    forall i | 0 <= i < |sel| ensures sel[i] in all && DayNumber(sel[i].date) >= DayNumber(today) {
      assert sel[i] == sorted[i];
      assert sorted[i] in multiset(sorted);
      assert sel[i] in q;
      assert OnOrAfter(today)(sel[i]);
    }
    forall i, j | 0 <= i < j < |sel| ensures DayNumber(sel[i].date) <= DayNumber(sel[j].date) {
      assert DayKey(sorted[i]) <= DayKey(sorted[j]);
    }
  }

  /** Holidays sharing a date keep the order they have in the joined input. */
  lemma UpcomingTiesKeepOrder(all: seq<Holiday>, today: Date, k: int)
    requires k >= DayNumber(today)
    ensures Filter(SortByKey(Filter(all, OnOrAfter(today)), DayKey), HasKey(DayKey, k)) == Filter(all, HasKey(DayKey, k))
  {
    var p, q := OnOrAfter(today), HasKey(DayKey, k);
    SortStable(Filter(all, p), DayKey, k);
    forall h ensures q(h) ==> p(h) {
      assert q(h) == (DayKey(h) == k);
      assert p(h) == (DayNumber(h.date) >= DayNumber(today));
    }
    FilterOfFilter(all, p, q);
  }

  /** For valid dates, daysUntil is 0 exactly for a holiday dated today, and negative exactly for a date before today. */
  lemma DaysUntilMeaning(today: Date, d: Date)
    requires IsValidDate(today) && IsValidDate(d)
    ensures DaysUntil(today, d) == 0 <==> d == today
    ensures DaysUntil(today, d) < 0 <==> Before(d, today)
  {
    DayNumberOrder(d, today);
  }

  lemma ExampleFilter(a: Holiday, b: Holiday, c: Holiday)
    requires a.date == Date(2024, 1, 1) && b.date == Date(2023, 12, 31) && c.date == Date(2024, 1, 10)
    ensures Filter([a, b, c], OnOrAfter(Date(2024, 1, 1))) == [a, c]
  {
    var p := OnOrAfter(Date(2024, 1, 1));
    assert [a, b, c][..2] == [a, b] && [a, b][..1] == [a] && [a][..0] == [];
    assert DayNumber(a.date) == 739251 && DayNumber(b.date) == 739250 && DayNumber(c.date) == 739260;
    assert p(a) && !p(b) && p(c);
    assert Filter([a], p) == [a];
    assert Filter([a, b], p) == [a];
  }

  lemma SortTwo(a: Holiday, c: Holiday)
    requires DayKey(a) <= DayKey(c)
    ensures SortByKey([a, c], DayKey) == [a, c]
  {
    assert [a, c][1..] == [c];
    assert [c][1..] == [];
  }

  /** The query of 2024-01-01 over holidays on 2024-01-01, 2023-12-31 and 2024-01-10, in that order. */
  lemma UpcomingExample(a: Holiday, b: Holiday, c: Holiday)
    requires a.date == Date(2024, 1, 1) && b.date == Date(2023, 12, 31) && c.date == Date(2024, 1, 10)
    ensures Upcoming([a, b, c], Date(2024, 1, 1), 5) == [UpcomingHoliday(a, 0), UpcomingHoliday(c, 9)]
  {
    ExampleFilter(a, b, c);
    assert DayNumber(a.date) == 739251 && DayNumber(c.date) == 739260;
    SortTwo(a, c);
    assert SelectUpcoming([a, b, c], Date(2024, 1, 1), 5) == [a, c];
    var r := Annotate([a, c], Date(2024, 1, 1));
    assert r[0] == UpcomingHoliday(a, 0) && r[1] == UpcomingHoliday(c, 9);
  }

  // ---------------------------------------------------------------------------
  // The holiday on one date

  /** The upstream record's date string is exactly date (the source compares with ===). */
  predicate FallsOn(h: Holiday, date: string) {
    ToIso(h.date) == date
  }

  /** The first holiday that falls on date, or None (the check query's `find`). */
  function FindByDate(hs: seq<Holiday>, date: string): (r: Option<Holiday>)
    ensures r.None? <==> forall i :: 0 <= i < |hs| ==> !FallsOn(hs[i], date)
    ensures r.Some? ==> exists i :: && 0 <= i < |hs| && hs[i] == r.value && FallsOn(hs[i], date)
                                     && forall j :: 0 <= j < i ==> !FallsOn(hs[j], date)
  {
    if hs == [] then None
    else if FallsOn(hs[0], date) then Some(hs[0])
    else
      var r := FindByDate(hs[1..], date);
      FirstMatchShift(hs, date, r);
      r
  }

  lemma FirstMatchShift(hs: seq<Holiday>, date: string, r: Option<Holiday>)
    requires hs != [] && !FallsOn(hs[0], date)
    requires r.None? <==> forall i :: 0 <= i < |hs[1..]| ==> !FallsOn(hs[1..][i], date)
    requires r.Some? ==> exists i :: && 0 <= i < |hs[1..]| && hs[1..][i] == r.value && FallsOn(hs[1..][i], date)
                                       && forall j :: 0 <= j < i ==> !FallsOn(hs[1..][j], date)
    ensures r.None? <==> forall i :: 0 <= i < |hs| ==> !FallsOn(hs[i], date)
    ensures r.Some? ==> exists i :: && 0 <= i < |hs| && hs[i] == r.value && FallsOn(hs[i], date)
                                     && forall j :: 0 <= j < i ==> !FallsOn(hs[j], date)
  {
    if r.Some? {
      var i :| && 0 <= i < |hs[1..]| && hs[1..][i] == r.value && FallsOn(hs[1..][i], date)
               && forall j :: 0 <= j < i ==> !FallsOn(hs[1..][j], date);
      forall j | 0 <= j < i + 1 ensures !FallsOn(hs[j], date) {
        if j > 0 {
          assert hs[j] == hs[1..][j - 1];
        }
      }
      assert hs[i + 1] == r.value && FallsOn(hs[i + 1], date);
    } else {
      forall i | 0 <= i < |hs| ensures !FallsOn(hs[i], date) {
        if i > 0 {
          assert hs[i] == hs[1..][i - 1];
        }
      }
    }
  }

  /**
   * For a strictly well-formed date string and valid upstream dates, the lookup
   * finds a holiday exactly when one falls on that date.
   */
  lemma FindByIsoDate(hs: seq<Holiday>, date: string, d: Date)
    requires ParseIso(date) == Some(d)
    requires forall h :: h in hs ==> IsValidDate(h.date)
    ensures FindByDate(hs, date).Some? <==> exists h :: h in hs && h.date == d
    ensures FindByDate(hs, date).Some? ==> FindByDate(hs, date).value.date == d
  {
    ToIsoOfParse(date, d);
    assert IsValidDate(d);
    forall i | 0 <= i < |hs| ensures FallsOn(hs[i], date) <==> hs[i].date == d {
      ToIsoInjective(hs[i].date, d);
    }
  }

  // ---------------------------------------------------------------------------
  // Buckets by type

  /** Every type label of every holiday, in list order with repeats. */
  function AllTypes(hs: seq<Holiday>): seq<string> {
    if hs == [] then [] else AllTypes(hs[..|hs| - 1]) + hs[|hs| - 1].types
  }

  /** The keys of the type buckets in the order the loop creates them: first appearance. */
  function TypeKeys(hs: seq<Holiday>): seq<string> {
    Distinct(AllTypes(hs))
  }

  /** Bucket t: each holiday, in list order, once per occurrence of t among its types. */
  function TypeBucket(hs: seq<Holiday>, t: string): seq<Holiday> {
    if hs == [] then []
    else TypeBucket(hs[..|hs| - 1], t) + Repeat(hs[|hs| - 1], multiset(hs[|hs| - 1].types)[t])
  }

  /** The number of type labels over all holidays. */
  function LabelCount(hs: seq<Holiday>): nat {
    if hs == [] then 0 else LabelCount(hs[..|hs| - 1]) + |hs[|hs| - 1].types|
  }

  /**
   * The state of the type query's loops once the holidays of done and the first
   * j labels of h are processed: types lists the keys created so far in
   * creation order, and each bucket holds what those labels put in it.
   */
  ghost predicate TypeGroupingSoFar(done: seq<Holiday>, h: Holiday, j: nat,
                                    types: seq<string>, groups: map<string, seq<Holiday>>)
    requires j <= |h.types|
  {
    && types == Distinct(AllTypes(done) + h.types[..j])
    && (forall t :: t in groups ==> t in types)
    && (forall t :: t in types ==> t in groups)
    && (forall t :: t in groups ==> groups[t] == TypeBucket(done, t) + Repeat(h, multiset(h.types[..j])[t]))
  }

  /** types lists the bucket keys in creation order, and bucket t is TypeBucket(hs, t). */
  ghost predicate IsTypeGrouping(hs: seq<Holiday>, types: seq<string>, groups: map<string, seq<Holiday>>) {
    && types == TypeKeys(hs)
    && (forall t :: t in groups ==> t in types)
    && (forall t :: t in types ==> t in groups)
    && (forall t :: t in groups ==> groups[t] == TypeBucket(hs, t))
  }

  /** The type query's nested loops: a bucket is created on a label's first occurrence, then the holiday is pushed. */
  method GroupByType(hs: seq<Holiday>) returns (types: seq<string>, groups: map<string, seq<Holiday>>)
    ensures IsTypeGrouping(hs, types, groups)
  {
    types, groups := [], map[];
    var i := 0;
    while i < |hs|
      invariant 0 <= i <= |hs|
      invariant IsTypeGrouping(hs[..i], types, groups)
    {
      assert hs[..i + 1] == hs[..i] + [hs[i]];
      types, groups := AddLabels(hs[..i], hs[i], types, groups);
      i := i + 1;
    }
    assert i == |hs|;
    assert hs[..i] == hs;
  }

  /** The inner loop of GroupByType: h is pushed to the bucket of each of its labels in turn. */
  method AddLabels(done: seq<Holiday>, h: Holiday, types0: seq<string>, groups0: map<string, seq<Holiday>>)
    returns (types: seq<string>, groups: map<string, seq<Holiday>>)
    requires IsTypeGrouping(done, types0, groups0)
    ensures IsTypeGrouping(done + [h], types, groups)
  {
    types, groups := types0, groups0;
    StartHoliday(done, h, types, groups);
    var j := 0;
    while j < |h.types|
      invariant 0 <= j <= |h.types|
      invariant TypeGroupingSoFar(done, h, j, types, groups)
    {
      var t := h.types[j];
      LabelStep(done, h, j, types, groups);
      if t !in groups {
        groups := groups[t := []];
        types := types + [t];
      }
      groups := groups[t := groups[t] + [h]];
      j := j + 1;
    }
    FinishHoliday(done, h, types, groups);
  }

  lemma StartHoliday(done: seq<Holiday>, h: Holiday, types: seq<string>, groups: map<string, seq<Holiday>>)
    requires IsTypeGrouping(done, types, groups)
    ensures TypeGroupingSoFar(done, h, 0, types, groups)
  {
    assert AllTypes(done) + h.types[..0] == AllTypes(done);
    forall t | t in groups ensures groups[t] == TypeBucket(done, t) + Repeat(h, multiset(h.types[..0])[t]) {
      assert Repeat(h, 0) == [];
    }
  }

  /** One turn of the inner loop keeps TypeGroupingSoFar. */
  lemma LabelStep(done: seq<Holiday>, h: Holiday, j: nat, types: seq<string>, groups: map<string, seq<Holiday>>)
    requires j < |h.types|
    requires TypeGroupingSoFar(done, h, j, types, groups)
    ensures var t := h.types[j];
      var types1 := if t in groups then types else types + [t];
      var groups1 := if t in groups then groups else groups[t := []];
      TypeGroupingSoFar(done, h, j + 1, types1, groups1[t := groups1[t] + [h]])
  {
    var t := h.types[j];
    LabelStepKeys(done, h, j, types);
    if t !in groups {
      assert t !in types;
      UnseenLabel(done, h.types[..j], t);
    }
    LabelStepBuckets(done, h, j, groups);
  }

  /** The bucket of the j-th label gains h; every other bucket keeps its contents. */
  lemma LabelStepBuckets(done: seq<Holiday>, h: Holiday, j: nat, groups: map<string, seq<Holiday>>)
    requires j < |h.types|
    requires forall u :: u in groups ==> groups[u] == TypeBucket(done, u) + Repeat(h, multiset(h.types[..j])[u])
    requires h.types[j] !in groups ==> TypeBucket(done, h.types[j]) == [] && multiset(h.types[..j])[h.types[j]] == 0
    ensures var t := h.types[j];
      var groups1 := if t in groups then groups else groups[t := []];
      var groups2 := groups1[t := groups1[t] + [h]];
      forall u :: u in groups2 ==> groups2[u] == TypeBucket(done, u) + Repeat(h, multiset(h.types[..j + 1])[u])
  {
    var t := h.types[j];
    var groups1 := if t in groups then groups else groups[t := []];
    var groups2 := groups1[t := groups1[t] + [h]];
    var before := multiset(h.types[..j]);
    var after := multiset(h.types[..j + 1]);
    assert h.types[..j + 1] == h.types[..j] + [t];
    assert after == before + multiset{t};
    if t !in groups {
      assert Repeat(h, 0) == [];
    }
    assert groups1[t] == TypeBucket(done, t) + Repeat(h, before[t]);
    RepeatSnoc(h, before[t]);
    forall u | u in groups2 ensures groups2[u] == TypeBucket(done, u) + Repeat(h, after[u]) {
      if u != t {
        assert after[u] == before[u];
        assert groups2[u] == groups[u];
      }
    }
  }

  /** A label not met so far has an empty bucket and no earlier occurrence. */
  lemma UnseenLabel(done: seq<Holiday>, prefix: seq<string>, t: string)
    requires t !in Distinct(AllTypes(done) + prefix)
    ensures TypeBucket(done, t) == [] && multiset(prefix)[t] == 0
  {
    assert t !in AllTypes(done) + prefix;
    assert t !in AllTypes(done) && t !in prefix;
    TypeBucketLength(done, t);
  }

  lemma LabelStepKeys(done: seq<Holiday>, h: Holiday, j: nat, types: seq<string>)
    requires j < |h.types|
    requires types == Distinct(AllTypes(done) + h.types[..j])
    ensures Distinct(AllTypes(done) + h.types[..j + 1]) ==
      if h.types[j] in types then types else types + [h.types[j]]
  {
    var t := h.types[j];
    var seen := AllTypes(done) + h.types[..j];
    assert h.types[..j + 1] == h.types[..j] + [t];
    assert AllTypes(done) + h.types[..j + 1] == seen + [t];
    assert (seen + [t])[..|seen|] == seen;
  }

  lemma FinishHoliday(done: seq<Holiday>, h: Holiday, types: seq<string>, groups: map<string, seq<Holiday>>)
    requires TypeGroupingSoFar(done, h, |h.types|, types, groups)
    ensures IsTypeGrouping(done + [h], types, groups)
  {
    var all := done + [h];
    assert all[..|all| - 1] == done;
    assert h.types[..|h.types|] == h.types;
    assert AllTypes(all) == AllTypes(done) + h.types;
  }

  lemma {:induction false} TypeBucketLength(hs: seq<Holiday>, t: string)
    ensures |TypeBucket(hs, t)| == multiset(AllTypes(hs))[t]
  {
    if hs != [] {
      TypeBucketLength(hs[..|hs| - 1], t);
    }
  }

  /** A holiday is in bucket t exactly when it is in the list and carries label t. */
  lemma {:induction false} InTypeBucket(hs: seq<Holiday>, t: string, h: Holiday)
    ensures h in TypeBucket(hs, t) <==> exists i :: 0 <= i < |hs| && hs[i] == h && t in hs[i].types
  {
    if hs != [] {
      var init := hs[..|hs| - 1];
      InTypeBucket(init, t, hs[|hs| - 1]);
      InTypeBucket(init, t, h);
      var last := hs[|hs| - 1];
      var n := multiset(last.types)[t];
      assert n > 0 <==> t in last.types;
      assert n > 0 ==> Repeat(last, n)[0] == last;
      assert h in Repeat(last, n) <==> h == last && n > 0;
      if h in TypeBucket(hs, t) && h !in TypeBucket(init, t) {
        assert hs[|hs| - 1] == h && t in hs[|hs| - 1].types;
      }
      if exists i :: 0 <= i < |hs| && hs[i] == h && t in hs[i].types {
        var i :| 0 <= i < |hs| && hs[i] == h && t in hs[i].types;
        if i < |hs| - 1 {
          assert init[i] == h;
        }
      }
    }
  }

  lemma {:induction false} InAllTypes(hs: seq<Holiday>, t: string)
    ensures t in AllTypes(hs) <==> exists i :: 0 <= i < |hs| && t in hs[i].types
  {
    if hs != [] {
      var init := hs[..|hs| - 1];
      InAllTypes(init, t);
      if exists i :: 0 <= i < |hs| && t in hs[i].types {
        var i :| 0 <= i < |hs| && t in hs[i].types;
        if i < |hs| - 1 {
          assert init[i] == hs[i];
        }
      }
    }
  }

  /** The type keys are the union of all type labels, each listed once. */
  lemma TypeKeysAreUnion(hs: seq<Holiday>, t: string)
    ensures t in TypeKeys(hs) <==> exists i :: 0 <= i < |hs| && t in hs[i].types
    ensures NoDuplicates(TypeKeys(hs))
  {
    InAllTypes(hs, t);
  }

  /** Sum of the sizes of the buckets named by keys. */
  function BucketSizes(keys: seq<string>, hs: seq<Holiday>): nat {
    if keys == [] then 0 else |TypeBucket(hs, keys[0])| + BucketSizes(keys[1..], hs)
  }

  lemma {:induction false} BucketSizesAreCounts(keys: seq<string>, hs: seq<Holiday>)
    ensures BucketSizes(keys, hs) == SumCounts(keys, AllTypes(hs))
  {
    if keys != [] {
      TypeBucketLength(hs, keys[0]);
      BucketSizesAreCounts(keys[1..], hs);
    }
  }

  lemma {:induction false} AllTypesLength(hs: seq<Holiday>)
    ensures |AllTypes(hs)| == LabelCount(hs)
  {
    if hs != [] {
      AllTypesLength(hs[..|hs| - 1]);
    }
  }

  /** The type buckets hold, between them, one entry per type label. */
  lemma TypeBucketsTotal(hs: seq<Holiday>)
    ensures BucketSizes(TypeKeys(hs), hs) == LabelCount(hs)
  {
    BucketSizesAreCounts(TypeKeys(hs), hs);
    SumCountsCovering(TypeKeys(hs), AllTypes(hs));
    AllTypesLength(hs);
  }
}
