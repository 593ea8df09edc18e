/** The statistics of the progress view (components/progress-tracker.tsx): the rounded
    average progress, the per-category histogram and the three completion buckets.
    All of it is integer arithmetic over the course list. */
module ProgressTracker {

  import opened Types
  import opened Seqs

  /** One slice of the category chart: a category name and how many courses have it. */
  datatype CategoryCount = CategoryCount(name: string, value: int)

  /** The three slices of the completion chart. */
  datatype Completion = Completion(completed: int, inProgress: int, notStarted: int)

  /** Everything the view shows about a non-empty course list. */
  datatype Summary = Summary(
    averageProgress: int,
    totalCourses: int,
    completedCourses: int,
    categoryData: seq<CategoryCount>,
    completionData: Completion)

  // ---------------------------------------------------------------------------
  // Average progress

  /** `courses.reduce((acc, course) => acc + course.progress, 0)`, summed from the
      front; `TotalProgressReduceOrder` shows the reduce's left-to-right order gives
      the same sum. With every progress in [0, 100] the total is at most 100 per
      course. */
  function TotalProgress(cs: seq<Course>): (r: int)
    ensures ProgressInRange(cs) ==> 0 <= r <= 100 * |cs|
    decreases |cs|
  {
    if |cs| == 0 then 0
    else
      assert ProgressInRange(cs) ==> ProgressInRange(cs[1..]) by {
        if ProgressInRange(cs) {
          forall i | 0 <= i < |cs[1..]| ensures 0 <= cs[1..][i].progress <= 100 {
            assert cs[1..][i] == cs[i + 1];
          }
        }
      }
      cs[0].progress + TotalProgress(cs[1..])
  }

  /** The reduce adds the courses from the first to the last: the total of a list is
      the total of all but its last course plus the last course's progress. */
  lemma {:induction false} TotalProgressReduceOrder(cs: seq<Course>)
    requires |cs| > 0
    ensures TotalProgress(cs) == TotalProgress(cs[..|cs| - 1]) + cs[|cs| - 1].progress
    decreases |cs|
  {
    if |cs| > 1 {
      var tail := cs[1..];
      TotalProgressReduceOrder(tail);
      assert tail[..|tail| - 1] == cs[..|cs| - 1][1..];
      assert tail[|tail| - 1] == cs[|cs| - 1];
    }
  }

  /** `Math.round(total / n)` for integers: the integer nearest to `total / n`, halves
      rounded up (towards positive infinity, as `Math.round` does). */
  function RoundHalfUp(total: int, n: int): (r: int)
    requires n > 0
    ensures 2 * n * r - n <= 2 * total < 2 * n * r + n
  {
    var q := (2 * total + n) / (2 * n);
    assert (2 * n) * q <= 2 * total + n < (2 * n) * q + 2 * n;
    q
  }

  /** `averageProgress`; the `0` for an empty list is never shown (the view returns
      early), but the expression has it. */
  function AverageProgress(cs: seq<Course>): (r: int)
    ensures |cs| == 0 ==> r == 0
    ensures |cs| > 0 ==> 2 * |cs| * r - |cs| <= 2 * TotalProgress(cs) < 2 * |cs| * r + |cs|
  {
    if |cs| > 0 then RoundHalfUp(TotalProgress(cs), |cs|) else 0
  }

  /** Every progress value is within [0, 100]. */
  predicate ProgressInRange(cs: seq<Course>) {
    forall i :: 0 <= i < |cs| ==> 0 <= cs[i].progress <= 100
  }

  /** When every progress is in [0, 100], so is the average. */
  lemma AverageInRange(cs: seq<Course>)
    ensures ProgressInRange(cs) ==> 0 <= AverageProgress(cs) <= 100
  {
    if |cs| > 0 && ProgressInRange(cs) {
      RoundedMeanBetween(|cs|, TotalProgress(cs), AverageProgress(cs), 0, 100);
    }
  }

  /** The rounded mean of a total between `n * lo` and `n * hi` lies in [lo, hi]. */
  lemma RoundedMeanBetween(n: int, t: int, r: int, lo: int, hi: int)
    requires n > 0 && 2 * n * r - n <= 2 * t < 2 * n * r + n
    requires n * lo <= t <= n * hi
    ensures lo <= r <= hi
  {
    assert n * (2 * r - 2 * hi - 1) <= 0 && n * (2 * r - 2 * lo + 1) > 0;
    SignOfProduct(n, 2 * r - 2 * hi - 1);
    SignOfProduct(n, 2 * r - 2 * lo + 1);
  }

  /** A positive factor does not change the sign of a product. */
  lemma SignOfProduct(n: int, x: int)
    requires n > 0
    ensures n * x <= 0 ==> x <= 0
    ensures n * x > 0 ==> x > 0
  {
    if x > 0 {
      assert n * x == n * (x - 1) + n;
    }
  }

  lemma {:induction false} TotalProgressConstant(cs: seq<Course>, p: int)
    requires forall i :: 0 <= i < |cs| ==> cs[i].progress == p
    ensures TotalProgress(cs) == |cs| * p
    decreases |cs|
  {
    if |cs| > 0 {
      assert forall i :: 0 <= i < |cs[1..]| ==> cs[1..][i] == cs[i + 1];
      TotalProgressConstant(cs[1..], p);
    }
  }

  /** When every course has the same progress, that is the average. */
  lemma AverageOfEqualProgress(cs: seq<Course>, p: int)
    requires |cs| > 0
    requires forall i :: 0 <= i < |cs| ==> cs[i].progress == p
    ensures AverageProgress(cs) == p
  {
    TotalProgressConstant(cs, p);
    RoundedMeanBetween(|cs|, TotalProgress(cs), AverageProgress(cs), p, p);
  }

  // ---------------------------------------------------------------------------
  // Category histogram

  /** Some entry of `acc` is named `name`. */
  predicate HasName(acc: seq<CategoryCount>, name: string) {
    exists k :: 0 <= k < |acc| && acc[k].name == name
  }

  function Name(e: CategoryCount): string { e.name }

  /** Some course in `cs` has the category `name`. */
  predicate Appears(cs: seq<Course>, name: string) {
    exists i :: 0 <= i < |cs| && cs[i].category == name
  }

  /** How many courses in `cs` have the category `name`. */
  function Occurrences(cs: seq<Course>, name: string): nat {
    if |cs| == 0 then 0
    else Occurrences(cs[..|cs| - 1], name) + (if cs[|cs| - 1].category == name then 1 else 0)
  }

  function SumValues(acc: seq<CategoryCount>): int {
    if |acc| == 0 then 0 else acc[0].value + SumValues(acc[1..])
  }

  /** The reducer's step: add one to the first entry named `name`, or push a new entry
      with count 1 when there is none. */
  function Tally(acc: seq<CategoryCount>, name: string): (r: seq<CategoryCount>)
    ensures !HasName(acc, name) ==> r == acc + [CategoryCount(name, 1)]
    ensures HasName(acc, name) ==> |r| == |acc| && forall k :: 0 <= k < |acc| ==> r[k].name == acc[k].name
    ensures HasName(acc, name) && DistinctBy(acc, Name) ==>
              forall k :: 0 <= k < |acc| ==> r[k].value == acc[k].value + (if acc[k].name == name then 1 else 0)
    ensures SumValues(r) == SumValues(acc) + 1
  {
    if |acc| == 0 then [CategoryCount(name, 1)]
    else if acc[0].name == name then [acc[0].(value := acc[0].value + 1)] + acc[1..]
    else
      var rest := Tally(acc[1..], name);
      assert forall k :: 0 < k < |acc| ==> acc[k] == acc[1..][k - 1];
      assert HasName(acc, name) ==> HasName(acc[1..], name);
      assert DistinctBy(acc, Name) ==> DistinctBy(acc[1..], Name);
      assert ([acc[0]] + rest)[1..] == rest;
      [acc[0]] + rest
  }

  /** `categoryData`: the `reduce` over the courses, written as the reduce over all but
      the last course followed by one more step. */
  function CategoryData(cs: seq<Course>): (r: seq<CategoryCount>)
    ensures IsHistogramOf(cs, r)
    ensures FirstAppearanceOrder(cs, r)
    decreases |cs|
  {
    if |cs| == 0 then []
    else
      var pre, c := cs[..|cs| - 1], cs[|cs| - 1].category;
      var acc := CategoryData(pre);
      AppearsInPrefix(cs);
      if HasName(acc, c) then
        CountsStepKnown(cs, acc);
        OrderStepKnown(cs, acc);
        Tally(acc, c)
      else
        CountsStepNew(cs, acc);
        OrderStepNew(cs, acc);
        Tally(acc, c)
  }

  /** Some course before position `j` has the category `name`. */
  predicate AppearsBefore(cs: seq<Course>, name: string, j: int) {
    exists i :: 0 <= i < j && i < |cs| && cs[i].category == name
  }

  /** Every later entry's category first appears after every earlier entry's: each
      occurrence of entry `l`'s name is preceded by an occurrence of entry `k`'s. */
  ghost predicate FirstAppearanceOrder(cs: seq<Course>, acc: seq<CategoryCount>) {
    forall k, l, j :: 0 <= k < l < |acc| && 0 <= j < |cs| && cs[j].category == acc[l].name ==>
      AppearsBefore(cs, acc[k].name, j)
  }

  /** `acc` is a histogram of the categories of `cs`: every category listed exactly
      once, each with its number of occurrences, and the counts add up to the number
      of courses. */
  ghost predicate IsHistogramOf(cs: seq<Course>, acc: seq<CategoryCount>) {
    && DistinctBy(acc, Name)
    && (forall n :: HasName(acc, n) <==> Appears(cs, n))
    && (forall k :: 0 <= k < |acc| ==> acc[k].value == Occurrences(cs, acc[k].name))
    && SumValues(acc) == |cs|
  }

  /** A category appears in a non-empty list iff it appears before the last course or
      is the last course's. */
  lemma AppearsInPrefix(cs: seq<Course>)
    requires |cs| > 0
    ensures forall n :: Appears(cs, n) <==> Appears(cs[..|cs| - 1], n) || n == cs[|cs| - 1].category
  {
    var pre, c := cs[..|cs| - 1], cs[|cs| - 1].category;
    forall n ensures Appears(cs, n) <==> Appears(pre, n) || n == c {
      if Appears(cs, n) && n != c {
        var i :| 0 <= i < |cs| && cs[i].category == n;
        assert pre[i].category == n;
      }
      if Appears(pre, n) {
        var i :| 0 <= i < |pre| && pre[i].category == n;
        assert cs[i].category == n;
      }
      if n == c {
        assert cs[|cs| - 1].category == n;
      }
    }
  }

  /** Histogram step when the last course's category is already listed: its entry
      grows by one. */
  lemma {:induction false} CountsStepKnown(cs: seq<Course>, acc: seq<CategoryCount>)
    requires |cs| > 0
    requires forall n :: Appears(cs, n) <==> Appears(cs[..|cs| - 1], n) || n == cs[|cs| - 1].category
    requires IsHistogramOf(cs[..|cs| - 1], acc)
    requires HasName(acc, cs[|cs| - 1].category)
    ensures IsHistogramOf(cs, Tally(acc, cs[|cs| - 1].category))
  {
    var pre, c := cs[..|cs| - 1], cs[|cs| - 1].category;
    var r := Tally(acc, c);
    forall n ensures HasName(r, n) <==> HasName(acc, n) {
      if HasName(r, n) {
        var k :| 0 <= k < |r| && r[k].name == n;
        assert acc[k].name == n;
      }
      if HasName(acc, n) {
        var k :| 0 <= k < |acc| && acc[k].name == n;
        assert r[k].name == n;
      }
    }
    assert DistinctBy(r, Name) by {
      forall a, b | 0 <= a < b < |r| ensures r[a].name != r[b].name {
        assert acc[a].name != acc[b].name;
      }
    }
    forall k | 0 <= k < |r| ensures r[k].value == Occurrences(cs, r[k].name) {
      assert r[k].name == acc[k].name;
    }
  }

  /** Histogram step when the last course's category is new: an entry with count 1 is
      pushed. */
  lemma {:induction false} CountsStepNew(cs: seq<Course>, acc: seq<CategoryCount>)
    requires |cs| > 0
    requires forall n :: Appears(cs, n) <==> Appears(cs[..|cs| - 1], n) || n == cs[|cs| - 1].category
    requires IsHistogramOf(cs[..|cs| - 1], acc)
    requires !HasName(acc, cs[|cs| - 1].category)
    ensures IsHistogramOf(cs, Tally(acc, cs[|cs| - 1].category))
  {
    var pre, c := cs[..|cs| - 1], cs[|cs| - 1].category;
    var r := Tally(acc, c);
    assert r == acc + [CategoryCount(c, 1)];
    assert r[|acc|].name == c;
    forall n ensures HasName(r, n) <==> HasName(acc, n) || n == c {
      if HasName(r, n) && n != c {
        var k :| 0 <= k < |r| && r[k].name == n;
        assert k < |acc| && acc[k].name == n;
      }
      if HasName(acc, n) {
        var k :| 0 <= k < |acc| && acc[k].name == n;
        assert r[k].name == n;
      }
    }
    assert DistinctBy(r, Name) by {
      forall a, b | 0 <= a < b < |r| ensures r[a].name != r[b].name {
        if b == |acc| {
          assert HasName(acc, acc[a].name);
        } else {
          assert r[a] == acc[a] && r[b] == acc[b];
        }
      }
    }
    OccurrencesZero(pre, c);
    forall k | 0 <= k < |r| ensures r[k].value == Occurrences(cs, r[k].name) {
      if k < |acc| {
        assert r[k] == acc[k];
        assert HasName(acc, acc[k].name);
      }
    }
  }

  /** A category that never appears occurs zero times. */
  lemma {:induction false} OccurrencesZero(cs: seq<Course>, name: string)
    requires !Appears(cs, name)
    ensures Occurrences(cs, name) == 0
    decreases |cs|
  {
    if |cs| > 0 {
      var pre := cs[..|cs| - 1];
      assert forall i :: 0 <= i < |pre| ==> pre[i] == cs[i];
      OccurrencesZero(pre, name);
    }
  }

  /** Facts about a prefix carry over to the whole list. */
  lemma AppearsBeforeExtends(cs: seq<Course>, name: string, j: int)
    requires |cs| > 0 && AppearsBefore(cs[..|cs| - 1], name, j)
    ensures AppearsBefore(cs, name, j)
  {
    var pre := cs[..|cs| - 1];
    var i :| 0 <= i < j && i < |pre| && pre[i].category == name;
    assert cs[i] == pre[i];
  }

  /** An entry of the prefix's histogram appears before the last course. */
  lemma EntryAppearsBeforeLast(cs: seq<Course>, name: string)
    requires |cs| > 0 && Appears(cs[..|cs| - 1], name)
    ensures AppearsBefore(cs, name, |cs| - 1)
  {
    var pre := cs[..|cs| - 1];
    var i :| 0 <= i < |pre| && pre[i].category == name;
    assert cs[i] == pre[i];
  }

  /** Order step when the last course's category is already listed. */
  lemma {:induction false} OrderStepKnown(cs: seq<Course>, acc: seq<CategoryCount>)
    requires |cs| > 0
    requires var pre := cs[..|cs| - 1];
             && FirstAppearanceOrder(pre, acc)
             && (forall n :: HasName(acc, n) <==> Appears(pre, n))
             && HasName(acc, cs[|cs| - 1].category)
    ensures FirstAppearanceOrder(cs, Tally(acc, cs[|cs| - 1].category))
  {
    var pre := cs[..|cs| - 1];
    var r := Tally(acc, cs[|cs| - 1].category);
    forall k, l, j | 0 <= k < l < |r| && 0 <= j < |cs| && cs[j].category == r[l].name
      ensures AppearsBefore(cs, r[k].name, j)
    {
      assert r[k].name == acc[k].name && r[l].name == acc[l].name;
      if j < |pre| {
        assert pre[j] == cs[j];
        AppearsBeforeExtends(cs, acc[k].name, j);
      } else {
        assert HasName(acc, acc[k].name);
        EntryAppearsBeforeLast(cs, acc[k].name);
      }
    }
  }

  /** Order step when the last course's category is new: it is pushed last. */
  lemma {:induction false} OrderStepNew(cs: seq<Course>, acc: seq<CategoryCount>)
    requires |cs| > 0
    requires var pre := cs[..|cs| - 1];
             && FirstAppearanceOrder(pre, acc)
             && (forall n :: HasName(acc, n) <==> Appears(pre, n))
             && !HasName(acc, cs[|cs| - 1].category)
    ensures FirstAppearanceOrder(cs, Tally(acc, cs[|cs| - 1].category))
  {
    var pre, c := cs[..|cs| - 1], cs[|cs| - 1].category;
    var r := Tally(acc, c);
    assert r == acc + [CategoryCount(c, 1)];
    forall k, l, j | 0 <= k < l < |r| && 0 <= j < |cs| && cs[j].category == r[l].name
      ensures AppearsBefore(cs, r[k].name, j)
    {
      assert r[k] == acc[k];
      assert HasName(acc, acc[k].name);
      if j < |pre| {
        assert pre[j] == cs[j];
        if l == |acc| {
          assert false;
        } else {
          assert r[l] == acc[l];
          AppearsBeforeExtends(cs, acc[k].name, j);
        }
      } else {
        if l < |acc| {
          assert HasName(acc, acc[l].name);
        }
        EntryAppearsBeforeLast(cs, acc[k].name);
      }
    }
  }

  // ---------------------------------------------------------------------------
  // Completion buckets

  predicate IsCompleted(c: Course) { c.progress == 100 }

  predicate IsInProgress(c: Course) { c.progress > 0 && c.progress < 100 }

  predicate IsNotStarted(c: Course) { c.progress == 0 }

  /** `completionData`: the sizes of the three filters. */
  function CompletionData(cs: seq<Course>): (r: Completion)
    ensures r.completed == |set i | 0 <= i < |cs| && cs[i].progress == 100|
    ensures r.inProgress == |set i | 0 <= i < |cs| && 0 < cs[i].progress < 100|
    ensures r.notStarted == |set i | 0 <= i < |cs| && cs[i].progress == 0|
  {
    FilterLengthIsCount(cs, IsCompleted);
    FilterLengthIsCount(cs, IsInProgress);
    FilterLengthIsCount(cs, IsNotStarted);
    BucketPositions(cs);
    Completion(|Filter(cs, IsCompleted)|, |Filter(cs, IsInProgress)|, |Filter(cs, IsNotStarted)|)
  }

  /** The positions each bucket's test picks out, written as the progress tests. */
  lemma BucketPositions(cs: seq<Course>)
    ensures Positions(cs, IsCompleted) == set i | 0 <= i < |cs| && cs[i].progress == 100
    ensures Positions(cs, IsInProgress) == set i | 0 <= i < |cs| && 0 < cs[i].progress < 100
    ensures Positions(cs, IsNotStarted) == set i | 0 <= i < |cs| && cs[i].progress == 0
  {
  }

  /** The buckets never count a course twice, and they count every course when every
      progress is within [0, 100]; a progress outside that range lands in none. */
  lemma CompletionBuckets(cs: seq<Course>)
    ensures var d := CompletionData(cs); d.completed + d.inProgress + d.notStarted <= |cs|
    ensures ProgressInRange(cs) ==>
              var d := CompletionData(cs); d.completed + d.inProgress + d.notStarted == |cs|
    ensures forall i :: 0 <= i < |cs| && (cs[i].progress < 0 || cs[i].progress > 100) ==>
              cs[i] !in Filter(cs, IsCompleted) && cs[i] !in Filter(cs, IsInProgress) && cs[i] !in Filter(cs, IsNotStarted)
  {
    FilterPartition3(cs, IsCompleted, IsInProgress, IsNotStarted);
  }

  // ---------------------------------------------------------------------------
  // The whole view

  /** What the view computes: nothing for an empty list (it shows a placeholder
      instead), otherwise the summary cards and the two charts' data. */
  function Statistics(cs: seq<Course>): (r: Option<Summary>)
    ensures r.None? <==> |cs| == 0
    ensures r.Some? ==> r.value.totalCourses == |cs|
    ensures r.Some? ==> r.value.completedCourses == r.value.completionData.completed
    ensures r.Some? ==>
              2 * |cs| * r.value.averageProgress - |cs| <= 2 * TotalProgress(cs) < 2 * |cs| * r.value.averageProgress + |cs|
    ensures r.Some? ==>
              && r.value.completionData.completed == |set i | 0 <= i < |cs| && cs[i].progress == 100|
              && r.value.completionData.inProgress == |set i | 0 <= i < |cs| && 0 < cs[i].progress < 100|
              && r.value.completionData.notStarted == |set i | 0 <= i < |cs| && cs[i].progress == 0|
    ensures r.Some? && ProgressInRange(cs) ==>
              && 0 <= r.value.averageProgress <= 100
              && r.value.completionData.completed + r.value.completionData.inProgress
                 + r.value.completionData.notStarted == |cs|
    ensures r.Some? ==> IsHistogramOf(cs, r.value.categoryData) && FirstAppearanceOrder(cs, r.value.categoryData)
  {
    if |cs| == 0 then None
    else
      var summary := Summary(AverageProgress(cs), |cs|, |Filter(cs, IsCompleted)|, CategoryData(cs), CompletionData(cs));
      CompletionBuckets(cs);
      AverageInRange(cs);
      Some(summary)
  }
}
