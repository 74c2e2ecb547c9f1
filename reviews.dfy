/**
 * Review tuples and the date-window filter (app.py, `filter_reviews_by_date`
 * and the whole-day window that `main` builds for it).
 */
module Reviews {

  /** The platform tag carried by each review tuple. */
  datatype Platform = GooglePlay | AppStore

  /**
   * A review tuple `(date, text, platform)`. The naive `datetime` is modelled
   * as a count of microseconds since midnight of day 0, its own resolution.
   */
  datatype Review = Review(at: int, text: string, platform: Platform)

  predicate InWindow(r: Review, start: int, end: int) {
    start <= r.at <= end
  }

  /** `sub` can be obtained from `s` by deleting elements, keeping the order of the rest. */
  ghost predicate IsSubsequence<T>(sub: seq<T>, s: seq<T>)
    decreases |s|
  {
    || sub == []
    || (s != [] && ((sub[0] == s[0] && IsSubsequence(sub[1..], s[1..])) || IsSubsequence(sub, s[1..])))
  }

  /**
   * `filter_reviews_by_date`: the reviews whose date lies in `[start, end]`,
   * both ends included, in their original order.
   */
  function FilterByDate(reviews: seq<Review>, start: int, end: int): (kept: seq<Review>)
    ensures forall r :: r in kept <==> r in reviews && InWindow(r, start, end)
  {
    if reviews == [] then []
    else (if InWindow(reviews[0], start, end) then [reviews[0]] else []) + FilterByDate(reviews[1..], start, end)
  }

  /**
   * Each review is kept exactly as often as it occurs in the input when it is
   * in the window, and never otherwise.
   */
  lemma {:induction false} FilterCounts(reviews: seq<Review>, start: int, end: int, r: Review)
    ensures multiset(FilterByDate(reviews, start, end))[r]
         == if InWindow(r, start, end) then multiset(reviews)[r] else 0
  {
    if reviews != [] {
      assert reviews == [reviews[0]] + reviews[1..];
      FilterCounts(reviews[1..], start, end, r);
    }
  }

  /** The filter never returns more reviews than it is given. */
  lemma {:induction false} FilterLength(reviews: seq<Review>, start: int, end: int)
    ensures |FilterByDate(reviews, start, end)| <= |reviews|
  {
    if reviews != [] {
      FilterLength(reviews[1..], start, end);
    }
  }

  /** The filter keeps the input's order: its result is a subsequence of the input. */
  lemma {:induction false} FilterIsSubsequence(reviews: seq<Review>, start: int, end: int)
    ensures IsSubsequence(FilterByDate(reviews, start, end), reviews)
  {
    if reviews != [] {
      var rest := FilterByDate(reviews[1..], start, end);
      FilterIsSubsequence(reviews[1..], start, end);
      if InWindow(reviews[0], start, end) {
        assert FilterByDate(reviews, start, end) == [reviews[0]] + rest;
        assert ([reviews[0]] + rest)[1..] == rest;
      } else {
        assert FilterByDate(reviews, start, end) == rest;
      }
    }
  }

  /** Filtering again with the same window changes nothing. */
  lemma {:induction false} FilterIdempotent(reviews: seq<Review>, start: int, end: int)
    ensures FilterByDate(FilterByDate(reviews, start, end), start, end) == FilterByDate(reviews, start, end)
  {
    if reviews != [] {
      var rest := FilterByDate(reviews[1..], start, end);
      FilterIdempotent(reviews[1..], start, end);
      if InWindow(reviews[0], start, end) {
        var kept := [reviews[0]] + rest;
        assert FilterByDate(reviews, start, end) == kept;
        assert kept[0] == reviews[0] && kept[1..] == rest;
        assert FilterByDate(kept, start, end) == [kept[0]] + FilterByDate(kept[1..], start, end);
      } else {
        assert FilterByDate(reviews, start, end) == rest;
      }
    }
  }

  /** An empty window (start after end) keeps nothing. */
  lemma {:induction false} FilterEmptyWindow(reviews: seq<Review>, start: int, end: int)
    requires start > end
    ensures FilterByDate(reviews, start, end) == []
  {
    if reviews != [] {
      FilterEmptyWindow(reviews[1..], start, end);
    }
  }

  /** Filtering a concatenation filters each part (the Google Play and App Store lists). */
  lemma {:induction false} FilterAppend(a: seq<Review>, b: seq<Review>, start: int, end: int)
    ensures FilterByDate(a + b, start, end) == FilterByDate(a, start, end) + FilterByDate(b, start, end)
  {
    if a == [] {
      assert a + b == b;
    } else {
      assert (a + b)[0] == a[0] && (a + b)[1..] == a[1..] + b;
      FilterAppend(a[1..], b, start, end);
    }
  }

  /** Microseconds in one day. */
  const MicrosPerDay: int := 86_400_000_000

  /** `datetime.combine(day, time.min)`: midnight at the start of `day`. */
  function DayStart(day: int): int {
    day * MicrosPerDay
  }

  /** `datetime.combine(day, time.max)`: 23:59:59.999999 on `day`. */
  function DayEnd(day: int): int {
    DayStart(day) + MicrosPerDay - 1
  }

  /** The calendar day a timestamp falls on (`datetime.date()`). */
  function DayOf(t: int): int {
    t / MicrosPerDay
  }

  /** The window from the start of `startDay` to the end of `endDay` holds exactly the instants of those days. */
  lemma WholeDayWindow(t: int, startDay: int, endDay: int)
    ensures DayStart(startDay) <= t <= DayEnd(endDay) <==> startDay <= DayOf(t) <= endDay
  {
    var d := DayOf(t);
    assert DayStart(d) <= t <= DayEnd(d);
    if startDay <= d {
      assert DayStart(startDay) <= DayStart(d);
    } else {
      assert DayStart(d) + MicrosPerDay <= DayStart(startDay);
    }
    if d <= endDay {
      assert DayEnd(d) <= DayEnd(endDay);
    } else {
      assert DayEnd(endDay) < DayStart(d);
    }
  }

  /**
   * The call in `main`: filter with the window from the start of `startDay` to
   * the end of `endDay`. A review is kept exactly when its calendar day lies
   * between the two dates, boundary days included.
   */
  function FilterByDays(reviews: seq<Review>, startDay: int, endDay: int): (kept: seq<Review>)
    ensures forall r :: r in kept <==> r in reviews && startDay <= DayOf(r.at) <= endDay
  {
    var kept := FilterByDate(reviews, DayStart(startDay), DayEnd(endDay));
    assert forall r :: r in kept <==> r in reviews && startDay <= DayOf(r.at) <= endDay by {
      forall r ensures r in kept <==> r in reviews && startDay <= DayOf(r.at) <= endDay {
        WholeDayWindow(r.at, startDay, endDay);
      }
    }
    kept
  }
}
