/**
 * The analyse button of `main` (app.py): join the reviews fetched from both
 * stores, stop when there are none, keep those of the chosen days, have the
 * language model analyse their texts batch by batch, fold its results into
 * the insights and keep the statistics shown on the page.
 *
 * The fetched reviews, the model's replies (`ask`) and `str.lower` (`fold`)
 * are parameters.
 */
module Dashboard {
  import opened Wrappers
  import opened Reviews
  import opened Batching
  import opened Counting
  import opened Insights
  import opened InsightLaws

  /** `{"total": len(filtered), "gp": len(gp_revs), "ios": len(ios_revs)}`. */
  datatype Stats = Stats(total: nat, gp: nat, ios: nat)

  /**
   * What pressing the button leads to: the "no reviews" error, the
   * `IndexError` escaping `extract_deepseek_insights`, or the stored analysis.
   */
  datatype Outcome =
    | NoReviews
    | Failed(error: InsightsError)
    | Analyzed(stats: Stats, analysis: Report)

  /** The outcome of one press, for reviews fetched from Google Play and the App Store. */
  function Analysis(gpReviews: seq<Review>, iosReviews: seq<Review>, startDay: int, endDay: int,
                    ask: seq<string> -> BatchReply<AnalysisResult>, fold: string -> string): (r: Outcome)
    ensures r.NoReviews? <==> gpReviews + iosReviews == []
  {
    var all := gpReviews + iosReviews;
    if all == [] then NoReviews
    else
      var filtered := FilterByDays(all, startDay, endDay);
      var results := Gather(Batches(Texts(filtered), MaxBatchSize), ask);
      match InsightsOf(filtered, results, fold)
      case Err(e) => Failed(e)
      case Ok(rep) => Analyzed(Stats(|filtered|, |gpReviews|, |iosReviews|), rep)
  }

  /** The button handler, step by step, proved to reach `Analysis`. */
  method Analyze(gpReviews: seq<Review>, iosReviews: seq<Review>, startDay: int, endDay: int,
                 ask: seq<string> -> BatchReply<AnalysisResult>, fold: string -> string)
    returns (outcome: Outcome)
    ensures outcome == Analysis(gpReviews, iosReviews, startDay, endDay, ask, fold)
  {
    var all := gpReviews + iosReviews;
    if all == [] {
      return NoReviews;
    }
    var filtered := FilterByDays(all, startDay, endDay);
    var results := AnalyzeInBatches(Texts(filtered), ask);
    var analysis := ExtractInsights(filtered, results, fold);
    match analysis
    case Err(e) =>
      outcome := Failed(e);
    case Ok(rep) =>
      outcome := Analyzed(Stats(|filtered|, |gpReviews|, |iosReviews|), rep);
  }

  /**
   * When no reply holds more results than its batch has reviews, the
   * insights never index past the filtered reviews.
   */
  lemma NeverFailsOnWellFormedReplies(gpReviews: seq<Review>, iosReviews: seq<Review>, startDay: int, endDay: int,
                                      ask: seq<string> -> BatchReply<AnalysisResult>, fold: string -> string)
    requires forall b :: ask(b).Answered? ==> |ask(b).results| <= |b|
    ensures !Analysis(gpReviews, iosReviews, startDay, endDay, ask, fold).Failed?
  {
    var all := gpReviews + iosReviews;
    if all != [] {
      var filtered := FilterByDays(all, startDay, endDay);
      var batches := Batches(Texts(filtered), MaxBatchSize);
      GatherAtMostOnePerText(batches, ask);
      BatchesConcat(Texts(filtered), MaxBatchSize);
      OkWhenEnoughReviews(filtered, Gather(batches, ask), fold);
    }
  }

  /** The page reports no more filtered reviews than were fetched from both stores. */
  lemma StatsBounded(gpReviews: seq<Review>, iosReviews: seq<Review>, startDay: int, endDay: int,
                     ask: seq<string> -> BatchReply<AnalysisResult>, fold: string -> string)
    requires Analysis(gpReviews, iosReviews, startDay, endDay, ask, fold).Analyzed?
    ensures var stats := Analysis(gpReviews, iosReviews, startDay, endDay, ask, fold).stats;
      stats.gp == |gpReviews| && stats.ios == |iosReviews| && stats.total <= stats.gp + stats.ios
  {
    FilterLength(gpReviews + iosReviews, DayStart(startDay), DayEnd(endDay));
  }

  /** With the end date before the start date nothing is analysed and the report is the empty one. */
  lemma ReversedDatesGiveEmptyReport(gpReviews: seq<Review>, iosReviews: seq<Review>, startDay: int, endDay: int,
                                     ask: seq<string> -> BatchReply<AnalysisResult>, fold: string -> string)
    requires gpReviews + iosReviews != [] && endDay < startDay
    ensures Analysis(gpReviews, iosReviews, startDay, endDay, ask, fold)
         == Analyzed(Stats(0, |gpReviews|, |iosReviews|), EmptyReport)
  {
    assert DayEnd(endDay) < DayStart(startDay);
    FilterEmptyWindow(gpReviews + iosReviews, DayStart(startDay), DayEnd(endDay));
  }

  /**
   * Every example quoted under an entity is a fetched review whose day lies
   * between the chosen dates.
   */
  lemma ExamplesWithinDates(gpReviews: seq<Review>, iosReviews: seq<Review>, startDay: int, endDay: int,
                            ask: seq<string> -> BatchReply<AnalysisResult>, fold: string -> string)
    requires Analysis(gpReviews, iosReviews, startDay, endDay, ask, fold).Analyzed?
    ensures var rep := Analysis(gpReviews, iosReviews, startDay, endDay, ask, fold).analysis;
      forall i, j :: 0 <= i < |rep.entities| && 0 <= j < |rep.entities[i].examples| ==>
        var ex := rep.entities[i].examples[j];
        startDay <= DayOf(ex.date) <= endDay
        && exists r :: r in gpReviews + iosReviews && r.text == ex.text && r.at == ex.date
  {
    var all := gpReviews + iosReviews;
    var filtered := FilterByDays(all, startDay, endDay);
    var results := Gather(Batches(Texts(filtered), MaxBatchSize), ask);
    var rep := Analysis(gpReviews, iosReviews, startDay, endDay, ask, fold).analysis;
    assert InsightsOf(filtered, results, fold) == Ok(rep);
    EntityRowExamples(filtered, results, fold, rep);
    forall i, j | 0 <= i < |rep.entities| && 0 <= j < |rep.entities[i].examples|
      ensures startDay <= DayOf(rep.entities[i].examples[j].date) <= endDay
      ensures exists r :: r in all && r.text == rep.entities[i].examples[j].text && r.at == rep.entities[i].examples[j].date
    {
      var idx := MentionIndices(Mentions(results, fold), rep.entities[i].entity)[j];
      assert filtered[idx] in filtered;
    }
  }
}
