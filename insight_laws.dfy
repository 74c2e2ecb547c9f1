/**
 * What `extract_deepseek_insights` promises about its result, proved of the
 * specification `Insights.InsightsOf` (which `Insights.ExtractInsights` computes).
 */
module InsightLaws {
  import opened Wrappers
  import opened Reviews
  import opened Counting
  import opened Insights

  // ---------------------------------------------------------------------------
  // Mentions: where they come from
  // ---------------------------------------------------------------------------

  lemma MentionKeysConcat(a: seq<Mention>, b: seq<Mention>)
    ensures MentionKeys(a + b) == MentionKeys(a) + MentionKeys(b)
  {
  }

  lemma MentionKeysOfResult(entities: seq<string>, idx: nat, fold: string -> string)
    ensures MentionKeys(MentionsOf(entities, idx, fold)) == FoldAll(entities, fold)
  {
  }

  /** Every mention names a result of the list and one of that result's case-folded entities. */
  lemma {:induction false} MentionsSound(results: seq<AnalysisResult>, fold: string -> string)
    ensures forall p :: 0 <= p < |Mentions(results, fold)| ==>
      var m := Mentions(results, fold)[p];
      m.idx < |results| && m.key in FoldAll(results[m.idx].entities, fold)
  {
    if results != [] {
      var init, last := results[..|results| - 1], results[|results| - 1];
      MentionsSound(init, fold);
      var a, b := Mentions(init, fold), MentionsOf(last.entities, |results| - 1, fold);
      var ab: seq<Mention> := a + b;
      forall p | 0 <= p < |ab|
        ensures ab[p].idx < |results| && ab[p].key in FoldAll(results[ab[p].idx].entities, fold)
      {
        if p < |a| {
          assert ab[p] == a[p];
          assert results[a[p].idx] == init[a[p].idx];
        } else {
          assert ab[p] == b[p - |a|];
          assert FoldAll(last.entities, fold)[p - |a|] == b[p - |a|].key;
        }
      }
    }
  }

  /** The mentions are in the order of the results they come from. */
  lemma {:induction false} MentionsOrdered(results: seq<AnalysisResult>, fold: string -> string)
    ensures forall p, q :: 0 <= p < q < |Mentions(results, fold)| ==> Mentions(results, fold)[p].idx <= Mentions(results, fold)[q].idx
  {
    if results != [] {
      var init, last := results[..|results| - 1], results[|results| - 1];
      MentionsOrdered(init, fold);
      MentionsSound(init, fold);
    }
  }

  lemma {:induction false} MentionIndicesConcat(a: seq<Mention>, b: seq<Mention>, k: string)
    ensures MentionIndices(a + b, k) == MentionIndices(a, k) + MentionIndices(b, k)
  {
    if b != [] {
      var init, m := b[..|b| - 1], b[|b| - 1];
      assert b == init + [m];
      assert a + b == (a + init) + [m];
      MentionIndicesConcat(a, init, k);
      MentionIndicesAppend(a + init, m, k);
      MentionIndicesAppend(init, m, k);
    } else {
      assert a + b == a;
    }
  }

  /** The indices of the mentions of `k` are indices of mentions of `k`, in order. */
  lemma {:induction false} MentionIndicesSound(ms: seq<Mention>, k: string)
    ensures forall j :: 0 <= j < |MentionIndices(ms, k)| ==> exists p :: 0 <= p < |ms| && ms[p] == Mention(k, MentionIndices(ms, k)[j])
    ensures forall i, j :: 0 <= i < j < |MentionIndices(ms, k)| ==> exists p, q :: 0 <= p < q < |ms| && ms[p].idx == MentionIndices(ms, k)[i] && ms[q].idx == MentionIndices(ms, k)[j]
  {
    if ms != [] {
      var init, m := ms[..|ms| - 1], ms[|ms| - 1];
      assert ms == init + [m];
      MentionIndicesSound(init, k);
      MentionIndicesAppend(init, m, k);
      var before := MentionIndices(init, k);
      var all := MentionIndices(ms, k);
      forall j | 0 <= j < |all| ensures exists p :: 0 <= p < |ms| && ms[p] == Mention(k, all[j]) {
        if j < |before| {
          var p :| 0 <= p < |init| && init[p] == Mention(k, before[j]);
          assert ms[p] == init[p];
        } else {
          assert ms[|ms| - 1] == Mention(k, all[j]);
        }
      }
      forall i, j | 0 <= i < j < |all|
        ensures exists p, q :: 0 <= p < q < |ms| && ms[p].idx == all[i] && ms[q].idx == all[j]
      {
        if j < |before| {
          var p, q :| 0 <= p < q < |init| && init[p].idx == before[i] && init[q].idx == before[j];
          assert ms[p] == init[p] && ms[q] == init[q];
        } else {
          var p :| 0 <= p < |init| && init[p] == Mention(k, before[i]);
          assert ms[p] == init[p] && ms[|ms| - 1].idx == all[j];
        }
      }
    } else {
      assert MentionIndices(ms, k) == [];
    }
  }

  /**
   * The results that supply the examples of `k`: each one mentions `k`, and
   * they come in result order.
   */
  lemma ExampleSources(results: seq<AnalysisResult>, fold: string -> string, k: string)
    ensures forall j :: 0 <= j < |MentionIndices(Mentions(results, fold), k)| ==>
      var idx := MentionIndices(Mentions(results, fold), k)[j];
      idx < |results| && k in FoldAll(results[idx].entities, fold)
    ensures forall i, j :: 0 <= i < j < |MentionIndices(Mentions(results, fold), k)| ==>
      MentionIndices(Mentions(results, fold), k)[i] <= MentionIndices(Mentions(results, fold), k)[j]
  {
    var ms := Mentions(results, fold);
    var idxs := MentionIndices(ms, k);
    MentionsSound(results, fold);
    MentionsOrdered(results, fold);
    MentionIndicesSound(ms, k);
    forall j | 0 <= j < |idxs| ensures idxs[j] < |results| && k in FoldAll(results[idxs[j]].entities, fold) {
      var p :| 0 <= p < |ms| && ms[p] == Mention(k, idxs[j]);
    }
    forall i, j | 0 <= i < j < |idxs| ensures idxs[i] <= idxs[j] {
      var p, q :| 0 <= p < q < |ms| && ms[p].idx == idxs[i] && ms[q].idx == idxs[j];
    }
  }

  // ---------------------------------------------------------------------------
  // When `reviews[idx]` raises
  // ---------------------------------------------------------------------------

  /** Every mention comes from a result of the list. */
  lemma MentionsIdxBound(results: seq<AnalysisResult>, fold: string -> string)
    ensures forall p :: 0 <= p < |Mentions(results, fold)| ==> Mentions(results, fold)[p].idx < |results|
  {
    MentionsSound(results, fold);
  }

  /** With at least one review per result, no `reviews[idx]` is out of range. */
  lemma OkWhenEnoughReviews(reviews: seq<Review>, results: seq<AnalysisResult>, fold: string -> string)
    requires |results| <= |reviews|
    ensures InsightsOf(reviews, results, fold).Ok?
  {
    MentionsIdxBound(results, fold);
  }

  /**
   * A result past the end of the reviews that names an entity mentioned fewer
   * than three times before makes `reviews[idx]` raise.
   */
  lemma RaisesPastEnd(reviews: seq<Review>, results: seq<AnalysisResult>, fold: string -> string, idx: nat, e: nat)
    requires idx < |results| && |reviews| <= idx && e < |results[idx].entities|
    requires Occurrences(EntityKeys(results[..idx], fold) + FoldAll(results[idx].entities[..e], fold), fold(results[idx].entities[e])) < MaxExamples
    ensures InsightsOf(reviews, results, fold) == Err(ReviewIndexOutOfRange)
  {
    var entities := results[idx].entities;
    var pre := Mentions(results[..idx], fold) + MentionsOf(entities[..e], idx, fold);
    var m := Mention(fold(entities[e]), idx);
    MentionKeysConcat(Mentions(results[..idx], fold), MentionsOf(entities[..e], idx, fold));
    MentionKeysOfResult(entities[..e], idx, fold);
    MentionIndicesCount(pre, m.key);
    CapHitStep(pre, m, |reviews|);
    HitInResult(Mentions(results[..idx], fold), entities, e, idx, fold, |reviews|);
    HitPropagates(results, fold, idx, |reviews|);
  }

  // ---------------------------------------------------------------------------
  // The entity rows
  // ---------------------------------------------------------------------------

  /** The parts of a report, for an empty result list as for any other. */
  lemma ReportParts(reviews: seq<Review>, results: seq<AnalysisResult>, fold: string -> string, rep: Report)
    requires InsightsOf(reviews, results, fold) == Ok(rep)
    ensures !CapHit(Mentions(results, fold), |reviews|)
    ensures rep.entities == EntityRows(reviews, Mentions(results, fold), MostCommon(Tally(EntityKeys(results, fold)), MaxEntities))
    ensures rep.topics == TopicRows(MostCommon(Tally(TopicKeys(results, fold)), MaxTopics))
    ensures rep.sentiments == Sentiments(results)
    ensures rep.avgSentiment == Average(rep.sentiments)
  {
    if results == [] {
      assert MostCommon(Tally(EntityKeys(results, fold)), MaxEntities) == [];
      assert MostCommon(Tally(TopicKeys(results, fold)), MaxTopics) == [];
    }
  }

  /**
   * At most 15 entity rows, as many as there are distinct entities when fewer;
   * each names a case-folded entity with its number of mentions.
   */
  lemma EntityRowsCounted(reviews: seq<Review>, results: seq<AnalysisResult>, fold: string -> string, rep: Report)
    requires InsightsOf(reviews, results, fold) == Ok(rep)
    ensures |rep.entities| == Min(MaxEntities, |set k | k in EntityKeys(results, fold)|)
    ensures forall i :: 0 <= i < |rep.entities| ==>
      rep.entities[i].entity in EntityKeys(results, fold)
      && rep.entities[i].count == Occurrences(EntityKeys(results, fold), rep.entities[i].entity)
  {
    ReportParts(reviews, results, fold, rep);
    MostCommonOfTallyCounts(EntityKeys(results, fold), MaxEntities);
  }

  /** No entity twice; counts non-increasing; equal counts in order of first mention. */
  lemma EntityRowsRanked(reviews: seq<Review>, results: seq<AnalysisResult>, fold: string -> string, rep: Report)
    requires InsightsOf(reviews, results, fold) == Ok(rep)
    ensures forall i, j :: 0 <= i < j < |rep.entities| ==>
      var a, b := rep.entities[i], rep.entities[j];
      a.entity != b.entity
      && (a.count > b.count || (a.count == b.count && IndexOf(EntityKeys(results, fold), a.entity) < IndexOf(EntityKeys(results, fold), b.entity)))
  {
    ReportParts(reviews, results, fold, rep);
    var keys := EntityKeys(results, fold);
    MostCommonOfTallyOrder(keys, MaxEntities);
    var r := MostCommon(Tally(keys), MaxEntities);
    forall i, j | 0 <= i < j < |rep.entities| ensures rep.entities[i].entity != rep.entities[j].entity {
      assert KeysOf(r)[i] != KeysOf(r)[j];
    }
  }

  /** An entity left out of the rows is mentioned less, or as often and first mentioned later. */
  lemma EntityRowsTop(reviews: seq<Review>, results: seq<AnalysisResult>, fold: string -> string, rep: Report)
    requires InsightsOf(reviews, results, fold) == Ok(rep)
    ensures forall k, i ::
      (k in EntityKeys(results, fold) && k !in EntityNames(rep.entities) && 0 <= i < |rep.entities|) ==>
      var a := rep.entities[i];
      Occurrences(EntityKeys(results, fold), k) < a.count
      || (Occurrences(EntityKeys(results, fold), k) == a.count && IndexOf(EntityKeys(results, fold), a.entity) < IndexOf(EntityKeys(results, fold), k))
  {
    ReportParts(reviews, results, fold, rep);
    var keys := EntityKeys(results, fold);
    var r := MostCommon(Tally(keys), MaxEntities);
    forall k, i | k in keys && k !in EntityNames(rep.entities) && 0 <= i < |rep.entities|
      ensures Occurrences(keys, k) < rep.entities[i].count
        || (Occurrences(keys, k) == rep.entities[i].count && IndexOf(keys, rep.entities[i].entity) < IndexOf(keys, k))
    {
      assert KeysOf(r) == EntityNames(rep.entities);
      MostCommonOfTallyTop(keys, MaxEntities, k, i);
    }
  }

  /**
   * Each entity row carries min(3, count) examples: the reviews whose results
   * supply its first mentions, in order.
   */
  lemma EntityRowExamples(reviews: seq<Review>, results: seq<AnalysisResult>, fold: string -> string, rep: Report)
    requires InsightsOf(reviews, results, fold) == Ok(rep)
    ensures forall i :: 0 <= i < |rep.entities| ==>
      var row := rep.entities[i];
      |row.examples| == Min(MaxExamples, row.count)
      && forall j :: 0 <= j < |row.examples| ==>
        j < |MentionIndices(Mentions(results, fold), row.entity)|
        && var idx := MentionIndices(Mentions(results, fold), row.entity)[j];
        idx < |reviews| && row.examples[j] == ExampleAt(reviews, idx)
  {
    ReportParts(reviews, results, fold, rep);
    RankedExamples(reviews, Mentions(results, fold));
  }

  /** `EntityRowExamples` for the rows built from the mentions `ms`. */
  lemma RankedExamples(reviews: seq<Review>, ms: seq<Mention>)
    requires !CapHit(ms, |reviews|)
    ensures var rows := EntityRows(reviews, ms, MostCommon(Tally(MentionKeys(ms)), MaxEntities));
      forall i :: 0 <= i < |rows| ==>
        |rows[i].examples| == Min(MaxExamples, rows[i].count)
        && forall j :: 0 <= j < |rows[i].examples| ==>
          j < |MentionIndices(ms, rows[i].entity)| && MentionIndices(ms, rows[i].entity)[j] < |reviews|
          && rows[i].examples[j] == ExampleAt(reviews, MentionIndices(ms, rows[i].entity)[j])
  {
    var r := MostCommon(Tally(MentionKeys(ms)), MaxEntities);
    var rows := EntityRows(reviews, ms, r);
    MostCommonOfTallyCounts(MentionKeys(ms), MaxEntities);
    forall i | 0 <= i < |rows|
      ensures |rows[i].examples| == Min(MaxExamples, rows[i].count)
      ensures forall j :: 0 <= j < |rows[i].examples| ==>
        j < |MentionIndices(ms, rows[i].entity)| && MentionIndices(ms, rows[i].entity)[j] < |reviews|
        && rows[i].examples[j] == ExampleAt(reviews, MentionIndices(ms, rows[i].entity)[j])
    {
      ExamplesOfKey(reviews, ms, r[i].key, r[i].count);
    }
  }

  /** The examples of a key mentioned `count` times: min(3, count) reviews, at its first mentions. */
  lemma ExamplesOfKey(reviews: seq<Review>, ms: seq<Mention>, k: string, count: nat)
    requires !CapHit(ms, |reviews|)
    requires count == Occurrences(MentionKeys(ms), k)
    ensures |Examples(reviews, ms, k)| == Min(MaxExamples, count)
    ensures forall j :: 0 <= j < |Examples(reviews, ms, k)| ==>
      MentionIndices(ms, k)[j] < |reviews| && Examples(reviews, ms, k)[j] == ExampleAt(reviews, MentionIndices(ms, k)[j])
  {
    MentionIndicesCount(ms, k);
  }

  // ---------------------------------------------------------------------------
  // The topic rows
  // ---------------------------------------------------------------------------

  /**
   * At most 10 topic rows, as many as there are distinct topics when fewer;
   * each names a case-folded topic with its number of mentions.
   */
  lemma TopicRowsCounted(reviews: seq<Review>, results: seq<AnalysisResult>, fold: string -> string, rep: Report)
    requires InsightsOf(reviews, results, fold) == Ok(rep)
    ensures |rep.topics| == Min(MaxTopics, |set k | k in TopicKeys(results, fold)|)
    ensures forall i :: 0 <= i < |rep.topics| ==>
      rep.topics[i].topic in TopicKeys(results, fold)
      && rep.topics[i].count == Occurrences(TopicKeys(results, fold), rep.topics[i].topic)
  {
    ReportParts(reviews, results, fold, rep);
    MostCommonOfTallyCounts(TopicKeys(results, fold), MaxTopics);
  }

  /** No topic twice; counts non-increasing; equal counts in order of first mention. */
  lemma TopicRowsRanked(reviews: seq<Review>, results: seq<AnalysisResult>, fold: string -> string, rep: Report)
    requires InsightsOf(reviews, results, fold) == Ok(rep)
    ensures forall i, j :: 0 <= i < j < |rep.topics| ==>
      var a, b := rep.topics[i], rep.topics[j];
      a.topic != b.topic
      && (a.count > b.count || (a.count == b.count && IndexOf(TopicKeys(results, fold), a.topic) < IndexOf(TopicKeys(results, fold), b.topic)))
  {
    ReportParts(reviews, results, fold, rep);
    var keys := TopicKeys(results, fold);
    MostCommonOfTallyOrder(keys, MaxTopics);
    var r := MostCommon(Tally(keys), MaxTopics);
    forall i, j | 0 <= i < j < |rep.topics| ensures rep.topics[i].topic != rep.topics[j].topic {
      assert KeysOf(r)[i] != KeysOf(r)[j];
    }
  }

  /** A topic left out of the rows is mentioned less, or as often and first mentioned later. */
  lemma TopicRowsTop(reviews: seq<Review>, results: seq<AnalysisResult>, fold: string -> string, rep: Report)
    requires InsightsOf(reviews, results, fold) == Ok(rep)
    ensures forall k, i ::
      (k in TopicKeys(results, fold) && k !in TopicNames(rep.topics) && 0 <= i < |rep.topics|) ==>
      var a := rep.topics[i];
      Occurrences(TopicKeys(results, fold), k) < a.count
      || (Occurrences(TopicKeys(results, fold), k) == a.count && IndexOf(TopicKeys(results, fold), a.topic) < IndexOf(TopicKeys(results, fold), k))
  {
    ReportParts(reviews, results, fold, rep);
    var keys := TopicKeys(results, fold);
    var r := MostCommon(Tally(keys), MaxTopics);
    forall k, i | k in keys && k !in TopicNames(rep.topics) && 0 <= i < |rep.topics|
      ensures Occurrences(keys, k) < rep.topics[i].count
        || (Occurrences(keys, k) == rep.topics[i].count && IndexOf(keys, rep.topics[i].topic) < IndexOf(keys, k))
    {
      assert KeysOf(r) == TopicNames(rep.topics);
      MostCommonOfTallyTop(keys, MaxTopics, k, i);
    }
  }

  // ---------------------------------------------------------------------------
  // Sentiments
  // ---------------------------------------------------------------------------

  /** The sentiment list holds exactly the sentiments that results carry. */
  lemma {:induction false} SentimentsOfResults(results: seq<AnalysisResult>)
    ensures |Sentiments(results)| <= |results|
    ensures forall x :: x in Sentiments(results) <==> exists r :: r in results && r.sentiment == Some(x)
  {
    if results != [] {
      var init, last := results[..|results| - 1], results[|results| - 1];
      assert results == init + [last];
      SentimentsOfResults(init);
    }
  }

  /** The positions of the results that carry a sentiment, in increasing order. */
  function SentimentPositions(results: seq<AnalysisResult>): (ps: seq<nat>)
    ensures forall j :: 0 <= j < |ps| ==> ps[j] < |results| && results[ps[j]].sentiment.Some?
    ensures forall j, j' :: 0 <= j < j' < |ps| ==> ps[j] < ps[j']
    ensures forall i :: 0 <= i < |results| && results[i].sentiment.Some? ==> i in ps
  {
    if results == [] then []
    else
      var n := |results| - 1;
      SentimentPositions(results[..n]) + if results[n].sentiment.Some? then [n] else []
  }

  /**
   * The sentiment list is, in result order and one entry per result that has
   * one, the `sentiment` values of the results.
   */
  lemma {:induction false} SentimentsInResultOrder(results: seq<AnalysisResult>)
    ensures |Sentiments(results)| == |SentimentPositions(results)|
    ensures forall j :: 0 <= j < |Sentiments(results)| ==>
      Sentiments(results)[j] == results[SentimentPositions(results)[j]].sentiment.value
  {
    if results != [] {
      var n := |results| - 1;
      SentimentsInResultOrder(results[..n]);
    }
  }

  /** Sentiments split over joined result lists. */
  lemma {:induction false} SentimentsAppend(a: seq<AnalysisResult>, b: seq<AnalysisResult>)
    ensures Sentiments(a + b) == Sentiments(a) + Sentiments(b)
  {
    if b != [] {
      var n := |b| - 1;
      assert (a + b)[..|a + b| - 1] == a + b[..n];
      SentimentsAppend(a, b[..n]);
    } else {
      assert a + b == a;
    }
  }

  lemma {:induction false} SumBounds(xs: seq<real>, lo: real, hi: real)
    requires forall i :: 0 <= i < |xs| ==> lo <= xs[i] <= hi
    ensures lo * (|xs| as real) <= Sum(xs) <= hi * (|xs| as real)
  {
    if xs != [] {
      SumBounds(xs[..|xs| - 1], lo, hi);
    }
  }

  /** The average of scores within `[lo, hi]` lies within `[lo, hi]`; of no scores it is 0. */
  lemma AverageBounds(xs: seq<real>, lo: real, hi: real)
    requires forall i :: 0 <= i < |xs| ==> lo <= xs[i] <= hi
    ensures xs == [] ==> Average(xs) == 0.0
    ensures xs != [] ==> lo <= Average(xs) <= hi
  {
    if xs != [] {
      SumBounds(xs, lo, hi);
      var n := |xs| as real;
      assert lo * n / n == lo && hi * n / n == hi;
    }
  }

  /** The sentiment part of a successful report: the results' sentiments and their average. */
  lemma ReportSentimentParts(reviews: seq<Review>, results: seq<AnalysisResult>, fold: string -> string, rep: Report)
    requires InsightsOf(reviews, results, fold) == Ok(rep)
    ensures rep.sentiments == Sentiments(results)
    ensures rep.avgSentiment == Average(rep.sentiments)
  {
  }

  /**
   * The report lists the results' sentiments, and when every sentiment lies
   * in `[lo, hi]` so does the average (0 when there are none).
   */
  lemma ReportSentiments(reviews: seq<Review>, results: seq<AnalysisResult>, fold: string -> string, rep: Report, lo: real, hi: real)
    requires InsightsOf(reviews, results, fold) == Ok(rep)
    requires forall r :: r in results && r.sentiment.Some? ==> lo <= r.sentiment.value <= hi
    ensures forall x :: x in rep.sentiments <==> exists r :: r in results && r.sentiment == Some(x)
    ensures |rep.sentiments| == |SentimentPositions(results)|
    ensures forall j :: 0 <= j < |rep.sentiments| ==>
      rep.sentiments[j] == results[SentimentPositions(results)[j]].sentiment.value
    ensures rep.sentiments == [] ==> rep.avgSentiment == 0.0
    ensures rep.sentiments != [] ==> lo <= rep.avgSentiment <= hi
  {
    ReportSentimentParts(reviews, results, fold, rep);
    SentimentsOfResults(results);
    SentimentsInResultOrder(results);
    var xs := rep.sentiments;
    forall i | 0 <= i < |xs| ensures lo <= xs[i] <= hi {
      assert xs[i] in xs;
    }
    AverageBounds(xs, lo, hi);
  }
}
