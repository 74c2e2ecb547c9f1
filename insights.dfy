/**
 * `extract_deepseek_insights` (app.py): folds the language model's per-review
 * results into entity and topic counters, up to three example reviews per
 * entity, and the list of sentiment scores; then reports the 15 most common
 * entities, the 10 most common topics and the average sentiment.
 *
 * `str.lower` is the parameter `fold`: nothing here depends on what it does.
 */
module Insights {
  import opened Wrappers
  import opened Reviews
  import opened Counting

  /**
   * One element of the model's results: its `sentiment` when the key is
   * present, and its `entities` and `topics` (`[]` when the key is absent).
   */
  datatype AnalysisResult = AnalysisResult(sentiment: Option<real>, entities: seq<string>, topics: seq<string>)

  /** `{"text": review[1], "date": review[0]}`. */
  datatype Example = Example(text: string, date: int)

  datatype EntityRow = EntityRow(entity: string, count: nat, examples: seq<Example>)

  datatype TopicRow = TopicRow(topic: string, count: nat)

  /** The `insights` dictionary. */
  datatype Report = Report(entities: seq<EntityRow>, topics: seq<TopicRow>, sentiments: seq<real>, avgSentiment: real)

  /** The `IndexError` raised by `reviews[idx]` when there are fewer reviews than results. */
  datatype InsightsError = ReviewIndexOutOfRange

  /** The record returned for an empty result list. */
  const EmptyReport := Report([], [], [], 0.0)

  const MaxEntities: nat := 15
  const MaxTopics: nat := 10
  const MaxExamples: nat := 3

  /** One entity mention: its case-folded key and the index of the result that names it. */
  datatype Mention = Mention(key: string, idx: nat)

  /** The mentions in one result's `entities`, in order. */
  function MentionsOf(entities: seq<string>, idx: nat, fold: string -> string): (ms: seq<Mention>)
    ensures |ms| == |entities|
    ensures forall i :: 0 <= i < |entities| ==> ms[i] == Mention(fold(entities[i]), idx)
  {
    seq(|entities|, i requires 0 <= i < |entities| => Mention(fold(entities[i]), idx))
  }

  /** All entity mentions, result by result. */
  function Mentions(results: seq<AnalysisResult>, fold: string -> string): seq<Mention> {
    if results == [] then []
    else Mentions(results[..|results| - 1], fold) + MentionsOf(results[|results| - 1].entities, |results| - 1, fold)
  }

  function MentionKeys(ms: seq<Mention>): (keys: seq<string>)
    ensures |keys| == |ms|
    ensures forall i :: 0 <= i < |ms| ==> keys[i] == ms[i].key
  {
    seq(|ms|, i requires 0 <= i < |ms| => ms[i].key)
  }

  /** The case-folded entity keys, in the order the loop counts them. */
  function EntityKeys(results: seq<AnalysisResult>, fold: string -> string): seq<string> {
    MentionKeys(Mentions(results, fold))
  }

  function FoldAll(words: seq<string>, fold: string -> string): (keys: seq<string>)
    ensures |keys| == |words|
    ensures forall i :: 0 <= i < |words| ==> keys[i] == fold(words[i])
  {
    seq(|words|, i requires 0 <= i < |words| => fold(words[i]))
  }

  /** The case-folded topic keys, in the order the loop counts them. */
  function TopicKeys(results: seq<AnalysisResult>, fold: string -> string): seq<string> {
    if results == [] then []
    else TopicKeys(results[..|results| - 1], fold) + FoldAll(results[|results| - 1].topics, fold)
  }

  /** The `sentiment` values of the results that have one, in result order. */
  function Sentiments(results: seq<AnalysisResult>): (r: seq<real>)
    ensures |r| <= |results|
  {
    if results == [] then []
    else
      var last := results[|results| - 1];
      Sentiments(results[..|results| - 1]) + if last.sentiment.Some? then [last.sentiment.value] else []
  }

  function Sum(xs: seq<real>): real {
    if xs == [] then 0.0 else Sum(xs[..|xs| - 1]) + xs[|xs| - 1]
  }

  /** `sum(sentiments) / len(sentiments)`, taken only over a non-empty list; 0 otherwise. */
  function Average(xs: seq<real>): (r: real)
    ensures xs == [] ==> r == 0.0
    ensures xs != [] ==> r * (|xs| as real) == Sum(xs)
  {
    if xs == [] then 0.0 else Sum(xs) / (|xs| as real)
  }

  /** The result indices of the mentions of `k`, in order. */
  function MentionIndices(ms: seq<Mention>, k: string): seq<nat> {
    if ms == [] then []
    else
      var last := ms[|ms| - 1];
      MentionIndices(ms[..|ms| - 1], k) + if last.key == k then [last.idx] else []
  }

  function Take<T>(s: seq<T>, n: nat): seq<T> {
    s[..Min(n, |s|)]
  }

  /**
   * The loop reads `reviews[idx]` for a mention when its key has fewer than
   * three examples so far; `CapHit` says that one such read is past the end.
   */
  predicate CapHit(ms: seq<Mention>, reviewCount: nat) {
    exists p | 0 <= p < |ms| :: reviewCount <= ms[p].idx && |MentionIndices(ms[..p], ms[p].key)| < MaxExamples
  }

  function ExampleAt(reviews: seq<Review>, i: nat): Example
    requires i < |reviews|
  {
    Example(reviews[i].text, reviews[i].at)
  }

  lemma MentionKeysAppend(ms: seq<Mention>, m: Mention)
    ensures MentionKeys(ms + [m]) == MentionKeys(ms) + [m.key]
  {
  }

  lemma MentionIndicesAppend(ms: seq<Mention>, m: Mention, k: string)
    ensures MentionIndices(ms + [m], k) == MentionIndices(ms, k) + if m.key == k then [m.idx] else []
  {
    assert (ms + [m])[..|ms|] == ms;
  }

  /** A key has as many mention indices as it has occurrences among the keys. */
  lemma {:induction false} MentionIndicesCount(ms: seq<Mention>, k: string)
    ensures |MentionIndices(ms, k)| == Occurrences(MentionKeys(ms), k)
  {
    if ms != [] {
      var init, m := ms[..|ms| - 1], ms[|ms| - 1];
      assert ms == init + [m];
      MentionIndicesCount(init, k);
      MentionKeysAppend(init, m);
    }
  }

  /** One more mention causes a hit exactly when it is read for an example and lies past the end. */
  lemma CapHitStep(ms: seq<Mention>, m: Mention, n: nat)
    ensures CapHit(ms + [m], n) <==> CapHit(ms, n) || (n <= m.idx && |MentionIndices(ms, m.key)| < MaxExamples)
  {
    var ms' := ms + [m];
    assert forall p :: 0 <= p < |ms| ==> ms'[..p] == ms[..p] && ms'[p] == ms[p];
    assert ms'[..|ms|] == ms && ms'[|ms|] == m;
    if CapHit(ms', n) && !(n <= m.idx && |MentionIndices(ms, m.key)| < MaxExamples) {
      var p :| 0 <= p < |ms'| && n <= ms'[p].idx && |MentionIndices(ms'[..p], ms'[p].key)| < MaxExamples;
      assert p < |ms|;
    }
  }

  /** A hit in a prefix of the mentions is a hit in the whole. */
  lemma CapHitPrefix(a: seq<Mention>, b: seq<Mention>, n: nat)
    requires |a| <= |b| && b[..|a|] == a
    requires CapHit(a, n)
    ensures CapHit(b, n)
  {
    var p :| 0 <= p < |a| && n <= a[p].idx && |MentionIndices(a[..p], a[p].key)| < MaxExamples;
    assert b[..p] == a[..p] && b[p] == a[p];
  }

  /** Taking `n` from a sequence grown by one element takes that element too while there is room. */
  lemma TakeAppend<T>(s: seq<T>, x: T, n: nat)
    ensures Take(s + [x], n) == if |s| < n then Take(s, n) + [x] else Take(s, n)
  {
    if |s| < n {
      assert Take(s + [x], n) == s + [x];
      assert Take(s, n) == s;
    } else {
      assert Take(s + [x], n) == (s + [x])[..n];
      assert (s + [x])[..n] == s[..n];
    }
  }

  /** The first three mentions of a key grow by one mention while there are fewer than three. */
  lemma FirstMentionsStep(ms: seq<Mention>, m: Mention, k: string)
    ensures Take(MentionIndices(ms + [m], k), MaxExamples)
         == if m.key == k && |MentionIndices(ms, k)| < MaxExamples
            then Take(MentionIndices(ms, k), MaxExamples) + [m.idx]
            else Take(MentionIndices(ms, k), MaxExamples)
  {
    MentionIndicesAppend(ms, m, k);
    if m.key == k {
      TakeAppend(MentionIndices(ms, k), m.idx, MaxExamples);
    } else {
      assert MentionIndices(ms + [m], k) == MentionIndices(ms, k);
    }
  }

  /** Without a hit, the first three mentions of every key index existing reviews. */
  lemma {:induction false} FirstMentionsInRange(ms: seq<Mention>, n: nat, k: string)
    requires !CapHit(ms, n)
    ensures forall i: nat :: i in Take<nat>(MentionIndices(ms, k), MaxExamples) ==> i < n
  {
    if ms != [] {
      var init, m := ms[..|ms| - 1], ms[|ms| - 1];
      assert ms == init + [m];
      CapHitStep(init, m, n);
      FirstMentionsInRange(init, n, k);
      FirstMentionsStep(init, m, k);
      var before := Take(MentionIndices(init, k), MaxExamples);
      var after := Take(MentionIndices(ms, k), MaxExamples);
      if m.key == k && |MentionIndices(init, k)| < MaxExamples {
        assert m.idx < n;
        assert after == before + [m.idx];
        forall i | i in after
          ensures i < n
        {
          assert i in before || i == m.idx;
        }
      } else {
        assert after == before;
      }
    } else {
      assert Take(MentionIndices(ms, k), MaxExamples) == [];
    }
  }

  /** The reviews at the given positions, in order. */
  function ExamplesAt(reviews: seq<Review>, positions: seq<nat>): (es: seq<Example>)
    requires forall p :: p in positions ==> p < |reviews|
    ensures |es| == |positions|
  {
    seq(|positions|, j requires 0 <= j < |positions| => assert positions[j] in positions; ExampleAt(reviews, positions[j]))
  }

  /** One more position adds its review at the end. */
  lemma ExamplesAtAppend(reviews: seq<Review>, positions: seq<nat>, p: nat)
    requires forall q :: q in positions ==> q < |reviews|
    requires p < |reviews|
    ensures ExamplesAt(reviews, positions + [p]) == ExamplesAt(reviews, positions) + [ExampleAt(reviews, p)]
  {
  }

  /**
   * The examples of `k` in `entity_examples`: the reviews of its first (at
   * most three) mentions, in mention order.
   */
  function Examples(reviews: seq<Review>, ms: seq<Mention>, k: string): (es: seq<Example>)
    requires !CapHit(ms, |reviews|)
    ensures |es| == Min(MaxExamples, |MentionIndices(ms, k)|)
    ensures forall j :: 0 <= j < |es| ==>
      MentionIndices(ms, k)[j] < |reviews| && es[j] == ExampleAt(reviews, MentionIndices(ms, k)[j])
  {
    FirstMentionsInRange(ms, |reviews|, k);
    var es := ExamplesAt(reviews, Take<nat>(MentionIndices(ms, k), MaxExamples));
    assert forall j :: 0 <= j < |es| ==>
      MentionIndices(ms, k)[j] < |reviews| && es[j] == ExampleAt(reviews, MentionIndices(ms, k)[j]) by {
      forall j | 0 <= j < |es|
        ensures MentionIndices(ms, k)[j] < |reviews| && es[j] == ExampleAt(reviews, MentionIndices(ms, k)[j])
      {
        var firsts := Take(MentionIndices(ms, k), MaxExamples);
        assert firsts[j] in firsts && firsts[j] == MentionIndices(ms, k)[j];
      }
    }
    es
  }

  /** Reading a `defaultdict(list)`: a missing key reads as the empty list. */
  function Lookup(m: map<string, seq<Example>>, k: string): seq<Example> {
    if k in m then m[k] else []
  }

  /** One mention leaves the examples of every other key alone. */
  lemma ExamplesOtherKey(reviews: seq<Review>, ms: seq<Mention>, m: Mention, k: string)
    requires !CapHit(ms + [m], |reviews|) && !CapHit(ms, |reviews|)
    requires k != m.key
    ensures Examples(reviews, ms + [m], k) == Examples(reviews, ms, k)
  {
    FirstMentionsStep(ms, m, k);
  }

  /** One mention appends its review to its key's examples while there are fewer than three. */
  lemma ExamplesSameKey(reviews: seq<Review>, ms: seq<Mention>, m: Mention)
    requires !CapHit(ms + [m], |reviews|)
    ensures !CapHit(ms, |reviews|)
    ensures |MentionIndices(ms, m.key)| < MaxExamples ==>
      m.idx < |reviews| && Examples(reviews, ms + [m], m.key) == Examples(reviews, ms, m.key) + [ExampleAt(reviews, m.idx)]
    ensures MaxExamples <= |MentionIndices(ms, m.key)| ==> Examples(reviews, ms + [m], m.key) == Examples(reviews, ms, m.key)
  {
    CapHitStep(ms, m, |reviews|);
    FirstMentionsStep(ms, m, m.key);
    if |MentionIndices(ms, m.key)| < MaxExamples {
      FirstMentionsInRange(ms, |reviews|, m.key);
      ExamplesAtAppend(reviews, Take<nat>(MentionIndices(ms, m.key), MaxExamples), m.idx);
    }
  }

  /** Appending one result to the list appends its mentions. */
  lemma MentionsStep(results: seq<AnalysisResult>, idx: nat, fold: string -> string)
    requires idx < |results|
    ensures Mentions(results[..idx + 1], fold) == Mentions(results[..idx], fold) + MentionsOf(results[idx].entities, idx, fold)
  {
    assert results[..idx + 1][..idx] == results[..idx];
  }

  lemma TopicKeysStep(results: seq<AnalysisResult>, idx: nat, fold: string -> string)
    requires idx < |results|
    ensures TopicKeys(results[..idx + 1], fold) == TopicKeys(results[..idx], fold) + FoldAll(results[idx].topics, fold)
  {
    assert results[..idx + 1][..idx] == results[..idx];
  }

  lemma SentimentsStep(results: seq<AnalysisResult>, idx: nat)
    requires idx < |results|
    ensures Sentiments(results[..idx + 1])
         == Sentiments(results[..idx]) + if results[idx].sentiment.Some? then [results[idx].sentiment.value] else []
  {
    assert results[..idx + 1][..idx] == results[..idx];
  }

  /** The mentions of a prefix of the results are a prefix of all mentions. */
  lemma {:induction false} MentionsPrefix(results: seq<AnalysisResult>, i: nat, fold: string -> string)
    requires i <= |results|
    ensures |Mentions(results[..i], fold)| <= |Mentions(results, fold)|
    ensures Mentions(results, fold)[..|Mentions(results[..i], fold)|] == Mentions(results[..i], fold)
  {
    if i < |results| {
      var init := results[..|results| - 1];
      assert init[..i] == results[..i];
      MentionsPrefix(init, i, fold);
    } else {
      assert results[..i] == results;
    }
  }

  /** A hit in the mentions of the first results is a hit in all the mentions. */
  lemma HitPropagates(results: seq<AnalysisResult>, fold: string -> string, idx: nat, n: nat)
    requires idx < |results|
    requires CapHit(Mentions(results[..idx], fold) + MentionsOf(results[idx].entities, idx, fold), n)
    ensures CapHit(Mentions(results, fold), n)
  {
    MentionsStep(results, idx, fold);
    MentionsPrefix(results, idx + 1, fold);
    CapHitPrefix(Mentions(results[..idx + 1], fold), Mentions(results, fold), n);
  }

  /** `insights['entities']`: one row per ranked entity, with its examples. */
  function EntityRows(reviews: seq<Review>, ms: seq<Mention>, ranked: seq<Entry<string>>): (rows: seq<EntityRow>)
    requires !CapHit(ms, |reviews|)
    ensures |rows| == |ranked|
    ensures forall i :: 0 <= i < |ranked| ==>
      rows[i].entity == ranked[i].key && rows[i].count == ranked[i].count && rows[i].examples == Examples(reviews, ms, ranked[i].key)
  {
    seq(|ranked|, i requires 0 <= i < |ranked| => EntityRow(ranked[i].key, ranked[i].count, Examples(reviews, ms, ranked[i].key)))
  }

  function EntityNames(rows: seq<EntityRow>): (names: seq<string>)
    ensures |names| == |rows|
    ensures forall i :: 0 <= i < |rows| ==> names[i] == rows[i].entity
  {
    seq(|rows|, i requires 0 <= i < |rows| => rows[i].entity)
  }

  /** `insights['topics']`: one row per ranked topic. */
  function TopicRows(ranked: seq<Entry<string>>): (rows: seq<TopicRow>)
    ensures |rows| == |ranked|
    ensures forall i :: 0 <= i < |ranked| ==> rows[i].topic == ranked[i].key && rows[i].count == ranked[i].count
  {
    seq(|ranked|, i requires 0 <= i < |ranked| => TopicRow(ranked[i].key, ranked[i].count))
  }

  function TopicNames(rows: seq<TopicRow>): (names: seq<string>)
    ensures |names| == |rows|
    ensures forall i :: 0 <= i < |rows| ==> names[i] == rows[i].topic
  {
    seq(|rows|, i requires 0 <= i < |rows| => rows[i].topic)
  }

  /**
   * What `extract_deepseek_insights` returns for the filtered reviews and the
   * model's results, or the `IndexError` it raises.
   */
  function InsightsOf(reviews: seq<Review>, results: seq<AnalysisResult>, fold: string -> string): (r: Result<Report, InsightsError>)
    ensures r.Ok? ==> |r.value.entities| <= MaxEntities && |r.value.topics| <= MaxTopics
    ensures r.Ok? ==> |r.value.sentiments| <= |results|
  {
    if results == [] then Ok(EmptyReport)
    else
      var ms := Mentions(results, fold);
      if CapHit(ms, |reviews|) then Err(ReviewIndexOutOfRange)
      else
        var sentiments := Sentiments(results);
        Ok(Report(
          EntityRows(reviews, ms, MostCommon(Tally(MentionKeys(ms)), MaxEntities)),
          TopicRows(MostCommon(Tally(TopicKeys(results, fold)), MaxTopics)),
          sentiments,
          Average(sentiments)))
  }

  /**
   * `entity_counter` and `entity_examples` as they stand after the mentions
   * `ms`, none of which has read past the end of the reviews.
   */
  ghost predicate EntityState(reviews: seq<Review>, ms: seq<Mention>, counter: seq<Entry<string>>, table: map<string, seq<Example>>) {
    && !CapHit(ms, |reviews|)
    && counter == Tally(MentionKeys(ms))
    && forall k :: Lookup(table, k) == Examples(reviews, ms, k)
  }

  /** What counting one more mention does to `entity_counter` and `entity_examples`. */
  lemma EntityStep(reviews: seq<Review>, ms: seq<Mention>, counter: seq<Entry<string>>, table: map<string, seq<Example>>, m: Mention)
    requires EntityState(reviews, ms, counter, table)
    requires |Lookup(table, m.key)| < MaxExamples ==> m.idx < |reviews|
    ensures EntityState(reviews, ms + [m], Bump(counter, m.key),
      if |Lookup(table, m.key)| < MaxExamples then table[m.key := Lookup(table, m.key) + [ExampleAt(reviews, m.idx)]] else table)
  {
    CapHitStep(ms, m, |reviews|);
    MentionKeysAppend(ms, m);
    TallyAppend(MentionKeys(ms), m.key);
    var table' := if |Lookup(table, m.key)| < MaxExamples then table[m.key := Lookup(table, m.key) + [ExampleAt(reviews, m.idx)]] else table;
    forall k ensures Lookup(table', k) == Examples(reviews, ms + [m], k) {
      if k == m.key {
        ExamplesSameKey(reviews, ms, m);
      } else {
        ExamplesOtherKey(reviews, ms, m, k);
      }
    }
  }

  /** Counting one more entity of a result appends its mention. */
  lemma MentionsOfStep(ms: seq<Mention>, entities: seq<string>, e: nat, idx: nat, fold: string -> string)
    requires e < |entities|
    ensures ms + MentionsOf(entities[..e + 1], idx, fold) == ms + MentionsOf(entities[..e], idx, fold) + [Mention(fold(entities[e]), idx)]
  {
    assert MentionsOf(entities[..e + 1], idx, fold) == MentionsOf(entities[..e], idx, fold) + [Mention(fold(entities[e]), idx)];
  }

  /**
   * Reading `reviews[idx]` past the end of the reviews, for an entity with
   * fewer than three examples, is a hit.
   */
  lemma HitAtMention(reviews: seq<Review>, ms: seq<Mention>, counter: seq<Entry<string>>, table: map<string, seq<Example>>, m: Mention)
    requires EntityState(reviews, ms, counter, table)
    requires |reviews| <= m.idx && |Lookup(table, m.key)| < MaxExamples
    ensures CapHit(ms + [m], |reviews|)
  {
    assert |Lookup(table, m.key)| == Min(MaxExamples, |MentionIndices(ms, m.key)|);
    CapHitStep(ms, m, |reviews|);
  }

  /** A hit at one entity of a result is a hit once all its entities are counted. */
  lemma HitInResult(ms: seq<Mention>, entities: seq<string>, e: nat, idx: nat, fold: string -> string, n: nat)
    requires e < |entities|
    requires CapHit(ms + MentionsOf(entities[..e], idx, fold) + [Mention(fold(entities[e]), idx)], n)
    ensures CapHit(ms + MentionsOf(entities, idx, fold), n)
  {
    MentionsOfStep(ms, entities, e, idx, fold);
    var a, b := ms + MentionsOf(entities[..e + 1], idx, fold), ms + MentionsOf(entities, idx, fold);
    assert b[..|a|] == a;
    CapHitPrefix(a, b, n);
  }

  /**
   * The inner entity loop for the result at `idx`: counts each case-folded
   * entity and records the review as an example while the entity has fewer
   * than three. `raised` is the `IndexError` of `reviews[idx]`.
   */
  method CountEntities(reviews: seq<Review>, entities: seq<string>, idx: nat, fold: string -> string,
                       counter: seq<Entry<string>>, examples: map<string, seq<Example>>, ghost mentions: seq<Mention>)
    returns (raised: bool, counter': seq<Entry<string>>, examples': map<string, seq<Example>>)
    requires EntityState(reviews, mentions, counter, examples)
    ensures raised <==> CapHit(mentions + MentionsOf(entities, idx, fold), |reviews|)
    ensures !raised ==> EntityState(reviews, mentions + MentionsOf(entities, idx, fold), counter', examples')
  {
    counter', examples' := counter, examples;
    ghost var mentions' := mentions;
    for e := 0 to |entities|
      invariant mentions' == mentions + MentionsOf(entities[..e], idx, fold)
      invariant EntityState(reviews, mentions', counter', examples')
    {
      var key := fold(entities[e]);
      ghost var m := Mention(key, idx);
      ghost var counter0, examples0 := counter', examples';
      counter' := Bump(counter', key);
      var sofar := Lookup(examples', key);
      if |sofar| < MaxExamples {
        if |reviews| <= idx {
          HitAtMention(reviews, mentions', counter0, examples0, m);
          HitInResult(mentions, entities, e, idx, fold, |reviews|);
          return true, counter', examples';
        }
        examples' := examples'[key := sofar + [ExampleAt(reviews, idx)]];
      }
      EntityStep(reviews, mentions', counter0, examples0, m);
      MentionsOfStep(mentions, entities, e, idx, fold);
      mentions' := mentions' + [m];
    }
    assert entities[..|entities|] == entities;
    raised := false;
  }

  /** Counting one more topic bumps the counter of the topics counted so far. */
  lemma TopicCountStep(keys: seq<string>, topics: seq<string>, t: nat, fold: string -> string)
    requires t < |topics|
    ensures Tally(keys + FoldAll(topics[..t + 1], fold)) == Bump(Tally(keys + FoldAll(topics[..t], fold)), fold(topics[t]))
  {
    var before := keys + FoldAll(topics[..t], fold);
    assert keys + FoldAll(topics[..t + 1], fold) == before + [fold(topics[t])];
    TallyAppend(before, fold(topics[t]));
  }

  /** The inner topic loop: counts each case-folded topic. */
  method CountTopics(topics: seq<string>, fold: string -> string, counter: seq<Entry<string>>, ghost keys: seq<string>)
    returns (counter': seq<Entry<string>>)
    requires counter == Tally(keys)
    ensures counter' == Tally(keys + FoldAll(topics, fold))
  {
    counter' := counter;
    assert keys + FoldAll(topics[..0], fold) == keys;
    for t := 0 to |topics|
      invariant counter' == Tally(keys + FoldAll(topics[..t], fold))
    {
      TopicCountStep(keys, topics, t, fold);
      counter' := Bump(counter', fold(topics[t]));
    }
    assert topics[..|topics|] == topics;
  }

  /** The loop of `extract_deepseek_insights`, proved to compute `InsightsOf`. */
  method ExtractInsights(reviews: seq<Review>, results: seq<AnalysisResult>, fold: string -> string)
    returns (outcome: Result<Report, InsightsError>)
    ensures outcome == InsightsOf(reviews, results, fold)
  {
    if results == [] {
      return Ok(EmptyReport);
    }
    var entityCounter: seq<Entry<string>> := [];
    var entityExamples: map<string, seq<Example>> := map[];
    var topicCounter: seq<Entry<string>> := [];
    var sentiments: seq<real> := [];
    ghost var mentions: seq<Mention> := [];
    for idx := 0 to |results|
      invariant mentions == Mentions(results[..idx], fold)
      invariant EntityState(reviews, mentions, entityCounter, entityExamples)
      invariant topicCounter == Tally(TopicKeys(results[..idx], fold))
      invariant sentiments == Sentiments(results[..idx])
    {
      var result := results[idx];
      SentimentsStep(results, idx);
      if result.sentiment.Some? {
        sentiments := sentiments + [result.sentiment.value];
      }

      var raised;
      raised, entityCounter, entityExamples :=
        CountEntities(reviews, result.entities, idx, fold, entityCounter, entityExamples, mentions);
      mentions := mentions + MentionsOf(result.entities, idx, fold);
      if raised {
        HitPropagates(results, fold, idx, |reviews|);
        return Err(ReviewIndexOutOfRange);
      }
      MentionsStep(results, idx, fold);

      TopicKeysStep(results, idx, fold);
      topicCounter := CountTopics(result.topics, fold, topicCounter, TopicKeys(results[..idx], fold));
    }
    assert results[..|results|] == results;

    var rankedEntities := MostCommon(entityCounter, MaxEntities);
    var entityRows := seq(|rankedEntities|, i requires 0 <= i < |rankedEntities| =>
      EntityRow(rankedEntities[i].key, rankedEntities[i].count, Lookup(entityExamples, rankedEntities[i].key)));
    var rankedTopics := MostCommon(topicCounter, MaxTopics);
    var topicRows := seq(|rankedTopics|, i requires 0 <= i < |rankedTopics| => TopicRow(rankedTopics[i].key, rankedTopics[i].count));
    assert entityRows == EntityRows(reviews, mentions, rankedEntities);
    assert topicRows == TopicRows(rankedTopics);
    outcome := Ok(Report(entityRows, topicRows, sentiments, Average(sentiments)));
  }
}
