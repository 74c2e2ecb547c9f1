/**
 * The batching loop of `analyze_with_deepseek` (app.py): the review texts are
 * sent to the language model in consecutive slices of at most
 * `MAX_BATCH_SIZE`, and the parsed results of each reply are appended in order.
 * The request itself is a parameter `ask` that maps one batch to its reply.
 */
module Batching {
  import opened Wrappers
  import opened Reviews

  /** `MAX_BATCH_SIZE`. */
  const MaxBatchSize: nat := 5

  /** `[review[1] for review in reviews]`. */
  function Texts(reviews: seq<Review>): (texts: seq<string>)
    ensures |texts| == |reviews|
    ensures forall i :: 0 <= i < |reviews| ==> texts[i] == reviews[i].text
  {
    seq(|reviews|, i requires 0 <= i < |reviews| => reviews[i].text)
  }

  /** All the pieces, one after the other. */
  function Concat<T>(pieces: seq<seq<T>>): seq<T> {
    if pieces == [] then [] else pieces[0] + Concat(pieces[1..])
  }

  /** The slices `xs[i:i+k]` for `i` in `range(0, len(xs), k)`. */
  function Batches<T>(xs: seq<T>, k: nat): seq<seq<T>>
    requires 0 < k
    decreases |xs|
  {
    if xs == [] then [] else [xs[..Min(k, |xs|)]] + Batches(xs[Min(k, |xs|)..], k)
  }

  /** The batches put back together are the input, in order. */
  lemma {:induction false} BatchesConcat<T>(xs: seq<T>, k: nat)
    requires 0 < k
    ensures Concat(Batches(xs, k)) == xs
    decreases |xs|
  {
    if xs != [] {
      var m := Min(k, |xs|);
      BatchesConcat(xs[m..], k);
      assert ([xs[..m]] + Batches(xs[m..], k))[1..] == Batches(xs[m..], k);
      assert xs == xs[..m] + xs[m..];
    }
  }

  /** There are `ceil(n / k)` batches: `k` times their number is at least `n` and less than `n + k`. */
  lemma {:induction false} BatchesLength<T>(xs: seq<T>, k: nat)
    requires 0 < k
    ensures |xs| <= |Batches(xs, k)| * k < |xs| + k
    decreases |xs|
  {
    if xs != [] {
      var m := Min(k, |xs|);
      BatchesLength(xs[m..], k);
      var r := |Batches(xs[m..], k)|;
      assert |Batches(xs, k)| == 1 + r;
      assert (1 + r) * k == k + r * k;
    }
  }

  /** No batch is empty; every batch but the last holds exactly `k` elements and the last at most `k`. */
  lemma {:induction false} BatchSizes<T>(xs: seq<T>, k: nat)
    requires 0 < k
    ensures forall j :: 0 <= j < |Batches(xs, k)| ==> 0 < |Batches(xs, k)[j]| <= k
    ensures forall j :: 0 <= j < |Batches(xs, k)| - 1 ==> |Batches(xs, k)[j]| == k
    decreases |xs|
  {
    if xs != [] {
      var m := Min(k, |xs|);
      var rest := Batches(xs[m..], k);
      BatchSizes(xs[m..], k);
      var bs := [xs[..m]] + rest;
      assert Batches(xs, k) == bs;
      assert forall j :: 1 <= j < |bs| ==> bs[j] == rest[j - 1];
    }
  }

  /** The shape of the batches: their number and their sizes. */
  lemma BatchesShape<T>(xs: seq<T>, k: nat)
    requires 0 < k
    ensures |xs| <= |Batches(xs, k)| * k < |xs| + k
    ensures forall j :: 0 <= j < |Batches(xs, k)| ==> 0 < |Batches(xs, k)[j]| <= k
    ensures forall j :: 0 <= j < |Batches(xs, k)| - 1 ==> |Batches(xs, k)[j]| == k
  {
    BatchesLength(xs, k);
    BatchSizes(xs, k);
  }

  /** With `MAX_BATCH_SIZE`, the number of batches is `ceil(n / 5)`. */
  lemma BatchCount<T>(xs: seq<T>)
    ensures |Batches(xs, MaxBatchSize)| == (|xs| + MaxBatchSize - 1) / MaxBatchSize
  {
    BatchesShape(xs, MaxBatchSize);
  }

  /** What is left of `xs` from position `i` on; empty once `i` has run past the end. */
  function Remaining<T>(xs: seq<T>, i: nat): seq<T> {
    if i < |xs| then xs[i..] else []
  }

  /** The first batch of what remains at `i` is the slice `xs[i:i+k]`, and the others are those of what remains at `i + k`. */
  lemma BatchesStep<T>(xs: seq<T>, i: nat, k: nat)
    requires i < |xs| && 0 < k
    ensures Batches(Remaining(xs, i), k) == [xs[i..Min(i + k, |xs|)]] + Batches(Remaining(xs, i + k), k)
  {
    var rest := xs[i..];
    assert rest[..Min(k, |rest|)] == xs[i..Min(i + k, |xs|)];
    assert rest[Min(k, |rest|)..] == Remaining(xs, i + k);
  }

  /**
   * The reply to one batch request: the parsed results (empty when the reply
   * could not be parsed or carried no `results`), or an abort (rate limit or
   * exception) that ends the loop.
   */
  datatype BatchReply<T> = Answered(results: seq<T>) | Aborted

  /** The results collected from the batches in order, up to the first abort. */
  function Gather<T>(batches: seq<seq<string>>, ask: seq<string> -> BatchReply<T>): (r: seq<T>)
    ensures forall i :: 0 <= i < |r| ==> exists j :: 0 <= j < |batches| && ask(batches[j]).Answered? && r[i] in ask(batches[j]).results
  {
    if batches == [] then []
    else match ask(batches[0])
      case Aborted => []
      case Answered(rs) => rs + Gather(batches[1..], ask)
  }

  ghost predicate AllAnswered<T>(batches: seq<seq<string>>, ask: seq<string> -> BatchReply<T>) {
    forall j :: 0 <= j < |batches| ==> ask(batches[j]).Answered?
  }

  /** Once every batch of a prefix is answered, gathering continues with the rest. */
  lemma {:induction false} GatherAppend<T>(a: seq<seq<string>>, b: seq<seq<string>>, ask: seq<string> -> BatchReply<T>)
    requires AllAnswered(a, ask)
    ensures Gather(a + b, ask) == Gather(a, ask) + Gather(b, ask)
  {
    if a == [] {
      assert a + b == b;
    } else {
      assert (a + b)[0] == a[0] && (a + b)[1..] == a[1..] + b;
      GatherAppend(a[1..], b, ask);
    }
  }

  /**
   * The state of the request loop at offset `i`: the batches sent so far are
   * `done`, all answered, and `results` holds their results.
   */
  ghost predicate Progress<T>(texts: seq<string>, ask: seq<string> -> BatchReply<T>, done: seq<seq<string>>, i: nat, results: seq<T>) {
    && Batches(texts, MaxBatchSize) == done + Batches(Remaining(texts, i), MaxBatchSize)
    && AllAnswered(done, ask)
    && results == Gather(done, ask)
  }

  /** The slice at `i`, as the loop sends it. */
  function BatchAt(texts: seq<string>, i: nat): seq<string>
    requires i < |texts|
  {
    texts[i..Min(i + MaxBatchSize, |texts|)]
  }

  /** An answered batch extends the results and moves the loop on by one batch. */
  lemma ProgressAnswered<T>(texts: seq<string>, ask: seq<string> -> BatchReply<T>, done: seq<seq<string>>, i: nat, results: seq<T>)
    requires Progress(texts, ask, done, i, results) && i < |texts|
    requires ask(BatchAt(texts, i)).Answered?
    ensures Progress(texts, ask, done + [BatchAt(texts, i)], i + MaxBatchSize, results + ask(BatchAt(texts, i)).results)
  {
    var batch := BatchAt(texts, i);
    BatchesStep(texts, i, MaxBatchSize);
    assert done + ([batch] + Batches(Remaining(texts, i + MaxBatchSize), MaxBatchSize))
        == (done + [batch]) + Batches(Remaining(texts, i + MaxBatchSize), MaxBatchSize);
    GatherAppend(done, [batch], ask);
    assert Gather([batch], ask) == ask(batch).results + Gather([batch][1..], ask);
  }

  /** An aborted batch ends the loop with the results gathered so far, which are all there are. */
  lemma ProgressAborted<T>(texts: seq<string>, ask: seq<string> -> BatchReply<T>, done: seq<seq<string>>, i: nat, results: seq<T>)
    requires Progress(texts, ask, done, i, results) && i < |texts|
    requires ask(BatchAt(texts, i)).Aborted?
    ensures results == Gather(Batches(texts, MaxBatchSize), ask)
  {
    var batch := BatchAt(texts, i);
    var later := Batches(Remaining(texts, i + MaxBatchSize), MaxBatchSize);
    BatchesStep(texts, i, MaxBatchSize);
    GatherAppend(done, [batch] + later, ask);
    assert ([batch] + later)[0] == batch;
  }

  /** Once the offset has passed the end, every batch has been answered. */
  lemma ProgressDone<T>(texts: seq<string>, ask: seq<string> -> BatchReply<T>, done: seq<seq<string>>, i: nat, results: seq<T>)
    requires Progress(texts, ask, done, i, results) && |texts| <= i
    ensures results == Gather(Batches(texts, MaxBatchSize), ask)
  {
    assert Batches(Remaining(texts, i), MaxBatchSize) == [];
    assert done + [] == done;
  }

  /**
   * The loop of `analyze_with_deepseek`: steps `i` by `MAX_BATCH_SIZE`, asks
   * for `texts[i:i+MAX_BATCH_SIZE]`, extends the results with each answer and
   * stops at the first abort.
   */
  method AnalyzeInBatches<T>(texts: seq<string>, ask: seq<string> -> BatchReply<T>) returns (results: seq<T>)
    ensures results == Gather(Batches(texts, MaxBatchSize), ask)
  {
    results := [];
    ghost var done: seq<seq<string>> := [];
    var i := 0;
    assert done + Batches(Remaining(texts, 0), MaxBatchSize) == Batches(texts, MaxBatchSize);
    while i < |texts|
      invariant Progress(texts, ask, done, i, results)
      decreases |texts| - i
    {
      var batch := texts[i..Min(i + MaxBatchSize, |texts|)];
      var reply := ask(batch);
      if reply.Aborted? {
        ProgressAborted(texts, ask, done, i, results);
        return;
      }
      ProgressAnswered(texts, ask, done, i, results);
      results := results + reply.results;
      done := done + [batch];
      i := i + MaxBatchSize;
    }
    ProgressDone(texts, ask, done, i, results);
  }

  /**
   * When no reply holds more results than its batch has texts, there are at
   * most as many results as texts; so result `idx` can always index the reviews.
   */
  lemma {:induction false} GatherAtMostOnePerText<T>(batches: seq<seq<string>>, ask: seq<string> -> BatchReply<T>)
    requires forall b :: ask(b).Answered? ==> |ask(b).results| <= |b|
    ensures |Gather(batches, ask)| <= |Concat(batches)|
  {
    if batches != [] {
      GatherAtMostOnePerText(batches[1..], ask);
    }
  }

  /** When every batch is answered with one result per text, results and texts line up one to one. */
  lemma {:induction false} GatherOnePerText<T>(batches: seq<seq<string>>, ask: seq<string> -> BatchReply<T>)
    requires forall b :: ask(b).Answered? && |ask(b).results| == |b|
    ensures |Gather(batches, ask)| == |Concat(batches)|
  {
    if batches != [] {
      GatherOnePerText(batches[1..], ask);
    }
  }
}
