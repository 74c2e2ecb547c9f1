# App reviews analyzer — a verified model of its core

`app.py` is a Streamlit dashboard. It fetches an app's reviews from Google
Play and the App Store and keeps the reviews whose date falls between two
chosen days. It sends their texts in batches of five to the DeepSeek chat
model, which returns a sentiment score, entities and topics per review. It
then folds those results into a report: the 15 most mentioned entities, each
with up to three example reviews, the 10 most mentioned topics, and the list
and average of the sentiment scores.

This project models that core in Dafny and proves what it promises:

- `store_ids.dfy` (`StoreIds`, `StoreIdExamples`): the two URL-to-id
  extractors, as leftmost regex matches with a greedy capture.
- `reviews.dfy` (`Reviews`): review tuples and the inclusive date filter,
  including the whole-day window that `main` builds from two calendar dates.
- `batching.dfy` (`Batching`): the slicing of texts into batches of
  `MAX_BATCH_SIZE`. It also holds the request loop of `analyze_with_deepseek`,
  with the model's reply as a parameter.
- `counting.dfy` (`Counting`): the part of `collections.Counter` the report
  relies on. Keys are counted in insertion order, and `most_common(n)` is a
  stable sort by descending count followed by taking the first `n`.
- `insights.dfy` (`Insights`): `extract_deepseek_insights`. It is written as a
  specification function `InsightsOf` and as the method `ExtractInsights`,
  whose nested loops are proved to compute it. The `IndexError` of
  `reviews[idx]` is an `Err` result, not a precondition.
- `insight_laws.dfy` (`InsightLaws`): what the report guarantees. That covers
  counts, ranking and tie order, the top-n cut, examples, sentiments and when
  the index error occurs.
- `dashboard.dfy` (`Dashboard`): the button handler of `main`, from the
  fetched reviews to the stored statistics and analysis.

The results of the model are matched to the filtered reviews by position
(`reviews[idx]` for the `idx`-th result). Nothing in the source checks that a
reply has one result per review. `Dashboard.NeverFailsOnWellFormedReplies`
proves that replies holding no more results than their batch has texts never
trigger the index error. `InsightLaws.RaisesPastEnd` shows the inputs that do
trigger it.

## Model

| member | source | states |
|---|---|---|
| StoreIds.Search | app.py:23-24 | `re.search` with a literal prefix and a one-or-more character class: `None` exactly when the prefix followed by a class character occurs nowhere; otherwise the greedy capture after the leftmost such occurrence |
| StoreIds.FirstMatch | app.py:23 | the regex engine's scan: the first position at or after `from` where the pattern matches, or none when it matches nowhere there |
| StoreIds.RunEnd | app.py:23 | the greedy `+`: the capture runs over class characters and stops at the end of the string or at the first character outside the class |
| StoreIds.CaptureUnique | app.py:23-24 | the specification of a leftmost greedy capture determines both its position and its text |
| StoreIds.ExtractGooglePlayId | app.py:22-24 | `extract_google_play_id`: no id exactly when `id=` is never followed by a `[a-zA-Z0-9._-]` character; otherwise the leftmost such run, taken whole |
| StoreIds.ExtractAppStoreId | app.py:26-28 | `extract_app_store_id`: no id exactly when `/id` is never followed by a digit; otherwise the digits after the leftmost `/id<digit>` |
| StoreIds.CaptureAfterPlainText | app.py:23-24 | a URL made of text that lacks the prefix's last character, then the prefix, then an id, then a non-class character or the end, yields exactly that id |
| StoreIdExamples.GooglePlayHintUrl | app.py:229 | the Google Play hint URL yields `com.example` |
| StoreIdExamples.AppStoreHintUrl | app.py:231 | the App Store hint URL yields `123456789` |
| StoreIdExamples.GooglePlayIdInsideLongerName | app.py:23 | `id=` is also found inside another parameter name: `...?pcampaignid=web_share&id=com.example` yields `web_share` |
| Reviews.FilterByDate | app.py:67-68 | a review is kept exactly when it is in the input and its date lies in `[start, end]`, both ends included |
| Reviews.FilterCounts | app.py:67-68 | each review is kept as many times as it occurs when in the window, and never otherwise |
| Reviews.FilterLength | app.py:67-68 | the filter never returns more reviews than it is given |
| Reviews.FilterIsSubsequence | app.py:67-68 | the kept reviews keep their input order |
| Reviews.FilterIdempotent | app.py:67-68 | filtering twice with the same window changes nothing |
| Reviews.FilterEmptyWindow | app.py:67-68 | a window whose start is after its end keeps nothing |
| Reviews.FilterAppend | app.py:240-250 | filtering the joined Google Play and App Store lists filters each list and joins the results |
| Reviews.WholeDayWindow | app.py:246-250 | the window from `combine(start, time.min)` to `combine(end, time.max)` holds exactly the instants whose calendar day lies between the two dates |
| Reviews.FilterByDays | app.py:246-250 | the filter call in `main` keeps a review exactly when its calendar day lies between the chosen dates, boundary days included |
| Batching.Texts | app.py:77 | `[review[1] for review in reviews]`: one text per review, the `i`-th text being the `i`-th review's |
| Batching.Batches | app.py:80-81 | the slices `texts[i:i+5]` for `i` in `range(0, len(texts), 5)`; that they join back to the texts is stated by `BatchesConcat`, their sizes and number by `BatchesShape` and `BatchCount` |
| Batching.BatchesConcat | app.py:80-81 | the batches `texts[i:i+5]` for `i` in `range(0, len(texts), 5)` concatenate back to the texts |
| Batching.BatchesShape | app.py:80-81 | every batch is non-empty and holds at most the batch size; all but the last hold exactly the batch size; there are no more batches than needed |
| Batching.BatchCount | app.py:76-81 | there are `ceil(n / 5)` batches for `n` texts |
| Batching.AnalyzeInBatches | app.py:76-118 | the request loop returns the results of the answered batches in batch order, up to the first aborted request |
| Batching.GatherAppend | app.py:78-113 | results gathered over answered batches followed by others are the results of the first part followed by those of the rest |
| Batching.GatherAtMostOnePerText | app.py:77-107 | when no reply holds more results than its batch has texts, there are at most as many results as texts |
| Batching.GatherOnePerText | app.py:77-107 | when every batch is answered with one result per text, there are exactly as many results as texts |
| Batching.Gather | app.py:79-117 | the specification of the loop's result: each result comes from the reply to an answered batch; its order and the stop at the first abort are stated by `GatherAppend` and `AnalyzeInBatches` |
| Counting.BumpAt | app.py:149 | `counter[k] += 1` appends a new key with count 1, or raises the count of the existing key and changes nothing else |
| Counting.Bump | app.py:149 | `counter[k] += 1` on the counter's items; what it does is stated by `BumpAt` |
| Counting.Tally | app.py:147-149 | the counter after counting the keys one after the other; its keys, counts and order are stated by `TallyKeys`, `TallyCounts` and `TallyFirstSeenOrder` |
| Counting.TallyKeys | app.py:147-149 | the counter holds each counted key once, and only counted keys |
| Counting.TallyCounts | app.py:147-149 | each key's count is its number of occurrences |
| Counting.TallyFirstSeenOrder | app.py:147-149 | the counter's items are in order of first occurrence |
| Counting.SortByCount | app.py:165 | the sort behind `most_common` keeps every item, as often as it occurs; its order is stated by `SortByCountSorted` |
| Counting.MostCommon | app.py:165 | `most_common(n)` has `min(n, len)` items; what they are and their ranking are stated by `MostCommonSpec` |
| Counting.SortByCountSorted | app.py:165 | the stable sort behind `most_common` orders items by descending count, equal counts in insertion order |
| Counting.MostCommonSpec | app.py:165 | `most_common(n)` returns `min(n, len)` items drawn from the counter, ranked, and every left-out item ranks after every kept one |
| Counting.MostCommonOfTallyCounts | app.py:147-165 | `Counter(keys).most_common(n)` has `min(n, #distinct keys)` items, each a key with its number of occurrences |
| Counting.MostCommonOfTallyOrder | app.py:147-165 | no key twice, counts non-increasing, equal counts in order of first occurrence |
| Counting.MostCommonOfTallyTop | app.py:147-165 | a key left out occurs less often than each kept one, or as often and first seen later |
| Insights.Examples | app.py:150-154 | the examples of a key are min(3, mentions) reviews, those at the key's first mentions, in order |
| Insights.CapHitStep | app.py:150-153 | one more entity raises the index error exactly when it still needs an example and its result has no review |
| Insights.MentionIndicesCount | app.py:147-150 | a key has as many recorded mention indices as it has occurrences among the case-folded entities |
| Insights.CountEntities | app.py:147-154 | the entity loop of one result: counts each case-folded entity, records the review while there are fewer than three examples, and raises exactly when it reads past the reviews |
| Insights.CountTopics | app.py:157-158 | the topic loop of one result counts its case-folded topics |
| Insights.Sentiments | app.py:143-144 | at most one sentiment per result; which ones, in which order, are stated by `InsightLaws.SentimentsOfResults` and `InsightLaws.SentimentsInResultOrder` |
| Insights.Average | app.py:172-174 | `sum(sentiments) / len(sentiments)`: 0 for no scores, otherwise the value whose product with the number of scores is their sum |
| Insights.EntityRows | app.py:161-165 | one row per ranked counter item, with its entity, its count and that entity's examples |
| Insights.TopicRows | app.py:167-170 | one row per ranked counter item, with its topic and its count |
| Insights.InsightsOf | app.py:120-176 | the specification of `extract_deepseek_insights`: a successful report has at most 15 entity rows, at most 10 topic rows and at most one sentiment per result; the `InsightLaws` lemmas state the rest |
| Insights.ExtractInsights | app.py:120-176 | `extract_deepseek_insights` returns exactly the report (or the index error) that `InsightsOf` specifies |
| InsightLaws.MentionsSound | app.py:141-148 | every entity mention comes from a result of the list and names one of its case-folded entities |
| InsightLaws.MentionsOrdered | app.py:141-148 | mentions are counted in result order |
| InsightLaws.ExampleSources | app.py:141-154 | the reviews supplying an entity's examples belong to results that mention it, in result order |
| InsightLaws.OkWhenEnoughReviews | app.py:141-154 | with at least as many reviews as results, `reviews[idx]` never fails |
| InsightLaws.RaisesPastEnd | app.py:141-154 | a result without a review that names an entity with fewer than three earlier mentions raises the index error |
| InsightLaws.ReportParts | app.py:141-174 | a successful report means no example lookup read past the reviews, and consists of the top 15 counted entities with their examples, the top 10 counted topics, the sentiment list and its average |
| InsightLaws.EntityRowsCounted | app.py:161-165 | `min(15, #distinct entities)` rows, each a case-folded entity with its number of mentions |
| InsightLaws.EntityRowsRanked | app.py:161-165 | entity rows hold no entity twice, by descending count, ties in order of first mention |
| InsightLaws.EntityRowsTop | app.py:161-165 | an entity left out of the rows has fewer mentions than each listed one, or as many and a later first mention |
| InsightLaws.EntityRowExamples | app.py:150-165 | each entity row carries min(3, count) examples, the reviews of its first mentions |
| InsightLaws.TopicRowsCounted | app.py:157-170 | `min(10, #distinct topics)` rows, each a case-folded topic with its number of mentions |
| InsightLaws.TopicRowsRanked | app.py:167-170 | topic rows hold no topic twice, by descending count, ties in order of first mention |
| InsightLaws.TopicRowsTop | app.py:167-170 | a topic left out has fewer mentions than each listed one, or as many and a later first mention |
| InsightLaws.SentimentsOfResults | app.py:143-144 | a value is in the sentiment list exactly when some result carries it as its sentiment; at most one entry per result |
| InsightLaws.SentimentPositions | app.py:141-144 | the positions of the results that have a `sentiment`, strictly increasing, and all of them |
| InsightLaws.SentimentsInResultOrder | app.py:141-144 | the `j`-th sentiment is the `sentiment` of the `j`-th result that has one: result order, one entry per such result |
| InsightLaws.SentimentsAppend | app.py:141-144 | the sentiments of joined result lists are those of the first list followed by those of the second |
| InsightLaws.AverageBounds | app.py:172-174 | the average of scores within `[lo, hi]` lies within `[lo, hi]`; with no scores it is 0 |
| InsightLaws.ReportSentiments | app.py:143-174 | the report's `j`-th sentiment is that of the `j`-th result having one, and it lists no other; its average is 0 without any, and within the scores' bounds otherwise |
| Dashboard.Analyze | app.py:236-263 | the button handler yields the outcome `Analysis` specifies: the "no reviews" stop, the escaping index error, or the statistics and report |
| Dashboard.Analysis | app.py:236-263 | the specification of the button handler: the "no reviews" outcome exactly when neither store returned a review; `Analyze` and the lemmas below state the rest |
| Dashboard.NeverFailsOnWellFormedReplies | app.py:253-254 | if no reply holds more results than its batch has texts, the handler never fails with the index error |
| Dashboard.StatsBounded | app.py:256-261 | the stored statistics count both store lists, and no more filtered reviews than fetched |
| Dashboard.ReversedDatesGiveEmptyReport | app.py:242-254 | with the end date before the start date, the analysis is the default report over zero reviews |
| Dashboard.ExamplesWithinDates | app.py:246-254 | every example quoted under an entity is a fetched review whose day lies between the chosen dates |

## Left out

- The Streamlit page is not modelled: layout, widgets, spinners, messages, `display_deepseek_analysis`, the charts and `st.session_state`. It is presentation only.
- The store scrapers `get_google_play_reviews` and `get_app_store_reviews` are not modelled, including their `if not app_id` guards, their exception handlers and the App Store app-name regex. The fetched review lists are parameters of `Dashboard.Analyze`, because fetching is network I/O.
- The DeepSeek HTTP request is not modelled: headers, secrets, payload and prompt, `raise_for_status`, status codes and JSON decoding. It is the parameter `ask`, which maps a batch to `Answered(results)` or `Aborted`.
  - `Answered([])` covers a message content that `json.loads` cannot parse (app.py:105-109) and parsed content without `results` (app.py:106). It also covers a 2xx status other than 200, which takes neither branch (app.py:102-111).
  - `Aborted` covers every exception that reaches the outer handler (app.py:115-116). That is an HTTP error status raised by `raise_for_status` (app.py:100), a failed request, or a reply body that is not JSON or has no `choices` (app.py:103).
  - The `elif response.status_code == 429` branch (app.py:111-113) never runs, because `raise_for_status` has already raised on a 429. A rate-limited batch therefore ends the loop through the outer handler.
- Batching.AnalyzeInBatches: `ask` is a function, so identical batches get identical replies. The real service may answer the same batch differently each time.
- The spaCy model loaded at start-up is never used by the core, so it is left out.
- `str.lower` is the parameter `fold`. No proof depends on what case folding does.
- `float(result['sentiment'])` is a real number, and results whose fields have the wrong type (a non-numeric sentiment, non-string entities) are not modelled. Sums and averages are exact reals, not IEEE doubles. The display thresholds (3.5, 2.0) belong to the page.
- StoreIds.ExtractAppStoreId: `\d` is the ASCII digits `0-9`. Python's `re` also matches other Unicode decimal digits.
- Reviews.FilterByDate: dates are microsecond counts. Time zones and naive versus aware `datetime` comparisons are not modelled.
- The App Store review dictionaries (`r['date']`, `r['review']`) are taken as already converted to review tuples.
