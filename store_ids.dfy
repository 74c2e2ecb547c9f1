/**
 * Store-URL identifier extraction (app.py, `extract_google_play_id` and
 * `extract_app_store_id`). Each is one `re.search` with a pattern of the form
 * `<prefix>(<class>+)`: the leftmost position where the prefix is immediately
 * followed by a character of the class wins, and the greedy `+` takes the
 * maximal run of class characters after it.
 */
module StoreIds {
  import opened Wrappers

  predicate IsAsciiLetter(c: char) { 'a' <= c <= 'z' || 'A' <= c <= 'Z' }

  /** `\d`, restricted to the ASCII digits. */
  predicate IsDigit(c: char) { '0' <= c <= '9' }

  /** The character class `[a-zA-Z0-9._-]`. */
  predicate IsPackageChar(c: char) { IsAsciiLetter(c) || IsDigit(c) || c == '.' || c == '_' || c == '-' }

  /** The pattern `<prefix><class>` matches starting at position `i` of `s`. */
  predicate MatchesAt(s: string, prefix: string, inClass: char -> bool, i: nat) {
    i + |prefix| < |s| && s[i..i + |prefix|] == prefix && inClass(s[i + |prefix|])
  }

  /**
   * `id` is what `re.search` captures when the leftmost match starts at `i`:
   * a non-empty run of class characters right after the prefix that cannot
   * be extended (the next character is outside the class, or `s` ends).
   */
  ghost predicate IsLeftmostCapture(s: string, prefix: string, inClass: char -> bool, i: nat, id: string) {
    && MatchesAt(s, prefix, inClass, i)
    && (forall j :: 0 <= j < i ==> !MatchesAt(s, prefix, inClass, j))
    && var start := i + |prefix|;
    && 0 < |id| && start + |id| <= |s|
    && s[start..start + |id|] == id
    && (forall j :: start <= j < start + |id| ==> inClass(s[j]))
    && (start + |id| == |s| || !inClass(s[start + |id|]))
  }

  /** End (exclusive) of the maximal run of class characters starting at `from`. */
  function RunEnd(s: string, inClass: char -> bool, from: nat): (e: nat)
    requires from <= |s|
    ensures from <= e <= |s|
    ensures forall j :: from <= j < e ==> inClass(s[j])
    ensures e == |s| || !inClass(s[e])
    decreases |s| - from
  {
    if from < |s| && inClass(s[from]) then RunEnd(s, inClass, from + 1) else from
  }

  /** The leftmost match position at or after `from`, as the regex engine scans. */
  function FirstMatch(s: string, prefix: string, inClass: char -> bool, from: nat): (r: Option<nat>)
    ensures r.None? <==> forall i :: from <= i ==> !MatchesAt(s, prefix, inClass, i)
    ensures r.Some? ==> from <= r.value && MatchesAt(s, prefix, inClass, r.value)
    ensures r.Some? ==> forall i :: from <= i < r.value ==> !MatchesAt(s, prefix, inClass, i)
    decreases |s| - from
  {
    if |s| <= from then None
    else if MatchesAt(s, prefix, inClass, from) then Some(from)
    else FirstMatch(s, prefix, inClass, from + 1)
  }

  /** `re.search(prefix + '(' + class + '+)', s).group(1)`, or `None` without a match. */
  function Search(s: string, prefix: string, inClass: char -> bool): (r: Option<string>)
    ensures r.None? <==> forall i :: !MatchesAt(s, prefix, inClass, i)
    ensures r.Some? ==> exists i :: IsLeftmostCapture(s, prefix, inClass, i, r.value)
  {
    match FirstMatch(s, prefix, inClass, 0)
    case None => None
    case Some(i) =>
      var start := i + |prefix|;
      var id := s[start..RunEnd(s, inClass, start)];
      assert IsLeftmostCapture(s, prefix, inClass, i, id);
      Some(id)
  }

  /** A run of class characters that cannot be extended ends where `RunEnd` says. */
  lemma {:induction false} MaximalRunEnds(s: string, inClass: char -> bool, start: nat, n: nat)
    requires start + n <= |s|
    requires forall j :: start <= j < start + n ==> inClass(s[j])
    requires start + n == |s| || !inClass(s[start + n])
    ensures RunEnd(s, inClass, start) == start + n
    decreases n
  {
    if n > 0 {
      MaximalRunEnds(s, inClass, start + 1, n - 1);
    }
  }

  /** The capture is determined by the string: two captures satisfying the specification coincide. */
  lemma CaptureUnique(s: string, prefix: string, inClass: char -> bool, i: nat, id: string, i': nat, id': string)
    requires IsLeftmostCapture(s, prefix, inClass, i, id)
    requires IsLeftmostCapture(s, prefix, inClass, i', id')
    ensures i == i' && id == id'
  {
    var start := i + |prefix|;
    MaximalRunEnds(s, inClass, start, |id|);
    MaximalRunEnds(s, inClass, i' + |prefix|, |id'|);
  }

  /** `extract_google_play_id`: the `id=` query value of a Google Play URL. */
  function ExtractGooglePlayId(url: string): (r: Option<string>)
    ensures r.None? <==> forall i :: !MatchesAt(url, "id=", IsPackageChar, i)
    ensures r.Some? ==> exists i :: IsLeftmostCapture(url, "id=", IsPackageChar, i, r.value)
  {
    Search(url, "id=", IsPackageChar)
  }

  /** `extract_app_store_id`: the digits after `/id` in an App Store URL. */
  function ExtractAppStoreId(url: string): (r: Option<string>)
    ensures r.None? <==> forall i :: !MatchesAt(url, "/id", IsDigit, i)
    ensures r.Some? ==> exists i :: IsLeftmostCapture(url, "/id", IsDigit, i, r.value)
  {
    Search(url, "/id", IsDigit)
  }
  /**
   * A URL made of text without the prefix's last character, then the prefix,
   * then a run of class characters that the rest does not extend, yields that run.
   */
  lemma CaptureAfterPlainText(pre: string, prefix: string, inClass: char -> bool, id: string, rest: string)
    requires 0 < |prefix| && forall j :: 0 <= j < |prefix| - 1 ==> prefix[j] != prefix[|prefix| - 1]
    requires forall j :: 0 <= j < |pre| ==> pre[j] != prefix[|prefix| - 1]
    requires 0 < |id| && forall j :: 0 <= j < |id| ==> inClass(id[j])
    requires rest == [] || !inClass(rest[0])
    ensures Search(pre + prefix + id + rest, prefix, inClass) == Some(id)
  {
    var s := pre + prefix + id + rest;
    var last := prefix[|prefix| - 1];
    forall j | 0 <= j < |pre| ensures !MatchesAt(s, prefix, inClass, j) {
      var k := j + |prefix| - 1;
      assert s[k] != last by {
        if k < |pre| {
          assert s[k] == pre[k];
        } else {
          assert s[k] == prefix[k - |pre|];
        }
      }
      if j + |prefix| <= |s| {
        assert s[j..j + |prefix|][|prefix| - 1] == s[k];
      }
    }
    assert s[|pre|..|pre| + |prefix|] == prefix;
    var start := |pre| + |prefix|;
    assert s[start..start + |id|] == id;
    assert forall j :: start <= j < start + |id| ==> s[j] == id[j - start];
    assert start + |id| < |s| ==> s[start + |id|] == rest[0];
    assert IsLeftmostCapture(s, prefix, inClass, |pre|, id);
    var r := Search(s, prefix, inClass);
    var i :| IsLeftmostCapture(s, prefix, inClass, i, r.value);
    CaptureUnique(s, prefix, inClass, i, r.value, |pre|, id);
  }
}

/** The extractors on the example URLs the dashboard shows as input hints, and on a shared link. */
module StoreIdExamples {
  import opened Wrappers
  import opened StoreIds

  /** The page part of the Google Play hint URL, up to the query. */
  const GooglePlayPage := "https://play.google.com/store/apps/details?"

  /** The page part of the App Store hint URL, up to the id. */
  const AppStorePage := "https://apps.apple.com/ru/app/example-app"

  lemma GooglePlayPageHasNoEquals()
    ensures forall j :: 0 <= j < |GooglePlayPage| ==> GooglePlayPage[j] != '='
  {
  }

  /** The Google Play hint URL yields its package name. */
  lemma GooglePlayHintUrl()
    ensures ExtractGooglePlayId(GooglePlayPage + "id=com.example") == Some("com.example")
  {
    GooglePlayPageHasNoEquals();
    assert GooglePlayPage + "id=" + "com.example" + "" == GooglePlayPage + "id=com.example";
    CaptureAfterPlainText(GooglePlayPage, "id=", IsPackageChar, "com.example", "");
  }

  lemma CampaignPrefixHasNoEquals()
    ensures forall j :: 0 <= j < |GooglePlayPage + "pcampaign"| ==> (GooglePlayPage + "pcampaign")[j] != '='
  {
    var pre := GooglePlayPage + "pcampaign";
    GooglePlayPageHasNoEquals();
    forall j | 0 <= j < |pre| ensures pre[j] != '=' {
      if j < |GooglePlayPage| {
        assert pre[j] == GooglePlayPage[j];
      } else {
        assert pre[j] == "pcampaign"[j - |GooglePlayPage|];
      }
    }
  }

  lemma SharedLinkQueryParts()
    ensures "pcampaignid=web_share&id=com.example" == "pcampaign" + "id=" + "web_share" + "&id=com.example"
  {
  }

  /**
   * The pattern is not anchored to a parameter name: an earlier parameter whose
   * name ends in `id` (here `pcampaignid`) is matched first.
   */
  lemma GooglePlayIdInsideLongerName()
    ensures ExtractGooglePlayId(GooglePlayPage + "pcampaignid=web_share&id=com.example") == Some("web_share")
  {
    var pre := GooglePlayPage + "pcampaign";
    CampaignPrefixHasNoEquals();
    SharedLinkQueryParts();
    assert pre + "id=" + "web_share" + "&id=com.example" == GooglePlayPage + ("pcampaign" + "id=" + "web_share" + "&id=com.example");
    CaptureAfterPlainText(pre, "id=", IsPackageChar, "web_share", "&id=com.example");
  }

  lemma AppStorePageHasNoD()
    ensures forall j :: 0 <= j < |AppStorePage| ==> AppStorePage[j] != 'd'
  {
  }

  /** The App Store hint URL yields its numeric track id. */
  lemma AppStoreHintUrl()
    ensures ExtractAppStoreId(AppStorePage + "/id123456789") == Some("123456789")
  {
    AppStorePageHasNoD();
    assert AppStorePage + "/id" + "123456789" + "" == AppStorePage + "/id123456789";
    CaptureAfterPlainText(AppStorePage, "/id", IsDigit, "123456789", "");
  }
}
