/**
 * The text-processing half of `fetchAndExtract` (downloadSignedUrls.mjs):
 * the page-URL scan driven by the global regular expression
 *   https://app.manga-one.com/[^"'\s\x00-\x1F]*?/manga_page_low/<chapter>/[^"'\s\x00-\x1F]*
 * written out as an explicit scanner, then the key and IV searches
 * `[a-f0-9]{64}` and `[a-f0-9]{32}`, the second one run after the key has
 * been cut out of the text.
 */
module Extractor {
  import opened Wrappers
  import opened Hex

  const UrlPrefix: string := "https://app.manga-one.com/"
  const KeyHexLength: nat := 64
  const IvHexLength: nat := 32

  /** The fixed middle of a page URL, with the chapter id taken literally. */
  function PageMarker(chapterId: string): string {
    "/manga_page_low/" + chapterId + "/"
  }

  /** ECMAScript WhiteSpace and LineTerminator code points: what `\s` matches. */
  predicate IsJsWhitespace(c: char) {
    c == '\t' || c == '\n' || c == '\U{B}' || c == '\U{C}' || c == '\r' || c == ' '
    || c == '\U{A0}' || c == '\U{1680}' || ('\U{2000}' <= c <= '\U{200A}')
    || c == '\U{2028}' || c == '\U{2029}' || c == '\U{202F}' || c == '\U{205F}'
    || c == '\U{3000}' || c == '\U{FEFF}'
  }

  /** The wildcard class `[^"'\s\x00-\x1F]` of the URL pattern. */
  predicate IsUrlChar(c: char) {
    c != '"' && c != '\'' && !IsJsWhitespace(c) && c >= ' '
  }

  predicate StartsAt(t: string, i: nat, w: string) {
    i + |w| <= |t| && t[i..i + |w|] == w
  }

  /** Every character of t[i..j] is in the wildcard class. */
  predicate UrlCharsIn(t: string, i: nat, j: nat) {
    i <= j <= |t| && forall k | i <= k < j :: IsUrlChar(t[k])
  }

  /**
   * The lazy `[^…]*?` followed by the marker: the first position from i on
   * where the marker starts, reached over wildcard characters only.
   */
  function FindMarker(t: string, m: string, i: nat): (r: Option<nat>)
    requires i <= |t|
    ensures r.Some? ==> i <= r.value && StartsAt(t, r.value, m) && UrlCharsIn(t, i, r.value)
    ensures r.Some? ==> forall k | i <= k < r.value :: !StartsAt(t, k, m)
    ensures r.None? ==> forall k | i <= k <= |t| && UrlCharsIn(t, i, k) :: !StartsAt(t, k, m)
    decreases |t| - i
  {
    if StartsAt(t, i, m) then Some(i)
    else if i < |t| && IsUrlChar(t[i]) then FindMarker(t, m, i + 1)
    else None
  }

  /** The greedy `[^…]*`: the end of the longest run of wildcard characters from i. */
  function UrlCharRunEnd(t: string, i: nat): (e: nat)
    requires i <= |t|
    ensures UrlCharsIn(t, i, e) && (e == |t| || !IsUrlChar(t[e]))
    decreases |t| - i
  {
    if i < |t| && IsUrlChar(t[i]) then UrlCharRunEnd(t, i + 1) else i
  }

  /** Where the marker of a URL match starts and where the match ends. */
  datatype UrlMatch = UrlMatch(marker: nat, end: nat)

  /** An attempt of the URL pattern anchored at position p of t. */
  function MatchAt(t: string, chapterId: string, p: nat): (r: Option<UrlMatch>)
    requires p <= |t|
    ensures r.None? <==>
      !StartsAt(t, p, UrlPrefix)
      || forall k | p + |UrlPrefix| <= k <= |t| && UrlCharsIn(t, p + |UrlPrefix|, k) ::
           !StartsAt(t, k, PageMarker(chapterId))
    ensures r.Some? ==>
      && StartsAt(t, p, UrlPrefix)
      && p + |UrlPrefix| <= r.value.marker
      && UrlCharsIn(t, p + |UrlPrefix|, r.value.marker)
      && StartsAt(t, r.value.marker, PageMarker(chapterId))
      && (forall k | p + |UrlPrefix| <= k < r.value.marker :: !StartsAt(t, k, PageMarker(chapterId)))
      && r.value.marker + |PageMarker(chapterId)| <= r.value.end
      && UrlCharsIn(t, r.value.marker + |PageMarker(chapterId)|, r.value.end)
      && (r.value.end == |t| || !IsUrlChar(t[r.value.end]))
  {
    if !StartsAt(t, p, UrlPrefix) then None
    else
      var m := PageMarker(chapterId);
      match FindMarker(t, m, p + |UrlPrefix|)
      case None => None
      case Some(j) => Some(UrlMatch(j, UrlCharRunEnd(t, j + |m|)))
  }

  datatype Span = Span(start: nat, end: nat)

  /** The pattern matches at p and that match ends at e. */
  predicate MatchEndsAt(t: string, chapterId: string, p: nat, e: nat) {
    p < e <= |t| && MatchAt(t, chapterId, p).Some? && MatchAt(t, chapterId, p).value.end == e
  }

  predicate NoMatchAt(t: string, chapterId: string, q: nat) {
    q <= |t| && MatchAt(t, chapterId, q).None?
  }

  /** Position q lies in none of the spans r. */
  predicate Uncovered(r: seq<Span>, q: nat) {
    forall k | 0 <= k < |r| :: q < r[k].start || r[k].end <= q
  }

  lemma UncoveredCons(s: Span, rest: seq<Span>, q: nat)
    requires Uncovered([s] + rest, q)
    ensures (q < s.start || s.end <= q) && Uncovered(rest, q)
  {
    assert ([s] + rest)[0] == s;
    forall k | 0 <= k < |rest| ensures q < rest[k].start || rest[k].end <= q {
      assert ([s] + rest)[k + 1] == rest[k];
    }
  }

  /** Every span of r is a match of the pattern at or after p. */
  predicate SpansMatch(t: string, chapterId: string, p: nat, r: seq<Span>) {
    forall k | 0 <= k < |r| :: p <= r[k].start && MatchEndsAt(t, chapterId, r[k].start, r[k].end)
  }

  /** Each span ends before any later one starts. */
  predicate SpansOrdered(r: seq<Span>) {
    forall k, l | 0 <= k < l < |r| :: r[k].end <= r[l].start
  }

  /** From p on, the pattern matches at no position outside the spans. */
  predicate NoMatchOutside(t: string, chapterId: string, p: nat, r: seq<Span>) {
    forall q | p <= q < |t| && Uncovered(r, q) :: NoMatchAt(t, chapterId, q)
  }

  /**
   * `String.prototype.match` with the global flag, from position p on: the
   * leftmost match, then the scan resumes where that match ended.
   */
  function MatchSpans(t: string, chapterId: string, p: nat): (r: seq<Span>)
    requires p <= |t|
    ensures SpansMatch(t, chapterId, p, r) && SpansOrdered(r) && NoMatchOutside(t, chapterId, p, r)
    decreases |t| - p
  {
    if p == |t| then []
    else
      match MatchAt(t, chapterId, p)
      case Some(u) =>
        var rest := MatchSpans(t, chapterId, u.end);
        MatchThenRest(t, chapterId, p, u.end, rest);
        [Span(p, u.end)] + rest
      case None =>
        var r := MatchSpans(t, chapterId, p + 1);
        NoMatchThenRest(t, chapterId, p, r);
        r
  }

  /** A match over [p, e) followed by the spans found from e on. */
  lemma MatchThenRest(t: string, chapterId: string, p: nat, e: nat, rest: seq<Span>)
    requires MatchEndsAt(t, chapterId, p, e)
    requires SpansMatch(t, chapterId, e, rest) && SpansOrdered(rest) && NoMatchOutside(t, chapterId, e, rest)
    ensures var r := [Span(p, e)] + rest;
      SpansMatch(t, chapterId, p, r) && SpansOrdered(r) && NoMatchOutside(t, chapterId, p, r)
  {
    ConsMatches(t, chapterId, p, e, rest);
    ConsOrdered(Span(p, e), rest);
    ConsNoMatchOutside(t, chapterId, p, e, rest);
  }

  lemma ConsMatches(t: string, chapterId: string, p: nat, e: nat, rest: seq<Span>)
    requires MatchEndsAt(t, chapterId, p, e) && SpansMatch(t, chapterId, e, rest)
    ensures SpansMatch(t, chapterId, p, [Span(p, e)] + rest)
  {
    var r := [Span(p, e)] + rest;
    forall k | 0 <= k < |r| ensures p <= r[k].start && MatchEndsAt(t, chapterId, r[k].start, r[k].end) {
      if k > 0 {
        assert r[k] == rest[k - 1];
      }
    }
  }

  lemma ConsOrdered(s: Span, rest: seq<Span>)
    requires SpansOrdered(rest) && forall k | 0 <= k < |rest| :: s.end <= rest[k].start
    ensures SpansOrdered([s] + rest)
  {
    var r := [s] + rest;
    forall k, l | 0 <= k < l < |r| ensures r[k].end <= r[l].start {
      assert r[l] == rest[l - 1];
      if k > 0 {
        assert r[k] == rest[k - 1];
      }
    }
  }

  lemma ConsNoMatchOutside(t: string, chapterId: string, p: nat, e: nat, rest: seq<Span>)
    requires p < e && NoMatchOutside(t, chapterId, e, rest)
    ensures NoMatchOutside(t, chapterId, p, [Span(p, e)] + rest)
  {
    var r := [Span(p, e)] + rest;
    forall q | p <= q < |t| && Uncovered(r, q) ensures NoMatchAt(t, chapterId, q) {
      UncoveredCons(Span(p, e), rest, q);
    }
  }

  /** No match at p, followed by the spans found from p + 1 on. */
  lemma NoMatchThenRest(t: string, chapterId: string, p: nat, r: seq<Span>)
    requires NoMatchAt(t, chapterId, p)
    requires SpansMatch(t, chapterId, p + 1, r) && NoMatchOutside(t, chapterId, p + 1, r)
    ensures SpansMatch(t, chapterId, p, r) && NoMatchOutside(t, chapterId, p, r)
  {
  }

  /** The page URLs: the text of every match, in order (`rawText.match(dynamicRegex) || []`). */
  function ExtractUrls(text: string, chapterId: string): (urls: seq<string>)
    ensures var spans := MatchSpans(text, chapterId, 0);
      && |urls| == |spans|
      && forall k | 0 <= k < |urls| ::
           StartsAt(text, spans[k].start, urls[k]) && spans[k].start + |urls[k]| == spans[k].end
  {
    var spans := MatchSpans(text, chapterId, 0);
    seq(|spans|, k requires 0 <= k < |spans| => text[spans[k].start..spans[k].end])
  }

  /** A window of n characters of `[a-f0-9]` starting at position k. */
  predicate HexWindowAt(t: string, k: nat, n: nat) {
    k + n <= |t| && forall i | k <= i < k + n :: IsLowerHexDigit(t[i])
  }

  /** A non-global `match` of `[a-f0-9]{n}`: the leftmost window, from i on. */
  function FindHexWindow(t: string, n: nat, i: nat): (r: Option<nat>)
    ensures r.Some? ==> i <= r.value && HexWindowAt(t, r.value, n)
    ensures r.Some? ==> forall k | i <= k < r.value :: !HexWindowAt(t, k, n)
    ensures r.None? ==> forall k | i <= k :: !HexWindowAt(t, k, n)
    decreases |t| + 1 - i
  {
    if i + n > |t| then None
    else if HexWindowAt(t, i, n) then Some(i)
    else FindHexWindow(t, n, i + 1)
  }

  /** `indexOf`: the leftmost occurrence of w from i on. */
  function IndexOf(t: string, w: string, i: nat): (r: Option<nat>)
    ensures r.Some? ==> i <= r.value && StartsAt(t, r.value, w)
    ensures r.Some? ==> forall k | i <= k < r.value :: !StartsAt(t, k, w)
    ensures r.None? ==> forall k | i <= k :: !StartsAt(t, k, w)
    decreases |t| + 1 - i
  {
    if i + |w| > |t| then None
    else if t[i..i + |w|] == w then Some(i)
    else IndexOf(t, w, i + 1)
  }

  /** `t.replace(w, rep)` with a string pattern: only the first occurrence is replaced. */
  function ReplaceFirst(t: string, w: string, rep: string): (r: string)
    ensures IndexOf(t, w, 0).None? ==> r == t
    ensures IndexOf(t, w, 0).Some? ==>
      var k := IndexOf(t, w, 0).value;
      && |r| == |t| - |w| + |rep|
      && r[..k] == t[..k] && StartsAt(r, k, rep) && r[k + |rep|..] == t[k + |w|..]
  {
    match IndexOf(t, w, 0)
    case None => t
    case Some(k) => t[..k] + rep + t[k + |w|..]
  }

  datatype DecryptData = DecryptData(hexKey: string, hexIv: string)

  datatype Extraction = Extraction(urls: seq<string>, decryptData: DecryptData)

  datatype ExtractError = CannotFetch | KeyNotFound | IvNotFound {
    function Message(): string {
      match this
      case CannotFetch => "Cannot fetch from MangaOne"
      case KeyNotFound => "Could not find the Encryption Key in response!"
      case IvNotFound => "Could not find the IV in response!"
    }
  }

  /**
   * The two secret searches: the key first; then the IV, in the body with
   * the key's first occurrence replaced by nothing.
   */
  function ExtractSecrets(text: string): (r: Result<DecryptData, ExtractError>)
    ensures r.Failure? ==> r.error != CannotFetch
    ensures r == Failure(KeyNotFound) <==> forall k: nat :: !HexWindowAt(text, k, KeyHexLength)
    ensures r.Success? ==>
      && |r.value.hexKey| == KeyHexLength && IsLowerHex(r.value.hexKey)
      && |r.value.hexIv| == IvHexLength && IsLowerHex(r.value.hexIv)
  {
    match FindHexWindow(text, KeyHexLength, 0)
    case None => Failure(KeyNotFound)
    case Some(k) =>
      var hexKey := text[k..k + KeyHexLength];
      var textWithoutKey := ReplaceFirst(text, hexKey, "");
      match FindHexWindow(textWithoutKey, IvHexLength, 0)
      case None => Failure(IvNotFound)
      case Some(v) => Success(DecryptData(hexKey, textWithoutKey[v..v + IvHexLength]))
  }

  /** Extraction from the decoded response body: the page URLs and the two secrets. */
  function Extract(text: string, chapterId: string): (r: Result<Extraction, ExtractError>)
    ensures r.Success? <==> ExtractSecrets(text).Success?
    ensures r.Failure? ==> r.error == ExtractSecrets(text).error
    ensures r.Success? ==> r.value.urls == ExtractUrls(text, chapterId) && r.value.decryptData == ExtractSecrets(text).value
  {
    var urls := ExtractUrls(text, chapterId);
    match ExtractSecrets(text)
    case Failure(e) => Failure(e)
    case Success(d) => Success(Extraction(urls, d))
  }

  /** The response as `fetchAndExtract` sees it: the status check and the decoded body. */
  datatype Response = Response(ok: bool, body: string)

  function FetchAndExtract(response: Response, chapterId: string): (r: Result<Extraction, ExtractError>)
    ensures !response.ok <==> r == Failure(CannotFetch)
    ensures response.ok ==> r == Extract(response.body, chapterId)
  {
    if !response.ok then Failure(CannotFetch) else Extract(response.body, chapterId)
  }
}

/** Properties of the page-URL scan and of the two secret searches. */
module ExtractorProperties {
  import opened Wrappers
  import opened Hex
  import opened Extractor

  predicate IsUrlText(s: string) {
    UrlCharsIn(s, 0, |s|)
  }

  /** The leftmost window of n characters of `[a-f0-9]` in t starts at v. */
  predicate LeftmostHexWindow(t: string, v: nat, n: nat) {
    HexWindowAt(t, v, n) && forall j | 0 <= j < v :: !HexWindowAt(t, j, n)
  }

  /**
   * The URLs are the texts of non-overlapping spans of the body, in
   * left-to-right order, and each match is cut only where the greedy suffix
   * meets an excluded character or the end of the body.
   */
  lemma UrlsAreOrderedSpans(text: string, chapterId: string)
    ensures var urls, spans := ExtractUrls(text, chapterId), MatchSpans(text, chapterId, 0);
      && |urls| == |spans|
      && (forall k | 0 <= k < |spans| ::
            spans[k].start < spans[k].end <= |text|
            && urls[k] == text[spans[k].start..spans[k].end]
            && (spans[k].end == |text| || !IsUrlChar(text[spans[k].end])))
      && (forall k, l | 0 <= k < l < |spans| :: spans[k].end <= spans[l].start)
  {
    var spans := MatchSpans(text, chapterId, 0);
    forall k | 0 <= k < |spans|
      ensures spans[k].end == |text| || !IsUrlChar(text[spans[k].end])
    {
      assert MatchEndsAt(text, chapterId, spans[k].start, spans[k].end);
    }
  }

  lemma SliceOfSlice(t: string, a: nat, b: nat, i: nat, j: nat)
    requires a <= b <= |t| && i <= j <= b - a
    ensures t[a..b][i..j] == t[a + i..a + j]
  {
    assert forall x | 0 <= x < j - i :: t[a..b][i..j][x] == t[a + i + x];
  }

  /** The literal parts of the URL pattern contain no excluded character. */
  lemma FixedPartsAreUrlText()
    ensures IsUrlText(UrlPrefix) && IsUrlText("/manga_page_low/")
  {
    PrintableText(UrlPrefix);
    PrintableText("/manga_page_low/");
  }

  /** Text made of the URL's printable ASCII characters lies in the wildcard class. */
  lemma PrintableText(s: string)
    requires forall i | 0 <= i < |s| :: ('a' <= s[i] <= 'z') || s[i] in ":/.-_"
    ensures IsUrlText(s)
  {
    forall i | 0 <= i < |s| ensures IsUrlChar(s[i]) {
      assert '-' <= s[i] <= 'z';
    }
  }

  /**
   * The wildcard class excludes both quotes, every control character below
   * U+0020 and whitespace, including the non-ASCII spaces and line
   * separators of `\s`; every other printable ASCII character is in it.
   */
  lemma UrlCharClass(c: char)
    ensures c == '"' || c == '\'' || c < ' ' || IsJsWhitespace(c) ==> !IsUrlChar(c)
    ensures '!' <= c <= '~' && c != '"' && c != '\'' ==> IsUrlChar(c)
    ensures !IsUrlChar(' ') && !IsUrlChar('\U{A0}') && !IsUrlChar('\U{2028}') && !IsUrlChar('\U{3000}')
  {
  }

  /** The three extraction errors carry distinct messages naming the failed phase. */
  lemma ErrorMessages()
    ensures CannotFetch.Message() == "Cannot fetch from MangaOne"
    ensures KeyNotFound.Message() == "Could not find the Encryption Key in response!"
    ensures IvNotFound.Message() == "Could not find the IV in response!"
    ensures forall e1: ExtractError, e2: ExtractError | e1 != e2 :: e1.Message() != e2.Message()
  {
  }

  /**
   * Every URL begins with the host prefix, carries the chapter's marker after
   * it, and contains no quote, whitespace or control character as long as the
   * chapter id itself contains none.
   */
  lemma UrlShape(text: string, chapterId: string, k: nat)
    requires k < |ExtractUrls(text, chapterId)|
    ensures var u := ExtractUrls(text, chapterId)[k];
      && |UrlPrefix| + |PageMarker(chapterId)| <= |u|
      && u[..|UrlPrefix|] == UrlPrefix
      && (exists j :: |UrlPrefix| <= j && StartsAt(u, j, PageMarker(chapterId)))
      && (IsUrlText(chapterId) ==> IsUrlText(u))
  {
    var spans := MatchSpans(text, chapterId, 0);
    var s := spans[k];
    assert MatchEndsAt(text, chapterId, s.start, s.end);
    var m := MatchAt(text, chapterId, s.start).value;
    assert ExtractUrls(text, chapterId)[k] == text[s.start..s.end];
    MatchedText(text, chapterId, s.start, m.marker, s.end);
  }

  /** The text of one match, taken apart into its four parts. */
  lemma MatchedText(text: string, chapterId: string, p: nat, marker: nat, e: nat)
    requires StartsAt(text, p, UrlPrefix) && p + |UrlPrefix| <= marker
    requires UrlCharsIn(text, p + |UrlPrefix|, marker)
    requires StartsAt(text, marker, PageMarker(chapterId))
    requires marker + |PageMarker(chapterId)| <= e
    requires UrlCharsIn(text, marker + |PageMarker(chapterId)|, e)
    ensures var u := text[p..e];
      && |UrlPrefix| + |PageMarker(chapterId)| <= |u|
      && u[..|UrlPrefix|] == UrlPrefix
      && (exists j :: |UrlPrefix| <= j && StartsAt(u, j, PageMarker(chapterId)))
      && (IsUrlText(chapterId) ==> IsUrlText(u))
  {
    var u := text[p..e];
    var mk := PageMarker(chapterId);
    var j := marker - p;
    SliceOfSlice(text, p, e, j, j + |mk|);
    assert StartsAt(u, j, mk);
    SliceOfSlice(text, p, e, 0, |UrlPrefix|);
    if IsUrlText(chapterId) {
      FixedPartsAreUrlText();
      var lit := "/manga_page_low/";
      assert IsUrlText(mk) by {
        forall i | 0 <= i < |mk| ensures IsUrlChar(mk[i]) {
          if i < |lit| {
            assert mk[i] == lit[i];
          } else if i < |lit| + |chapterId| {
            assert mk[i] == chapterId[i - |lit|];
          } else {
            assert mk[i] == '/';
          }
        }
      }
      forall i | 0 <= i < |u| ensures IsUrlChar(u[i]) {
        assert u[i] == text[p + i];
        if i < |UrlPrefix| {
          assert u[i] == UrlPrefix[i];
        } else if i < j {
          assert IsUrlChar(text[p + i]);
        } else if i < j + |mk| {
          assert u[i] == mk[i - j];
        } else {
          assert IsUrlChar(text[p + i]);
        }
      }
    }
  }

  /** No URL is found exactly when the pattern matches at no position; that is not an error. */
  lemma NoUrlsIffNoMatch(text: string, chapterId: string)
    ensures ExtractUrls(text, chapterId) == [] <==> forall q | 0 <= q < |text| :: NoMatchAt(text, chapterId, q)
  {
    var spans := MatchSpans(text, chapterId, 0);
    if spans == [] {
      forall q | 0 <= q < |text| ensures NoMatchAt(text, chapterId, q) {
        assert Uncovered(spans, q);
      }
    } else {
      assert |ExtractUrls(text, chapterId)| == |spans|;
      assert MatchEndsAt(text, chapterId, spans[0].start, spans[0].end);
      assert !NoMatchAt(text, chapterId, spans[0].start);
    }
  }

  /** A hex window can be extended one place to the left over a hex digit. */
  lemma HexWindowExtendsLeft(t: string, k: nat, n: nat)
    requires 0 < k && 0 < n && HexWindowAt(t, k, n) && IsLowerHexDigit(t[k - 1])
    ensures HexWindowAt(t, k - 1, n)
  {
  }

  /** The leftmost window cannot be extended to the left: a non-hex character precedes it. */
  lemma LeftmostWindowBoundary(t: string, k: nat, n: nat)
    requires 0 < k && 0 < n && LeftmostHexWindow(t, k, n)
    ensures !IsLowerHexDigit(t[k - 1])
  {
    if IsLowerHexDigit(t[k - 1]) {
      HexWindowExtendsLeft(t, k, n);
    }
  }

  /**
   * The first occurrence of the key string is the matched window itself, so
   * cutting it out removes exactly that span: 64 characters fewer.
   */
  lemma KeyRemoval(text: string, k: nat)
    requires LeftmostHexWindow(text, k, KeyHexLength)
    ensures IndexOf(text, text[k..k + KeyHexLength], 0) == Some(k)
    ensures ReplaceFirst(text, text[k..k + KeyHexLength], "") == text[..k] + text[k + KeyHexLength..]
    ensures |ReplaceFirst(text, text[k..k + KeyHexLength], "")| == |text| - KeyHexLength
  {
    var key := text[k..k + KeyHexLength];
    assert StartsAt(text, k, key);
    var r := IndexOf(text, key, 0);
    assert r.Some? && r.value <= k;
    if r.value < k {
      assert text[r.value..r.value + KeyHexLength] == key;
      forall i | r.value <= i < r.value + KeyHexLength ensures IsLowerHexDigit(text[i]) {
        assert text[i] == key[i - r.value];
      }
      assert HexWindowAt(text, r.value, KeyHexLength);
      assert false;
    }
    assert text[..k] + "" == text[..k];
  }

  /** When there is no key window, extraction stops with KeyNotFound whatever else the body holds. */
  lemma KeyNotFoundFirst(text: string, chapterId: string)
    requires forall k: nat :: !HexWindowAt(text, k, KeyHexLength)
    ensures Extract(text, chapterId) == Failure(KeyNotFound)
    ensures Extract(text, chapterId).error.Message() == "Could not find the Encryption Key in response!"
  {
  }

  /**
   * With the key at its leftmost window k, the IV is searched in the body
   * without that span: extraction fails with IvNotFound exactly when that
   * text holds no 32-character window, and otherwise returns the key and
   * the leftmost such window.
   */
  lemma IvSearch(text: string, k: nat)
    requires LeftmostHexWindow(text, k, KeyHexLength)
    ensures var rest, r := text[..k] + text[k + KeyHexLength..], ExtractSecrets(text);
      && (r.Success? || r == Failure(IvNotFound))
      && (r == Failure(IvNotFound) <==> forall j: nat :: !HexWindowAt(rest, j, IvHexLength))
      && (r.Success? ==>
            && r.value.hexKey == text[k..k + KeyHexLength]
            && exists v: nat :: LeftmostHexWindow(rest, v, IvHexLength) && r.value.hexIv == rest[v..v + IvHexLength])
  {
    assert FindHexWindow(text, KeyHexLength, 0) == Some(k);
    KeyRemoval(text, k);
    var key := text[k..k + KeyHexLength];
    var rest := text[..k] + text[k + KeyHexLength..];
    assert ReplaceFirst(text, key, "") == rest;
    var g := FindHexWindow(rest, IvHexLength, 0);
    if g.Some? {
      assert ExtractSecrets(text) == Success(DecryptData(key, rest[g.value..g.value + IvHexLength]));
      assert LeftmostHexWindow(rest, g.value, IvHexLength);
      assert ExtractSecrets(text).value.hexIv == rest[g.value..g.value + IvHexLength];
    } else {
      assert ExtractSecrets(text) == Failure(IvNotFound);
    }
  }

  /**
   * The IV is a run of the original body that lies wholly before or wholly
   * after the key's span: it never takes characters of the key.
   */
  lemma IvOutsideKey(text: string, k: nat)
    requires LeftmostHexWindow(text, k, KeyHexLength)
    requires ExtractSecrets(text).Success?
    ensures var iv := ExtractSecrets(text).value.hexIv;
      exists a: nat :: StartsAt(text, a, iv) && (a + IvHexLength <= k || k + KeyHexLength <= a)
  {
    IvSearch(text, k);
    var rest := text[..k] + text[k + KeyHexLength..];
    var iv := ExtractSecrets(text).value.hexIv;
    var v: nat :| LeftmostHexWindow(rest, v, IvHexLength) && iv == rest[v..v + IvHexLength];
    WindowBesideCut(text, k, v);
    if v + IvHexLength <= k {
      assert StartsAt(text, v, iv);
    } else {
      assert StartsAt(text, v + KeyHexLength, iv);
    }
  }

  /**
   * A hex window of the cut text never straddles the cut: it lies wholly
   * before the key's span or wholly after it, and reads the same there.
   */
  lemma WindowBesideCut(text: string, k: nat, v: nat)
    requires LeftmostHexWindow(text, k, KeyHexLength)
    requires HexWindowAt(text[..k] + text[k + KeyHexLength..], v, IvHexLength)
    ensures var rest := text[..k] + text[k + KeyHexLength..];
      || (v + IvHexLength <= k && text[v..v + IvHexLength] == rest[v..v + IvHexLength])
      || (k <= v && text[v + KeyHexLength..v + KeyHexLength + IvHexLength] == rest[v..v + IvHexLength])
  {
    var rest := text[..k] + text[k + KeyHexLength..];
    CutSpan(text, k, KeyHexLength);
    if v < k {
      LeftmostWindowBoundary(text, k, KeyHexLength);
      assert rest[k - 1] == text[k - 1];
    }
    if v + IvHexLength <= k {
      assert text[v..v + IvHexLength] == rest[v..v + IvHexLength];
    } else {
      assert text[v + KeyHexLength..v + KeyHexLength + IvHexLength] == rest[v..v + IvHexLength];
    }
  }

  /** Where the characters of a text with the span [k, k + n) cut out come from. */
  lemma CutSpan(text: string, k: nat, n: nat)
    requires k + n <= |text|
    ensures var rest := text[..k] + text[k + n..];
      && |rest| == |text| - n
      && (forall i | 0 <= i < k :: rest[i] == text[i])
      && (forall i | k <= i < |rest| :: rest[i] == text[i + n])
  {
  }

  /**
   * Why the key is cut out first: when the IV lies after the key, the same
   * search run on the untouched body would return the key's first 32
   * characters instead.
   */
  lemma NaiveIvSearchHitsKey(text: string, k: nat, v: nat)
    requires LeftmostHexWindow(text, k, KeyHexLength)
    requires LeftmostHexWindow(text[..k] + text[k + KeyHexLength..], v, IvHexLength)
    requires k <= v
    ensures LeftmostHexWindow(text, k, IvHexLength)
    ensures text[k..k + IvHexLength] == text[k..k + KeyHexLength][..IvHexLength]
  {
    var rest := text[..k] + text[k + KeyHexLength..];
    CutSpan(text, k, KeyHexLength);
    if 0 < k {
      LeftmostWindowBoundary(text, k, KeyHexLength);
    }
    forall j | 0 <= j < k ensures !HexWindowAt(text, j, IvHexLength) {
      if j + IvHexLength <= k {
        assert !HexWindowAt(rest, j, IvHexLength);
        var i :| j <= i < j + IvHexLength && !IsLowerHexDigit(rest[i]);
        assert rest[i] == text[i];
      } else {
        assert !IsLowerHexDigit(text[k - 1]);
      }
    }
  }

  /**
   * The secrets are lower-case hex of 64 and 32 characters, which decode to a
   * 32-byte key and a 16-byte IV, and which the decoded bytes spell back.
   */
  lemma SecretSizes(text: string)
    requires ExtractSecrets(text).Success?
    ensures var d := ExtractSecrets(text).value;
      && |HexDecode(d.hexKey)| == 32 && |HexDecode(d.hexIv)| == 16
      && HexEncode(HexDecode(d.hexKey)) == d.hexKey && HexEncode(HexDecode(d.hexIv)) == d.hexIv
  {
    var d := ExtractSecrets(text).value;
    HexDecodeLength(d.hexKey);
    HexDecodeLength(d.hexIv);
    HexEncodeDecode(d.hexKey);
    HexEncodeDecode(d.hexIv);
  }
}
