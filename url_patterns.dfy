/** The two URL recognisers of the sanitizer, hand-coded from their regular
 *  expressions (js/src/tools/sanitizer.js, lines 64 and 71), each with a
 *  declarative statement of the language the regular expression denotes and
 *  a lemma that the two agree on every string.
 *
 *  Both patterns carry the `i` flag; it is modelled by lower-casing the value
 *  before comparing it with lower-case literals.  The `g` flag on
 *  SAFE_URL_PATTERN has no effect on `String.prototype.match`, which restarts
 *  from the beginning of the string, so both are stateless predicates.
 */
module UrlPatterns {
  import opened Text

  // ---------------------------------------------------------------------
  // SAFE_URL_PATTERN  /^(?:(?:https?|mailto|ftp|tel|file):|[^&:/?#]*(?:[/?#]|$))/gi
  // ---------------------------------------------------------------------

  /** The schemes of the first alternative, each with its colon. */
  const SafeSchemes: seq<string> := ["http:", "https:", "mailto:", "ftp:", "tel:", "file:"]

  /** Does `t` start with one of `prefixes`?  (Tried in order, as the
   *  alternation does.) */
  predicate StartsWithOneOf(t: string, prefixes: seq<string>)
    decreases |prefixes|
  {
    |prefixes| > 0 && (prefixes[0] <= t || StartsWithOneOf(t, prefixes[1..]))
  }

  /** The characters the class `[^&:/?#]` excludes. */
  predicate IsDelimiter(c: char)
  {
    c == '&' || c == ':' || c == '/' || c == '?' || c == '#'
  }

  /** The characters of the class `[/?#]`. */
  predicate IsPathDelimiter(c: char)
  {
    c == '/' || c == '?' || c == '#'
  }

  /** The second alternative, `[^&:/?#]*(?:[/?#]|$)`, scanned left to right:
   *  skip non-delimiters; succeed at a path delimiter or at the end; fail at
   *  `&` or `:`.  (Backtracking to a shorter run never helps, because the
   *  character after a shorter run is a non-delimiter.) */
  predicate RelativeReference(s: string)
  {
    if s == [] then true
    else if IsPathDelimiter(s[0]) then true
    else if IsDelimiter(s[0]) then false
    else RelativeReference(s[1..])
  }

  /** `value.match(SAFE_URL_PATTERN)` is non-null. */
  predicate SafeUrl(s: string)
  {
    StartsWithOneOf(Lower(s), SafeSchemes) || RelativeReference(s)
  }

  /** The language of SAFE_URL_PATTERN, read off the regular expression:
   *  a listed scheme prefix, or a (possibly empty) run without delimiters
   *  followed by a path delimiter or by the end of the string. */
  ghost predicate SafeUrlLanguage(s: string)
  {
    || (exists sc :: sc in SafeSchemes && sc <= Lower(s))
    || (exists k :: 0 <= k <= |s| && NoDelimiterBefore(s, k) && (k == |s| || IsPathDelimiter(s[k])))
  }

  /** None of the first `k` characters of `s` is a delimiter. */
  predicate NoDelimiterBefore(s: string, k: nat)
    requires k <= |s|
  {
    forall j :: 0 <= j < k ==> !IsDelimiter(s[j])
  }

  lemma {:induction false} StartsWithOneOfMeaning(t: string, prefixes: seq<string>)
    ensures StartsWithOneOf(t, prefixes) <==> exists p :: p in prefixes && p <= t
    decreases |prefixes|
  {
    if |prefixes| > 0 {
      StartsWithOneOfMeaning(t, prefixes[1..]);
      assert forall p :: p in prefixes <==> p == prefixes[0] || p in prefixes[1..];
      if prefixes[0] <= t {
        assert prefixes[0] in prefixes;
      }
    }
  }

  /** A delimiter-free run ending at a path delimiter or at the end is
   *  accepted by the scanner. */
  lemma {:induction false} RelativeReferenceFromRun(s: string, k: nat)
    requires k <= |s| && NoDelimiterBefore(s, k) && (k == |s| || IsPathDelimiter(s[k]))
    ensures RelativeReference(s)
    decreases k
  {
    if k > 0 {
      assert !IsDelimiter(s[0]);
      RelativeReferenceFromRun(s[1..], k - 1);
    }
  }

  /** The scanner accepts only a delimiter-free run that ends at a path
   *  delimiter or at the end; `k` is the length of that run. */
  lemma {:induction false} RunOfRelativeReference(s: string) returns (k: nat)
    requires RelativeReference(s)
    ensures k <= |s| && NoDelimiterBefore(s, k) && (k == |s| || IsPathDelimiter(s[k]))
    decreases |s|
  {
    if s == [] || IsPathDelimiter(s[0]) {
      k := 0;
    } else {
      var k' := RunOfRelativeReference(s[1..]);
      k := k' + 1;
      forall j | 0 <= j < k ensures !IsDelimiter(s[j]) {
        if j > 0 { assert s[j] == s[1..][j - 1]; }
      }
    }
  }

  lemma RelativeReferenceMeaning(s: string)
    ensures RelativeReference(s) <==>
              exists k :: 0 <= k <= |s| && NoDelimiterBefore(s, k) && (k == |s| || IsPathDelimiter(s[k]))
  {
    if RelativeReference(s) {
      var k := RunOfRelativeReference(s);
    }
    if exists k :: 0 <= k <= |s| && NoDelimiterBefore(s, k) && (k == |s| || IsPathDelimiter(s[k])) {
      var k :| 0 <= k <= |s| && NoDelimiterBefore(s, k) && (k == |s| || IsPathDelimiter(s[k]));
      RelativeReferenceFromRun(s, k);
    }
  }

  /** The hand-coded recogniser accepts exactly the language of
   *  SAFE_URL_PATTERN. */
  lemma SafeUrlMatchesPattern(s: string)
    ensures SafeUrl(s) <==> SafeUrlLanguage(s)
  {
    StartsWithOneOfMeaning(Lower(s), SafeSchemes);
    RelativeReferenceMeaning(s);
  }

  /** What the pattern guards against: a value with `&` or `:` ahead of any
   *  `/`, `?` or `#` is refused unless it starts with a listed scheme; so a
   *  value that is not a relative reference cannot smuggle in any other
   *  scheme, `javascript:` among them. */
  lemma {:induction false} SchemeBeforePathIsRefused(s: string, k: nat)
    requires k < |s| && IsDelimiter(s[k]) && !IsPathDelimiter(s[k])
    requires forall j :: 0 <= j < k ==> !IsPathDelimiter(s[j])
    ensures !RelativeReference(s)
    ensures SafeUrl(s) <==> StartsWithOneOf(Lower(s), SafeSchemes)
    decreases k
  {
    if k > 0 && !IsDelimiter(s[0]) {
      SchemeBeforePathIsRefused(s[1..], k - 1);
    }
  }

  // ---------------------------------------------------------------------
  // DATA_URL_PATTERN  /^data:(?:image\/(?:…)|video\/(?:…)|audio\/(?:…));base64,[a-z0-9+/]+=*$/i
  // ---------------------------------------------------------------------

  /** The media types the alternation admits, in its order. */
  const DataMimeTypes: seq<string> := [
    "image/bmp", "image/gif", "image/jpeg", "image/jpg", "image/png", "image/tiff", "image/webp",
    "video/mpeg", "video/mp4", "video/ogg", "video/webm",
    "audio/mp3", "audio/oga", "audio/ogg", "audio/opus"
  ]

  /** `[a-z0-9+/]` on a lower-cased value (with the `i` flag it also admits
   *  'A'..'Z'). */
  predicate IsBase64Char(c: char)
  {
    'a' <= c <= 'z' || '0' <= c <= '9' || c == '+' || c == '/'
  }

  predicate AllBase64(t: string)
  {
    forall i :: 0 <= i < |t| ==> IsBase64Char(t[i])
  }

  predicate PaddingOnly(t: string)
  {
    forall i :: 0 <= i < |t| ==> t[i] == '='
  }

  /** `[a-z0-9+/]*=*$`, scanned left to right. */
  predicate PayloadTail(t: string)
  {
    if t == [] then true
    else if IsBase64Char(t[0]) then PayloadTail(t[1..])
    else PaddingOnly(t)
  }

  /** `[a-z0-9+/]+=*$`. */
  predicate Payload(t: string)
  {
    |t| > 0 && IsBase64Char(t[0]) && PayloadTail(t[1..])
  }

  /** One media type from `mimes`, then `;base64,`, then the payload. */
  predicate MimeAndPayload(t: string, mimes: seq<string>)
    decreases |mimes|
  {
    |mimes| > 0 &&
    ((mimes[0] + ";base64," <= t && Payload(t[|mimes[0]| + 8..])) || MimeAndPayload(t, mimes[1..]))
  }

  /** `value.match(DATA_URL_PATTERN)` is non-null. */
  predicate DataUrl(s: string)
  {
    var t := Lower(s);
    "data:" <= t && MimeAndPayload(t[5..], DataMimeTypes)
  }

  /** The `i` flag: a value and its lower-case form are judged alike. */
  lemma DataUrlIgnoresCase(s: string)
    ensures DataUrl(s) == DataUrl(Lower(s))
  {
    LowerIsLower(s);
  }

  /** The language of `[a-z0-9+/]+=*$`: a non-empty base64 run, then padding
   *  to the end, with no constraint on either length. */
  ghost predicate PayloadLanguage(t: string)
  {
    exists k :: 1 <= k <= |t| && AllBase64(t[..k]) && PaddingOnly(t[k..])
  }

  /** The lower-cased value is `data:` + `mime` + `;base64,` + a payload. */
  ghost predicate DataUrlWith(t: string, mime: string)
  {
    "data:" + mime + ";base64," <= t && PayloadLanguage(t[|mime| + 13..])
  }

  /** The language of DATA_URL_PATTERN. */
  ghost predicate DataUrlLanguage(s: string)
  {
    exists mime :: mime in DataMimeTypes && DataUrlWith(Lower(s), mime)
  }

  /** A base64 run followed by padding to the end passes the scanner. */
  lemma {:induction false} PayloadTailFromSplit(t: string, k: nat)
    requires k <= |t| && AllBase64(t[..k]) && PaddingOnly(t[k..])
    ensures PayloadTail(t)
    decreases k
  {
    if k == 0 {
      assert t[k..] == t;
    } else {
      assert t[..k][0] == t[0];
      assert t[1..][..k - 1] == t[..k][1..];
      assert t[1..][k - 1..] == t[k..];
      PayloadTailFromSplit(t[1..], k - 1);
    }
  }

  /** What the scanner accepts splits into a base64 run (of length `k`) and
   *  padding to the end. */
  lemma {:induction false} SplitOfPayloadTail(t: string) returns (k: nat)
    requires PayloadTail(t)
    ensures k <= |t| && AllBase64(t[..k]) && PaddingOnly(t[k..])
    decreases |t|
  {
    if t == [] || !IsBase64Char(t[0]) {
      k := 0;
      assert t[k..] == t;
    } else {
      var k' := SplitOfPayloadTail(t[1..]);
      k := k' + 1;
      assert t[..k] == [t[0]] + t[1..][..k'];
      assert t[k..] == t[1..][k'..];
    }
  }

  lemma PayloadMeaning(t: string)
    ensures Payload(t) <==> PayloadLanguage(t)
  {
    if Payload(t) {
      var k' := SplitOfPayloadTail(t[1..]);
      assert t[..k' + 1] == [t[0]] + t[1..][..k'];
      assert t[k' + 1..] == t[1..][k'..];
    }
    if PayloadLanguage(t) {
      var k :| 1 <= k <= |t| && AllBase64(t[..k]) && PaddingOnly(t[k..]);
      assert t[..k][0] == t[0];
      assert t[1..][..k - 1] == t[..k][1..];
      assert t[1..][k - 1..] == t[k..];
      PayloadTailFromSplit(t[1..], k - 1);
    }
  }

  lemma {:induction false} MimeAndPayloadMeaning(t: string, mimes: seq<string>)
    requires "data:" <= t
    ensures MimeAndPayload(t[5..], mimes) <==> exists mime :: mime in mimes && DataUrlWith(t, mime)
    decreases |mimes|
  {
    if |mimes| > 0 {
      MimeAndPayloadMeaning(t, mimes[1..]);
      OneMime(t, mimes[0]);
      assert forall p :: p in mimes <==> p == mimes[0] || p in mimes[1..];
    }
  }

  /** One alternative of the media-type group, then the payload. */
  lemma OneMime(t: string, m: string)
    requires "data:" <= t
    ensures (m + ";base64," <= t[5..] && Payload(t[5..][|m| + 8..])) <==> DataUrlWith(t, m)
  {
    calc <==> {
      m + ";base64," <= t[5..] && Payload(t[5..][|m| + 8..]);
      { PrefixAfterData(t, m); }
      "data:" + m + ";base64," <= t && Payload(t[5..][|m| + 8..]);
      { if m + ";base64," <= t[5..] { PayloadMeaning(t[5..][|m| + 8..]); } }
      DataUrlWith(t, m);
    }
  }

  lemma PrefixAfterData(t: string, m: string)
    requires "data:" <= t
    ensures m + ";base64," <= t[5..] <==> "data:" + m + ";base64," <= t
    ensures |t| >= |m| + 13 ==> t[5..][|m| + 8..] == t[|m| + 13..]
  {
    var w := m + ";base64,";
    if w <= t[5..] {
      assert t[..|w| + 5] == "data:" + w;
    }
    if "data:" + w <= t {
      assert t[5..][..|w|] == ("data:" + w)[5..];
    }
  }

  lemma DataPrefix(t: string, mime: string)
    requires DataUrlWith(t, mime)
    ensures "data:" <= t
  {
    assert ("data:" + mime + ";base64,")[..5] == "data:";
  }

  /** The hand-coded recogniser accepts exactly the language of
   *  DATA_URL_PATTERN. */
  lemma DataUrlMatchesPattern(s: string)
    ensures DataUrl(s) <==> DataUrlLanguage(s)
  {
    var t := Lower(s);
    if "data:" <= t {
      MimeAndPayloadMeaning(t, DataMimeTypes);
    } else if mime :| mime in DataMimeTypes && DataUrlWith(t, mime) {
      DataPrefix(t, mime);
    }
  }
}
