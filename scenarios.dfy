/** The default policy on concrete inputs: which URL values pass, which
 *  attributes and elements survive, and a small document run through the
 *  whole filter. */
module Scenarios {
  import opened Text
  import opened Policy
  import opened UrlPatterns
  import opened AttributeCheck
  import opened Dom
  import opened Sanitizer

  // URL values.

  lemma ScriptNotRelative()
    ensures !RelativeReference("javascript:alert(1)")
  {
    var s := "javascript:alert(1)";
    assert s[10] == ':';
    assert forall j :: 0 <= j < 10 ==> s[j] in "javascript";
    SchemeBeforePathIsRefused(s, 10);
  }

  lemma ScriptNoListedScheme()
    ensures !StartsWithOneOf(Lower("javascript:alert(1)"), SafeSchemes)
  {
    var s := "javascript:alert(1)";
    LowerOfLower(s);
    StartsWithOneOfMeaning(s, SafeSchemes);
    forall p | p in SafeSchemes ensures !(p <= s) {
      assert p[0] != s[0];
    }
  }

  lemma ScriptSchemeNotSafe()
    ensures !SafeUrl("javascript:alert(1)")
  {
    ScriptNotRelative();
    ScriptNoListedScheme();
  }

  lemma ScriptSchemeNotData()
    ensures !DataUrl("javascript:alert(1)")
  {
    var s := "javascript:alert(1)";
    LowerOfLower(s);
    assert s[0] != "data:"[0];
  }

  /** A `javascript:` URL matches neither pattern. */
  lemma ScriptSchemeRefused()
    ensures !SafeUrl("javascript:alert(1)")
    ensures !DataUrl("javascript:alert(1)")
  {
    ScriptSchemeNotSafe();
    ScriptSchemeNotData();
  }

  lemma AmpersandBeforePathRefused()
    ensures !SafeUrl("a&b") && !DataUrl("a&b")
  {
    SchemeBeforePathIsRefused("a&b", 1);
    LowerOfLower("a&b");
    assert !StartsWithOneOf("a&b", SafeSchemes);
  }

  lemma SafeExamplesAccepted()
    ensures SafeUrl("https://x")
    ensures SafeUrl("/p?q")
    ensures SafeUrl("")
  {
    LowerOfLower("https://x");
    assert "https:" <= "https://x";
  }

  /** `data:` + `mime` + `;base64,` + a payload is in the language of the
   *  pattern for that media type. */
  lemma DataUrlOf(mime: string, payload: string)
    requires PayloadLanguage(payload)
    ensures DataUrlWith("data:" + mime + ";base64," + payload, mime)
  {
    var p := "data:" + mime + ";base64,";
    assert (p + payload)[..|p|] == p;
    assert (p + payload)[|p|..] == payload;
  }

  lemma MimeTypeLower(mime: string)
    requires mime in DataMimeTypes
    ensures Lower(mime) == mime
  {
    assert IsLower(mime);
    LowerOfLower(mime);
  }

  lemma DataUrlTextLower(mime: string, payload: string)
    requires Lower(mime) == mime && Lower(payload) == payload
    ensures Lower("data:" + mime + ";base64," + payload) == "data:" + mime + ";base64," + payload
  {
    LowerOfLower("data:");
    LowerOfLower(";base64,");
    LowerAppend("data:", mime);
    LowerAppend("data:" + mime, ";base64,");
    LowerAppend("data:" + mime + ";base64,", payload);
  }

  /** A data URL with a listed media type and a lower-case payload passes
   *  the recogniser. */
  lemma ListedDataUrlAccepted(mime: string, payload: string)
    requires mime in DataMimeTypes && PayloadLanguage(payload) && Lower(payload) == payload
    ensures DataUrl("data:" + mime + ";base64," + payload)
  {
    MimeTypeLower(mime);
    DataUrlTextLower(mime, payload);
    DataUrlOf(mime, payload);
    DataUrlMatchesPattern("data:" + mime + ";base64," + payload);
  }

  lemma PngPayload()
    ensures PayloadLanguage("ivborw0kggo=")
  {
    var p := "ivborw0kggo=";
    assert p[..11] == "ivborw0kggo" && p[11..] == "=";
    assert AllBase64(p[..11]);
  }

  lemma PngLower()
    ensures Lower("data:image/png;base64,iVBORw0KGgo=") == "data:image/png;base64,ivborw0kggo="
  {
    LowerAppend("data:image/png;base64,", "iVBORw0KGgo=");
    LowerOfLower("data:image/png;base64,");
    assert "data:image/png;base64," + "iVBORw0KGgo=" == "data:image/png;base64,iVBORw0KGgo=";
  }

  lemma PngText()
    ensures "data:" + "image/png" + ";base64," + "ivborw0kggo=" == "data:image/png;base64,ivborw0kggo="
  {
  }

  lemma PngPayloadLower()
    ensures Lower("ivborw0kggo=") == "ivborw0kggo="
  {
    LowerOfLower("ivborw0kggo=");
  }

  lemma PngLowerAccepted()
    ensures DataUrl("data:image/png;base64,ivborw0kggo=")
  {
    PngPayload();
    PngPayloadLower();
    PngText();
    ListedDataUrlAccepted("image/png", "ivborw0kggo=");
  }

  /** An inline PNG passes DATA_URL_PATTERN, whatever the case of its
   *  base64 text. */
  lemma PngDataUrlAccepted()
    ensures DataUrl("data:image/png;base64,iVBORw0KGgo=")
  {
    PngLower();
    PngLowerAccepted();
    DataUrlIgnoresCase("data:image/png;base64,iVBORw0KGgo=");
  }

  /** Neither padding length nor the payload length modulo 4 is checked. */
  lemma UnpaddedPayloadAccepted()
    ensures DataUrl("data:image/gif;base64,a")
  {
    assert "a"[..1] == "a" && "a"[1..] == "";
    assert "data:" + "image/gif" + ";base64," + "a" == "data:image/gif;base64,a";
    LowerOfLower("a");
    ListedDataUrlAccepted("image/gif", "a");
  }

  /** Media types outside the list are refused. */
  lemma HtmlDataUrlRefused()
    ensures !DataUrl("data:Text/html;base64,PHNjcmlwdD4=")
  {
    var s := "data:Text/html;base64,PHNjcmlwdD4=";
    var t := Lower(s);
    assert t[5] == 't';
    forall mime | mime in DataMimeTypes ensures !DataUrlWith(t, mime) {
      assert mime[0] != 't';
      assert ("data:" + mime + ";base64,")[5] == mime[0];
    }
    DataUrlMatchesPattern(s);
  }

  // Attributes under the default whitelist.

  const WildcardEntries: seq<Entry> :=
    [Exact("class"), Exact("dir"), Exact("id"), Exact("lang"), Exact("role"), AriaAttributePattern]

  const AnchorEntries: seq<Entry> :=
    WildcardEntries + [Exact("target"), Exact("href"), Exact("title"), Exact("rel")]

  const ImageEntries: seq<Entry> :=
    WildcardEntries + [Exact("src"), Exact("alt"), Exact("title"), Exact("width"), Exact("height")]

  lemma DivList()
    ensures Effective(DefaultWhitelist, "div") == WildcardEntries
  {
    assert EntriesOf(DefaultWhitelist, Wildcard) == WildcardEntries;
    assert EntriesOf(DefaultWhitelist, "div") == [];
  }

  lemma AnchorList()
    ensures Effective(DefaultWhitelist, "a") == AnchorEntries
  {
    assert EntriesOf(DefaultWhitelist, Wildcard) == WildcardEntries;
    assert EntriesOf(DefaultWhitelist, "a") == [Exact("target"), Exact("href"), Exact("title"), Exact("rel")];
  }

  lemma ImageList()
    ensures Effective(DefaultWhitelist, "img") == ImageEntries
  {
    assert EntriesOf(DefaultWhitelist, Wildcard) == WildcardEntries;
    assert EntriesOf(DefaultWhitelist, "img") == [Exact("src"), Exact("alt"), Exact("title"), Exact("width"), Exact("height")];
  }

  lemma ScriptValueUnsafe()
    ensures !SafeUriValue("javascript:alert(1)")
  {
    ScriptSchemeRefused();
  }

  lemma HrefIsUriAttribute()
    ensures Lower("href") == "href" && "href" in UriAttrs
  {
    LowerOfLower("href");
  }

  lemma ScriptHrefStrippedFrom()
    ensures !AllowedAttribute(Attr("href", "javascript:alert(1)"), AnchorEntries)
  {
    ScriptValueUnsafe();
    HrefIsUriAttribute();
  }

  /** A `javascript:` link is removed from `<a>`. */
  lemma ScriptHrefStripped()
    ensures !AllowedAttribute(Attr("href", "javascript:alert(1)"), Effective(DefaultWhitelist, "a"))
  {
    ScriptHrefStrippedFrom();
    AnchorList();
  }

  lemma HttpsValueSafe()
    ensures SafeUriValue("https://example.com")
  {
    LowerOfLower("https://example.com");
    assert "https:" <= "https://example.com";
  }

  lemma HttpsHrefKeptFrom()
    ensures AllowedAttribute(Attr("href", "https://example.com"), AnchorEntries)
  {
    HttpsValueSafe();
    HrefIsUriAttribute();
    assert AnchorEntries[7] == Exact("href");
  }

  /** An `https:` link stays on `<a>`. */
  lemma HttpsHrefKept()
    ensures AllowedAttribute(Attr("href", "https://example.com"), Effective(DefaultWhitelist, "a"))
  {
    HttpsHrefKeptFrom();
    AnchorList();
  }

  lemma EventHandlerStrippedFrom()
    ensures !AllowedAttribute(Attr("onclick", "evil()"), AnchorEntries)
  {
    LowerOfLower("onclick");
  }

  /** Event handlers are removed from `<a>`. */
  lemma EventHandlerStripped()
    ensures !AllowedAttribute(Attr("onclick", "evil()"), Effective(DefaultWhitelist, "a"))
  {
    EventHandlerStrippedFrom();
    AnchorList();
  }

  lemma ImageDataSourceKeptFrom()
    ensures AllowedAttribute(Attr("src", "data:image/png;base64,iVBORw0KGgo="), ImageEntries)
  {
    PngDataUrlAccepted();
    LowerOfLower("src");
    assert ImageEntries[6] == Exact("src");
  }

  /** An inline image stays as the `src` of `<img>`. */
  lemma ImageDataSourceKept()
    ensures AllowedAttribute(Attr("src", "data:image/png;base64,iVBORw0KGgo="), Effective(DefaultWhitelist, "img"))
  {
    ImageDataSourceKeptFrom();
    ImageList();
  }

  lemma AriaNotAnEntry()
    ensures !AllowedAttribute(Attr("aria-hidden", "true"), WildcardEntries)
  {
    LowerOfLower("aria-hidden");
  }

  /** `aria-*` attributes are stripped: the wildcard entry holds the aria
   *  RegExp, but the check only ever compares entries with strings. */
  lemma AriaAttributeStripped()
    ensures !AllowedAttribute(Attr("aria-hidden", "true"), Effective(DefaultWhitelist, "div"))
  {
    AriaNotAnEntry();
    DivList();
  }

  lemma DataAttributeNotAnEntry()
    ensures !AllowedAttribute(Attr("data-foo", "1"), WildcardEntries)
  {
    LowerOfLower("data-foo");
  }

  /** Custom data attributes are removed from `<div>`. */
  lemma DataAttributeStripped()
    ensures !AllowedAttribute(Attr("data-foo", "1"), Effective(DefaultWhitelist, "div"))
  {
    DataAttributeNotAnEntry();
    DivList();
  }

  lemma UpperCaseDivWhitelisted()
    ensures Lower("DIV") == "div" && IsWhitelisted(DefaultWhitelist, "DIV")
  {
    assert Lower("DIV") == "div";
  }

  lemma ClassIsPlain()
    ensures "class" !in UriAttrs
  {
  }

  lemma UpperCaseClassAllowed()
    ensures AllowedAttribute(Attr("CLASS", "x"), WildcardEntries)
  {
    assert Lower("CLASS") == "class";
    ClassIsPlain();
    assert WildcardEntries[0] == Exact("class");
  }

  /** Upper-case markup is judged as its lower-case form. */
  lemma UpperCaseNamesFolded()
    ensures IsWhitelisted(DefaultWhitelist, "DIV")
    ensures AllowedAttribute(Attr("CLASS", "x"), Effective(DefaultWhitelist, Lower("DIV")))
  {
    UpperCaseDivWhitelisted();
    UpperCaseClassAllowed();
    DivList();
  }

  lemma ScriptElementRejected()
    ensures !IsWhitelisted(DefaultWhitelist, "script") && !IsWhitelisted(DefaultWhitelist, "SCRIPT")
  {
    LowerOfLower("script");
    assert Lower("SCRIPT") == "script";
  }

  // A document: body > div > button > p, and body > p.

  /** `<div><button><p></p></button></div><p></p>` below the body: the
   *  button is not whitelisted, its paragraph is. */
  function NestedDocument(): Arena
  {
    Arena(
      ["body", "div", "button", "p", "p"],
      [[], [], [], [], []],
      [None, Some(0), Some(1), Some(2), Some(0)],
      [[1, 4], [2], [3], [], []])
  }

  lemma NestedDocumentWellFormed()
    ensures WellFormed(NestedDocument())
  {
  }

  lemma NestedNames()
    ensures Lower("div") == "div" && Lower("button") == "button" && Lower("p") == "p"
  {
    LowerOfLower("div");
    LowerOfLower("button");
    LowerOfLower("p");
  }

  lemma NestedKept(wl: Whitelist)
    requires "div" in wl && "p" in wl
    ensures WellFormed(NestedDocument())
    ensures InBody(Output(NestedDocument(), wl).parent, 1)
    ensures InBody(Output(NestedDocument(), wl).parent, 4)
  {
    NestedDocumentWellFormed();
    NestedNames();
    InBodyAfterSanitize(NestedDocument(), wl, 1);
    InBodyAfterSanitize(NestedDocument(), wl, 4);
  }

  lemma NestedRemoved(wl: Whitelist)
    requires "button" !in wl
    ensures WellFormed(NestedDocument())
    ensures !InBody(Output(NestedDocument(), wl).parent, 2)
    ensures !InBody(Output(NestedDocument(), wl).parent, 3)
  {
    NestedDocumentWellFormed();
    NestedNames();
    InBodyAfterSanitize(NestedDocument(), wl, 2);
    InBodyAfterSanitize(NestedDocument(), wl, 3);
  }

  /** Under any whitelist that admits `div` and `p` but not `button`, the
   *  button and the paragraph inside it leave the document together,
   *  though `p` itself is whitelisted; the division and the other
   *  paragraph stay. */
  lemma NestedElementRemovedWithSubtree(wl: Whitelist)
    requires "div" in wl && "p" in wl && "button" !in wl
    ensures WellFormed(NestedDocument())
    ensures InBody(Output(NestedDocument(), wl).parent, 1)
    ensures !InBody(Output(NestedDocument(), wl).parent, 2)
    ensures !InBody(Output(NestedDocument(), wl).parent, 3)
    ensures InBody(Output(NestedDocument(), wl).parent, 4)
  {
    NestedKept(wl);
    NestedRemoved(wl);
  }

  lemma DefaultElementKeys()
    ensures "div" in DefaultWhitelist && "p" in DefaultWhitelist && "button" !in DefaultWhitelist
  {
  }

  /** The nested document under the default whitelist. */
  lemma NestedElementRemovedByDefault()
    ensures WellFormed(NestedDocument())
    ensures InBody(Output(NestedDocument(), DefaultWhitelist).parent, 1)
    ensures !InBody(Output(NestedDocument(), DefaultWhitelist).parent, 2)
    ensures !InBody(Output(NestedDocument(), DefaultWhitelist).parent, 3)
    ensures InBody(Output(NestedDocument(), DefaultWhitelist).parent, 4)
  {
    DefaultElementKeys();
    NestedElementRemovedWithSubtree(DefaultWhitelist);
  }
}
