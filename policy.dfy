/** The sanitizer's policy data: the attribute names whose values are URLs,
 *  the shape of a whitelist, and the default whitelist
 *  (js/src/tools/sanitizer.js, lines 8-57).
 */
module Policy {
  import opened Text

  /** One entry of an element's attribute list.  In the source a list holds
   *  strings and, for `aria-*`, a RegExp object; the attribute check compares
   *  entries with `===` against a string, so an `Exact` entry is the only kind
   *  that can ever compare equal.  A `Pattern` keeps the regular
   *  expression's text as an uninterpreted token. */
  datatype Entry = Exact(name: string) | Pattern(source: string)

  /** Element name (lower case, or the wildcard "*") to attribute entries. */
  type Whitelist = map<string, seq<Entry>>

  /** The key whose entries apply to every element. */
  const Wildcard: string := "*"

  /** Attribute names whose value must also pass a URL check. */
  const UriAttrs: seq<string> :=
    ["background", "cite", "href", "itemtype", "longdesc", "poster", "src", "xlink:href"]

  /** The RegExp `/^aria-[\w-]*$/i`, kept only as its text. */
  const AriaAttributePattern: Entry := Pattern("^aria-[\\w-]*$")

  /** The whitelist the library ships: a wildcard entry and 29 elements. */
  const DefaultWhitelist: Whitelist := map[
    Wildcard := [Exact("class"), Exact("dir"), Exact("id"), Exact("lang"), Exact("role"), AriaAttributePattern],
    "a" := [Exact("target"), Exact("href"), Exact("title"), Exact("rel")],
    "area" := [],
    "b" := [],
    "br" := [],
    "col" := [],
    "code" := [],
    "div" := [],
    "em" := [],
    "hr" := [],
    "h1" := [],
    "h2" := [],
    "h3" := [],
    "h4" := [],
    "h5" := [],
    "h6" := [],
    "i" := [],
    "img" := [Exact("src"), Exact("alt"), Exact("title"), Exact("width"), Exact("height")],
    "li" := [],
    "ol" := [],
    "p" := [],
    "pre" := [],
    "s" := [],
    "small" := [],
    "span" := [],
    "sub" := [],
    "sup" := [],
    "strong" := [],
    "u" := [],
    "ul" := []
  ]

  /** `whiteList[key] || []`: a missing key reads as the empty list. */
  function EntriesOf(wl: Whitelist, key: string): (r: seq<Entry>)
    ensures forall e :: e in r <==> key in wl && e in wl[key]
  {
    if key in wl then wl[key] else []
  }

  /** The list an element named `elName` is checked against: the wildcard
   *  entries followed by the element's own. */
  function Effective(wl: Whitelist, elName: string): (r: seq<Entry>)
    ensures forall e :: e in r <==> e in EntriesOf(wl, Wildcard) || e in EntriesOf(wl, elName)
    ensures |r| == |EntriesOf(wl, Wildcard)| + |EntriesOf(wl, elName)|
  {
    EntriesOf(wl, Wildcard) + EntriesOf(wl, elName)
  }

  /** Names are lower-cased before they are looked up, so only lower-case
   *  URI attribute names can ever match; all eight are. */
  lemma UriAttrsLower()
    ensures forall n :: n in UriAttrs ==> Lower(n) == n
  {
    forall n | n in UriAttrs ensures Lower(n) == n {
      LowerOfLower(n);
    }
  }

  /** Every key of the default whitelist is in lower case, so each can
   *  match a lower-cased element name. */
  lemma DefaultKeysLower()
    ensures forall k :: k in DefaultWhitelist ==> Lower(k) == k
  {
    forall k | k in DefaultWhitelist ensures Lower(k) == k {
      LowerOfLower(k);
    }
  }

  /** Every string entry of the default whitelist is in lower case, so each
   *  can match a lower-cased attribute name. */
  lemma DefaultEntriesLower()
    ensures forall k, e :: k in DefaultWhitelist && e in DefaultWhitelist[k] && e.Exact? ==> Lower(e.name) == e.name
  {
    forall k, e | k in DefaultWhitelist && e in DefaultWhitelist[k] && e.Exact? ensures Lower(e.name) == e.name {
      LowerOfLower(e.name);
    }
  }

  /** The only entry of the default whitelist that is not a string is the
   *  aria pattern of the wildcard list. */
  lemma DefaultPatternOnlyAria()
    ensures forall k, e :: k in DefaultWhitelist && e in DefaultWhitelist[k] && e.Pattern? ==> k == Wildcard && e == AriaAttributePattern
  {
  }
}
