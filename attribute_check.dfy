/** `allowedAttribute` (js/src/tools/sanitizer.js, lines 73-85): may this
 *  attribute stay on an element checked against this attribute list?
 */
module AttributeCheck {
  import opened Text
  import opened Policy
  import opened UrlPatterns
  import opened Dom

  /** `Array.prototype.indexOf`: the first position holding a value strictly
   *  equal to `x`, or -1. */
  function IndexOf<T(==)>(s: seq<T>, x: T): (r: int)
    ensures -1 <= r < |s|
    ensures r == -1 <==> x !in s
    ensures 0 <= r ==> s[r] == x && forall j :: 0 <= j < r ==> s[j] != x
  {
    if s == [] then -1
    else if s[0] == x then 0
    else
      var k := IndexOf(s[1..], x);
      if k == -1 then -1 else k + 1
  }

  /** The URL check applied to the values of URI-bearing attributes. */
  predicate SafeUriValue(value: string)
  {
    SafeUrl(value) || DataUrl(value)
  }

  /** The attribute survives iff its lower-cased name is, as a string, an
   *  entry of the list, and, when that name is one of `UriAttrs`, its value
   *  passes one of the two URL patterns.  Pattern entries take no part. */
  function AllowedAttribute(attr: Attr, allowedAttributeList: seq<Entry>): (ok: bool)
    ensures ok <==>
              && Exact(Lower(attr.name)) in allowedAttributeList
              && (Lower(attr.name) in UriAttrs ==> SafeUriValue(attr.value))
  {
    var attrName := Lower(attr.name);
    if IndexOf(allowedAttributeList, Exact(attrName)) != -1 then
      if IndexOf(UriAttrs, attrName) != -1 then
        SafeUrl(attr.value) || DataUrl(attr.value)
      else
        true
    else
      false
  }

  /** Pattern entries never let an attribute through: adding one anywhere in
   *  a list changes no decision. */
  lemma PatternEntriesNeverMatch(attr: Attr, before: seq<Entry>, after: seq<Entry>, source: string)
    ensures AllowedAttribute(attr, before + [Pattern(source)] + after) == AllowedAttribute(attr, before + after)
  {
    var x := Exact(Lower(attr.name));
    assert x in before + [Pattern(source)] + after <==> x in before || x in after;
  }

  /** The list an element is checked against is the union of the wildcard
   *  entries and its own: an attribute survives on it iff it would survive
   *  on either part alone. */
  lemma EffectiveIsUnion(attr: Attr, wl: Whitelist, elName: string)
    ensures AllowedAttribute(attr, Effective(wl, elName)) <==>
              AllowedAttribute(attr, EntriesOf(wl, Wildcard)) || AllowedAttribute(attr, EntriesOf(wl, elName))
  {
  }

  /** For a listed name outside `UriAttrs` the value does not matter. */
  lemma ValueIgnoredOutsideUriAttrs(name: string, v1: string, v2: string, list: seq<Entry>)
    requires Lower(name) !in UriAttrs
    ensures AllowedAttribute(Attr(name, v1), list) == AllowedAttribute(Attr(name, v2), list)
  {
  }

  /** The decision does not depend on the case of the attribute's name. */
  lemma NameCaseIgnored(name: string, value: string, list: seq<Entry>)
    ensures AllowedAttribute(Attr(name, value), list) == AllowedAttribute(Attr(Lower(name), value), list)
  {
    LowerIsLower(name);
  }
}
