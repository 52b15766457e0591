/** `sanitizeHtml` (js/src/tools/sanitizer.js, lines 87-118).
 *
 *  The loop over the snapshot of body elements is a method on a `Document`;
 *  what the document looks like after the loop has visited a prefix of the
 *  snapshot is the function `Sanitized`, and the properties the sanitizer
 *  exists for are lemmas about that function.
 */
module Sanitizer {
  import opened Lists
  import opened Text
  import opened Policy
  import opened UrlPatterns
  import opened AttributeCheck
  import opened Dom

  /** `whitelistKeys.indexOf(el.nodeName.toLowerCase()) !== -1`. */
  predicate IsWhitelisted(wl: Whitelist, name: string)
  {
    Lower(name) in wl
  }

  function Allowed(list: seq<Entry>): Attr -> bool
  {
    (x: Attr) => AllowedAttribute(x, list)
  }

  /** The attributes that survive the check against `list`, in order. */
  function KeptAttributes(attrs: seq<Attr>, list: seq<Entry>): seq<Attr>
  {
    Filter(attrs, Allowed(list))
  }

  /** Keeps the nodes whose parent link points at `p`. */
  function ChildOf(parent: seq<Option<nat>>, p: nat): nat -> bool
  {
    (x: nat) => x < |parent| && parent[x] == Some(p)
  }

  /** The document once the loop has visited the elements in `visited`:
   *  a visited element whose name is not whitelisted is unlinked from its
   *  parent, and a visited element whose name is whitelisted keeps only the
   *  attributes its effective list allows.  Names never change. */
  function Sanitized(a: Arena, wl: Whitelist, visited: seq<nat>): Arena
    requires WellFormed(a)
  {
    var parent := seq(|a.parent|, i requires 0 <= i < |a.parent| =>
      if i in visited && !IsWhitelisted(wl, a.names[i]) then None else a.parent[i]);
    var attrs := seq(|a.attrs|, i requires 0 <= i < |a.attrs| =>
      if i in visited && IsWhitelisted(wl, a.names[i])
      then KeptAttributes(a.attrs[i], Effective(wl, Lower(a.names[i])))
      else a.attrs[i]);
    var children := seq(|a.children|, p requires 0 <= p < |a.children| =>
      Filter(a.children[p], ChildOf(parent, p)));
    Arena(a.names, attrs, parent, children)
  }

  /** The document after the whole loop: every element of the body visited
   *  once, from the snapshot taken before any change. */
  function Output(a: Arena, wl: Whitelist): Arena
    requires WellFormed(a)
  {
    Sanitized(a, wl, BodyElements(a.parent))
  }

  /** One turn of the loop on element `el`. */
  function Visit(b: Arena, wl: Whitelist, el: nat): Arena
    requires WellFormed(b) && el < |b.parent| && b.parent[el].Some?
  {
    if !IsWhitelisted(wl, b.names[el]) then Detach(b, el)
    else b.(attrs := b.attrs[el := KeptAttributes(b.attrs[el], Effective(wl, Lower(b.names[el])))])
  }

  /** Every arena the loop passes through is well formed. */
  lemma SanitizedWellFormed(a: Arena, wl: Whitelist, visited: seq<nat>)
    requires WellFormed(a)
    ensures WellFormed(Sanitized(a, wl, visited))
  {
    var b := Sanitized(a, wl, visited);
    forall c | 0 <= c < |b.parent| && b.parent[c].Some?
      ensures c in b.children[b.parent[c].value]
    {
      var p := b.parent[c].value;
      assert c in a.children[p] && ChildOf(b.parent, p)(c);
    }
    forall i | 0 <= i < |b.attrs| ensures UniqueNames(b.attrs[i]) {
      FilterKeepsNamesUnique(a.attrs[i], Allowed(Effective(wl, Lower(a.names[i]))));
    }
  }

  /** Unlinking `c` from the parent links and then filtering a child list is
   *  removing `c` from the filtered list when `c` was a child of `q`, and
   *  changes nothing otherwise. */
  lemma ChildrenAfterCut(cs: seq<nat>, parent: seq<Option<nat>>, c: nat, q: nat)
    requires c < |parent|
    ensures Filter(cs, ChildOf(parent[c := None], q)) ==
              if parent[c] == Some(q) then RemoveValue(Filter(cs, ChildOf(parent, q)), c)
              else Filter(cs, ChildOf(parent, q))
  {
    if parent[c] == Some(q) {
      FilterThenFilter(cs, ChildOf(parent, q), IsNot(c), ChildOf(parent[c := None], q));
    } else {
      FilterAgreeing(cs, ChildOf(parent[c := None], q), ChildOf(parent, q));
    }
  }

  /** Visiting one more element of the snapshot is one turn of the loop. */
  lemma SanitizedStep(a: Arena, wl: Whitelist, visited: seq<nat>, el: nat)
    requires WellFormed(a) && el < |a.parent| && a.parent[el].Some? && el !in visited
    ensures WellFormed(Sanitized(a, wl, visited))
    ensures Sanitized(a, wl, visited).parent[el] == a.parent[el]
    ensures Sanitized(a, wl, visited).attrs[el] == a.attrs[el]
    ensures Sanitized(a, wl, visited + [el]) == Visit(Sanitized(a, wl, visited), wl, el)
  {
    SanitizedWellFormed(a, wl, visited);
    var b := Sanitized(a, wl, visited);
    var c := Sanitized(a, wl, visited + [el]);
    var v := Visit(b, wl, el);
    assert forall i :: i in visited + [el] <==> i in visited || i == el;
    if IsWhitelisted(wl, a.names[el]) {
      assert c.parent == b.parent;
      assert c.attrs == v.attrs;
    } else {
      var p := a.parent[el].value;
      assert c.parent == b.parent[el := None];
      forall q | 0 <= q < |c.children| ensures c.children[q] == v.children[q] {
        ChildrenAfterCut(a.children[q], b.parent, el, q);
      }
      assert c.children == v.children;
      assert c.attrs == v.attrs;
    }
  }

  /** Before the loop visits anything the document is as parsed. */
  lemma SanitizedNothing(a: Arena, wl: Whitelist)
    requires WellFormed(a)
    ensures Sanitized(a, wl, []) == a
  {
    var b := Sanitized(a, wl, []);
    assert b.parent == a.parent;
    assert b.attrs == a.attrs;
    forall p | 0 <= p < |a.children| ensures b.children[p] == a.children[p] {
      FilterKeepsAll(a.children[p], ChildOf(a.parent, p));
    }
  }

  /** One step of the attribute loop: `attrs` is the snapshot of the
   *  element's attributes, the first `j` have been examined. */
  lemma AttributeStep(attrs: seq<Attr>, j: nat, list: seq<Entry>)
    requires UniqueNames(attrs) && j < |attrs|
    ensures KeptAttributes(attrs[..j + 1], list) + attrs[j + 1..] ==
              if AllowedAttribute(attrs[j], list) then KeptAttributes(attrs[..j], list) + attrs[j..]
              else RemoveNamed(KeptAttributes(attrs[..j], list) + attrs[j..], attrs[j].name)
  {
    FilterStep(attrs, j, Allowed(list));
  }

  /** The attribute loop's invariant before the first and after the last
   *  attribute. */
  lemma AttributeLoopEnds(attrs: seq<Attr>, list: seq<Entry>)
    ensures KeptAttributes(attrs[..0], list) + attrs[0..] == attrs
    ensures KeptAttributes(attrs[..|attrs|], list) + attrs[|attrs|..] == KeptAttributes(attrs, list)
  {
    assert attrs[..0] == [] && attrs[0..] == attrs;
    assert attrs[..|attrs|] == attrs && attrs[|attrs|..] == [];
  }

  /** The attribute table after the callback has examined `attr` on `el`:
   *  unchanged when it is allowed, without that name otherwise. */
  function AfterCallback(table: seq<seq<Attr>>, el: nat, attr: Attr, list: seq<Entry>): seq<seq<Attr>>
    requires el < |table|
  {
    table[el := if AllowedAttribute(attr, list) then table[el] else RemoveNamed(table[el], attr.name)]
  }

  /** The attribute loop's invariant on the whole attribute table, carried
   *  from `j` to `j + 1` by the callback on the `j`-th attribute. */
  lemma AttributeTableStep(table: seq<seq<Attr>>, el: nat, attrs: seq<Attr>, j: nat, list: seq<Entry>)
    requires UniqueNames(attrs) && j < |attrs| && el < |table|
    ensures AfterCallback(table[el := KeptAttributes(attrs[..j], list) + attrs[j..]], el, attrs[j], list) ==
              table[el := KeptAttributes(attrs[..j + 1], list) + attrs[j + 1..]]
  {
    AttributeStep(attrs, j, list);
  }

  /** The callback passed to `forEach` (lines 110-114): remove `attr` by
   *  name unless `allowedAttribute` accepts it. */
  method ExamineAttribute(doc: Document, el: nat, attr: Attr, whitelistedAttributes: seq<Entry>)
    requires doc.Valid() && el < |doc.attributes|
    modifies doc
    ensures doc.Valid()
    ensures doc.attributes == AfterCallback(old(doc.attributes), el, attr, whitelistedAttributes)
    ensures doc.parents == old(doc.parents) && doc.children == old(doc.children)
  {
    if !AllowedAttribute(attr, whitelistedAttributes) {
      doc.RemoveAttribute(el, attr.name);
    }
  }

  /** `attributeList.forEach(...)` (lines 107-114) on element `el`: every
   *  attribute of the snapshot is examined once, and the rejected ones are
   *  removed by name. */
  method RemoveRejectedAttributes(doc: Document, el: nat, whitelistedAttributes: seq<Entry>)
    requires doc.Valid() && el < |doc.attributes|
    modifies doc
    ensures doc.Valid()
    ensures doc.attributes == old(doc.attributes)[el := KeptAttributes(old(doc.attributes)[el], whitelistedAttributes)]
    ensures doc.parents == old(doc.parents) && doc.children == old(doc.children)
  {
    var attributeList := doc.attributes[el];
    ghost var table := doc.attributes;
    AttributeLoopEnds(attributeList, whitelistedAttributes);
    for j := 0 to |attributeList|
      invariant doc.Valid()
      invariant doc.attributes == table[el := KeptAttributes(attributeList[..j], whitelistedAttributes) + attributeList[j..]]
      invariant doc.parents == old(doc.parents) && doc.children == old(doc.children)
    {
      AttributeTableStep(table, el, attributeList, j, whitelistedAttributes);
      ExamineAttribute(doc, el, attributeList[j], whitelistedAttributes);
    }
  }

  /** The loop of `sanitizeHtml` (lines 94-115) on a parsed document. */
  method SanitizeTree(doc: Document, whiteList: Whitelist)
    requires doc.Valid()
    modifies doc
    ensures doc.Valid()
    ensures doc.State() == Output(old(doc.State()), whiteList)
  {
    ghost var a := doc.State();
    var elements := BodyElements(doc.parents);

    SanitizedNothing(a, whiteList);
    var i := 0;
    while i < |elements|
      invariant 0 <= i <= |elements|
      invariant doc.Valid() && doc.names == a.names
      invariant doc.State() == Sanitized(a, whiteList, elements[..i])
    {
      var el := elements[i];
      assert el in elements && el !in elements[..i];
      SanitizedStep(a, whiteList, elements[..i], el);
      assert elements[..i + 1] == elements[..i] + [el];
      var elName := Lower(doc.names[el]);

      if elName !in whiteList {
        doc.RemoveChild(doc.parents[el].value, el);
        i := i + 1;
        continue;
      }

      var whitelistedAttributes := Effective(whiteList, elName);
      RemoveRejectedAttributes(doc, el, whitelistedAttributes);
      i := i + 1;
    }
    assert elements[..i] == elements;
  }

  // ---------------------------------------------------------------------
  // What the output document satisfies
  // ---------------------------------------------------------------------

  /** Node `i` and every element above it, up to the body, have whitelisted
   *  names. */
  predicate KeptPath(a: Arena, wl: Whitelist, i: nat)
    decreases i
  {
    i == Body ||
    (&& i < |a.names| && i < |a.parent|
     && IsWhitelisted(wl, a.names[i])
     && a.parent[i].Some? && a.parent[i].value < i
     && KeptPath(a, wl, a.parent[i].value))
  }

  /** After the loop a node is in the document exactly when it was before
   *  and every element from it up to the body is whitelisted: a rejected
   *  element takes its whole subtree with it, and nothing else is lost. */
  lemma {:induction false} InBodyAfterSanitize(a: Arena, wl: Whitelist, i: nat)
    requires WellFormed(a)
    ensures InBody(Output(a, wl).parent, i) <==> InBody(a.parent, i) && KeptPath(a, wl, i)
    decreases i
  {
    if i != Body && i < |a.parent| && a.parent[i].Some? {
      InBodyAfterSanitize(a, wl, a.parent[i].value);
    }
  }

  /** Every element left below the body has a whitelisted name. */
  lemma OnlyWhitelistedElementsRemain(a: Arena, wl: Whitelist, i: nat)
    requires WellFormed(a) && i != Body && InBody(Output(a, wl).parent, i)
    ensures i < |a.names| && Lower(Output(a, wl).names[i]) in wl
  {
    InBodyAfterSanitize(a, wl, i);
  }

  /** Every attribute left on an element below the body was on it before,
   *  with the same value, and passes `allowedAttribute` against the
   *  wildcard entries plus the element's own. */
  lemma OnlyAllowedAttributesRemain(a: Arena, wl: Whitelist, i: nat, x: Attr)
    requires WellFormed(a) && i != Body && InBody(Output(a, wl).parent, i)
    requires i < |a.attrs| && x in Output(a, wl).attrs[i]
    ensures x in a.attrs[i]
    ensures AllowedAttribute(x, Effective(wl, Lower(a.names[i])))
  {
    InBodyAfterSanitize(a, wl, i);
    assert i in BodyElements(a.parent);
  }

  /** Every URI-bearing attribute left below the body has a value in the
   *  language of SAFE_URL_PATTERN or of DATA_URL_PATTERN. */
  lemma UriValuesRemainSafe(a: Arena, wl: Whitelist, i: nat, x: Attr)
    requires WellFormed(a) && i != Body && InBody(Output(a, wl).parent, i)
    requires i < |a.attrs| && x in Output(a, wl).attrs[i]
    requires Lower(x.name) in UriAttrs
    ensures SafeUrlLanguage(x.value) || DataUrlLanguage(x.value)
  {
    OnlyAllowedAttributesRemain(a, wl, i, x);
    SafeUrlMatchesPattern(x.value);
    DataUrlMatchesPattern(x.value);
  }

  /** The body itself is never checked: its attributes and its name stay. */
  lemma BodyUntouched(a: Arena, wl: Whitelist)
    requires WellFormed(a)
    ensures Output(a, wl).names == a.names
    ensures Output(a, wl).attrs[Body] == a.attrs[Body]
    ensures Output(a, wl).parent[Body] == a.parent[Body]
  {
    assert Body !in BodyElements(a.parent);
  }

  /** Running the filter over its own output changes nothing. */
  lemma SanitizeIdempotent(a: Arena, wl: Whitelist)
    requires WellFormed(a)
    ensures WellFormed(Output(a, wl))
    ensures Output(Output(a, wl), wl) == Output(a, wl)
  {
    var snapshot := BodyElements(a.parent);
    SanitizedWellFormed(a, wl, snapshot);
    var o := Output(a, wl);
    var o2 := Output(o, wl);
    var again := BodyElements(o.parent);
    forall i | i in again ensures i in snapshot && IsWhitelisted(wl, a.names[i]) {
      InBodyAfterSanitize(a, wl, i);
    }
    assert o2.parent == o.parent;
    forall i | 0 <= i < |o.attrs| ensures o2.attrs[i] == o.attrs[i] {
      if i in again {
        FilterIdempotent(a.attrs[i], Allowed(Effective(wl, Lower(a.names[i]))));
      }
    }
    forall p | 0 <= p < |o.children| ensures o2.children[p] == o.children[p] {
      FilterKeepsAll(o.children[p], ChildOf(o.parent, p));
    }
    assert o2.attrs == o.attrs;
    assert o2.children == o.children;
  }

  // ---------------------------------------------------------------------
  // The exported function
  // ---------------------------------------------------------------------

  /** `sanitizeHtml(unsafeHtml, whiteList)`.  The browser's parser and the
   *  `innerHTML` serialiser are the parameters `parse` and `serialize`:
   *  the parser hands over a well-formed arena and the serialiser renders
   *  what is below its body.  Empty input is returned as it is, without
   *  parsing. */
  method SanitizeHtml(unsafeHtml: string, whiteList: Whitelist,
                      parse: string -> Arena, serialize: Arena -> string)
    returns (html: string)
    requires |unsafeHtml| > 0 ==> WellFormed(parse(unsafeHtml))
    ensures |unsafeHtml| == 0 ==> html == unsafeHtml
    ensures |unsafeHtml| > 0 ==> html == serialize(Output(parse(unsafeHtml), whiteList))
  {
    if |unsafeHtml| == 0 {
      return unsafeHtml;
    }
    var createdDocument := new Document(parse(unsafeHtml));
    SanitizeTree(createdDocument, whiteList);
    html := serialize(createdDocument.State());
  }
}
