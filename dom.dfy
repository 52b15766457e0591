/** The part of the DOM the sanitizer touches, as an arena.
 *
 *  Node 0 is the `body` of the parsed document; every other node is an
 *  element below it.  A node's parent always has a smaller number than the
 *  node (the parser's document order is one such numbering; nothing more
 *  about sibling order is required).  An element has a name, its
 *  attributes in order (names unique, as the DOM keeps them), a parent link
 *  (None once detached) and its children in order.  Text nodes, namespaces
 *  and everything else the parser produces are not part of this model.
 */
module Dom {
  import opened Lists

  datatype Option<T> = None | Some(value: T)

  /** An attribute node: `nodeName` and `nodeValue`. */
  datatype Attr = Attr(name: string, value: string)

  datatype Arena = Arena(
    names: seq<string>,
    attrs: seq<seq<Attr>>,
    parent: seq<Option<nat>>,
    children: seq<seq<nat>>)

  /** The node standing for `createdDocument.body`. */
  const Body: nat := 0

  predicate UniqueNames(attrs: seq<Attr>)
  {
    forall i, j :: 0 <= i < j < |attrs| ==> attrs[i].name != attrs[j].name
  }

  /** Parent links point backwards, child lists and parent links describe the
   *  same edges, and no element carries two attributes of one name. */
  predicate WellFormed(a: Arena)
  {
    && |a.names| > 0
    && |a.attrs| == |a.names| && |a.parent| == |a.names| && |a.children| == |a.names|
    && (forall i :: 0 <= i < |a.parent| && a.parent[i].Some? ==> a.parent[i].value < i)
    && (forall p :: 0 <= p < |a.children| ==>
          forall c :: c in a.children[p] ==> c < |a.parent| && a.parent[c] == Some(p))
    && (forall c :: 0 <= c < |a.parent| && a.parent[c].Some? ==> c in a.children[a.parent[c].value])
    && (forall i :: 0 <= i < |a.attrs| ==> UniqueNames(a.attrs[i]))
  }

  /** Node `i` is still in the document: following parent links from it
   *  reaches the body.  This is what serialising the body can see. */
  predicate InBody(parent: seq<Option<nat>>, i: nat)
    decreases i
  {
    i == Body ||
    (i < |parent| && parent[i].Some? && parent[i].value < i && InBody(parent, parent[i].value))
  }

  /** Node `i` is `c` or lies below `c`. */
  predicate Descends(parent: seq<Option<nat>>, i: nat, c: nat)
    decreases i
  {
    i == c ||
    (i < |parent| && parent[i].Some? && parent[i].value < i && Descends(parent, parent[i].value, c))
  }

  /** The elements in the body among nodes 1 .. n-1, in increasing index
   *  order. */
  function ElementsBelow(parent: seq<Option<nat>>, n: nat): (r: seq<nat>)
    requires n <= |parent|
    ensures forall x :: x in r <==> 0 < x < n && InBody(parent, x)
    ensures forall j, k :: 0 <= j < k < |r| ==> r[j] < r[k]
  {
    if n <= 1 then []
    else
      var r' := ElementsBelow(parent, n - 1);
      assert forall j :: 0 <= j < |r'| ==> r'[j] in r';
      r' + (if InBody(parent, n - 1) then [n - 1] else [])
  }

  /** `body.querySelectorAll('*')`: every element below the body, each once,
   *  in increasing index order. */
  function BodyElements(parent: seq<Option<nat>>): (r: seq<nat>)
    ensures forall x :: x in r <==> 0 < x < |parent| && InBody(parent, x)
    ensures forall j, k :: 0 <= j < k < |r| ==> r[j] < r[k]
  {
    ElementsBelow(parent, |parent|)
  }

  /** Keeps every node but `c`. */
  function IsNot(c: nat): nat -> bool
  {
    (x: nat) => x != c
  }

  /** Keeps every attribute not called `name`. */
  function NameIsNot(name: string): Attr -> bool
  {
    (x: Attr) => x.name != name
  }

  /** A child list without `c`. */
  function RemoveValue(cs: seq<nat>, c: nat): seq<nat>
  {
    Filter(cs, IsNot(c))
  }

  /** An attribute list without the attribute called `name`. */
  function RemoveNamed(attrs: seq<Attr>, name: string): seq<Attr>
  {
    Filter(attrs, NameIsNot(name))
  }

  /** `c.parentNode.removeChild(c)`: unlink `c` from its parent.  Its own
   *  subtree stays attached to it. */
  function Detach(a: Arena, c: nat): (r: Arena)
    requires WellFormed(a) && c < |a.parent| && a.parent[c].Some?
    ensures r.names == a.names && r.attrs == a.attrs
    ensures |r.parent| == |a.parent| && r.parent[c] == None
    ensures forall i :: 0 <= i < |a.parent| && i != c ==> r.parent[i] == a.parent[i]
    ensures |r.children| == |a.children|
    ensures forall x :: x in r.children[a.parent[c].value] <==> x in a.children[a.parent[c].value] && x != c
    ensures forall q :: 0 <= q < |a.children| && q != a.parent[c].value ==> r.children[q] == a.children[q]
  {
    var p := a.parent[c].value;
    a.(parent := a.parent[c := None], children := a.children[p := RemoveValue(a.children[p], c)])
  }

  /** `el.removeAttribute(name)`. */
  function WithoutAttribute(a: Arena, el: nat, name: string): (r: Arena)
    requires el < |a.attrs|
    ensures r.names == a.names && r.parent == a.parent && r.children == a.children
    ensures |r.attrs| == |a.attrs|
    ensures forall i :: 0 <= i < |a.attrs| && i != el ==> r.attrs[i] == a.attrs[i]
    ensures forall x :: x in r.attrs[el] <==> x in a.attrs[el] && x.name != name
  {
    a.(attrs := a.attrs[el := RemoveNamed(a.attrs[el], name)])
  }

  /** Filtering an attribute list keeps its names unique. */
  lemma {:induction false} FilterKeepsNamesUnique(attrs: seq<Attr>, keep: Attr -> bool)
    requires UniqueNames(attrs)
    ensures UniqueNames(Filter(attrs, keep))
    decreases |attrs|
  {
    if attrs != [] {
      var t := attrs[1..];
      assert UniqueNames(t) by {
        forall i, j | 0 <= i < j < |t| ensures t[i].name != t[j].name {
          assert t[i] == attrs[i + 1] && t[j] == attrs[j + 1];
        }
      }
      FilterKeepsNamesUnique(t, keep);
      var r := Filter(t, keep);
      forall x | x in r ensures x.name != attrs[0].name {
        var k :| 0 <= k < |t| && t[k] == x;
        assert attrs[k + 1] == x;
      }
    }
  }

  /** Removing a name no attribute of the list carries changes nothing. */
  lemma RemoveAbsentName(attrs: seq<Attr>, name: string)
    requires forall x :: x in attrs ==> x.name != name
    ensures RemoveNamed(attrs, name) == attrs
  {
    FilterKeepsAll(attrs, NameIsNot(name));
  }

  /** Filtering one more attribute of a list with unique names: keeping it
   *  leaves the list as it is, and dropping it is removing its name. */
  lemma FilterStep(attrs: seq<Attr>, j: nat, keep: Attr -> bool)
    requires UniqueNames(attrs) && j < |attrs|
    ensures Filter(attrs[..j + 1], keep) + attrs[j + 1..] ==
              if keep(attrs[j]) then Filter(attrs[..j], keep) + attrs[j..]
              else RemoveNamed(Filter(attrs[..j], keep) + attrs[j..], attrs[j].name)
  {
    var kept := Filter(attrs[..j], keep);
    FilterOneMore(attrs, j, keep);
    assert attrs[j..] == [attrs[j]] + attrs[j + 1..];
    if keep(attrs[j]) {
      assert Filter(attrs[..j + 1], keep) == kept + [attrs[j]];
      assert kept + [attrs[j]] + attrs[j + 1..] == kept + ([attrs[j]] + attrs[j + 1..]);
    } else {
      assert Filter(attrs[..j + 1], keep) == kept by {
        assert kept + [] == kept;
      }
      DropNamed(attrs, j, kept, keep);
    }
  }

  /** Filtering a prefix one element longer. */
  lemma FilterOneMore(attrs: seq<Attr>, j: nat, keep: Attr -> bool)
    requires j < |attrs|
    ensures Filter(attrs[..j + 1], keep) == Filter(attrs[..j], keep) + (if keep(attrs[j]) then [attrs[j]] else [])
  {
    assert attrs[..j + 1] == attrs[..j] + [attrs[j]];
    FilterAppend(attrs[..j], [attrs[j]], keep);
    assert [attrs[j]][1..] == [];
  }

  /** In a list with unique names, the name at `j` occurs nowhere else. */
  lemma NameOnlyAt(attrs: seq<Attr>, j: nat)
    requires UniqueNames(attrs) && j < |attrs|
    ensures forall x :: x in attrs[..j] ==> x.name != attrs[j].name
    ensures forall x :: x in attrs[j + 1..] ==> x.name != attrs[j].name
  {
    forall x | x in attrs[..j] ensures x.name != attrs[j].name {
      var k :| 0 <= k < j && attrs[..j][k] == x;
    }
    forall x | x in attrs[j + 1..] ensures x.name != attrs[j].name {
      var k :| 0 <= k < |attrs| - j - 1 && attrs[j + 1..][k] == x;
      assert attrs[j + 1 + k] == x;
    }
  }

  lemma DropNamed(attrs: seq<Attr>, j: nat, kept: seq<Attr>, keep: Attr -> bool)
    requires UniqueNames(attrs) && j < |attrs| && kept == Filter(attrs[..j], keep)
    ensures RemoveNamed(kept + attrs[j..], attrs[j].name) == kept + attrs[j + 1..]
  {
    var n := attrs[j].name;
    var rest := attrs[j + 1..];
    NameOnlyAt(attrs, j);
    assert attrs[j..] == [attrs[j]] + rest;
    calc {
      RemoveNamed(kept + attrs[j..], n);
      Filter(kept + ([attrs[j]] + rest), NameIsNot(n));
      { FilterAppend(kept, [attrs[j]] + rest, NameIsNot(n)); }
      Filter(kept, NameIsNot(n)) + Filter([attrs[j]] + rest, NameIsNot(n));
      { RemoveAbsentName(kept, n); FilterAppend([attrs[j]], rest, NameIsNot(n)); }
      kept + (Filter([attrs[j]], NameIsNot(n)) + Filter(rest, NameIsNot(n)));
      { RemoveAbsentName(rest, n); }
      kept + ([] + rest);
    }
    assert [] + rest == rest;
  }

  /** Detaching keeps the arena well formed. */
  lemma DetachWellFormed(a: Arena, c: nat)
    requires WellFormed(a) && c < |a.parent| && a.parent[c].Some?
    ensures WellFormed(Detach(a, c))
  {
    var b := Detach(a, c);
    var p := a.parent[c].value;
    forall q | 0 <= q < |b.children|
      ensures forall x :: x in b.children[q] ==> x < |b.parent| && b.parent[x] == Some(q)
    {
      forall x | x in b.children[q] ensures x < |b.parent| && b.parent[x] == Some(q) {
        assert x in a.children[q];
      }
    }
  }

  /** Removing an attribute keeps the arena well formed. */
  lemma WithoutAttributeWellFormed(a: Arena, el: nat, name: string)
    requires WellFormed(a) && el < |a.attrs|
    ensures WellFormed(WithoutAttribute(a, el, name))
  {
    FilterKeepsNamesUnique(a.attrs[el], NameIsNot(name));
  }

  /** Detaching `c` removes from the document exactly `c` and what lies below
   *  it: nothing of the subtree stays reachable, and nothing else is lost. */
  lemma {:induction false} DetachCutsSubtree(a: Arena, c: nat, i: nat)
    requires WellFormed(a) && c < |a.parent| && a.parent[c].Some?
    ensures InBody(Detach(a, c).parent, i) <==> InBody(a.parent, i) && !Descends(a.parent, i, c)
    decreases i
  {
    if i != Body && i != c && i < |a.parent| && a.parent[i].Some? {
      DetachCutsSubtree(a, c, a.parent[i].value);
    }
  }

  /** The document the sanitizer works on.  The parser hands it over whole;
   *  the sanitizer only unlinks elements and removes attributes. */
  class Document {
    const names: seq<string>
    var attributes: seq<seq<Attr>>
    var parents: seq<Option<nat>>
    var children: seq<seq<nat>>

    function State(): Arena
      reads this
    {
      Arena(names, attributes, parents, children)
    }

    predicate Valid()
      reads this
    {
      WellFormed(State())
    }

    constructor (a: Arena)
      requires WellFormed(a)
      ensures Valid() && State() == a
    {
      names, attributes, parents, children := a.names, a.attrs, a.parent, a.children;
    }

    /** `parentNode.removeChild(child)` on the parent `p`; the DOM throws
     *  unless `child` is a child of `p`. */
    method RemoveChild(p: nat, child: nat)
      requires Valid() && child < |parents| && parents[child] == Some(p)
      modifies this
      ensures Valid() && State() == Detach(old(State()), child)
    {
      DetachWellFormed(State(), child);
      children := children[p := RemoveValue(children[p], child)];
      parents := parents[child := None];
    }

    /** `el.removeAttribute(name)`. */
    method RemoveAttribute(el: nat, name: string)
      requires Valid() && el < |attributes|
      modifies this
      ensures Valid() && State() == WithoutAttribute(old(State()), el, name)
      ensures attributes == old(attributes)[el := RemoveNamed(old(attributes)[el], name)]
      ensures parents == old(parents) && children == old(children)
    {
      WithoutAttributeWellFormed(State(), el, name);
      attributes := attributes[el := RemoveNamed(attributes[el], name)];
    }
  }
}
