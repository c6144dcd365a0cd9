/**
 * The parsed XML that the validators consume, as `xml.etree.ElementTree` presents it:
 * a tree of elements whose tags carry their namespace as a `{uri}` prefix, the
 * attribute lookup `get`, the document-order traversal `iter`, and the two `findall`
 * paths the validators use. Parsing itself is an input: a document is either the
 * parser's failure message or the root element.
 */
module Xml {
  import opened Wrappers

  datatype Element = Element(tag: string, attrs: map<string, string>, children: seq<Element>)

  datatype Document = Malformed(detail: string) | WellFormed(root: Element)

  /** `element.get(name)`. */
  function Get(e: Element, name: string): Option<string> {
    if name in e.attrs then Some(e.attrs[name]) else None
  }

  /** Python's `not value` on what `get` returned: the attribute is absent or empty. */
  predicate Blank(v: Option<string>) {
    v.None? || v.value == ""
  }

  /** `element.iter()`: the element and then all its descendants, in document order. */
  function Iter(e: Element): (r: seq<Element>)
    ensures r != [] && r[0] == e
    decreases e
  {
    [e] + IterFrom(e.children, 0)
  }

  /** The traversals of `es[i..]`, one after the other. */
  function IterFrom(es: seq<Element>, i: nat): seq<Element>
    requires i <= |es|
    decreases es, |es| - i
  {
    if i == |es| then [] else Iter(es[i]) + IterFrom(es, i + 1)
  }

  /** The elements of `es` whose tag is `tag`, in their order. */
  function WithTag(es: seq<Element>, tag: string): (r: seq<Element>)
    ensures |r| <= |es|
    ensures forall x :: x in r <==> x in es && x.tag == tag
  {
    if es == [] then []
    else (if es[0].tag == tag then [es[0]] else []) + WithTag(es[1..], tag)
  }

  /** Filtering a concatenation filters each part in turn, so the kept elements stay in their order. */
  lemma {:induction false} WithTagAppend(a: seq<Element>, b: seq<Element>, tag: string)
    ensures WithTag(a + b, tag) == WithTag(a, tag) + WithTag(b, tag)
  {
    if a == [] {
      assert a + b == b;
    } else {
      assert (a + b)[1..] == a[1..] + b;
      WithTagAppend(a[1..], b, tag);
    }
  }

  /** Every element with the tag is kept as often as it occurs, and no other element is kept. */
  lemma {:induction false} WithTagCount(es: seq<Element>, tag: string, x: Element)
    ensures multiset(WithTag(es, tag))[x] == if x.tag == tag then multiset(es)[x] else 0
  {
    if es != [] {
      var head: seq<Element> := if es[0].tag == tag then [es[0]] else [];
      WithTagCount(es[1..], tag, x);
      assert WithTag(es, tag) == head + WithTag(es[1..], tag);
      assert multiset(WithTag(es, tag)) == multiset(head) + multiset(WithTag(es[1..], tag));
      assert es == [es[0]] + es[1..];
      assert multiset(es) == multiset([es[0]]) + multiset(es[1..]);
    }
  }

  /** `element.findall(tag)`: the children with that tag, in their order. */
  function FindAll(e: Element, tag: string): (r: seq<Element>)
    ensures |r| <= |e.children|
    ensures forall x :: x in r <==> x in e.children && x.tag == tag
  {
    WithTag(e.children, tag)
  }

  /**
   * `element.findall(".//" + tag)`: every element below `e` with that tag, in document
   * order; these are the matches of `iter()` except `e` itself.
   */
  function FindAllBelow(e: Element, tag: string): (r: seq<Element>)
    ensures (if e.tag == tag then [e] else []) + r == WithTag(Iter(e), tag)
  {
    var below := IterFrom(e.children, 0);
    assert ([e] + below)[1..] == below;
    WithTag(below, tag)
  }

  /** The non-empty values that attribute `name` takes among `es`. */
  function PresentValues(es: seq<Element>, name: string): (r: set<string>)
    ensures forall v :: v in r <==> v != "" && exists i :: 0 <= i < |es| && Get(es[i], name) == Some(v)
  {
    if es == [] then {}
    else
      var init := es[..|es| - 1];
      var last := Get(es[|es| - 1], name);
      assert forall i :: 0 <= i < |init| ==> init[i] == es[i];
      PresentValues(init, name) + (if Blank(last) then {} else {last.value})
  }

  /** Extending the prefix by one element adds that element's value, if present. */
  lemma PresentValuesSnoc(es: seq<Element>, i: nat, name: string)
    requires i < |es|
    ensures PresentValues(es[..i + 1], name)
      == PresentValues(es[..i], name) + (if Blank(Get(es[i], name)) then {} else {Get(es[i], name).value})
  {
    assert es[..i + 1][..i] == es[..i];
  }

  /** How many of `es` have attribute `name` equal to `v`. */
  function Occurrences(es: seq<Element>, name: string, v: string): nat {
    if es == [] then 0
    else Occurrences(es[..|es| - 1], name, v) + (if Get(es[|es| - 1], name) == Some(v) then 1 else 0)
  }

  /** A non-empty value has been seen exactly when it occurs at least once. */
  lemma {:induction false} SeenIffOccurs(es: seq<Element>, name: string, v: string)
    requires v != ""
    ensures v in PresentValues(es, name) <==> Occurrences(es, name, v) > 0
  {
    if es != [] {
      var init := es[..|es| - 1];
      SeenIffOccurs(init, name, v);
      assert v in PresentValues(init, name) <==> v != "" && exists i :: 0 <= i < |init| && Get(init[i], name) == Some(v);
      if Get(es[|es| - 1], name) != Some(v) && Occurrences(init, name, v) == 0 {
        forall i | 0 <= i < |es| ensures Get(es[i], name) != Some(v) {
          if i < |init| {
            assert init[i] == es[i];
          }
        }
      }
    }
  }
}
