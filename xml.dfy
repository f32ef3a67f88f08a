/** Option and the first-match search that every LINQ `FirstOrDefault` of the model goes through. */
module Wrappers {

  datatype Option<+T> = None | Some(value: T) {
    function GetOr(default: T): T {
      match this
      case Some(v) => v
      case None => default
    }
  }

  /** Index of the first element of `s` satisfying `p`, in sequence order (`FirstOrDefault`). */
  function FirstIndex<T>(s: seq<T>, p: T -> bool): (r: Option<nat>)
    ensures r.Some? ==> r.value < |s| && p(s[r.value])
    ensures r.Some? ==> forall j | 0 <= j < r.value :: !p(s[j])
    ensures r.None? ==> forall j | 0 <= j < |s| :: !p(s[j])
  {
    if s == [] then None
    else if p(s[0]) then Some(0)
    else match FirstIndex(s[1..], p)
      case None => None
      case Some(k) => Some(k + 1)
  }

  /** The first match is determined by the contract of FirstIndex alone. */
  lemma FirstIndexIs<T>(s: seq<T>, p: T -> bool, i: nat)
    requires i < |s| && p(s[i])
    requires forall j | 0 <= j < i :: !p(s[j])
    ensures FirstIndex(s, p) == Some(i)
  {
  }
}

/** The part of the XML object model (System.Xml.Linq) that the project-file edits touch. */
module Xml {

  /** An expanded name: namespace URI ("" for no namespace) and local name, as `XName`. */
  datatype XName = XName(ns: string, local: string)

  datatype Attribute = Attribute(name: XName, value: string)

  /**
   * An element: its name, its attributes in order, its child elements in document
   * order and its text content. Mixed content is not represented: an element's value
   * is its `text`.
   */
  datatype Element = Element(name: XName, attrs: seq<Attribute>, children: seq<Element>, text: string)

  /** `new XElement(name, text)`. */
  function Leaf(name: XName, text: string): Element {
    Element(name, [], [], text)
  }

  /** `parent.Add(child)`: the child becomes the last child. */
  function AppendChild(parent: Element, child: Element): Element {
    parent.(children := parent.children + [child])
  }

  /** `element.Value` for an element whose content is a single text node. */
  function Value(e: Element): string {
    e.text
  }

  /** `element.SetValue(v)`: all content is replaced by the text `v`. */
  function SetValue(e: Element, v: string): Element {
    e.(children := [], text := v)
  }

  /** Number of elements in the tree rooted at `e`, `e` included. */
  function Size(e: Element): nat {
    1 + SizeAll(e.children)
  }

  function SizeAll(cs: seq<Element>): nat {
    if cs == [] then 0 else Size(cs[0]) + SizeAll(cs[1..])
  }

  lemma {:induction false} SizeAllConcat(a: seq<Element>, b: seq<Element>)
    ensures SizeAll(a + b) == SizeAll(a) + SizeAll(b)
  {
    if a == [] {
      assert a + b == b;
    } else {
      assert (a + b)[1..] == a[1..] + b;
      SizeAllConcat(a[1..], b);
    }
  }

  /** Replacing one element of a sequence changes its total size by the difference. */
  lemma SizeAllUpdate(cs: seq<Element>, i: nat, c: Element)
    requires i < |cs|
    ensures SizeAll(cs[i := c]) == SizeAll(cs) - Size(cs[i]) + Size(c)
  {
    assert cs == cs[..i] + [cs[i]] + cs[i + 1..];
    assert cs[i := c] == cs[..i] + [c] + cs[i + 1..];
    SizeAllConcat(cs[..i] + [cs[i]], cs[i + 1..]);
    SizeAllConcat(cs[..i], [cs[i]]);
    SizeAllConcat(cs[..i] + [c], cs[i + 1..]);
    SizeAllConcat(cs[..i], [c]);
  }
}
