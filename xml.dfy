/** A parsed XML element tree and the three queries the feed parser asks of it:
    "is this element <name> in namespace <ns>", "first child element with a given
    name and namespace", and "value of an attribute". These stand for the element
    API of the XML library the bridge uses; parsing text into a tree is not modelled. */
module Xml {

  datatype Option<+T> = None | Some(value: T)

  /** One element: its local name, its resolved namespace URI, its attributes, its
      element children in document order, and its text (the concatenation of the
      text nodes directly inside it). */
  datatype Element = Element(
    name: string,
    ns: string,
    attrs: map<string, string>,
    children: seq<Element>,
    text: string)

  /** The element's local name is `n` and its namespace is `namespace`. */
  predicate Is(e: Element, n: string, namespace: string)
  {
    e.name == n && e.ns == namespace
  }

  /** `k` is the position of the first element of `cs` that is `n` in `namespace`. */
  predicate IsFirstMatch(cs: seq<Element>, k: int, n: string, namespace: string)
  {
    && 0 <= k < |cs|
    && Is(cs[k], n, namespace)
    && forall j :: 0 <= j < k ==> !Is(cs[j], n, namespace)
  }

  /** The first element of `cs`, in document order, that is `n` in `namespace`. */
  function FirstMatching(cs: seq<Element>, n: string, namespace: string): (r: Option<Element>)
    ensures r.None? <==> forall j :: 0 <= j < |cs| ==> !Is(cs[j], n, namespace)
    ensures r.Some? ==> exists k :: IsFirstMatch(cs, k, n, namespace) && cs[k] == r.value
  {
    if cs == [] then None
    else if Is(cs[0], n, namespace) then
      assert IsFirstMatch(cs, 0, n, namespace);
      Some(cs[0])
    else
      var r := FirstMatching(cs[1..], n, namespace);
      assert forall j :: 1 <= j < |cs| ==> cs[j] == cs[1..][j - 1];
      assert r.Some? ==> exists k :: IsFirstMatch(cs[1..], k, n, namespace) && cs[1..][k] == r.value;
      assert forall k :: IsFirstMatch(cs[1..], k, n, namespace) ==> IsFirstMatch(cs, k + 1, n, namespace);
      r
  }

  /** The first child element of `e` that is `n` in `namespace`, if any. */
  function GetChild(e: Element, n: string, namespace: string): (r: Option<Element>)
    ensures r.None? <==> forall j :: 0 <= j < |e.children| ==> !Is(e.children[j], n, namespace)
    ensures r.Some? ==> exists k :: IsFirstMatch(e.children, k, n, namespace) && e.children[k] == r.value
  {
    FirstMatching(e.children, n, namespace)
  }

  /** The value of attribute `key` of `e`, if present. */
  function Attr(e: Element, key: string): (r: Option<string>)
    ensures r.Some? <==> key in e.attrs
    ensures r.Some? ==> r.value == e.attrs[key]
  {
    if key in e.attrs then Some(e.attrs[key]) else None
  }
}
