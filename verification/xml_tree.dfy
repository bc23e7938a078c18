/**
 * An abstract LINQ-to-XML tree and the lookups both halves of the client rely on:
 * `Element(name)`, `Elements(name)`, `Descendants(name)`, `Attribute(name)`, `Value`,
 * and LINQ's `Single` / `SingleOrDefault` applied with an attribute-equality predicate.
 */
module XmlTree {
  import opened Wrappers

  /** An `XName`: a namespace URI ("" for none) and a local name. */
  datatype Name = Name(ns: string, local: string)

  datatype Attribute = Attribute(name: Name, value: string)

  /**
   * An `XElement`. Only element children are kept; `text` is the element's own text
   * content, "" when it has none.
   */
  datatype Element = Element(name: Name, attributes: seq<Attribute>, children: seq<Element>, text: string)

  /**
   * What a failed lookup throws. `MissingElement` and `MissingAttribute` stand for the
   * NullReferenceException raised when a lookup returned null and was dereferenced;
   * `NoMatch` and `MoreThanOneMatch` for the InvalidOperationException of `Single`.
   */
  datatype XmlError =
    | MissingElement(missing: Name)
    | MissingAttribute(absent: Name)
    | NoMatch
    | MoreThanOneMatch

  /** A name in no namespace, such as the attribute `name`. */
  function Local(local: string): Name {
    Name("", local)
  }

  /** `new XElement(name, text)` */
  function Leaf(name: Name, text: string): Element {
    Element(name, [], [], text)
  }

  /** `new XElement(name, child1, child2, ...)` */
  function Node(name: Name, children: seq<Element>): Element {
    Element(name, [], children, "")
  }

  // ---------------------------------------------------------------------------
  // Attributes

  /** `element.Attribute(name)?.Value`: the value of the first attribute with that name. */
  function AttributeValue(attributes: seq<Attribute>, n: Name): (r: Option<string>)
    ensures r.Some? ==> Attribute(n, r.value) in attributes
  {
    if attributes == [] then None
    else if attributes[0].name == n then Some(attributes[0].value)
    else AttributeValue(attributes[1..], n)
  }

  /** The lookup finds nothing exactly when no attribute has the name, else the first one's value. */
  lemma {:induction false} AttributeValueSpec(attributes: seq<Attribute>, n: Name)
    ensures AttributeValue(attributes, n).None? <==> forall a :: a in attributes ==> a.name != n
    ensures AttributeValue(attributes, n).Some? ==>
              exists k :: 0 <= k < |attributes| && attributes[k] == Attribute(n, AttributeValue(attributes, n).value)
                          && forall j :: 0 <= j < k ==> attributes[j].name != n
  {
    if attributes != [] && attributes[0].name != n {
      var rest := attributes[1..];
      AttributeValueSpec(rest, n);
      assert forall a :: a in attributes ==> a == attributes[0] || a in rest;
      if AttributeValue(rest, n).Some? {
        var k :| 0 <= k < |rest| && rest[k] == Attribute(n, AttributeValue(rest, n).value)
                 && forall j :: 0 <= j < k ==> rest[j].name != n;
        assert attributes[k + 1] == rest[k];
      }
    }
  }

  /** `Attr(element, name)` = `element.Attribute(name).Value`: throws when the attribute is absent. */
  function Attr(e: Element, n: Name): (r: Result<string, XmlError>)
    ensures r.Failure? ==> r.error == MissingAttribute(n)
    ensures r.Success? ==> Attribute(n, r.value) in e.attributes
  {
    match AttributeValue(e.attributes, n)
    case None => Failure(MissingAttribute(n))
    case Some(v) => Success(v)
  }

  /**
   * `Attr` fails exactly when the element has no attribute of that name, and otherwise
   * returns the value of the first one.
   */
  lemma AttrSpec(e: Element, n: Name)
    ensures Attr(e, n).Failure? <==> forall a :: a in e.attributes ==> a.name != n
    ensures Attr(e, n).Success? ==>
              exists k :: 0 <= k < |e.attributes| && e.attributes[k] == Attribute(n, Attr(e, n).value)
                          && forall j :: 0 <= j < k ==> e.attributes[j].name != n
  {
    AttributeValueSpec(e.attributes, n);
  }

  // ---------------------------------------------------------------------------
  // Children

  /** The elements of `es` named `n`, in order (`container.Elements(name)`). */
  function Named(es: seq<Element>, n: Name): (r: seq<Element>)
    ensures |r| <= |es|
    ensures forall i :: 0 <= i < |r| ==> r[i].name == n
  {
    if es == [] then []
    else if es[0].name == n then [es[0]] + Named(es[1..], n)
    else Named(es[1..], n)
  }

  /** `Named` keeps exactly the elements of `es` that have the name. */
  lemma {:induction false} NamedSpec(es: seq<Element>, n: Name)
    ensures forall x :: x in Named(es, n) <==> x in es && x.name == n
  {
    if es != [] {
      NamedSpec(es[1..], n);
      assert forall x :: x in es <==> x == es[0] || x in es[1..];
    }
  }

  /** When every element has the name, `Named` keeps them all. */
  lemma {:induction false} NamedAll(es: seq<Element>, n: Name)
    requires forall i :: 0 <= i < |es| ==> es[i].name == n
    ensures Named(es, n) == es
  {
    if es != [] {
      NamedAll(es[1..], n);
    }
  }

  /** `container.Elements(name)` */
  function Elements(e: Element, n: Name): (r: seq<Element>)
    ensures |r| <= |e.children|
    ensures forall i :: 0 <= i < |r| ==> r[i].name == n
  {
    Named(e.children, n)
  }

  /** The first element of `es` named `n`, scanning from the front. */
  function FirstNamed(es: seq<Element>, n: Name): (r: Option<Element>)
    ensures r.None? <==> Named(es, n) == []
    ensures r.Some? ==> r.value == Named(es, n)[0]
  {
    if es == [] then None
    else if es[0].name == n then Some(es[0])
    else FirstNamed(es[1..], n)
  }

  /**
   * `El(container, name)` = `container.Element(name)`: the first child with that name,
   * or null.
   */
  function El(e: Element, n: Name): (r: Option<Element>)
    ensures r.None? <==> Elements(e, n) == []
    ensures r.Some? ==> r.value == Elements(e, n)[0]
  {
    FirstNamed(e.children, n)
  }

  /** `El` finds nothing exactly when no child has the name; otherwise it finds a child with it. */
  lemma ElSpec(e: Element, n: Name)
    ensures El(e, n).None? <==> forall c :: c in e.children ==> c.name != n
    ensures El(e, n).Some? ==> El(e, n).value in e.children && El(e, n).value.name == n
  {
    NamedSpec(e.children, n);
    if El(e, n).Some? {
      assert El(e, n).value in Elements(e, n);
    }
  }

  /** Dereferencing the result of `El`: null becomes a NullReferenceException. */
  function Required(e: Option<Element>, n: Name): (r: Result<Element, XmlError>)
    ensures r.Success? <==> e.Some?
    ensures e.Some? ==> r.value == e.value
    ensures e.None? ==> r.error == MissingElement(n)
  {
    if e.None? then Failure(MissingElement(n)) else Success(e.value)
  }

  // ---------------------------------------------------------------------------
  // Descendants and text

  /** `e` followed by all of its descendants, in document (pre-)order. */
  function Subtree(e: Element): (r: seq<Element>)
    decreases e
    ensures |r| >= 1 && r[0] == e
  {
    [e] + Forest(e.children)
  }

  /** The subtrees of `es`, one after another, in document order. */
  function Forest(es: seq<Element>): (r: seq<Element>)
    decreases es
  {
    if es == [] then [] else Subtree(es[0]) + Forest(es[1..])
  }

  /**
   * `document.Descendants(name)`: every element of the document named `n`, the root
   * included, in document order.
   */
  function Descendants(root: Element, n: Name): (r: seq<Element>)
    ensures forall i :: 0 <= i < |r| ==> r[i].name == n
    ensures root.name == n ==> |r| >= 1 && r[0] == root
  {
    Named(Subtree(root), n)
  }

  /** Every element of a forest heads its own subtree, so it is listed in the forest's walk. */
  lemma {:induction false} ForestContains(es: seq<Element>)
    ensures forall i :: 0 <= i < |es| ==> es[i] in Forest(es)
  {
    if es != [] {
      ForestContains(es[1..]);
      assert forall i :: 1 <= i < |es| ==> es[i] == es[1..][i - 1];
    }
  }

  /**
   * `Descendants(name)` lists exactly the walk's elements that have the name, and a child
   * of the root that has the name is among them.
   */
  lemma DescendantsSpec(root: Element, n: Name)
    ensures forall x :: x in Descendants(root, n) <==> x in Subtree(root) && x.name == n
    ensures forall c :: c in root.children && c.name == n ==> c in Descendants(root, n)
  {
    NamedSpec(Subtree(root), n);
    ForestContains(root.children);
    assert forall x :: x in Forest(root.children) ==> x in Subtree(root);
  }

  /** `XElement.Value`: the element's own text followed by the values of its children. */
  function Value(e: Element): (r: string)
    decreases e
    ensures e.children == [] ==> r == e.text
    ensures |e.text| <= |r| && r[..|e.text|] == e.text
  {
    e.text + ForestValue(e.children)
  }

  function ForestValue(es: seq<Element>): string
    decreases es
  {
    if es == [] then "" else Value(es[0]) + ForestValue(es[1..])
  }

  // ---------------------------------------------------------------------------
  // LINQ's Single / SingleOrDefault with the predicate `x => x.Attr(key) == value`

  /** The elements whose `key` attribute equals `value`, in order. */
  function Matching(xs: seq<Element>, key: Name, value: string): (r: seq<Element>)
    ensures |r| <= |xs|
  {
    if xs == [] then []
    else if AttributeValue(xs[0].attributes, key) == Some(value) then [xs[0]] + Matching(xs[1..], key, value)
    else Matching(xs[1..], key, value)
  }

  /** Every element carries a `key` attribute, so evaluating the predicate cannot throw. */
  predicate AllHave(xs: seq<Element>, key: Name) {
    forall x :: x in xs ==> AttributeValue(x.attributes, key).Some?
  }

  /**
   * The scan behind `Single` and `SingleOrDefault`: evaluate the predicate on each element
   * in turn; `found` is the match already seen. A second match throws at once; a missing
   * `key` attribute throws when that element is reached.
   */
  function ScanSingle(xs: seq<Element>, key: Name, value: string, found: Option<Element>)
    : (r: Result<Option<Element>, XmlError>)
    decreases |xs|
    ensures r.Success? && r.value.Some? && r.value != found ==>
              r.value.value in xs && AttributeValue(r.value.value.attributes, key) == Some(value)
    ensures found.Some? && r.Success? ==> r.value == found
  {
    if xs == [] then Success(found)
    else
      var v :- Attr(xs[0], key);
      if v != value then ScanSingle(xs[1..], key, value, found)
      else if found.Some? then Failure(MoreThanOneMatch)
      else ScanSingle(xs[1..], key, value, Some(xs[0]))
  }

  /** `xs.Single(x => x.Attr(key) == value)` */
  function Single(xs: seq<Element>, key: Name, value: string): (r: Result<Element, XmlError>)
    ensures r.Success? ==> r.value in xs && AttributeValue(r.value.attributes, key) == Some(value)
  {
    var found :- ScanSingle(xs, key, value, None);
    if found.None? then Failure(NoMatch) else Success(found.value)
  }

  /** `xs.SingleOrDefault(x => x.Attr(key) == value)` */
  function SingleOrDefault(xs: seq<Element>, key: Name, value: string): (r: Result<Option<Element>, XmlError>)
    ensures r.Success? && r.value.Some? ==>
              r.value.value in xs && AttributeValue(r.value.value.attributes, key) == Some(value)
  {
    ScanSingle(xs, key, value, None)
  }

  /** What the scan yields when no element lacks the `key` attribute. */
  function ScanOutcome(m: seq<Element>, found: Option<Element>): Result<Option<Element>, XmlError> {
    if found.Some? then (if m == [] then Success(found) else Failure(MoreThanOneMatch))
    else if m == [] then Success(None)
    else if |m| == 1 then Success(Some(m[0]))
    else Failure(MoreThanOneMatch)
  }

  lemma {:induction false} ScanSingleCounts(xs: seq<Element>, key: Name, value: string, found: Option<Element>)
    requires AllHave(xs, key)
    ensures ScanSingle(xs, key, value, found) == ScanOutcome(Matching(xs, key, value), found)
  {
    if xs != [] {
      assert AllHave(xs[1..], key) by {
        forall x | x in xs[1..] ensures AttributeValue(x.attributes, key).Some? {
          assert x in xs;
        }
      }
      assert xs[0] in xs;
      var v := AttributeValue(xs[0].attributes, key).value;
      if v != value {
        ScanSingleCounts(xs[1..], key, value, found);
      } else if found.None? {
        ScanSingleCounts(xs[1..], key, value, Some(xs[0]));
      }
    }
  }

  /**
   * `Single` succeeds exactly when one element matches, and returns it; no match and two
   * or more matches are failures. Every element must have the `key` attribute, or the
   * predicate itself throws.
   */
  lemma SingleSpec(xs: seq<Element>, key: Name, value: string)
    requires AllHave(xs, key)
    ensures var m := Matching(xs, key, value);
            && (Single(xs, key, value).Success? <==> |m| == 1)
            && (|m| == 1 ==> Single(xs, key, value) == Success(m[0]))
            && (|m| == 0 ==> Single(xs, key, value) == Failure(NoMatch))
            && (|m| >= 2 ==> Single(xs, key, value) == Failure(MoreThanOneMatch))
  {
    ScanSingleCounts(xs, key, value, None);
  }

  /**
   * `SingleOrDefault` yields null when nothing matches, the match when one does, and
   * fails on two or more.
   */
  lemma SingleOrDefaultSpec(xs: seq<Element>, key: Name, value: string)
    requires AllHave(xs, key)
    ensures var m := Matching(xs, key, value);
            && (|m| == 0 ==> SingleOrDefault(xs, key, value) == Success(None))
            && (|m| == 1 ==> SingleOrDefault(xs, key, value) == Success(Some(m[0])))
            && (|m| >= 2 ==> SingleOrDefault(xs, key, value) == Failure(MoreThanOneMatch))
  {
    ScanSingleCounts(xs, key, value, None);
  }

  // ---------------------------------------------------------------------------
  // Integer content: `new XElement(name, n)` stores XmlConvert.ToString(n)

  function DigitChar(d: nat): (c: char)
    requires d < 10
    ensures '0' <= c <= '9'
  {
    (d + '0' as int) as char
  }

  function DigitValue(c: char): nat {
    if '0' <= c <= '9' then c as int - '0' as int else 0
  }

  /** The decimal digits of `n`, most significant first. */
  function NatText(n: nat): (s: string)
    ensures |s| >= 1 && forall i :: 0 <= i < |s| ==> '0' <= s[i] <= '9'
  {
    if n < 10 then [DigitChar(n)] else NatText(n / 10) + [DigitChar(n % 10)]
  }

  /** The invariant-culture text of an integer: an optional '-' and its decimal digits. */
  function IntText(n: int): (r: string)
    ensures |r| >= 1 && (r[0] == '-' <==> n < 0)
  {
    if n < 0 then "-" + NatText(-n) else NatText(n)
  }

  function ParseNat(s: string): nat {
    if s == [] then 0 else ParseNat(s[..|s| - 1]) * 10 + DigitValue(s[|s| - 1])
  }

  /** Reads back the integer text of an element. */
  function ParseInt(s: string): int {
    if |s| > 0 && s[0] == '-' then -(ParseNat(s[1..]) as int) else ParseNat(s)
  }

  lemma {:induction false} NatTextRoundTrip(n: nat)
    ensures ParseNat(NatText(n)) == n
  {
    if n >= 10 {
      NatTextRoundTrip(n / 10);
      var s := NatText(n);
      assert s[..|s| - 1] == NatText(n / 10);
    }
  }

  /** Integer element content reads back as the integer it was built from. */
  lemma IntTextRoundTrip(n: int)
    ensures ParseInt(IntText(n)) == n
  {
    if n < 0 {
      NatTextRoundTrip(-n);
      assert IntText(n)[1..] == NatText(-n);
    } else {
      NatTextRoundTrip(n);
    }
  }
}
