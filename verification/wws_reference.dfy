/**
 * Reference construction: the `<ref><wd:ID wd:type="...">value</wd:ID></ref>` element that
 * is handed to the typed-element conversion.
 */
module WwsReference {
  import opened Wrappers
  import opened XmlTree
  import opened WwsDefaults

  /** The `wd:ID` element at the heart of every reference. */
  function Id(attributes: seq<Attribute>, value: string): Element {
    Element(Wd("ID"), attributes, [], value)
  }

  /**
   * `WwsReference<T>.From(idType, value)`: an un-namespaced `ref` whose only child is a
   * `wd:ID` carrying `wd:type = idType` and the text `value`. Any strings are accepted.
   */
  function From(idType: string, value: string): (r: Element)
    ensures r.name == Local("ref") && r.attributes == [] && r.text == "" && |r.children| == 1
    ensures El(r, Wd("ID")) == Some(r.children[0])
    ensures Attr(r.children[0], Wd("type")) == Success(idType)
    ensures Value(r.children[0]) == value
  {
    Node(Local("ref"), [Id([Attribute(Wd("type"), idType)], value)])
  }

  /**
   * `WwsReference<T>.From(parentType, parentValue, idType, value)`: the same reference with
   * `wd:parent_type` and `wd:parent_id` set on the `wd:ID` element as well.
   */
  function FromParent(parentType: string, parentValue: string, idType: string, value: string): (r: Element)
    ensures r.name == Local("ref") && r.attributes == [] && r.text == "" && |r.children| == 1
    ensures El(r, Wd("ID")) == Some(r.children[0])
    ensures Attr(r.children[0], Wd("parent_type")) == Success(parentType)
    ensures Attr(r.children[0], Wd("parent_id")) == Success(parentValue)
    ensures Attr(r.children[0], Wd("type")) == Success(idType)
    ensures Value(r.children[0]) == value
  {
    var attributes := [Attribute(Wd("parent_type"), parentType),
                       Attribute(Wd("parent_id"), parentValue),
                       Attribute(Wd("type"), idType)];
    assert AttributeValue(attributes[2..], Wd("type")) == Some(idType);
    assert AttributeValue(attributes[1..], Wd("type")) == Some(idType);
    assert AttributeValue(attributes[1..], Wd("parent_id")) == Some(parentValue);
    Node(Local("ref"), [Id(attributes, value)])
  }

  /** The two forms differ only in the two parent attributes placed before `wd:type`. */
  lemma FromParentExtendsFrom(parentType: string, parentValue: string, idType: string, value: string)
    ensures var plain := From(idType, value);
            var id := plain.children[0];
            FromParent(parentType, parentValue, idType, value)
              == plain.(children := [id.(attributes := [Attribute(Wd("parent_type"), parentType),
                                                        Attribute(Wd("parent_id"), parentValue)] + id.attributes)])
  {
    var id := From(idType, value).children[0];
    assert [Attribute(Wd("parent_type"), parentType), Attribute(Wd("parent_id"), parentValue)] + id.attributes
        == FromParent(parentType, parentValue, idType, value).children[0].attributes;
  }
}
