/**
 * Request construction: a `wd:{Request}` element holding a `Response_Filter` (page and
 * count) and, when reference filtering is asked for, a `Request_References` block.
 */
module WwsRequest {
  import opened Wrappers
  import opened XmlTree
  import opened WwsDefaults
  import opened Errors

  /** Declared as the largest page size; nothing in the builder checks it. */
  const MaxItems: int := 999

  /**
   * The generated request type `TRequest`: its short name (the root element's local name),
   * its full name (used in messages), and the name of the list property of its
   * `Request_References` member when it has one (found by reflection in the runtime).
   */
  datatype RequestType = RequestType(name: string, fullName: string, referencesSlot: Option<string>)

  /** `wd:Response_Filter` with `wd:Page` and `wd:Count` holding the two integers as text. */
  function ResponseFilter(page: int, count: int): (r: Element)
    ensures r.name == Wd("Response_Filter") && |r.children| == 2
    ensures r.children[0].name == Wd("Page") && r.children[1].name == Wd("Count")
  {
    Node(Wd("Response_Filter"), [Leaf(Wd("Page"), IntText(page)), Leaf(Wd("Count"), IntText(count))])
  }

  /** One reference entry: `wd:{slot}` holding `wd:ID wd:type="{idType}"` with the value as text. */
  function ReferenceEntry(slot: string, idType: string, value: string): Element {
    Node(Wd(slot), [Element(Wd("ID"), [Attribute(Wd("type"), idType)], [], value)])
  }

  /** `wd:Request_References` with one entry per value, in the order given. */
  function RequestReferences(slot: string, idType: string, values: seq<string>): (r: Element)
    ensures r.name == Wd("Request_References") && |r.children| == |values|
  {
    Node(Wd("Request_References"), seq(|values|, i requires 0 <= i < |values| => ReferenceEntry(slot, idType, values[i])))
  }

  /** `referenceIdType != null && (referenceIdValues?.Any() ?? false)` */
  predicate FilterRequested(referenceIdType: Option<string>, referenceIdValues: Option<seq<string>>): (r: bool)
    ensures referenceIdType.None? || referenceIdValues.None? ==> !r
    ensures referenceIdValues == Some([]) ==> !r
  {
    referenceIdType.Some? && referenceIdValues.Some? && |referenceIdValues.value| > 0
  }

  const CannotAddReferences: string := "Cannot add request references to a WWS Request of type "

  /** What `WwsRequest.Create<TRequest>(page, count, referenceIdType, referenceIdValues)` produces. */
  function Request(t: RequestType, page: int, count: int,
                   referenceIdType: Option<string>, referenceIdValues: Option<seq<string>>): (r: Result<Element, Exception>)
    ensures r.Failure? <==> FilterRequested(referenceIdType, referenceIdValues) && t.referencesSlot.None?
    ensures r.Success? ==> && r.value.name == Wd(t.name) && 1 <= |r.value.children| <= 2
                           && r.value.children[0] == ResponseFilter(page, count)
  {
    var request := Node(Wd(t.name), [ResponseFilter(page, count)]);
    if !FilterRequested(referenceIdType, referenceIdValues) then Success(request)
    else if t.referencesSlot.None? then Failure(InvalidOperation(CannotAddReferences + t.fullName + "."))
    else
      var references := RequestReferences(t.referencesSlot.value, referenceIdType.value, referenceIdValues.value);
      Success(request.(children := request.children + [references]))
  }

  /**
   * The general overload: build the request with its response filter, then, when filtering
   * is requested, look up the list slot and add the references block to the request.
   */
  method Create(t: RequestType, page: int := 1, count: int := 100,
                referenceIdType: Option<string> := None, referenceIdValues: Option<seq<string>> := None)
    returns (r: Result<Element, Exception>)
    ensures r == Request(t, page, count, referenceIdType, referenceIdValues)
  {
    var request := Node(Wd(t.name), [ResponseFilter(page, count)]);
    if FilterRequested(referenceIdType, referenceIdValues) {
      var slot: Option<string> := t.referencesSlot;
      if slot.None? {
        return Failure(InvalidOperation(CannotAddReferences + t.fullName + "."));
      }
      request := request.(children := request.children
                            + [RequestReferences(slot.value, referenceIdType.value, referenceIdValues.value)]);
    }
    r := Success(request);
  }

  /**
   * The two reference-only overloads (a `params` array or any sequence of values): the
   * general overload with page 1 and count 100.
   */
  method CreateForReferences(t: RequestType, referenceIdType: string, referenceIdValues: seq<string>)
    returns (r: Result<Element, Exception>)
    ensures r == Request(t, 1, 100, Some(referenceIdType), Some(referenceIdValues))
  {
    r := Create(t, 1, 100, Some(referenceIdType), Some(referenceIdValues));
  }

  // ---------------------------------------------------------------------------
  // Reading a built request back

  /** The page and count a response filter holds, read back from its integer text. */
  function ReadFilter(filter: Element): Result<(int, int), XmlError> {
    var page :- Required(El(filter, Wd("Page")), Wd("Page"));
    var count :- Required(El(filter, Wd("Count")), Wd("Count"));
    Success((ParseInt(Value(page)), ParseInt(Value(count))))
  }

  /** The value of the `wd:ID` inside one reference entry. */
  function ReferenceValue(entry: Element): Result<string, XmlError> {
    var id :- Required(El(entry, Wd("ID")), Wd("ID"));
    Success(Value(id))
  }

  /** The values of the `wd:{slot}` entries of a references block, in order. */
  function ReadReferences(references: Element, slot: string): Result<seq<string>, XmlError> {
    var entries := Elements(references, Wd(slot));
    Collect(seq(|entries|, i requires 0 <= i < |entries| => ReferenceValue(entries[i])))
  }

  /** The response filter reads back as the page and count it was built from. */
  lemma ResponseFilterRoundTrip(page: int, count: int)
    ensures ReadFilter(ResponseFilter(page, count)) == Success((page, count))
  {
    var filter := ResponseFilter(page, count);
    assert El(filter, Wd("Page")) == Some(filter.children[0]);
    assert El(filter, Wd("Count")) == Some(filter.children[1]);
    assert Value(filter.children[0]) == IntText(page);
    assert Value(filter.children[1]) == IntText(count);
    IntTextRoundTrip(page);
    IntTextRoundTrip(count);
  }

  /** Every entry is a `wd:{slot}` whose `wd:ID` has `wd:type = idType` and the value as text. */
  lemma RequestReferencesEntries(slot: string, idType: string, values: seq<string>)
    ensures var r := RequestReferences(slot, idType, values);
            forall i :: 0 <= i < |values| ==>
              && r.children[i].name == Wd(slot)
              && El(r.children[i], Wd("ID")).Some?
              && Attr(El(r.children[i], Wd("ID")).value, Wd("type")) == Success(idType)
              && Value(El(r.children[i], Wd("ID")).value) == values[i]
  {
  }

  /** The references block reads back as exactly the values it was built from, in order. */
  lemma RequestReferencesRoundTrip(slot: string, idType: string, values: seq<string>)
    ensures ReadReferences(RequestReferences(slot, idType, values), slot) == Success(values)
  {
    var r := RequestReferences(slot, idType, values);
    NamedAll(r.children, Wd(slot));
    var entries := Elements(r, Wd(slot));
    var rs := seq(|entries|, i requires 0 <= i < |entries| => ReferenceValue(entries[i]));
    forall i | 0 <= i < |rs| ensures rs[i] == Success(values[i]) {
      var id := entries[i].children[0];
      assert El(entries[i], Wd("ID")) == Some(id);
      assert Value(id) == values[i];
    }
    CollectSpec(rs);
    assert Collect(rs).value == values;
  }

  /**
   * `Create` fails exactly when filtering is requested and the type has no list slot, and
   * then with the message naming the type; no request is produced.
   */
  lemma CreateFailure(t: RequestType, page: int, count: int,
                      referenceIdType: Option<string>, referenceIdValues: Option<seq<string>>)
    ensures var r := Request(t, page, count, referenceIdType, referenceIdValues);
            && (r.Failure? <==> FilterRequested(referenceIdType, referenceIdValues) && t.referencesSlot.None?)
            && (r.Failure? ==> r.error == InvalidOperation(CannotAddReferences + t.fullName + "."))
  {
  }

  /**
   * A built request is named after the type and always starts with the response filter;
   * the references block follows exactly when filtering was requested.
   */
  lemma CreateShape(t: RequestType, page: int, count: int,
                    referenceIdType: Option<string>, referenceIdValues: Option<seq<string>>)
    requires Request(t, page, count, referenceIdType, referenceIdValues).Success?
    ensures var r := Request(t, page, count, referenceIdType, referenceIdValues).value;
            && r.name == Wd(t.name) && r.attributes == [] && r.text == ""
            && |r.children| >= 1
            && r.children[0] == ResponseFilter(page, count)
            && ReadFilter(r.children[0]) == Success((page, count))
            && (FilterRequested(referenceIdType, referenceIdValues) <==> |r.children| == 2)
            && (!FilterRequested(referenceIdType, referenceIdValues) ==> |r.children| == 1)
  {
    ResponseFilterRoundTrip(page, count);
  }

  /**
   * With filtering, the second child is the references block, which lists one entry per
   * value in the requested slot and reads back as those values.
   */
  lemma CreateReferences(t: RequestType, page: int, count: int, referenceIdType: string, referenceIdValues: seq<string>)
    requires t.referencesSlot.Some? && |referenceIdValues| > 0
    ensures var r := Request(t, page, count, Some(referenceIdType), Some(referenceIdValues));
            && r.Success? && |r.value.children| == 2
            && r.value.children[1] == RequestReferences(t.referencesSlot.value, referenceIdType, referenceIdValues)
            && ReadReferences(r.value.children[1], t.referencesSlot.value) == Success(referenceIdValues)
  {
    RequestReferencesRoundTrip(t.referencesSlot.value, referenceIdType, referenceIdValues);
  }

  /** An empty value list, or a missing id type, is not a filter: no references are added. */
  lemma EmptyValuesAreNoFilter(t: RequestType, page: int, count: int,
                               referenceIdType: Option<string>, referenceIdValues: Option<seq<string>>)
    ensures Request(t, page, count, referenceIdType, Some([])) == Request(t, page, count, None, None)
    ensures Request(t, page, count, None, referenceIdValues) == Request(t, page, count, None, None)
  {
  }

  /** The page size is taken as given: any count above `MaxItems` is still written out. */
  lemma CountNotCapped(t: RequestType, page: int, count: int)
    requires count > MaxItems
    ensures Request(t, page, count, None, None).Success?
    ensures ReadFilter(Request(t, page, count, None, None).value.children[0]) == Success((page, count))
  {
    ResponseFilterRoundTrip(page, count);
  }
}
