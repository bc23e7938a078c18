/**
 * Decoding a SOAP fault document into the fault the runtime raises: its message, its
 * fault code and the complete `wd:Validation_Error` entries.
 */
module Faults {
  import opened Wrappers
  import opened XmlTree
  import opened WwsDefaults

  datatype ValidationError = ValidationError(message: string, detailMessage: string, xPathExpression: string)

  /** The data of a `WwsException`. */
  datatype Fault = Fault(message: string, faultCode: Option<string>, validationErrors: seq<ValidationError>)

  const DefaultMessage: string := "A Workday Web Services exception occurred"

  /** `document.Descendants(name).FirstOrDefault()?.Value` */
  function FirstValue(doc: Element, n: Name): (r: Option<string>)
    ensures r.None? <==> Descendants(doc, n) == []
  {
    var ds := Descendants(doc, n);
    if ds == [] then None else Some(Value(ds[0]))
  }

  /** `element.Element(name)?.Value` */
  function ChildValue(e: Element, n: Name): (r: Option<string>)
    ensures r.None? <==> El(e, n).None?
  {
    match El(e, n)
    case None => None
    case Some(c) => Some(Value(c))
  }

  /** A `Validation_Error` element has all three sub-fields. */
  predicate Complete(e: Element) {
    El(e, Wd("Message")).Some? && El(e, Wd("Detail_Message")).Some? && El(e, Wd("Xpath")).Some?
  }

  /** The entry a complete `Validation_Error` element contributes: its three texts, verbatim. */
  function Entry(e: Element): ValidationError
    requires Complete(e)
  {
    ValidationError(ChildValue(e, Wd("Message")).value, ChildValue(e, Wd("Detail_Message")).value,
                    ChildValue(e, Wd("Xpath")).value)
  }

  /** The entries of the complete elements among `xs`, in order; incomplete ones are dropped. */
  function Retained(xs: seq<Element>): (r: seq<ValidationError>)
    decreases |xs|
    ensures |r| <= |xs|
  {
    if xs == [] then []
    else
      var last := xs[|xs| - 1];
      Retained(xs[..|xs| - 1]) + (if Complete(last) then [Entry(last)] else [])
  }

  /** What the `WwsException(XDocument)` constructor extracts from a fault document. */
  function FaultOf(doc: Element): (f: Fault)
    ensures f.faultCode.None? <==> Descendants(doc, Local("faultcode")) == []
    ensures |f.validationErrors| <= |Descendants(doc, Wd("Validation_Error"))|
  {
    Fault(FirstValue(doc, Local("faultstring")).GetOr(DefaultMessage),
          FirstValue(doc, Local("faultcode")),
          Retained(Descendants(doc, Wd("Validation_Error"))))
  }

  /** The constructor: two lookups, then a loop that keeps the complete validation errors. */
  method Decode(doc: Element) returns (f: Fault)
    ensures f == FaultOf(doc)
  {
    var message := FirstValue(doc, Local("faultstring")).GetOr(DefaultMessage);
    var faultCode := FirstValue(doc, Local("faultcode"));

    var validationErrorsXml := Descendants(doc, Wd("Validation_Error"));
    var validationErrors: seq<ValidationError> := [];
    var i := 0;
    while i < |validationErrorsXml|
      invariant 0 <= i <= |validationErrorsXml|
      invariant validationErrors == Retained(validationErrorsXml[..i])
    {
      var error := validationErrorsXml[i];
      var errorMessage := ChildValue(error, Wd("Message"));
      var detailMessage := ChildValue(error, Wd("Detail_Message"));
      var xPathExpression := ChildValue(error, Wd("Xpath"));
      assert validationErrorsXml[..i + 1][..i] == validationErrorsXml[..i];
      assert Retained(validationErrorsXml[..i + 1])
          == validationErrors + (if Complete(error) then [Entry(error)] else []);
      if errorMessage.Some? && detailMessage.Some? && xPathExpression.Some? {
        validationErrors := validationErrors + [ValidationError(errorMessage.value, detailMessage.value, xPathExpression.value)];
      }
      i := i + 1;
    }
    assert validationErrorsXml[..i] == validationErrorsXml;
    f := Fault(message, faultCode, validationErrors);
  }

  // ---------------------------------------------------------------------------
  // Properties of the decoded fault

  /** When every element is complete, each one yields exactly its own entry, in order. */
  lemma {:induction false} RetainedAllComplete(xs: seq<Element>)
    requires forall i :: 0 <= i < |xs| ==> Complete(xs[i])
    ensures |Retained(xs)| == |xs|
    ensures forall i :: 0 <= i < |xs| ==> Retained(xs)[i] == Entry(xs[i])
  {
    if xs != [] {
      var init, last := xs[..|xs| - 1], xs[|xs| - 1];
      forall i | 0 <= i < |init| ensures Complete(init[i]) {
        assert init[i] == xs[i];
      }
      RetainedAllComplete(init);
      var r := Retained(xs);
      assert r == Retained(init) + [Entry(last)];
      forall i | 0 <= i < |xs| ensures r[i] == Entry(xs[i]) {
        if i < |init| {
          assert r[i] == Retained(init)[i] && xs[i] == init[i];
        }
      }
    }
  }

  lemma {:induction false} RetainedAppend(xs: seq<Element>, ys: seq<Element>)
    ensures Retained(xs + ys) == Retained(xs) + Retained(ys)
    decreases |ys|
  {
    if ys == [] {
      assert xs + ys == xs;
    } else {
      assert (xs + ys)[..|xs + ys| - 1] == xs + ys[..|ys| - 1];
      RetainedAppend(xs, ys[..|ys| - 1]);
    }
  }

  /** An incomplete element appended at the end contributes nothing. */
  lemma RetainedSkip(before: seq<Element>, x: Element)
    requires !Complete(x)
    ensures Retained(before + [x]) == Retained(before)
  {
    var upTo := before + [x];
    assert upTo[..|upTo| - 1] == before;
  }

  /** An incomplete entry is dropped whole: removing it changes nothing. */
  lemma {:induction false} IncompleteDropped(xs: seq<Element>, k: nat)
    requires k < |xs| && !Complete(xs[k])
    ensures Retained(xs) == Retained(xs[..k] + xs[k + 1..])
  {
    var before, after := xs[..k], xs[k + 1..];
    var upTo := before + [xs[k]];
    assert xs == upTo + after;
    calc {
      Retained(xs);
      { RetainedAppend(upTo, after); }
      Retained(upTo) + Retained(after);
      { RetainedSkip(before, xs[k]); }
      Retained(before) + Retained(after);
      { RetainedAppend(before, after); }
      Retained(before + after);
    }
  }

  /** Every retained entry is the verbatim entry of some complete element. */
  lemma {:induction false} RetainedFromComplete(xs: seq<Element>, v: ValidationError)
    requires v in Retained(xs)
    ensures exists x :: x in xs && Complete(x) && Entry(x) == v
  {
    var init := xs[..|xs| - 1];
    var last := xs[|xs| - 1];
    if v in Retained(init) {
      RetainedFromComplete(init, v);
      var x :| x in init && Complete(x) && Entry(x) == v;
      assert x in xs;
    } else {
      assert Complete(last) && Entry(last) == v;
    }
  }

  /**
   * The fault message is the first `faultstring`'s text, or the default when the
   * document has none; the fault code is the first `faultcode`'s text, or null.
   */
  lemma FaultOfFields(doc: Element)
    ensures var f := FaultOf(doc);
            var strings := Descendants(doc, Local("faultstring"));
            var codes := Descendants(doc, Local("faultcode"));
            && (strings == [] ==> f.message == DefaultMessage)
            && (strings != [] ==> f.message == Value(strings[0]))
            && (f.faultCode.None? <==> codes == [])
            && (codes != [] ==> f.faultCode == Some(Value(codes[0])))
            && |f.validationErrors| <= |Descendants(doc, Wd("Validation_Error"))|
  {
  }
}
