/**
 * The client generator: the `Endpoint` / `Operation` model extracted from a WSDL 1.1
 * document, and the per-operation strings the client template is filled with.
 */
module Builder {
  import opened Wrappers
  import opened XmlTree
  import opened XHelper
  import opened WwsDefaults

  const XsdNamespace: string := "http://www.w3.org/2001/XMLSchema"
  const WsdlNamespace: string := "http://schemas.xmlsoap.org/wsdl/"

  function Wsdl(local: string): Name {
    Name(WsdlNamespace, local)
  }

  function Xsd(local: string): Name {
    Name(XsdNamespace, local)
  }

  /** One service operation; `responseType` is None for a one-way call. */
  datatype Operation = Operation(name: string, documentation: string, requestType: string, responseType: Option<string>)

  /** The service: its operations in WSDL declaration order. */
  datatype Endpoint = Endpoint(name: string, version: string, documentation: string, operations: seq<Operation>)

  // ---------------------------------------------------------------------------
  // Identifier-safe names

  /** `s.Replace(c.ToString(), "")` */
  function RemoveChar(s: string, c: char): (r: string)
    ensures c !in r
    ensures forall x :: x != c ==> (x in r <==> x in s)
    ensures |r| <= |s|
  {
    if s == [] then ""
    else if s[0] == c then RemoveChar(s[1..], c)
    else [s[0]] + RemoveChar(s[1..], c)
  }

  /** `RemoveForbiddenChars(value)` = `value.Replace("-", "").Replace(".", "")` */
  function RemoveForbiddenChars(s: string): (r: string)
    ensures '-' !in r && '.' !in r
    ensures forall x :: x != '-' && x != '.' ==> (x in r <==> x in s)
  {
    RemoveChar(RemoveChar(s, '-'), '.')
  }

  predicate Forbidden(c: char) {
    c == '-' || c == '.'
  }

  /** Reference definition: the characters of `s` that are neither '-' nor '.', in order. */
  function Allowed(s: string): string {
    if s == [] then "" else (if Forbidden(s[0]) then "" else [s[0]]) + Allowed(s[1..])
  }

  lemma {:induction false} RemoveCharAllowed(s: string, c: char)
    requires Forbidden(c)
    ensures Allowed(RemoveChar(s, c)) == Allowed(s)
  {
    if s != [] {
      RemoveCharAllowed(s[1..], c);
      if s[0] != c {
        assert ([s[0]] + RemoveChar(s[1..], c))[1..] == RemoveChar(s[1..], c);
      }
    }
  }

  lemma {:induction false} AllowedOfClean(s: string)
    requires '-' !in s && '.' !in s
    ensures Allowed(s) == s
  {
    if s != [] {
      assert s[0] in s;
      AllowedOfClean(s[1..]);
    }
  }

  /**
   * Stripping keeps every other character, in order: the result is exactly the filter of
   * `s` by "not '-' and not '.'".
   */
  lemma RemoveForbiddenCharsIsFilter(s: string)
    ensures RemoveForbiddenChars(s) == Allowed(s)
  {
    var r := RemoveForbiddenChars(s);
    AllowedOfClean(r);
    RemoveCharAllowed(RemoveChar(s, '-'), '.');
    RemoveCharAllowed(s, '-');
  }

  /** Stripping an already identifier-safe name changes nothing. */
  lemma RemoveForbiddenCharsIdempotent(s: string)
    ensures RemoveForbiddenChars(RemoveForbiddenChars(s)) == RemoveForbiddenChars(s)
  {
    var r := RemoveForbiddenChars(s);
    RemoveForbiddenCharsIsFilter(r);
    AllowedOfClean(r);
  }

  /** The generated method's name: the operation name without '-' and '.'. */
  function CsName(op: Operation): (r: string)
    ensures r == Allowed(op.name)
  {
    RemoveForbiddenCharsIsFilter(op.name);
    RemoveForbiddenChars(op.name)
  }

  /** The generated method's parameter type: the request type without '-' and '.'. */
  function CsRequestType(op: Operation): (r: string)
    ensures r == Allowed(op.requestType)
  {
    RemoveForbiddenCharsIsFilter(op.requestType);
    RemoveForbiddenChars(op.requestType)
  }

  /** The generated method's result type: `Task` for a one-way call, else `Task<Response>`. */
  function ResponseTypeTask(op: Operation): (r: string)
    ensures r == "Task" <==> op.responseType.None?
    ensures op.responseType.Some? ==> r == "Task<" + Allowed(op.responseType.value) + ">"
  {
    if op.responseType.None? then "Task"
    else
      RemoveForbiddenCharsIsFilter(op.responseType.value);
      "Task<" + RemoveForbiddenChars(op.responseType.value) + ">"
  }

  /** The runtime primitive the generated method delegates to. */
  function BaseMethod(op: Operation): (r: string)
    ensures r == "ExecuteAsync" <==> op.responseType.None?
    ensures op.responseType.Some? ==> r == "ExecuteAsync<" + Allowed(op.responseType.value) + ">"
  {
    if op.responseType.None? then "ExecuteAsync"
    else
      RemoveForbiddenCharsIsFilter(op.responseType.value);
      "ExecuteAsync<" + RemoveForbiddenChars(op.responseType.value) + ">"
  }

  /**
   * The generated method's result and the primitive it calls carry the same type argument:
   * `Task<X>` goes with `ExecuteAsync<X>`, and plain `Task` with plain `ExecuteAsync`.
   */
  lemma ResultMatchesDispatch(op: Operation)
    ensures ResponseTypeTask(op)[..4] == "Task"
    ensures BaseMethod(op) == "ExecuteAsync" + ResponseTypeTask(op)[4..]
  {
  }

  // ---------------------------------------------------------------------------
  // Documentation comments

  /** Every newline in `c` is followed by "///". */
  predicate Prefixed(c: string) {
    forall i :: 0 <= i < |c| && c[i] == '\n' ==> i + 4 <= |c| && c[i + 1..i + 4] == "///"
  }

  /** Prefixed text stays prefixed when two pieces are put together. */
  lemma PrefixedAppend(head: string, rest: string)
    requires Prefixed(head) && Prefixed(rest)
    ensures Prefixed(head + rest)
  {
    var c := head + rest;
    forall i | 0 <= i < |c| && c[i] == '\n' ensures i + 4 <= |c| && c[i + 1..i + 4] == "///" {
      if i < |head| {
        assert head[i] == '\n';
        assert c[i + 1..i + 4] == head[i + 1..i + 4];
      } else {
        var j := i - |head|;
        assert rest[j] == '\n';
        assert c[i + 1..i + 4] == rest[j + 1..j + 4];
      }
    }
  }

  /** `s.Replace("\n", "\n///")` */
  function PrefixLines(s: string): (r: string)
    ensures Prefixed(r)
  {
    if s == [] then ""
    else
      var rest := PrefixLines(s[1..]);
      var head := if s[0] == '\n' then "\n///" else [s[0]];
      assert Prefixed(head) by {
        if s[0] == '\n' {
          assert head[1] == '/' && head[2] == '/' && head[3] == '/';
        }
      }
      PrefixedAppend(head, rest);
      head + rest
  }

  /**
   * The doc comment of an operation or an endpoint: `"///" + documentation.Replace("\n", "\n///")`.
   * Every line of it carries the `///` prefix.
   */
  function CsXmlDocComment(documentation: string): (r: string)
    ensures |r| >= 3 && r[..3] == "///"
    ensures Prefixed(r)
  {
    var body := PrefixLines(documentation);
    assert Prefixed("///") by {
      assert forall i :: 0 <= i < 3 ==> "///"[i] == '/';
    }
    PrefixedAppend("///", body);
    "///" + body
  }

  /** Undoes `PrefixLines`: drops the "///" after each newline. */
  function UnprefixLines(c: string): string {
    if c == [] then ""
    else if c[0] == '\n' && |c| >= 4 && c[1..4] == "///" then "\n" + UnprefixLines(c[4..])
    else [c[0]] + UnprefixLines(c[1..])
  }

  /** Reads the documentation back out of a generated doc comment. */
  function DocumentationOf(comment: string): string {
    if |comment| >= 3 && comment[..3] == "///" then UnprefixLines(comment[3..]) else UnprefixLines(comment)
  }

  lemma {:induction false} UnprefixPrefix(s: string)
    ensures UnprefixLines(PrefixLines(s)) == s
  {
    if s != [] {
      UnprefixPrefix(s[1..]);
      var c := PrefixLines(s);
      if s[0] == '\n' {
        assert c[4..] == PrefixLines(s[1..]);
      } else {
        assert c[1..] == PrefixLines(s[1..]);
      }
    }
  }

  /** The doc comment loses nothing: the documentation can be read back from it. */
  lemma DocCommentRoundTrip(documentation: string)
    ensures DocumentationOf(CsXmlDocComment(documentation)) == documentation
  {
    UnprefixPrefix(documentation);
    assert CsXmlDocComment(documentation)[3..] == PrefixLines(documentation);
  }

  // ---------------------------------------------------------------------------
  // Extraction from the WSDL document

  /** The `wd:fixed` value of the single `xsd:attribute` named `version` under `types/schema`. */
  function ExtractVersion(root: Element): (r: Result<string, XmlError>)
    ensures El(root, Wsdl("types")).None? ==> r == Failure(MissingElement(Wsdl("types")))
    ensures r.Success? ==> El(root, Wsdl("types")).Some? && El(El(root, Wsdl("types")).value, Xsd("schema")).Some?
  {
    var types :- Required(El(root, Wsdl("types")), Wsdl("types"));
    var schema :- Required(El(types, Xsd("schema")), Xsd("schema"));
    var attribute :- Single(Elements(schema, Xsd("attribute")), Local("name"), "version");
    Attr(attribute, Wd("fixed"))
  }

  /**
   * The `element` of the single `body` part of the single message whose name is the
   * `input/@message` reference with its prefix stripped.
   */
  function RequestType(op: Element, messages: seq<Element>): (r: Result<string, XmlError>)
    ensures El(op, Wsdl("input")).None? ==> r == Failure(MissingElement(Wsdl("input")))
    ensures r.Success? ==> El(op, Wsdl("input")).Some? && Attr(El(op, Wsdl("input")).value, Local("message")).Success?
  {
    var input :- Required(El(op, Wsdl("input")), Wsdl("input"));
    var reference :- Attr(input, Local("message"));
    var message :- Single(messages, Local("name"), TrimNs(reference));
    var part :- Single(Elements(message, Wsdl("part")), Local("name"), "body");
    var element :- Attr(part, Local("element"));
    Success(TrimNs(element))
  }

  /** As `RequestType` for `output`, except that the `body` part may be absent. */
  function ResponseType(op: Element, messages: seq<Element>): (r: Result<Option<string>, XmlError>)
    ensures El(op, Wsdl("output")).None? ==> r == Failure(MissingElement(Wsdl("output")))
    ensures r.Success? ==> El(op, Wsdl("output")).Some? && Attr(El(op, Wsdl("output")).value, Local("message")).Success?
  {
    var output :- Required(El(op, Wsdl("output")), Wsdl("output"));
    var reference :- Attr(output, Local("message"));
    var message :- Single(messages, Local("name"), TrimNs(reference));
    var part :- SingleOrDefault(Elements(message, Wsdl("part")), Local("name"), "body");
    if part.None? then Success(None)
    else
      var element :- Attr(part.value, Local("element"));
      Success(Some(TrimNs(element)))
  }

  /** One `portType/operation` element turned into an `Operation`. */
  function ExtractOperation(op: Element, messages: seq<Element>): (r: Result<Operation, XmlError>)
    ensures r.Success? ==> && Attr(op, Local("name")) == Success(r.value.name)
                           && El(op, Wsdl("documentation")).Some?
                           && r.value.documentation == Value(El(op, Wsdl("documentation")).value)
                           && RequestType(op, messages) == Success(r.value.requestType)
                           && ResponseType(op, messages) == Success(r.value.responseType)
    ensures El(op, Wsdl("documentation")).None? && Attr(op, Local("name")).Success? ==>
              r == Failure(MissingElement(Wsdl("documentation")))
  {
    var name :- Attr(op, Local("name"));
    var documentation :- Required(El(op, Wsdl("documentation")), Wsdl("documentation"));
    var requestType :- RequestType(op, messages);
    var responseType :- ResponseType(op, messages);
    Success(Operation(name, Value(documentation), requestType, responseType))
  }

  /** The extraction of each operation element, one result per element. */
  function PerOperation(ops: seq<Element>, messages: seq<Element>): (rs: seq<Result<Operation, XmlError>>)
    ensures |rs| == |ops|
  {
    seq(|ops|, i requires 0 <= i < |ops| => ExtractOperation(ops[i], messages))
  }

  /** The operations in order; the first operation that fails decides the failure. */
  function ExtractOperations(ops: seq<Element>, messages: seq<Element>): Result<seq<Operation>, XmlError> {
    Collect(PerOperation(ops, messages))
  }

  /** What `ParseWsdlAsync` computes from the document's root element. */
  function ExtractEndpoint(root: Element): (r: Result<Endpoint, XmlError>)
    ensures r.Success? ==> && Attr(root, Local("name")) == Success(r.value.name)
                           && ExtractVersion(root) == Success(r.value.version)
                           && El(root, Wsdl("portType")).Some?
  {
    var name :- Attr(root, Local("name"));
    var documentation :- Required(El(root, Wsdl("documentation")), Wsdl("documentation"));
    var version :- ExtractVersion(root);
    var portType :- Required(El(root, Wsdl("portType")), Wsdl("portType"));
    var operations :- ExtractOperations(Elements(portType, Wsdl("operation")), Elements(root, Wsdl("message")));
    Success(Endpoint(name, version, Value(documentation), operations))
  }

  /** `ParseWsdlAsync`: the header lookups, then one `Operation` per `portType/operation`, appended in a loop. */
  method ParseWsdl(root: Element) returns (r: Result<Endpoint, XmlError>)
    ensures r == ExtractEndpoint(root)
  {
    var endpointName :- Attr(root, Local("name"));
    var endpointDoc :- Required(El(root, Wsdl("documentation")), Wsdl("documentation"));
    var endpointVersion :- ExtractVersion(root);
    var portType :- Required(El(root, Wsdl("portType")), Wsdl("portType"));
    var operationsXml := Elements(portType, Wsdl("operation"));
    var messagesXml := Elements(root, Wsdl("message"));

    ghost var results := PerOperation(operationsXml, messagesXml);
    var operations: seq<Operation> := [];
    var i := 0;
    while i < |operationsXml|
      invariant 0 <= i <= |operationsXml|
      invariant Collect(results[..i]) == Success(operations)
    {
      var operation := ExtractOperation(operationsXml[i], messagesXml);
      assert results[i] == operation;
      CollectStep(results, i);
      if operation.Failure? {
        CollectPrefixFailure(results, i + 1);
        assert ExtractOperations(operationsXml, messagesXml) == Failure(operation.error);
        return Failure(operation.error);
      }
      operations := operations + [operation.value];
      i := i + 1;
    }
    assert results[..i] == results;
    assert ExtractOperations(operationsXml, messagesXml) == Success(operations);
    return Success(Endpoint(endpointName, endpointVersion, Value(endpointDoc), operations));
  }

  // ---------------------------------------------------------------------------
  // Properties of the extraction

  /** A failing operation list fails with the error of its first failing operation. */
  lemma ExtractOperationsFirstFailure(ops: seq<Element>, messages: seq<Element>)
    requires ExtractOperations(ops, messages).Failure?
    ensures exists k :: 0 <= k < |ops|
              && ExtractOperation(ops[k], messages) == Failure(ExtractOperations(ops, messages).error)
              && forall j :: 0 <= j < k ==> ExtractOperation(ops[j], messages).Success?
  {
    var rs := PerOperation(ops, messages);
    var e := Collect(rs).error;
    CollectFirstFailure(rs);
    var k :| 0 <= k < |rs| && rs[k] == Failure(e) && forall j :: 0 <= j < k ==> rs[j].Success?;
    assert ExtractOperation(ops[k], messages) == rs[k];
    forall j | 0 <= j < k ensures ExtractOperation(ops[j], messages).Success? {
      assert ExtractOperation(ops[j], messages) == rs[j];
    }
  }

  /**
   * An extracted endpoint takes its name from the root's `name` attribute, its
   * documentation from the root's `wsdl:documentation`, its version from the schema's
   * version marker, and has one operation per `portType/operation`, in document order.
   */
  lemma ExtractedEndpoint(root: Element)
    requires ExtractEndpoint(root).Success?
    ensures var ep := ExtractEndpoint(root).value;
            && Attr(root, Local("name")) == Success(ep.name)
            && El(root, Wsdl("documentation")).Some?
            && ep.documentation == Value(El(root, Wsdl("documentation")).value)
            && ExtractVersion(root) == Success(ep.version)
            && El(root, Wsdl("portType")).Some?
            && var opsXml := Elements(El(root, Wsdl("portType")).value, Wsdl("operation"));
               && |ep.operations| == |opsXml|
               && forall i :: 0 <= i < |opsXml| ==>
                    ExtractOperation(opsXml[i], Elements(root, Wsdl("message"))) == Success(ep.operations[i])
  {
    var portType := El(root, Wsdl("portType")).value;
    CollectSpec(PerOperation(Elements(portType, Wsdl("operation")), Elements(root, Wsdl("message"))));
  }

  /**
   * The version marker must be unique: with no `xsd:attribute` named `version` the
   * extraction fails, as it does with two or more; with exactly one, the version is its
   * `wd:fixed` attribute.
   */
  lemma VersionSpec(root: Element, schema: Element)
    requires El(root, Wsdl("types")).Some? && El(El(root, Wsdl("types")).value, Xsd("schema")) == Some(schema)
    requires AllHave(Elements(schema, Xsd("attribute")), Local("name"))
    ensures var m := Matching(Elements(schema, Xsd("attribute")), Local("name"), "version");
            && (|m| == 0 ==> ExtractVersion(root) == Failure(NoMatch))
            && (|m| >= 2 ==> ExtractVersion(root) == Failure(MoreThanOneMatch))
            && (|m| == 1 ==> ExtractVersion(root) == Attr(m[0], Wd("fixed")))
  {
    SingleSpec(Elements(schema, Xsd("attribute")), Local("name"), "version");
  }

  /** The `message` reference carried by the operation's `input` or `output` child. */
  predicate RefersTo(op: Element, child: string, reference: string) {
    El(op, Wsdl(child)).Some? && Attr(El(op, Wsdl(child)).value, Local("message")) == Success(reference)
  }

  /** The input message must be found exactly once: zero or several namesakes are failures. */
  lemma RequestMessageCardinality(op: Element, messages: seq<Element>, reference: string)
    requires RefersTo(op, "input", reference) && AllHave(messages, Local("name"))
    ensures var ms := Matching(messages, Local("name"), TrimNs(reference));
            && (|ms| == 0 ==> RequestType(op, messages) == Failure(NoMatch))
            && (|ms| >= 2 ==> RequestType(op, messages) == Failure(MoreThanOneMatch))
  {
    SingleSpec(messages, Local("name"), TrimNs(reference));
  }

  /**
   * Within the input message, the `body` part must be unique; the request type is its
   * `element` attribute with the prefix stripped.
   */
  lemma RequestBodyPart(op: Element, messages: seq<Element>, reference: string, message: Element)
    requires RefersTo(op, "input", reference) && AllHave(messages, Local("name"))
    requires Matching(messages, Local("name"), TrimNs(reference)) == [message]
    requires AllHave(Elements(message, Wsdl("part")), Local("name"))
    ensures var ps := Matching(Elements(message, Wsdl("part")), Local("name"), "body");
            && (|ps| == 0 ==> RequestType(op, messages) == Failure(NoMatch))
            && (|ps| >= 2 ==> RequestType(op, messages) == Failure(MoreThanOneMatch))
            && (|ps| == 1 ==> forall element :: Attr(ps[0], Local("element")) == Success(element) ==>
                                  RequestType(op, messages) == Success(TrimNs(element)))
  {
    SingleSpec(messages, Local("name"), TrimNs(reference));
    SingleSpec(Elements(message, Wsdl("part")), Local("name"), "body");
  }

  /** The output message must be found exactly once too. */
  lemma ResponseMessageCardinality(op: Element, messages: seq<Element>, reference: string)
    requires RefersTo(op, "output", reference) && AllHave(messages, Local("name"))
    ensures var ms := Matching(messages, Local("name"), TrimNs(reference));
            && (|ms| == 0 ==> ResponseType(op, messages) == Failure(NoMatch))
            && (|ms| >= 2 ==> ResponseType(op, messages) == Failure(MoreThanOneMatch))
  {
    SingleSpec(messages, Local("name"), TrimNs(reference));
  }

  /**
   * Within the output message the `body` part is optional: none gives a one-way
   * operation, one gives its stripped `element`, two or more are a failure.
   */
  lemma ResponseBodyPart(op: Element, messages: seq<Element>, reference: string, message: Element)
    requires RefersTo(op, "output", reference) && AllHave(messages, Local("name"))
    requires Matching(messages, Local("name"), TrimNs(reference)) == [message]
    requires AllHave(Elements(message, Wsdl("part")), Local("name"))
    ensures var ps := Matching(Elements(message, Wsdl("part")), Local("name"), "body");
            && (|ps| == 0 ==> ResponseType(op, messages) == Success(None))
            && (|ps| >= 2 ==> ResponseType(op, messages) == Failure(MoreThanOneMatch))
            && (|ps| == 1 ==> forall element :: Attr(ps[0], Local("element")) == Success(element) ==>
                                  ResponseType(op, messages) == Success(Some(TrimNs(element))))
  {
    SingleSpec(messages, Local("name"), TrimNs(reference));
    SingleOrDefaultSpec(Elements(message, Wsdl("part")), Local("name"), "body");
  }

  /** An operation without a response type is generated as a plain `Task` over `ExecuteAsync`. */
  lemma OneWayOperation(op: Element, messages: seq<Element>)
    requires ExtractOperation(op, messages).Success?
    requires ResponseType(op, messages) == Success(None)
    ensures ResponseTypeTask(ExtractOperation(op, messages).value) == "Task"
    ensures BaseMethod(ExtractOperation(op, messages).value) == "ExecuteAsync"
  {
    var operation := ExtractOperation(op, messages).value;
    assert operation.responseType == None;
  }
}
