/**
 * The SOAP client runtime: configuration validation, the service base address, the
 * SOAP 1.1 envelope with its WS-Security UsernameToken header, and the classification
 * of a reply into a response element or an exception.
 */
module Client {
  import opened Wrappers
  import opened XmlTree
  import opened XHelper
  import opened WwsDefaults
  import opened Errors
  import opened ValidationHelper
  import Faults

  // ---------------------------------------------------------------------------
  // Configuration

  /**
   * The four settings must be present, checked in the order Host, UserName, Tenant,
   * Password; the first missing one is reported.
   */
  function CheckConfiguration(host: Option<string>, userName: Option<string>,
                              tenant: Option<string>, password: Option<string>): (r: Outcome<Exception>)
    ensures r.Pass? <==> host.Some? && userName.Some? && tenant.Some? && password.Some?
    ensures host.None? ==> r == Fail(InvalidOperation(NullMessage("Host")))
    ensures host.Some? && userName.None? ==> r == Fail(InvalidOperation(NullMessage("UserName")))
    ensures host.Some? && userName.Some? && tenant.None? ==> r == Fail(InvalidOperation(NullMessage("Tenant")))
    ensures host.Some? && userName.Some? && tenant.Some? && password.None? ==>
              r == Fail(InvalidOperation(NullMessage("Password")))
  {
    var hostCheck := EnsureNonNull("Host", host);
    if hostCheck.Fail? then hostCheck
    else
      var userNameCheck := EnsureNonNull("UserName", userName);
      if userNameCheck.Fail? then userNameCheck
      else
        var tenantCheck := EnsureNonNull("Tenant", tenant);
        if tenantCheck.Fail? then tenantCheck
        else EnsureNonNull("Password", password)
  }

  /** `WwsClient.Configuration`: four settable, nullable settings. */
  class Configuration {
    var host: Option<string>
    var userName: Option<string>
    var tenant: Option<string>
    var password: Option<string>

    constructor ()
      ensures host.None? && userName.None? && tenant.None? && password.None?
    {
      host, userName, tenant, password := None, None, None, None;
    }

    /** `Validate()`: the four null guards in order; it changes nothing. */
    method Validate() returns (r: Outcome<Exception>)
      ensures r == CheckConfiguration(host, userName, tenant, password)
    {
      r := EnsureNonNull("Host", host);
      if r.Fail? { return; }
      r := EnsureNonNull("UserName", userName);
      if r.Fail? { return; }
      r := EnsureNonNull("Tenant", tenant);
      if r.Fail? { return; }
      r := EnsureNonNull("Password", password);
    }
  }

  // ---------------------------------------------------------------------------
  // Base address

  /** `https://{host}/ccx/service/{tenant}/{endpoint}/{version}` */
  function BaseAddress(host: string, tenant: string, endpoint: string, version: string): (r: string)
    ensures |r| > 8 && r[..8] == "https://"
    ensures |r| >= |version| && r[|r| - |version|..] == version
  {
    "https://" + host + "/ccx/service/" + tenant + "/" + endpoint + "/" + version
  }

  /** The pieces of `s` between occurrences of `c`, as `s.Split(c)` returns them. */
  function Split(s: string, c: char): (r: seq<string>)
    ensures |r| >= 1
    decreases |s|
  {
    var k := IndexOf(s, c);
    if k == -1 then [s] else [s[..k]] + Split(s[k + 1..], c)
  }

  /** The parts joined with `c` between them, as `string.Join(c, parts)` builds them. */
  function Join(parts: seq<string>, c: char): string
    requires |parts| >= 1
  {
    if |parts| == 1 then parts[0] else parts[0] + [c] + Join(parts[1..], c)
  }

  /** The first separator after a separator-free prefix is the one just after it. */
  lemma {:induction false} IndexOfAfter(a: string, c: char, b: string)
    requires c !in a
    ensures IndexOf(a + [c] + b, c) == |a|
  {
    if a != [] {
      IndexOfAfter(a[1..], c, b);
      assert (a + [c] + b)[1..] == a[1..] + [c] + b;
    }
  }

  /** Splitting undoes joining when no part contains the separator. */
  lemma {:induction false} SplitJoin(parts: seq<string>, c: char)
    requires |parts| >= 1 && forall i :: 0 <= i < |parts| ==> c !in parts[i]
    ensures Split(Join(parts, c), c) == parts
  {
    if |parts| == 1 {
      assert Join(parts, c) == parts[0];
    } else {
      forall i | 0 <= i < |parts[1..]| ensures c !in parts[1..][i] {
        assert parts[1..][i] == parts[i + 1];
      }
      SplitJoin(parts[1..], c);
      SplitAt(parts[0], c, Join(parts[1..], c));
      assert [parts[0]] + parts[1..] == parts;
    }
  }

  /** Splitting at the first separator after a separator-free piece yields that piece first. */
  lemma SplitAt(a: string, c: char, b: string)
    requires c !in a
    ensures Split(a + [c] + b, c) == [a] + Split(b, c)
  {
    var s := a + [c] + b;
    IndexOfAfter(a, c, b);
    assert s[..|a|] == a && s[|a| + 1..] == b;
  }

  /** The segments the base address is made of. */
  function AddressParts(host: string, tenant: string, endpoint: string, version: string): (parts: seq<string>)
    ensures |parts| == 8
  {
    ["https:", "", host, "ccx", "service", tenant, endpoint, version]
  }

  /** Joining a part in front of at least one more: the part, the separator, then the rest joined. */
  lemma JoinCons(a: string, rest: seq<string>, c: char)
    requires |rest| >= 1
    ensures Join([a] + rest, c) == a + [c] + Join(rest, c)
  {
    assert ([a] + rest)[1..] == rest;
  }

  /** The last three segments joined: `{tenant}/{endpoint}/{version}`. */
  lemma JoinAddressTail(host: string, tenant: string, endpoint: string, version: string)
    ensures Join(AddressParts(host, tenant, endpoint, version)[5..], '/') == tenant + "/" + endpoint + "/" + version
  {
    JoinCons(endpoint, [version], '/');
    JoinCons(tenant, [endpoint] + [version], '/');
    assert AddressParts(host, tenant, endpoint, version)[5..] == [tenant] + ([endpoint] + [version]);
  }

  /** The fixed pieces of the address, as `Join` lays them out around the host. */
  lemma AddressLiterals(host: string, tail: string)
    ensures "https:" + ['/'] + ("" + ['/'] + (host + ['/'] + ("ccx" + ['/'] + ("service" + ['/'] + tail))))
         == "https://" + host + "/ccx/service/" + tail
  {
    var path := "ccx" + ['/'] + ("service" + ['/'] + tail);
    assert path == "ccx/service/" + tail;
    assert host + ['/'] + path == host + "/ccx/service/" + tail;
    assert "https:" + ['/'] + ("" + ['/'] + (host + ['/'] + path)) == "https://" + (host + ['/'] + path);
  }

  /** Appending the joined tail is appending its pieces one by one. */
  lemma AppendTail(prefix: string, tenant: string, endpoint: string, version: string)
    ensures prefix + (tenant + "/" + endpoint + "/" + version) == prefix + tenant + "/" + endpoint + "/" + version
  {
  }

  /** The base address is its segments joined with slashes. */
  lemma BaseAddressIsJoin(host: string, tenant: string, endpoint: string, version: string)
    ensures BaseAddress(host, tenant, endpoint, version) == Join(AddressParts(host, tenant, endpoint, version), '/')
  {
    var parts := AddressParts(host, tenant, endpoint, version);
    var t := parts[5..];
    var tail := tenant + "/" + endpoint + "/" + version;
    JoinAddressTail(host, tenant, endpoint, version);
    JoinCons("service", t, '/');
    JoinCons("ccx", ["service"] + t, '/');
    JoinCons(host, ["ccx"] + (["service"] + t), '/');
    JoinCons("", [host] + (["ccx"] + (["service"] + t)), '/');
    JoinCons("https:", [""] + ([host] + (["ccx"] + (["service"] + t))), '/');
    assert parts == ["https:"] + ([""] + ([host] + (["ccx"] + (["service"] + t))));
    AddressLiterals(host, tail);
    AppendTail("https://" + host + "/ccx/service/", tenant, endpoint, version);
  }

  /**
   * When no part contains a slash, the base address splits back into its parts: the scheme,
   * the empty authority prefix, the host, the fixed `ccx/service` path, the tenant, the
   * endpoint and the version.
   */
  lemma BaseAddressSegments(host: string, tenant: string, endpoint: string, version: string)
    requires '/' !in host && '/' !in tenant && '/' !in endpoint && '/' !in version
    ensures Split(BaseAddress(host, tenant, endpoint, version), '/')
         == ["https:", "", host, "ccx", "service", tenant, endpoint, version]
  {
    BaseAddressIsJoin(host, tenant, endpoint, version);
    var parts := AddressParts(host, tenant, endpoint, version);
    assert '/' !in parts[0] && '/' !in parts[3] && '/' !in parts[4];
    SplitJoin(parts, '/');
  }

  // ---------------------------------------------------------------------------
  // The SOAP envelope

  const EnvNamespace: string := "http://schemas.xmlsoap.org/soap/envelope/"
  const SecNamespace: string := "http://docs.oasis-open.org/wss/2004/01/oasis-200401-wss-wssecurity-secext-1.0.xsd"

  function Env(local: string): Name {
    Name(EnvNamespace, local)
  }

  function Sec(local: string): Name {
    Name(SecNamespace, local)
  }

  /** String concatenation and element content both treat a null string as empty. */
  function OrEmpty(s: Option<string>): string {
    s.GetOr("")
  }

  /**
   * `BuildFullRequest(request)`: the envelope with a Header (the WS-Security token, then the
   * Workday common header) followed by a Body holding a copy of the request. The settings
   * are read when the request is built.
   */
  function BuildFullRequest(userName: Option<string>, tenant: Option<string>, password: Option<string>,
                            request: Element): (e: Element)
    ensures e.name == Env("Envelope") && FirstBodyChild(e) == Success(Some(request))
  {
    Node(Env("Envelope"), [
      Node(Env("Header"), [
        Node(Sec("Security"), [
          Node(Sec("UsernameToken"), [
            Leaf(Sec("Username"), OrEmpty(userName) + "@" + OrEmpty(tenant)),
            Leaf(Sec("Password"), OrEmpty(password))])]),
        Node(Wd("Workday_Common_Header"), [Leaf(Wd("Include_Reference_Descriptors_In_Response"), "true")])]),
      Node(Env("Body"), [request])])
  }

  /** The credentials a service reads from an envelope's UsernameToken. */
  function Credentials(envelope: Element): Result<(string, string), XmlError> {
    var header :- Required(El(envelope, Env("Header")), Env("Header"));
    var security :- Required(El(header, Sec("Security")), Sec("Security"));
    var token :- Required(El(security, Sec("UsernameToken")), Sec("UsernameToken"));
    var user :- Required(El(token, Sec("Username")), Sec("Username"));
    var password :- Required(El(token, Sec("Password")), Sec("Password"));
    Success((Value(user), Value(password)))
  }

  /** Whether the envelope asks for reference descriptors in the response. */
  function DescriptorsRequested(envelope: Element): Result<string, XmlError> {
    var header :- Required(El(envelope, Env("Header")), Env("Header"));
    var common :- Required(El(header, Wd("Workday_Common_Header")), Wd("Workday_Common_Header"));
    var flag :- Required(El(common, Wd("Include_Reference_Descriptors_In_Response")),
                         Wd("Include_Reference_Descriptors_In_Response"));
    Success(Value(flag))
  }

  /** `Root.Element(Env + "Body").Elements().FirstOrDefault()`; a missing Body is dereferenced. */
  function FirstBodyChild(document: Element): (r: Result<Option<Element>, Exception>)
    ensures r.Failure? <==> El(document, Env("Body")).None?
    ensures r.Success? ==> (r.value.None? <==> El(document, Env("Body")).value.children == [])
    ensures r.Success? && r.value.Some? ==> r.value.value == El(document, Env("Body")).value.children[0]
  {
    match El(document, Env("Body"))
    case None => Failure(NullReference("Body"))
    case Some(body) => Success(if body.children == [] then None else Some(body.children[0]))
  }

  /**
   * The envelope is `Envelope(Header, Body)`; the token carries "{userName}@{tenant}" and the
   * password, the common header asks for reference descriptors, and the Body holds exactly
   * the request, which is what a reader of the Body's first child gets back.
   */
  lemma EnvelopeReadBack(userName: Option<string>, tenant: Option<string>, password: Option<string>, request: Element)
    ensures var e := BuildFullRequest(userName, tenant, password, request);
            && e.name == Env("Envelope") && |e.children| == 2
            && e.children[0].name == Env("Header") && e.children[1].name == Env("Body")
            && e.children[1].children == [request]
            && Credentials(e) == Success((OrEmpty(userName) + "@" + OrEmpty(tenant), OrEmpty(password)))
            && DescriptorsRequested(e) == Success("true")
            && FirstBodyChild(e) == Success(Some(request))
  {
    var e := BuildFullRequest(userName, tenant, password, request);
    var header := e.children[0];
    var token := header.children[0].children[0];
    assert El(e, Env("Header")) == Some(header);
    assert El(header, Sec("Security")) == Some(header.children[0]);
    assert El(header.children[0], Sec("UsernameToken")) == Some(token);
    assert El(token, Sec("Username")) == Some(token.children[0]);
    assert El(token, Sec("Password")) == Some(token.children[1]);
    assert Value(token.children[0]) == OrEmpty(userName) + "@" + OrEmpty(tenant);
    assert Value(token.children[1]) == OrEmpty(password);
    var common := header.children[1];
    assert El(header, Wd("Workday_Common_Header")) == Some(common);
    assert El(common, Wd("Include_Reference_Descriptors_In_Response")) == Some(common.children[0]);
    assert Value(common.children[0]) == "true";
    assert El(e, Env("Body")) == Some(e.children[1]);
  }

  // ---------------------------------------------------------------------------
  // Replies

  /** A `Content-Type` header: its media type and its full text form. */
  datatype ContentType = ContentType(mediaType: string, text: string)

  /**
   * What the transport hands back: the content-type header (null when absent), whether the
   * status code is a success, and the reply parsed as an XML document.
   */
  datatype Reply = Reply(contentType: Option<ContentType>, isSuccess: bool, document: Element)

  const TextXml: string := "text/xml"
  const UnexpectedContentType: string := "Unexpected WWS Response Content-Type: "

  /** The decision `PostRequest` makes about a reply. */
  function PostDecision(reply: Reply): (r: Result<Option<Element>, Exception>)
    ensures r.Success? ==> reply.contentType.Some? && reply.contentType.value.mediaType == TextXml && reply.isSuccess
    ensures r.Success? && r.value.Some? ==>
              El(reply.document, Env("Body")).Some? && r.value.value in El(reply.document, Env("Body")).value.children
  {
    if reply.contentType.None? then Failure(NullReference("ContentType"))
    else if reply.contentType.value.mediaType == TextXml then
      if reply.isSuccess then FirstBodyChild(reply.document)
      else Failure(Remote(Faults.FaultOf(reply.document)))
    else Failure(InvalidOperation(UnexpectedContentType + reply.contentType.value.text))
  }

  /** `PostRequest` after the reply has arrived: check the media type, then the status. */
  method PostRequest(reply: Reply) returns (r: Result<Option<Element>, Exception>)
    ensures r == PostDecision(reply)
  {
    if reply.contentType.None? {
      return Failure(NullReference("ContentType"));
    }
    if reply.contentType.value.mediaType == TextXml {
      var resEnv := reply.document;
      if reply.isSuccess {
        return FirstBodyChild(resEnv);
      }
      var fault := Faults.Decode(resEnv);
      return Failure(Remote(fault));
    }
    r := Failure(InvalidOperation(UnexpectedContentType + reply.contentType.value.text));
  }

  /** A reply that is not `text/xml` always fails, whatever its status, naming the content type. */
  lemma NonXmlReplyFails(reply: Reply)
    requires reply.contentType.Some? && reply.contentType.value.mediaType != TextXml
    ensures PostDecision(reply) == Failure(InvalidOperation(UnexpectedContentType + reply.contentType.value.text))
    ensures PostDecision(reply.(isSuccess := !reply.isSuccess)) == PostDecision(reply)
  {
  }

  /**
   * A `text/xml` reply with a failure status raises the fault decoded from the document:
   * its message, fault code and complete validation errors.
   */
  lemma FailedXmlReplyRaisesFault(reply: Reply)
    requires reply.contentType.Some? && reply.contentType.value.mediaType == TextXml && !reply.isSuccess
    ensures PostDecision(reply).Failure? && PostDecision(reply).error.Remote?
    ensures PostDecision(reply).error.fault == Faults.FaultOf(reply.document)
  {
  }

  /**
   * A `text/xml` success reply yields the first element of its Body, or nothing when the
   * Body is empty; it fails only when the document has no Body.
   */
  lemma SuccessfulXmlReply(reply: Reply)
    requires reply.contentType.Some? && reply.contentType.value.mediaType == TextXml && reply.isSuccess
    ensures var r := PostDecision(reply);
            && (r.Failure? <==> El(reply.document, Env("Body")).None?)
            && (r.Failure? ==> r.error == NullReference("Body"))
            && (r.Success? ==> (r.value.None? <==> El(reply.document, Env("Body")).value.children == []))
            && (r.Success? && r.value.Some? ==> r.value.value == El(reply.document, Env("Body")).value.children[0])
  {
  }

  /** A success reply shaped like a request envelope hands back exactly the element in its Body. */
  lemma EchoedEnvelope(contentType: ContentType, userName: Option<string>, tenant: Option<string>,
                       password: Option<string>, payload: Element)
    requires contentType.mediaType == TextXml
    ensures PostDecision(Reply(Some(contentType), true, BuildFullRequest(userName, tenant, password, payload)))
         == Success(Some(payload))
  {
    EnvelopeReadBack(userName, tenant, password, payload);
  }

  // ---------------------------------------------------------------------------
  // The client

  /**
   * `WwsClient`: a validated configuration, shared with the caller (later changes to it are
   * seen by later requests), and the base address fixed at construction.
   */
  class WwsClient {
    const config: Configuration
    const baseAddress: string

    constructor (endpoint: string, version: string, config: Configuration)
      requires config.host.Some? && config.tenant.Some?
      ensures this.config == config
      ensures baseAddress == BaseAddress(config.host.value, config.tenant.value, endpoint, version)
    {
      this.config := config;
      baseAddress := BaseAddress(config.host.value, config.tenant.value, endpoint, version);
    }

    /**
     * The protected constructor: validate the configuration first, failing with its first
     * missing setting, then keep it and form the base address from its host and tenant.
     */
    static method Open(endpoint: string, version: string, config: Configuration) returns (r: Result<WwsClient, Exception>)
      ensures r.Failure? <==> CheckConfiguration(config.host, config.userName, config.tenant, config.password).Fail?
      ensures r.Failure? ==> Fail(r.error) == CheckConfiguration(config.host, config.userName, config.tenant, config.password)
      ensures r.Success? ==> fresh(r.value) && r.value.config == config
      ensures r.Success? ==> config.host.Some? && config.tenant.Some?
                             && r.value.baseAddress == BaseAddress(config.host.value, config.tenant.value, endpoint, version)
    {
      var valid := config.Validate();
      if valid.Fail? {
        return Failure(valid.error);
      }
      var client := new WwsClient(endpoint, version, config);
      r := Success(client);
    }

    /**
     * `ExecuteAsync(request)`: a null request fails before anything is built; otherwise the
     * envelope is built from the current settings, handed to the transport `post`, and its
     * reply classified.
     */
    method ExecuteAsync(request: Option<Element>, post: Element -> Reply) returns (r: Result<Option<Element>, Exception>)
      ensures request.None? ==> r == Failure(ArgumentNull("request"))
      ensures request.Some? ==>
                r == PostDecision(post(BuildFullRequest(config.userName, config.tenant, config.password, request.value)))
    {
      if request.None? {
        return Failure(ArgumentNull("request"));
      }
      var fullRequest := BuildFullRequest(config.userName, config.tenant, config.password, request.value);
      r := PostRequest(post(fullRequest));
    }
  }
}
