# worksharp-wws in Dafny

This project models the two halves of the worksharp-wws client for Workday Web Services.

The **client generator** reads a WSDL 1.1 document and extracts an `Endpoint`: its name, documentation and version, plus one `Operation` per `portType/operation`. For each operation it derives the strings the client template uses: identifier-safe names, the `///` doc comment, the `Task` result type and the `ExecuteAsync` target. It strips namespace prefixes with `TrimNs`.

The **runtime** does five things:
- It builds requests: a `Response_Filter` (page and count), plus an optional `Request_References` block.
- It builds references: `ref/ID`, with a `type` attribute and optional parent attributes.
- It validates the client configuration and forms the service base address.
- It wraps a request in a SOAP 1.1 envelope. The envelope carries an OASIS WS-Security 1.0 `UsernameToken` and the Workday common header.
- It classifies the reply. The result is the first element of the `Body`, a decoded SOAP fault (`WwsException`), or an error.

The XML is an abstract tree (`XmlTree.Element`), and the tree's lookups follow LINQ to XML:
- `Element(name)` is the first child with that name.
- `Elements(name)` keeps the children with that name, in order.
- `Descendants(name)` walks the document in pre-order.
- `Attribute(name).Value` fails when the attribute is absent.
- `Single` and `SingleOrDefault` take an attribute-equality predicate. They are modelled as .NET's scan, which stops at the second match.

The runtime's exceptions are values (`Errors.Exception`, `XmlTree.XmlError`). They are returned through `Result` and `Outcome` (module `Wrappers`). The loops of the source are methods with invariants: the operation loop of `ParseWsdlAsync` and the validation-error loop of the `WwsException` constructor. Each is proved equal to a specification function, and the properties are lemmas about that function. `Validate`, `Create` and `PostRequest` have no loop; they are methods proved equal to a specification function in the same way.

The files, one module each:
- `wrappers.dfy`: `Option`, `Result`, `Outcome`, and `Collect`, the "append each result, stop at the first failure" loop.
- `xml_tree.dfy`: the tree, its lookups and integer text.
- `xhelper.dfy`: `TrimNs`.
- `wws_defaults.dfy`: the Workday namespace.
- `builder.dfy`: the WSDL extraction and the generator's strings.
- `wws_request.dfy`, `wws_reference.dfy`: the request and reference builders.
- `errors.dfy`, `validation_helper.dfy`, `faults.dfy`, `wws_client.dfy`: the runtime.

## Model

| member | source | states |
|---|---|---|
| XmlTree.El | ClientBuilder/src/XHelper.cs:36-37 | `El` finds nothing exactly when no child has the name; otherwise it is the first child with that name. |
| XmlTree.ElSpec | ClientBuilder/src/XHelper.cs:36-37 | `El` finds nothing iff no child has the name; what it finds is a child with that name. |
| XmlTree.Attr | ClientBuilder/src/XHelper.cs:39-40 | A missing attribute fails with `MissingAttribute(name)`; a value found is carried by the element. |
| XmlTree.AttributeValue | ClientBuilder/src/XHelper.cs:39-40 | A value found belongs to an attribute of that name; its first-occurrence meaning is proved in AttributeValueSpec. |
| XmlTree.AttrSpec | ClientBuilder/src/XHelper.cs:39-40 | `Attr` fails iff no attribute has the name; otherwise it returns the first such attribute's value. |
| XmlTree.AttributeValueSpec | ClientBuilder/src/XHelper.cs:39-40 | The attribute lookup is null iff no attribute has the name. Otherwise it is the first occurrence. |
| XmlTree.NamedSpec | ClientBuilder/src/Program.cs:95 | `Elements(name)` keeps exactly the children that have the name. |
| XmlTree.NamedAll | Core/src/WwsRequest.cs:60-66 | When every child has the name, `Elements(name)` returns all of them in order. |
| XmlTree.Named | ClientBuilder/src/Program.cs:95 | The filter is no longer than its input and keeps only elements with the name; NamedSpec proves it keeps all of them. |
| XmlTree.Elements | ClientBuilder/src/Program.cs:99-100 | `Elements(name)` returns at most the children, each with the name. |
| XmlTree.FirstNamed | ClientBuilder/src/XHelper.cs:36-37 | The first match is null iff the name filter is empty; otherwise it is the filter's head. |
| XmlTree.Required | ClientBuilder/src/Program.cs:92-94 | Dereferencing a null lookup fails with `MissingElement(name)`; a found element passes through unchanged. |
| XmlTree.Subtree | Core/src/WwsException.cs:31-35 | The document-order walk of an element starts with the element itself. |
| XmlTree.Descendants | Core/src/WwsException.cs:31-35 | Every element found has the name, and the root comes first when it has the name itself. |
| XmlTree.ForestContains | Core/src/WwsException.cs:35 | Every child heads its own subtree, so it appears in the document-order walk. |
| XmlTree.DescendantsSpec | Core/src/WwsException.cs:31-35 | `Descendants(name)` is exactly the walk's elements with the name, and includes every child of the root with that name. |
| XmlTree.Value | ClientBuilder/src/Program.cs:92 | An element without children has its own text as value; otherwise the value starts with its own text. |
| XmlTree.Single | ClientBuilder/src/Program.cs:96 | A successful `Single` returns an element of the input whose attribute has the value. |
| XmlTree.SingleOrDefault | ClientBuilder/src/Program.cs:120 | A non-null `SingleOrDefault` result is an input element whose attribute has the value. |
| XmlTree.ScanSingle | ClientBuilder/src/Program.cs:112-114 | A match found by the scan is in the input and matches. Once a match is held, success returns exactly it. |
| XmlTree.ScanSingleCounts | ClientBuilder/src/Program.cs:112-120 | If every element has the key attribute, the scan's outcome depends only on the list of matching elements. |
| XmlTree.SingleSpec | ClientBuilder/src/Program.cs:96 | `Single` succeeds iff exactly one element matches and returns it. No match or two or more matches fail. |
| XmlTree.SingleOrDefaultSpec | ClientBuilder/src/Program.cs:120 | `SingleOrDefault` returns null for no match and the match for one; two or more fail. |
| XmlTree.NatText | Core/src/WwsRequest.cs:36-37 | Integer element text is a non-empty string of decimal digits. |
| XmlTree.NatTextRoundTrip | Core/src/WwsRequest.cs:36-37 | Digits read back as the natural number they were written from. |
| XmlTree.IntText | Core/src/WwsRequest.cs:36-37 | The text is non-empty and starts with '-' exactly for negative integers; IntTextRoundTrip reads it back. |
| XmlTree.IntTextRoundTrip | Core/src/WwsRequest.cs:36-37 | Integer element text, sign included, reads back as the integer. |
| XHelper.IndexOf | ClientBuilder/src/XHelper.cs:43 | The result is -1 iff the character is absent. Otherwise it is the position of its first occurrence. |
| XHelper.IndexOfAtMost | ClientBuilder/src/XHelper.cs:43 | The first occurrence of a character is at or before any of its occurrences. |
| XHelper.TrimNs | ClientBuilder/src/XHelper.cs:42-43 | The result is a suffix no longer than the input. A name without ':' is unchanged. Otherwise the result is what follows the first ':'. |
| XHelper.TrimNsIdempotent | ClientBuilder/src/XHelper.cs:42-43 | Stripping twice equals stripping once for names with at most one colon. |
| XHelper.TrimNsIdempotentOnlyIf | ClientBuilder/src/XHelper.cs:42-43 | Conversely, a name that strips to the same result twice has at most one colon. |
| XHelper.TrimNsNotIdempotent | ClientBuilder/src/XHelper.cs:42-43 | "a:b:c" strips to "b:c" and then to "c", so stripping is not idempotent in general. |
| Builder.RemoveChar | ClientBuilder/src/Program.cs:19-20 | Removing a character leaves none of it and keeps every other character present. |
| Builder.RemoveForbiddenChars | ClientBuilder/src/Program.cs:19-20 | The result has no '-' or '.', and every other character of the input occurs in it. |
| Builder.RemoveCharAllowed | ClientBuilder/src/Program.cs:19-20 | Removing '-' or '.' leaves the sequence of allowed characters unchanged. |
| Builder.AllowedOfClean | ClientBuilder/src/Program.cs:19-20 | A name without '-' and '.' is its own allowed-character sequence. |
| Builder.RemoveForbiddenCharsIsFilter | ClientBuilder/src/Program.cs:19-20 | Stripping equals the order-preserving filter "neither '-' nor '.'". |
| Builder.RemoveForbiddenCharsIdempotent | ClientBuilder/src/Program.cs:19-20 | Stripping is idempotent. |
| Builder.CsName | ClientBuilder/src/Program.cs:36 | The method name is the operation name filtered of '-' and '.', in order. |
| Builder.CsRequestType | ClientBuilder/src/Program.cs:37 | The parameter type is the request type filtered of '-' and '.', in order. |
| Builder.ResponseTypeTask | ClientBuilder/src/Program.cs:38-39 | The result type is "Task" exactly when there is no response type. Otherwise it is `Task<X>`, where X is the response type filtered of '-' and '.' in order. |
| Builder.BaseMethod | ClientBuilder/src/Program.cs:40-41 | The target is "ExecuteAsync" exactly when there is no response type. Otherwise it is `ExecuteAsync<X>`, where X is the response type filtered of '-' and '.' in order. |
| Builder.ResultMatchesDispatch | ClientBuilder/src/Program.cs:38-41 | The result type and the dispatch target carry the same type argument. |
| Builder.PrefixLines | ClientBuilder/src/Program.cs:35 | After the replacement, every newline is followed by "///". |
| Builder.PrefixedAppend | ClientBuilder/src/Program.cs:35 | Two pieces whose newlines are each followed by "///" stay so when put together. |
| Builder.CsXmlDocComment | ClientBuilder/src/Program.cs:35 | An operation's doc comment starts with "///", and every newline in it is followed by "///". |
| Builder.UnprefixPrefix | ClientBuilder/src/Program.cs:35 | Removing the "///" after each newline undoes the replacement. |
| Builder.DocCommentRoundTrip | ClientBuilder/src/Program.cs:60 | The endpoint's (and any operation's) documentation reads back unchanged from its doc comment. |
| Builder.PerOperation | ClientBuilder/src/Program.cs:104-124 | There is one extraction result per `portType/operation` element. |
| Builder.ParseWsdl | ClientBuilder/src/Program.cs:81-127 | The lookups followed by the operation loop compute exactly `ExtractEndpoint`, failure included. |
| Builder.ExtractedEndpoint | ClientBuilder/src/Program.cs:91-126 | An extracted endpoint has the root's `name`, the `wsdl:documentation` text and the schema version. It has one operation per `portType/operation`, in document order. |
| Builder.ExtractOperationsFirstFailure | ClientBuilder/src/Program.cs:104-124 | A failing extraction fails with the error of the first failing operation, and every earlier operation succeeds. |
| Builder.VersionSpec | ClientBuilder/src/Program.cs:93-97 | The version is `wd:fixed` of the single `xsd:attribute` named `version`. Zero or several such attributes fail. |
| Builder.RequestMessageCardinality | ClientBuilder/src/Program.cs:110-112 | The input message named by the stripped `input/@message` must match once. Zero or several matches fail. |
| Builder.RequestBodyPart | ClientBuilder/src/Program.cs:110-115 | The request type is the stripped `element` of the unique `body` part. Zero or several parts fail. |
| Builder.ResponseMessageCardinality | ClientBuilder/src/Program.cs:117-118 | The output message must match exactly once. |
| Builder.ResponseBodyPart | ClientBuilder/src/Program.cs:117-121 | No `body` part gives a null response type, one gives its stripped `element`, and two or more fail. |
| Builder.ExtractVersion | ClientBuilder/src/Program.cs:93-97 | A missing `types` element fails with MissingElement; a version is found only under `types/schema`. |
| Builder.RequestType | ClientBuilder/src/Program.cs:110-115 | A missing `input` element fails with MissingElement; a request type is found only through the `message` reference of `input`. |
| Builder.ResponseType | ClientBuilder/src/Program.cs:117-121 | A missing `output` element fails with MissingElement, so `output` is required; a response is found only through its `message` reference. |
| Builder.ExtractOperation | ClientBuilder/src/Program.cs:106-123 | An extracted operation carries the element's `name`, the value of its `wsdl:documentation` child, its request type and its response type. An operation with a name but no `wsdl:documentation` fails with MissingElement. |
| Builder.ExtractEndpoint | ClientBuilder/src/Program.cs:91-126 | A successful extraction carries the root's `name` and the schema version, and the document has a `portType`; ExtractedEndpoint and ParseWsdl give the rest. |
| Builder.OneWayOperation | ClientBuilder/src/Program.cs:38-41 | An operation without a response type generates `Task` over `ExecuteAsync`. |
| WwsDefaults.Wd | Core/src/WwsRequest.cs:31 | A Workday name lies in `urn:com.workday/bsvc` and has the given local name. |
| WwsRequest.ResponseFilter | Core/src/WwsRequest.cs:35-38 | `Response_Filter` holds `Page` then `Count`; ResponseFilterRoundTrip reads the integers back. |
| WwsRequest.FilterRequested | Core/src/WwsRequest.cs:41 | Filtering is not requested when the id type is null, the values are null, or the values are empty. |
| WwsRequest.Request | Core/src/WwsRequest.cs:34-68 | The request fails iff filtering is requested without a list slot; otherwise it is `wd:{TRequest}` whose first child is the response filter, with at most one more child. |
| WwsRequest.RequestReferences | Core/src/WwsRequest.cs:59-68 | The references block has one child per value. |
| WwsRequest.Create | Core/src/WwsRequest.cs:28-72 | The general overload builds exactly `Request(...)`: the filter first, then the references or the failure. |
| WwsRequest.CreateForReferences | Core/src/WwsRequest.cs:16-26 | Both reference-only overloads are the general one with page 1 and count 100. |
| WwsRequest.ResponseFilterRoundTrip | Core/src/WwsRequest.cs:34-39 | `Response_Filter` reads back as the page and count it was built from. |
| WwsRequest.RequestReferencesEntries | Core/src/WwsRequest.cs:59-68 | Each entry is a `{slot}` whose `ID` has `type = referenceIdType` and the value as text. |
| WwsRequest.RequestReferencesRoundTrip | Core/src/WwsRequest.cs:59-68 | The references block reads back as exactly the supplied values, in order. |
| WwsRequest.CreateFailure | Core/src/WwsRequest.cs:41-57 | Create fails iff filtering is requested and the type has no list slot. The error names the type. |
| WwsRequest.CreateShape | Core/src/WwsRequest.cs:34-41 | The root is `wd:{TRequest}` and starts with the filter holding page and count. A references child follows iff filtering was requested. |
| WwsRequest.CreateReferences | Core/src/WwsRequest.cs:59-68 | With a slot and values, the second child is the references block, and it reads back as the values. |
| WwsRequest.EmptyValuesAreNoFilter | Core/src/WwsRequest.cs:41 | An empty value list, or a null id type with any value list, adds no references: the request equals the unfiltered one. |
| WwsRequest.CountNotCapped | Core/src/WwsRequest.cs:14 | For every page and every count above `MaxItems`, the request succeeds and its filter reads back as that page and count. |
| WwsReference.From | Core/src/WwsReference.cs:12-23 | The result is an un-namespaced `ref` with one `wd:ID` child. That child has `wd:type = type` and the value as its text. Any strings are accepted. |
| WwsReference.FromParent | Core/src/WwsReference.cs:25-38 | As `From`, and the same `ID` also carries `wd:parent_type` and `wd:parent_id`. |
| WwsReference.FromParentExtendsFrom | Core/src/WwsReference.cs:15-35 | The two forms differ only in the two parent attributes placed before `wd:type`. |
| ValidationHelper.EnsureNonNull | Core/src/Internal/ValidationHelper.cs:11-15 | The guard passes iff the value is non-null. Otherwise it throws InvalidOperationException "{paramName} must not be null!". |
| Client.CheckConfiguration | Core/src/WwsClient.cs:28-34 | Validation passes iff all four settings are set. Otherwise it fails on the first missing one, in the order Host, UserName, Tenant, Password. |
| Client.Configuration.Validate | Core/src/WwsClient.cs:28-34 | The four guards in order compute `CheckConfiguration` and change nothing. |
| Client.Configuration.constructor | Core/src/WwsClient.cs:21-26 | A new configuration has all four settings null. |
| Client.BaseAddress | Core/src/WwsClient.cs:49 | The address starts with "https://" and ends with the version; BaseAddressSegments splits it back into its parts. |
| Client.Split | Core/src/WwsClient.cs:49 | Splitting gives at least one piece. |
| Client.IndexOfAfter | Core/src/WwsClient.cs:49 | The first separator after a separator-free prefix sits right after that prefix. |
| Client.SplitJoin | Core/src/WwsClient.cs:49 | Splitting undoes joining when no part contains the separator. |
| Client.SplitAt | Core/src/WwsClient.cs:49 | Splitting after a separator-free piece yields that piece, then the split of the rest. |
| Client.JoinAddressTail | Core/src/WwsClient.cs:49 | The last three address segments join to `{tenant}/{endpoint}/{version}`. |
| Client.BaseAddressIsJoin | Core/src/WwsClient.cs:49 | The base address is its eight segments joined with '/'. |
| Client.BaseAddressSegments | Core/src/WwsClient.cs:49 | For slash-free parts, the base address splits back into https:, "", host, ccx, service, tenant, endpoint, version. |
| Client.FirstBodyChild | Core/src/WwsClient.cs:104 | It fails iff there is no `Body`. Otherwise the result is null iff the Body is empty, and is the Body's first element otherwise. |
| Client.BuildFullRequest | Core/src/WwsClient.cs:65-81 | The document is an `Envelope` whose Body's first element is the request; EnvelopeReadBack reads back the rest. |
| Client.EnvelopeReadBack | Core/src/WwsClient.cs:65-81 | The envelope is `Envelope(Header, Body)`. The token holds "{user}@{tenant}" and the password. The common header has `Include_Reference_Descriptors_In_Response = true`. The Body holds exactly the request. |
| Client.PostRequest | Core/src/WwsClient.cs:97-111 | The reply handling computes exactly `PostDecision`; the fault branch decodes through `Faults.Decode`. |
| Client.PostDecision | Core/src/WwsClient.cs:97-111 | A reply succeeds only when it is `text/xml` with a success status, and an element returned is a child of the reply's Body. |
| Client.NonXmlReplyFails | Core/src/WwsClient.cs:97-111 | A reply that is not `text/xml` fails with "Unexpected WWS Response Content-Type: {type}", whatever its status. |
| Client.FailedXmlReplyRaisesFault | Core/src/WwsClient.cs:103-106 | A `text/xml` failure raises the fault decoded from the document. |
| Client.SuccessfulXmlReply | Core/src/WwsClient.cs:103-104 | A `text/xml` success yields the Body's first element or null. It fails only without a Body. |
| Client.EchoedEnvelope | Core/src/WwsClient.cs:65-104 | A success reply shaped like the request envelope gives back exactly the request element. |
| Client.WwsClient.constructor | Core/src/WwsClient.cs:43-50 | The client keeps the given configuration and the base address formed from host, tenant, endpoint and version. |
| Client.WwsClient.Open | Core/src/WwsClient.cs:43-50 | A configuration that fails validation yields no client, and the error is the validation's. Otherwise the client has the base address. |
| Client.WwsClient.ExecuteAsync | Core/src/WwsClient.cs:55-63 | A null request fails with ArgumentNullException("request") before anything is built. Otherwise the reply to the envelope built from the current settings is classified by `PostDecision`. |
| Faults.FirstValue | Core/src/WwsException.cs:31-33 | The result is null iff the document has no descendant of that name. |
| Faults.ChildValue | Core/src/WwsException.cs:40-42 | The result is null iff the element has no child of that name. |
| Faults.Retained | Core/src/WwsException.cs:38-46 | The loop keeps at most one entry per `Validation_Error` element. |
| Faults.FaultOf | Core/src/WwsException.cs:31-48 | The fault code is null iff the document has no `faultcode`, and there are no more errors than `Validation_Error` elements. |
| Faults.Decode | Core/src/WwsException.cs:27-49 | The constructor's lookups and filtering loop compute exactly `FaultOf(document)`. |
| Faults.FaultOfFields | Core/src/WwsException.cs:31-35 | The message is the first `faultstring`'s text, or the default when there is none. The fault code is the first `faultcode`'s text, or null. There are no more errors than `Validation_Error` elements. |
| Faults.RetainedAllComplete | Core/src/WwsException.cs:38-46 | When every element is complete, each one gives its own entry, in document order. |
| Faults.RetainedAppend | Core/src/WwsException.cs:38-46 | Filtering distributes over concatenation, so document order is kept. |
| Faults.RetainedSkip | Core/src/WwsException.cs:44 | An incomplete element adds nothing. |
| Faults.IncompleteDropped | Core/src/WwsException.cs:44 | Removing an incomplete element changes nothing, so it is dropped entirely. |
| Faults.RetainedFromComplete | Core/src/WwsException.cs:16-45 | Every retained entry is the verbatim three texts of some complete element. |
| Wrappers.CollectSpec | ClientBuilder/src/Program.cs:102-124 | Collecting succeeds iff every result does, and keeps their values in order. |
| Wrappers.CollectFirstFailure | ClientBuilder/src/Program.cs:102-124 | A failed collection carries the first failure's error. |
| Wrappers.CollectPrefixFailure | ClientBuilder/src/Program.cs:102-124 | Once a prefix fails, the whole loop fails the same way. |
| Wrappers.CollectStep | ClientBuilder/src/Program.cs:104-124 | One more loop step after a successful prefix appends the next value, or stops with the next result's error. |
| Wrappers.Collect | ClientBuilder/src/Program.cs:102-124 | A successful collection has one value per result. |

## Left out

- `Program.Main` and `GetTemplateAsync` are not modelled: argument handling, file reading and writing, console output and Handlebars rendering are I/O.
- `ParseWsdlAsync`'s file opening and XML parsing are not modelled. The model starts from the root element of the parsed document, so a malformed file is not modelled.
- `ConvertTo<T>` is reflection over the generated XML-binding types. `Create`, `From` and `FromParent` return the element handed to it, and the conversion's failures are not modelled.
- The reflection in `WwsRequest.Create` is replaced by the request type's optional `referencesSlot`. The runtime's own failure when `Request_References` has two or more enumerable properties (from `SingleOrDefault`) is not modelled.
- `WwsRequest.Create`: `referenceIdValues` is a finite sequence. An enumerable that gives different items on its second enumeration (after `Any()`) is not modelled.
- The HTTP transport is the function parameter `post`. Serialisation of the envelope, streams, `async`, `Dispose` and the optional injected `HttpClient` are not modelled.
- Client.WwsClient.Open: `new Uri(...)` can reject a host or tenant that does not form a valid URI. The model only forms the string, so that `UriFormatException` is not captured.
- Client.PostDecision: a `text/xml` reply that is not well-formed XML would throw while loading. Replies are given as parsed documents, so that failure is not captured.
- `ExecuteAsync<T>` is the generic overload that converts the result with `ConvertTo<T>`. It is left out with the conversion.
- XmlTree.Value joins an element's own text and then its children's values. The interleaving of text and child elements in mixed content is not kept, so mixed-content documentation reads in a different order: for `<documentation>xy<b>B</b>z</documentation>` .NET gives "xyBz", while the model, holding the text "xyz" and the child, gives "xyzB".
- Concurrent `ExecuteAsync` calls, and changes to the shared `Configuration` during a call, are not modelled. Later calls do see changes made between calls, because the client keeps the configuration object itself.
- `Core/src/Helpers.cs` is not part of this model: it holds an older revision of `WwsException`, and its `WwsDefaults.Version` comes from assembly metadata. `Core/src/Internal/XHelper.cs`, `Core/src/Internal/XElementExtensions.cs` and the element and attribute constructors of `ClientBuilder/src/XHelper.cs` are not part of this model either: the tree datatype replaces them.

Two behaviours of the code worth knowing:
- `TrimNs` removes only up to the first colon, so it is idempotent exactly on names with at most one colon (`XHelper.TrimNsIdempotent`, `XHelper.TrimNsIdempotentOnlyIf`, `XHelper.TrimNsNotIdempotent`).
- The generator reads `output` for every operation (`ClientBuilder/src/Program.cs:117`), so an operation without one fails with `MissingElement` (`Builder.ResponseType`). WSDL 1.1 itself allows such one-way operations. Only the `body` part of an existing output message is optional.
