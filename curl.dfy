/**
 * `generateCurl`: assemble the command line `curl -X <METHOD>`, then the
 * header segments, then the quoted URL, then the optional `-d` segment.
 *
 * The request's method, resolved URL, header entries and declared content
 * type (`request.contentType()?.contentType`) are inputs: they come from
 * Ktor and are not part of this model.
 */
module Curl {
  import opened Wrappers
  import opened Text
  import opened Headers
  import opened Body

  // ---------------------------------------------------------------------
  // Specification: the command as a concatenation of segments

  function Prefix(httpMethod: string): string
  {
    "curl -X " + httpMethod
  }

  /** The segment `onEachHeader` appends: ` -H "<key>: <v1; v2; …>"`. */
  function HeaderSegment(key: string, values: seq<string>): string
  {
    " -H \"" + key + ": " + Join(values, "; ") + "\""
  }

  /** The segment the fallback appends: a Content-Type header when the declared type is not blank. */
  function FallbackSegment(declared: Option<string>): string
  {
    var contentType := declared.GetOr("");
    if IsBlank(contentType) then "" else " -H \"Content-Type: " + contentType + "\""
  }

  /** What one callback of `onHeaders` appends. */
  function EventText(e: Event, declared: Option<string>): string
  {
    match e
    case EmitHeader(key, values) => HeaderSegment(key, values)
    case NoContentType => FallbackSegment(declared)
  }

  /** What a trace of callbacks appends, in order. */
  function HeadersText(events: seq<Event>, declared: Option<string>): string
  {
    if |events| == 0 then "" else EventText(events[0], declared) + HeadersText(events[1..], declared)
  }

  function UrlSegment(url: string): string
  {
    " \"" + url + "\""
  }

  /** What `onRequestBody`'s callback appends: ` -d '<body>'`, or nothing. */
  function DataSegment(body: RequestBody): string
  {
    match OnRequestBody(body)
    case Some(b) => " -d '" + b + "'"
    case None => ""
  }

  /** The command `generateCurl` builds. */
  function CurlCommand(httpMethod: string, url: string, entries: seq<Entry>, excluded: set<string>,
                       masked: set<string>, declared: Option<string>, body: RequestBody): string
  {
    Prefix(httpMethod)
      + HeadersText(HeaderEvents(entries, excluded, masked), declared)
      + UrlSegment(url)
      + DataSegment(body)
  }

  // ---------------------------------------------------------------------
  // The builder

  /**
   * `generateCurl`: appends to one growing string, replaying the callbacks
   * of `onHeaders` in the order they fire.
   */
  method GenerateCurl(httpMethod: string, url: string, entries: seq<Entry>, excluded: set<string>,
                      masked: set<string>, declared: Option<string>, body: RequestBody)
    returns (curl: string)
    ensures curl == CurlCommand(httpMethod, url, entries, excluded, masked, declared, body)
  {
    curl := "curl -X " + httpMethod;
    var events := OnHeaders(entries, excluded, masked);
    var i := 0;
    while i < |events|
      invariant 0 <= i <= |events|
      invariant curl == Prefix(httpMethod) + HeadersText(events[..i], declared)
    {
      HeadersTextStep(events, i, declared);
      ConcatAssoc(Prefix(httpMethod), HeadersText(events[..i], declared), EventText(events[i], declared));
      ghost var before := curl;
      match events[i] {
        case EmitHeader(key, values) =>
          curl := curl + (" -H \"" + key + ": " + Join(values, "; ") + "\"");
        case NoContentType =>
          var contentType := declared.GetOr("");
          if !IsBlank(contentType) {
            curl := curl + (" -H \"Content-Type: " + contentType + "\"");
          }
      }
      assert curl == before + EventText(events[i], declared);
      i := i + 1;
    }
    assert events[..i] == events;
    ghost var headed := curl;
    curl := curl + (" \"" + url + "\"");
    assert curl == headed + UrlSegment(url);
    ghost var located := curl;
    var found := OnRequestBody(body);
    if found.Some? {
      curl := curl + (" -d '" + found.value + "'");
    }
    assert curl == located + DataSegment(body);
  }

  // ---------------------------------------------------------------------
  // Properties of the command

  lemma ConcatAssoc(a: string, b: string, c: string)
    ensures (a + b) + c == a + (b + c)
  {
  }

  lemma {:induction false} HeadersTextAppend(a: seq<Event>, b: seq<Event>, declared: Option<string>)
    ensures HeadersText(a + b, declared) == HeadersText(a, declared) + HeadersText(b, declared)
  {
    if |a| > 0 {
      assert (a + b)[0] == a[0];
      assert (a + b)[1..] == a[1..] + b;
      HeadersTextAppend(a[1..], b, declared);
    } else {
      assert a + b == b;
    }
  }

  lemma HeadersTextStep(events: seq<Event>, i: nat, declared: Option<string>)
    requires i < |events|
    ensures HeadersText(events[..i + 1], declared) == HeadersText(events[..i], declared) + EventText(events[i], declared)
  {
    assert events[..i + 1] == events[..i] + [events[i]];
    HeadersTextAppend(events[..i], [events[i]], declared);
  }

  /**
   * The command is laid out in a fixed order: `curl -X <METHOD>`, one header
   * segment per surviving entry in entry order, the fallback segment when no
   * surviving entry is named "Content-Type", the quoted URL, and the `-d`
   * segment.
   */
  lemma CommandLayout(httpMethod: string, url: string, entries: seq<Entry>, excluded: set<string>,
                      masked: set<string>, declared: Option<string>, body: RequestBody)
    ensures var kept := Surviving(entries, excluded);
      CurlCommand(httpMethod, url, entries, excluded, masked, declared, body)
        == Prefix(httpMethod)
           + HeadersText(Emitted(kept, masked), declared)
           + (if HasContentType(kept) then "" else FallbackSegment(declared))
           + UrlSegment(url)
           + DataSegment(body)
  {
    var kept := Surviving(entries, excluded);
    var tail: seq<Event> := if HasContentType(kept) then [] else [NoContentType];
    var fallback := if HasContentType(kept) then "" else FallbackSegment(declared);
    HeadersTextAppend(Emitted(kept, masked), tail, declared);
    assert HeadersText(tail, declared) == fallback;
    assert HeaderEvents(entries, excluded, masked) == Emitted(kept, masked) + tail;
    ConcatAssoc(Prefix(httpMethod), HeadersText(Emitted(kept, masked), declared), fallback);
  }

  /** The header part renders each emitted header as its own `-H` segment, in entry order. */
  lemma {:induction false} EmittedText(kept: seq<Entry>, masked: set<string>, declared: Option<string>)
    ensures |kept| == 0 ==> HeadersText(Emitted(kept, masked), declared) == ""
    ensures |kept| > 0 ==>
      HeadersText(Emitted(kept, masked), declared)
        == HeaderSegment(kept[0].0, Present(kept[0], masked).values) + HeadersText(Emitted(kept[1..], masked), declared)
  {
    if |kept| > 0 {
      assert Emitted(kept, masked)[1..] == Emitted(kept[1..], masked);
    }
  }

  /** The synthesized segment is a single-valued Content-Type header, present only for a non-blank declared type. */
  lemma FallbackSegmentShape(declared: Option<string>)
    ensures var t := declared.GetOr("");
      FallbackSegment(declared) == (if IsBlank(t) then "" else HeaderSegment(ContentTypeName, [t]))
  {
  }

  /** The `-d` segment is present exactly when the rendered body is not blank. */
  lemma DataSegmentIff(body: RequestBody)
    ensures DataSegment(body) == (if IsBlank(RenderBody(body)) then "" else " -d '" + RenderBody(body) + "'")
  {
  }

  /** A multipart body always yields the omission placeholder, never its parts. */
  lemma MultipartData(parts: seq<(string, string)>)
    ensures DataSegment(MultiPartFormDataContent(parts)) == " -d '" + OmittedBody + "'"
  {
  }

  /**
   * With no headers, no declared content type and a blank body, the command
   * is just `curl -X <METHOD> "<url>"`.
   */
  lemma NoHeadersNoBody(httpMethod: string, url: string, excluded: set<string>, masked: set<string>,
                        declared: Option<string>, body: RequestBody)
    requires IsBlank(declared.GetOr(""))
    requires IsBlank(RenderBody(body))
    ensures CurlCommand(httpMethod, url, [], excluded, masked, declared, body) == Prefix(httpMethod) + UrlSegment(url)
  {
    assert HeaderEvents([], excluded, masked) == [NoContentType];
    assert HeadersText([NoContentType], declared) == "";
  }

  /**
   * With no surviving Content-Type entry and a non-blank declared type, the
   * synthesized Content-Type header stands once, after the emitted headers
   * and before the URL.
   */
  lemma MissingContentTypeSynthesized(httpMethod: string, url: string, entries: seq<Entry>, excluded: set<string>,
                                      masked: set<string>, declared: Option<string>, body: RequestBody)
    requires !HasContentType(Surviving(entries, excluded))
    requires declared.Some? && !IsBlank(declared.value)
    ensures CurlCommand(httpMethod, url, entries, excluded, masked, declared, body)
      == Prefix(httpMethod)
         + HeadersText(Emitted(Surviving(entries, excluded), masked), declared)
         + HeaderSegment(ContentTypeName, [declared.value])
         + UrlSegment(url)
         + DataSegment(body)
    ensures FallbackCount(HeaderEvents(entries, excluded, masked)) == 1
  {
    CommandLayout(httpMethod, url, entries, excluded, masked, declared, body);
    FallbackSegmentShape(declared);
    FallbackOnce(entries, excluded, masked);
  }

  /** The command always starts with "curl", so it is never blank and is always logged. */
  lemma CommandNeverBlank(httpMethod: string, url: string, entries: seq<Entry>, excluded: set<string>,
                          masked: set<string>, declared: Option<string>, body: RequestBody)
    ensures !IsBlank(CurlCommand(httpMethod, url, entries, excluded, masked, declared, body))
  {
    var cmd := CurlCommand(httpMethod, url, entries, excluded, masked, declared, body);
    assert cmd[0] == Prefix(httpMethod)[0] == 'c';
    NotBlankByFirst(cmd);
  }

  /**
   * An excluded Content-Type header does not suppress the fallback: the
   * fallback still fires and emits the declared type, which Ktor reads from
   * that same header.
   */
  lemma ExcludedContentTypeStillSynthesized(httpMethod: string, url: string, values: seq<string>,
                                            masked: set<string>, declared: Option<string>, body: RequestBody)
    requires declared.Some? && !IsBlank(declared.value)
    ensures CurlCommand(httpMethod, url, [(ContentTypeName, values)], {ContentTypeName}, masked, declared, body)
      == Prefix(httpMethod) + HeaderSegment(ContentTypeName, [declared.value]) + UrlSegment(url) + DataSegment(body)
  {
    var entries: seq<Entry> := [(ContentTypeName, values)];
    assert Surviving(entries, {ContentTypeName}) == [];
    assert !HasContentType([]);
    MissingContentTypeSynthesized(httpMethod, url, entries, {ContentTypeName}, masked, declared, body);
    assert HeadersText(Emitted([], masked), declared) == "";
    assert Prefix(httpMethod) + "" == Prefix(httpMethod);
  }

  // ---------------------------------------------------------------------
  // Worked examples (the URL is left symbolic)

  lemma ExampleGetNoHeaders(url: string)
    ensures CurlCommand("GET", url, [], {}, {}, None, EmptyContent) == "curl -X GET" + UrlSegment(url)
  {
    NoHeadersNoBody("GET", url, {}, {}, None, EmptyContent);
  }

  /** A non-blank string body gives the `-d` segment after the URL. */
  lemma ExamplePostBody(url: string)
    ensures CurlCommand("POST", url, [], {}, {}, None, StringBody("key=value"))
      == "curl -X POST" + UrlSegment(url) + " -d 'key=value'"
  {
    assert HeaderEvents([], {}, {}) == [NoContentType];
    assert HeadersText([NoContentType], None) == "";
    KeyValueData();
  }

  /** An excluded header leaves no trace; a non-blank string body gives the `-d` segment. */
  lemma ExamplePostBodyExcludedHeader(url: string)
    ensures CurlCommand("POST", url, [("Authorization", ["Bearer token"])], {"Authorization"}, {}, None, StringBody("key=value"))
      == "curl -X POST" + UrlSegment(url) + " -d 'key=value'"
  {
    var entries: seq<Entry> := [("Authorization", ["Bearer token"])];
    assert Surviving(entries, {"Authorization"}) == [];
    assert HeaderEvents(entries, {"Authorization"}, {}) == [NoContentType];
    assert HeadersText([NoContentType], None) == "";
    KeyValueData();
  }

  lemma KeyValueData()
    ensures DataSegment(StringBody("key=value")) == " -d 'key=value'"
  {
    NotBlankByFirst("key=value");
    assert OnRequestBody(StringBody("key=value")) == Some("key=value");
  }

  /** Two values of one header are joined with "; " in insertion order. */
  lemma ExampleMultipleValues()
    ensures HeaderSegment("Accept", ["application/json", "text/html"])
      == " -H \"Accept: " + "application/json; text/html" + "\""
  {
    assert Join(["application/json", "text/html"], "; ") == "application/json; text/html";
  }
}
