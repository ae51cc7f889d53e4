/**
 * `Any.onRequestBody`: classify the request body, render it as a string,
 * and hand that string on only when it is not blank.
 */
module Body {
  import opened Text
  import opened Wrappers

  /**
   * The body kinds the formatter tells apart. Text and byte-array contents
   * carry their bytes already decoded as UTF-8; an unknown object carries
   * the result of its `toString()`.
   */
  datatype RequestBody =
    | TextContent(decoded: string)
    | ByteArrayContent(decoded: string)
    | EmptyContent
    | MultiPartFormDataContent(parts: seq<(string, string)>)
    | StringBody(text: string)
    | OtherBody(repr: string)

  const OmittedBody: string := "[request body omitted]"

  /** The `when` classification: the string a body is rendered as. */
  function RenderBody(body: RequestBody): string
  {
    match body
    case TextContent(decoded) => decoded
    case ByteArrayContent(decoded) => decoded
    case EmptyContent => ""
    case MultiPartFormDataContent(_) => OmittedBody
    case StringBody(text) => text
    case OtherBody(repr) => repr
  }

  /**
   * `onRequestBody`: the string passed to `onBodyFound`, or `None` when the
   * callback is not called.
   */
  function OnRequestBody(body: RequestBody): (found: Option<string>)
    ensures found.Some? ==> !IsBlank(found.value)
    ensures body.EmptyContent? ==> found == None
    ensures body.MultiPartFormDataContent? ==> found == Some(OmittedBody)
    ensures (body.TextContent? || body.ByteArrayContent?) ==>
      found == (if IsBlank(body.decoded) then None else Some(body.decoded))
    ensures body.StringBody? ==> found == (if IsBlank(body.text) then None else Some(body.text))
    ensures body.OtherBody? ==> found == (if IsBlank(body.repr) then None else Some(body.repr))
  {
    var rendered := RenderBody(body);
    assert OmittedBody[0] == '[';
    if !IsBlank(rendered) then Some(rendered) else None
  }
}
