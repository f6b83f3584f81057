/** The body dispatcher `parseRequestBody` (index.mjs): an empty body gives
    `undefined`; otherwise the first Content-Type prefix that matches picks
    JSON, form or text decoding, and any other type keeps the raw bytes.
    UTF-8 decoding (`TextDecoder`) and percent-decoding are parameters;
    `JSON.parse` is not modelled and its input text is kept. */
module Body {
  import opened Text
  import opened Uri
  import opened Forms

  newtype byte = x: int | 0 <= x < 256

  /** UTF-8 decoding of the body bytes (`new TextDecoder().decode`). */
  type Utf8 = seq<byte> -> string

  datatype Body =
    | Absent                 // `undefined`
    | JsonBody(text: string) // the text given to `JSON.parse`
    | FormBody(form: FormResult)
    | TextBody(text: string)
    | Raw(bytes: seq<byte>)

  const JsonType := "application/json"
  const FormType := "application/x-www-form-urlencoded"
  const TextType := "text"

  /** `parseRequestBody`: each kind of result comes from exactly one
      condition on the body and the Content-Type. */
  function ParseRequestBody(body: seq<byte>, contentType: string, utf8: Utf8, decode: Decoder): (r: Body)
    ensures r.Absent? <==> |body| == 0
    ensures r.JsonBody? <==> |body| > 0 && StartsWith(contentType, JsonType)
    ensures r.FormBody? <==>
      |body| > 0 && !StartsWith(contentType, JsonType) && StartsWith(contentType, FormType)
    ensures r.TextBody? <==>
      |body| > 0 && !StartsWith(contentType, JsonType) && !StartsWith(contentType, FormType) &&
      StartsWith(contentType, TextType)
    ensures r.JsonBody? || r.TextBody? ==> r.text == utf8(body)
    ensures r.FormBody? ==> r.form == FormDataOf(utf8(body), decode)
    ensures r.Raw? ==> r.bytes == body
  {
    if |body| == 0 then Absent
    else if StartsWith(contentType, JsonType) then JsonBody(utf8(body))
    else if StartsWith(contentType, FormType) then FormBody(FormDataOf(utf8(body), decode))
    else if StartsWith(contentType, TextType) then TextBody(utf8(body))
    else Raw(body)
  }

  /** No Content-Type starts with two of the three prefixes, so the order
      of the tests never decides the branch. */
  lemma PrefixesExclusive(contentType: string)
    ensures !(StartsWith(contentType, JsonType) && StartsWith(contentType, FormType))
    ensures !(StartsWith(contentType, JsonType) && StartsWith(contentType, TextType))
    ensures !(StartsWith(contentType, FormType) && StartsWith(contentType, TextType))
  {
    assert JsonType[12] != FormType[12];
    assert JsonType[0] == FormType[0] != TextType[0];
  }

  /** A non-empty body is dispatched on its Content-Type alone: one and only
      one of the four non-empty kinds applies. */
  lemma BranchByPrefix(body: seq<byte>, contentType: string, utf8: Utf8, decode: Decoder)
    requires |body| > 0
    ensures var r := ParseRequestBody(body, contentType, utf8, decode);
      (r.JsonBody? <==> StartsWith(contentType, JsonType)) &&
      (r.FormBody? <==> StartsWith(contentType, FormType)) &&
      (r.TextBody? <==> StartsWith(contentType, TextType)) &&
      (r.Raw? <==> !StartsWith(contentType, JsonType) && !StartsWith(contentType, FormType) &&
                   !StartsWith(contentType, TextType))
  {
    PrefixesExclusive(contentType);
  }
}
