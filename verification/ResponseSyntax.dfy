/** A response as a value, the calls that build it, and the bytes it is rendered to. */
module ResponseSyntax {
  import opened CStrings
  import opened Fields

  /** The content of `struct http_response`; a missing description is an empty one. */
  datatype Response = Response(code: nat, description: Text, fields: seq<Field>, body: Text)

  const CODE_MAX: nat := 10
  const CONTENT_LENGTH: CString := [67, 111, 110, 116, 101, 110, 116, 45, 76, 101, 110, 103, 116, 104]
  const ZERO: CString := [48]
  const HTTP_VERSION: Text := [72, 84, 84, 80, 47, 49, 46, 49]

  /** The table of `get_representative_state_code`, by `enum http_response_code`. */
  function StatusNumber(code: nat): nat
    requires code < CODE_MAX
  {
    [200, 204, 206, 301, 400, 403, 404, 500, 501, 505][code]
  }

  /** `sprintf("%03d", n)` */
  function PaddedDecimal(n: nat): (r: Text)
    ensures |r| >= 3
  {
    var d := Decimal(n);
    if |d| == 1 then [48, 48] + d else if |d| == 2 then [48] + d else d
  }

  /** The three bytes that the renderer takes from `get_representative_state_code`. */
  function StatusText(code: nat): (r: Text)
    ensures |r| == 3
  {
    PaddedDecimal(if code < CODE_MAX then StatusNumber(code) else code)[..3]
  }

  /** `get_default_description` */
  function DefaultDescription(code: nat): Option<Text> {
    match code
    case 0 => Some(Ascii("OK"))
    case 1 => Some(Ascii("No Content"))
    case 2 => Some(Ascii("Partial Content"))
    case 3 => Some(Ascii("Moved Permanently"))
    case 4 => Some(Ascii("Bad Request"))
    case 5 => Some(Ascii("Forbidden"))
    case 6 => Some(Ascii("Not Found"))
    case 7 => Some(Ascii("Internal Server Error"))
    case 8 => Some(Ascii("Not Implemented"))
    case 9 => Some(Ascii("HTTP Version Not Supported"))
    case _ => None
  }

  // ---------------------------------------------------------------- the calls

  /** A call on a response; `Render` stands for `http_response_render` with any buffer. */
  datatype Call =
    | SetCode(code: nat, description: Option<CString>)
    | SetHeader(key: CString, value: CString)
    | SetBody(body: Text)
    | Render

  /** What rendering does to the response: a missing body is announced as such. */
  function Finalized(r: Response): Response {
    if r.body == [] then r.(fields := Set(r.fields, CONTENT_LENGTH, ZERO)) else r
  }

  function Apply(r: Response, c: Call): Response {
    match c
    case SetCode(code, description) =>
      var text := if description.Some? then description.value else DefaultDescription(code).GetOr([]);
      r.(code := code, description := text)
    case SetHeader(key, value) => r.(fields := Set(r.fields, key, value))
    case SetBody(body) => r.(body := body, fields := Set(r.fields, CONTENT_LENGTH, Decimal(|body|)))
    case Render => Finalized(r)
  }

  function ApplyAll(r: Response, cs: seq<Call>): Response
    decreases |cs|
  {
    if cs == [] then r else ApplyAll(Apply(r, cs[0]), cs[1..])
  }

  // ---------------------------------------------------------------- the bytes

  /** One header line as `http_response_render` writes it, without its CRLF. */
  function LineOf(f: Field): Text {
    f.key + [COLON, SPACE] + f.value
  }

  /** The header block that `http_response_render` writes. */
  function Block(l: seq<Field>): Text {
    if l == [] then [] else LineOf(l[0]) + CRLF + Block(l[1..])
  }

  function StatusLine(r: Response): Text {
    HTTP_VERSION + [SPACE] + StatusText(r.code) + if r.description == [] then [] else [SPACE] + r.description
  }

  function Rendered(r: Response): Text {
    StatusLine(r) + CRLF + (Block(r.fields) + (CRLF + r.body))
  }
}
