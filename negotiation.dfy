/**
  What `respond_to` (src/lib.rs) decides for a payload, header by header:
  the `Content-Disposition`, `Content-Type` and `Content-Length` values,
  the body, and whether the result is an error.

  The foreign pieces come in through `Env`: the percent-encoder of
  `url_escape`, the extension table of `mime_guess` and the outcome of
  adapting a `TempFile` into a reader. The header values are built from
  what they return. No property proved about `Respond` assumes anything
  of `guessMime` or `tempFileReader` beyond their signatures, nor of
  `encodeComponent` except in the round-trip lemmas of `Properties`
  (`ExplicitNameRoundTrips`, `PathNameRoundTrips`, `ReportPdf`), which fix
  it to the `UrlEscape` encoder.
 */
module Negotiation {
  import opened Wrappers
  import opened Primitives
  import opened Payload
  import Paths
  import Decimal

  const CONTENT_DISPOSITION: string := "Content-Disposition"
  const CONTENT_TYPE: string := "Content-Type"
  const CONTENT_LENGTH: string := "Content-Length"

  /** The bare disposition, with no file name parameter. */
  const INLINE: string := "inline"
  /** The start of an inline disposition naming a file by an RFC 5987 extended value. */
  const INLINE_FILENAME: string := "inline; filename*=UTF-8''"
  /** The same for an attachment. */
  const ATTACHMENT_FILENAME: string := "attachment; filename*=UTF-8''"

  /** The collaborators `respond_to` calls but does not define. */
  datatype Env = Env(
    /** The text `url_escape::encode_component_to_string` appends for a name. */
    encodeComponent: string -> string,
    /** `mime_guess::from_ext(ext).first_or_octet_stream()`: a type for every extension. */
    guessMime: string -> Mime,
    /** `TempFileAsyncReader::from(file)`: a reader over the upload, or a failure. */
    tempFileReader: TempUpload -> Option<ReaderHandle>)

  /** An HTTP status; the only one the core produces is 500. */
  datatype Status = Status(code: nat)

  const InternalServerError: Status := Status(500)

  /** Where body bytes come from. */
  datatype BodySource = InMemory(bytes: seq<byte>) | OpenFile(file: FileHandle) | Stream(reader: ReaderHandle)

  /**
    A Rocket body: none yet, sized (`sized_body`, with the size when the
    caller states it) or streamed (`streamed_body`, chunked).
   */
  datatype Body = Empty | Sized(size: Option<nat>, source: BodySource) | Streamed(source: BodySource)

  /** A finished response: raw headers by name, and the body. */
  datatype Response = Response(headers: map<string, string>, body: Body)

  // ---- Content-Disposition ----

  /** The disposition for a file name the caller gave (the `file_name!` macro). */
  function ExplicitDisposition(name: string, env: Env): string {
    if name == "" then INLINE else INLINE_FILENAME + env.encodeComponent(name)
  }

  /** The disposition a data source implies when the caller gave no file name. */
  function IntrinsicDisposition(data: RawResponseData, env: Env): Option<string> {
    match data
    case File(path, _) =>
      Some(match Paths.FileName(path)
           case Some(name) => INLINE_FILENAME + env.encodeComponent(name)
           case None => INLINE)
    case TempFile(upload) =>
      Some(match upload.name
           case Some(name) => if name == "" then INLINE else ATTACHMENT_FILENAME + env.encodeComponent(name)
           case None => INLINE)
    case _ => None
  }

  /** The `Content-Disposition` value, if one is sent. */
  function Disposition(p: RawResponsePro, env: Env): Option<string> {
    match p.fileName
    case Some(name) => Some(ExplicitDisposition(name, env))
    case None => IntrinsicDisposition(p.data, env)
  }

  // ---- Content-Type ----

  /** The guessed type for the extension of a path, when it has one. */
  function GuessFromPath(path: string, env: Env): Option<string> {
    match Paths.Extension(path)
    case Some(ext) => Some(env.guessMime(ext).text)
    case None => None
  }

  /** The type a data source implies when the caller gave none. */
  function IntrinsicContentType(data: RawResponseData, env: Env): Option<string> {
    match data
    case File(path, _) => GuessFromPath(path, env)
    case TempFile(upload) =>
      (match upload.contentType
       case Some(m) => Some(m.text)
       case None =>
         match upload.name
         case Some(name) => GuessFromPath(name, env)
         case None => None)
    case _ => None
  }

  /** The `Content-Type` value, if one is sent. */
  function ContentType(p: RawResponsePro, env: Env): Option<string> {
    match p.contentType
    case Some(m) => Some(m.text)
    case None => IntrinsicContentType(p.data, env)
  }

  // ---- Content-Length and body ----

  /** The raw `Content-Length` value, if one is sent (sized bodies get theirs from Rocket). */
  function ContentLength(data: RawResponseData): Option<string> {
    match data
    case Reader(_, Some(n)) => Some(Decimal.DecimalString(n as nat))
    case TempFile(upload) => Some(Decimal.DecimalString(upload.len as nat))
    case _ => None
  }

  /** The body, or `None` when the temporary file cannot be read as a stream. */
  function ResponseBody(data: RawResponseData, env: Env): Option<Body> {
    match data
    case Slice(bytes) => Some(Sized(Some(|bytes|), InMemory(bytes)))
    case Vec(bytes) => Some(Sized(Some(|bytes|), InMemory(bytes)))
    case Reader(reader, _) => Some(Streamed(Stream(reader)))
    case File(_, file) => Some(Sized(None, OpenFile(file)))
    case TempFile(upload) =>
      match env.tempFileReader(upload)
      case Some(reader) => Some(Streamed(Stream(reader)))
      case None => None
  }

  // ---- the response ----

  /** `m` with the header `name` set to `value`, when there is a value. */
  function SetHeader(m: map<string, string>, name: string, value: Option<string>): (r: map<string, string>)
    ensures name in r <==> name in m || value.Some?
    ensures value.Some? ==> r[name] == value.value
    ensures forall k :: k in m && k != name ==> k in r && r[k] == m[k]
    ensures forall k :: k in r && k != name ==> k in m
  {
    match value
    case Some(v) => m[name := v]
    case None => m
  }

  /** The raw headers: each of the three is present exactly when its value is decided. */
  function Headers(p: RawResponsePro, env: Env): (h: map<string, string>)
    ensures h.Keys <= {CONTENT_DISPOSITION, CONTENT_TYPE, CONTENT_LENGTH}
    ensures CONTENT_DISPOSITION in h <==> Disposition(p, env).Some?
    ensures CONTENT_DISPOSITION in h ==> h[CONTENT_DISPOSITION] == Disposition(p, env).value
    ensures CONTENT_TYPE in h <==> ContentType(p, env).Some?
    ensures CONTENT_TYPE in h ==> h[CONTENT_TYPE] == ContentType(p, env).value
    ensures CONTENT_LENGTH in h <==> ContentLength(p.data).Some?
    ensures CONTENT_LENGTH in h ==> h[CONTENT_LENGTH] == ContentLength(p.data).value
  {
    var h1 := SetHeader(map[], CONTENT_DISPOSITION, Disposition(p, env));
    var h2 := SetHeader(h1, CONTENT_TYPE, ContentType(p, env));
    SetHeader(h2, CONTENT_LENGTH, ContentLength(p.data))
  }

  /** The whole decision of `respond_to`. */
  function Respond(p: RawResponsePro, env: Env): (r: Result<Response, Status>)
    ensures r.Err? <==> p.data.TempFile? && env.tempFileReader(p.data.upload).None?
    ensures r.Err? ==> r.error == InternalServerError
    ensures r.Ok? ==> r.value.headers.Keys <= {CONTENT_DISPOSITION, CONTENT_TYPE, CONTENT_LENGTH}
    ensures r.Ok? ==> !r.value.body.Empty?
  {
    match ResponseBody(p.data, env)
    case None => Err(InternalServerError)
    case Some(body) => Ok(Response(Headers(p, env), body))
  }
}
