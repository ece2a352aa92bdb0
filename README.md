# rocket-raw-response: header negotiation in Dafny

This project models the core of the `rocket-raw-response` crate: the
`RawResponsePro` payload (an optional file name, an optional content type
and one of five data sources: `Slice`, `Vec`, `Reader`, `File` and
`TempFile`), the five constructors that build it, and `respond_to`, which
turns a payload into a Rocket response. For each payload `respond_to`
decides which `Content-Disposition`, `Content-Type` and `Content-Length`
raw headers are sent and with what values, whether the body is sized or
streamed, and whether the result is an error.

Modules, leaves first:

- `Wrappers`, `Primitives`: `Option`/`Result`, and `u8`/`u64` as newtypes.
- `Paths`: `Path::file_name` and `Path::extension` on `/`-separated paths,
  with the standard library's Unix rules for these two accessors. Empty
  and `.` pieces are dropped, including a leading `.` (std's `CurDir`) and
  the root `/` (std's `RootDir`), which std keeps as components; since
  neither is a `Normal` component, dropping them changes no `file_name`
  and no `extension`. The file name is the last component unless it is `..`. The
  extension is the text after the file name's last dot, unless that dot is
  the first character.
- `Decimal`: `u64::to_string`, with its inverse, for `Content-Length`.
- `UrlEscape`: a concrete percent-encoder over UTF-8, with its decoder and
  both round trips. This is an ASSUMED instance of
  `url_escape::encode_component_to_string`: its escape set is the
  unreserved set of RFC 3986 section 2.3. The library's own table is not
  part of this model.
- `Payload`: the data model and the constructors (`FromSlice`, `FromVec`,
  `FromReader`, `FromFile`, `FromTempFile`).
- `Negotiation`: `Respond`, the decision of `respond_to` stated header by
  header. The foreign collaborators are fields of an `Env` value:
  `encodeComponent` (url_escape), `guessMime`
  (`mime_guess::from_ext(..).first_or_octet_stream()`, total) and
  `tempFileReader` (whether `TempFileAsyncReader::from` succeeds). The
  header values are built from what they return. No proved property
  assumes anything about `guessMime` or `tempFileReader` beyond their
  signatures. The same holds for `encodeComponent`, except in
  `ExplicitNameRoundTrips`, `PathNameRoundTrips` and `ReportPdf`, which use
  the assumed `UrlEscape` encoder.
- `Responder`: `respond_to` as the source runs it. A `ResponseBuilder`
  class (headers and body fields) stands for Rocket's builder. `RespondTo`
  walks the source's branches and calls `RawHeader`, `SizedBody` and
  `StreamedBody` step by step. Its contract is that it returns exactly
  `Negotiation.Respond`.
- `Properties`: the promises of `respond_to`, per variant and across
  variants, and the two worked examples.

Headers are a `map` from name to value, because Rocket's `raw_header`
replaces any header with the same name. The filesystem's answer to
`File::open` is a parameter of `FromFile`: a function from the path to
either an open handle or an `io::Error` kind.

Points where the code does less than one might expect:
- `from_file` only calls `File::open` and returns whatever error that
  gives; it makes no check of its own that the path is a regular file.
- A `File` whose path has no extension gets no `Content-Type` at all, not
  `application/octet-stream`. The same holds for a `TempFile` with no
  declared type and no name extension.
- The caller's `file_name` never feeds the type guess. Only the path (for
  `File`) or the upload's own name (for `TempFile`) does
  (`FileNameDoesNotAffectType`).
- `File` sends no raw `Content-Length`. The body is `sized_body(None, file)`
  and Rocket works out the size.
- `File` shows its path's name `inline` while `TempFile` sends its declared
  name as an `attachment`. The model keeps this asymmetry and states it in
  `UploadIsAttachmentFileIsInline`.

## Model

| member | source | states |
|---|---|---|
| `Payload.FromSlice` | src/lib.rs:63-77 | the payload is a `Slice` of exactly the given bytes, with the file name and content type unchanged |
| `Payload.FromVec` | src/lib.rs:80-94 | the payload is a `Vec` of exactly the given bytes, with the file name and content type unchanged |
| `Payload.FromReader` | src/lib.rs:97-115 | the payload is a `Reader` holding the given reader and declared length, with name and type unchanged |
| `Payload.FromFile` | src/lib.rs:118-136 | the result is `Err` exactly when opening the path fails, and then carries the open error; otherwise it is a `File` payload holding the given path and the opened handle, with name and type unchanged |
| `Payload.FromTempFile` | src/lib.rs:139-153 | the payload is a `TempFile` holding the given upload, with name and type unchanged |
| `Negotiation.Headers` | src/lib.rs:184-288 | only the three header names ever appear, and each is present exactly when its value is decided, with that value |
| `Negotiation.Respond` | src/lib.rs:180-292 | the result is an error exactly for a `TempFile` whose reader adapter fails, and the error is 500; a success has only the three headers and a non-empty body |
| `Responder.RespondTo` | src/lib.rs:180-292 | running the source's branches on a builder gives exactly `Respond` |
| `Responder.ExplicitFileName` | src/lib.rs:156-170 | the `file_name!` macro: sets `Content-Disposition` from the caller's name when there is one, and changes nothing else |
| `Responder.ExplicitContentType` | src/lib.rs:172-178 | the `content_type!` macro: sets `Content-Type` to the caller's type when there is one, and changes nothing else |
| `Responder.FileDispositionHeader` | src/lib.rs:211-231 | a file's `Content-Disposition` is the caller's name, else the path's file name as an inline extended value, else bare `inline`; the body is untouched |
| `Responder.FileContentTypeHeader` | src/lib.rs:233-241 | a file's `Content-Type` is the caller's type, else the guess for the path's extension, else absent; the body is untouched |
| `Responder.TempFileDispositionHeader` | src/lib.rs:246-268 | an upload's `Content-Disposition` is the caller's name, else its own name as an attachment (bare `inline` when empty), else bare `inline` |
| `Responder.TempFileContentTypeHeader` | src/lib.rs:270-281 | an upload's `Content-Type` is the caller's type, else the upload's own, else the guess for its name's extension, else absent |
| `Responder.ResponseBuilder.constructor` | src/lib.rs:182 | `Response::build()` starts with no headers and an empty body |
| `Responder.ResponseBuilder.RawHeader` | src/lib.rs:205 | `raw_header` sets one header, replacing any of the same name, and leaves the body alone |
| `Responder.ResponseBuilder.SizedBody` | src/lib.rs:189 | `sized_body` sets a sized body and leaves the headers alone |
| `Responder.ResponseBuilder.StreamedBody` | src/lib.rs:208 | `streamed_body` sets a streamed body and leaves the headers alone |
| `Responder.ResponseBuilder.Finish` | src/lib.rs:291 | `ok()` returns the built headers and body as a success |
| `Properties.InMemoryBodyIsSized` | src/lib.rs:185-196 | `Slice`/`Vec` succeed with a sized body whose size is the byte count of exactly their bytes, and send no raw `Content-Length` |
| `Properties.UnnamedDisposition` | src/lib.rs:156-170 | for `Slice`/`Vec`/`Reader`: a disposition is sent exactly when a file name is given; it is `inline` for an empty name and `inline; filename*=UTF-8''` plus the encoded name otherwise |
| `Properties.UnnamedDispositionDependsOnlyOnFileName` | src/lib.rs:186-201 | two `Slice`/`Vec`/`Reader` payloads with the same file name get the same disposition, whatever their data and type |
| `Properties.UnnamedContentType` | src/lib.rs:172-178 | for `Slice`/`Vec`/`Reader`: a `Content-Type` is sent exactly when the caller gave one, and it is that type's text |
| `Properties.ReaderLengthAndStream` | src/lib.rs:197-209 | a `Reader` is always streamed; `Content-Length` is present exactly when a length was declared, and is its canonical decimal form, which reads back as that length |
| `Properties.FileDisposition` | src/lib.rs:210-231 | a `File` always sends a disposition: the caller's name first (empty gives `inline`), else the path's file name (never empty) as `inline; filename*=…`, else `inline` |
| `Properties.FileContentTypeAndBody` | src/lib.rs:233-243 | a `File`'s type is the caller's, else the guess for the path's extension, else absent; the body is sized with no size given, and no raw length is sent |
| `Properties.TempFileDisposition` | src/lib.rs:245-268 | a `TempFile` always sends a disposition: the caller's name first, else a non-empty declared name as `attachment; filename*=…`, else `inline` |
| `Properties.TempFileContentType` | src/lib.rs:270-281 | a `TempFile`'s type is the caller's, else the upload's declared type, else the guess for the declared name's extension, else absent |
| `Properties.TempFileLengthAndOutcome` | src/lib.rs:283-287 | a `TempFile` fails, with 500, exactly when its reader adapter fails; otherwise it is streamed from that reader and `Content-Length` reads back as the upload's `len` |
| `Properties.OnlyTempFileFails` | src/lib.rs:184-244 | every payload other than a `TempFile` gives a response |
| `Properties.EmptyFileNameIsBareInline` | src/lib.rs:158-160 | an empty caller's file name gives exactly `inline`, for every data source |
| `Properties.ExplicitValuesWin` | src/lib.rs:210-271 | for every data source, the caller's file name decides the disposition and the caller's content type decides the type |
| `Properties.FileNameDoesNotAffectType` | src/lib.rs:233-243 | changing the caller's file name leaves the outcome, the body, `Content-Type` and `Content-Length` as they were |
| `Properties.UploadIsAttachmentFileIsInline` | src/lib.rs:221-265 | a file and an upload with the same name and no caller's name: the file is `inline`, the upload an `attachment`, with the same encoded name |
| `Properties.ExplicitNameRoundTrips` | src/lib.rs:162-166 | with the RFC 3986 encoder, a non-empty caller's name gives a parameter of unreserved characters and `%` only, which percent-decodes to the name's UTF-8 bytes, which decode to the name |
| `Properties.FileServedUnderOwnName` | src/lib.rs:221-241 | a file at `dir/stem.ext` with no name or type gives exactly an inline disposition naming `stem.ext`, the guess for `ext`, and the open file as body |
| `Properties.PathNameRoundTrips` | src/lib.rs:221-228 | with the RFC 3986 encoder, the path's own name in the disposition decodes back to it |
| `Properties.ViewImage` | examples/view_image.rs:14-16 | `examples/images/image(貓).jpg`, opened with no name or type, gives exactly an inline disposition naming `image(貓).jpg` and the type guessed from `jpg` |
| `Properties.ReportPdf` | src/lib.rs:221-241 | `a/b/report.pdf` with no name: the disposition parameter decodes to `report.pdf` and the type is the guess for `pdf` |
| `Paths.FileName` | src/lib.rs:222 | `Path::file_name`: when there is one, it is a normal component (not empty, not `.` or `..`, no `/`) |
| `Paths.Extension` | src/lib.rs:235 | `Path::extension`: present only when there is a file name, and contains no dot |
| `Paths.SplitExtension` | src/lib.rs:274 | the extension of a name contains no dot |
| `Paths.FileNameOfJoin` | src/lib.rs:221-222 | a normal name joined onto any directory is the path's file name |
| `Paths.FileNameOfName` | src/lib.rs:274 | a normal name on its own is its own file name |
| `Paths.FileNameOfParent` | src/lib.rs:221-222 | a path ending in `..` has no file name, so `File` falls back to bare `inline` |
| `Paths.FileNameTrailingSlash` | src/lib.rs:221-222 | a trailing `/` does not change the file name |
| `Paths.SplitExtensionOf` | src/lib.rs:235 | `stem.ext` with a non-empty stem and a dot-free `ext` has the extension `ext` |
| `Paths.NoExtension` | src/lib.rs:235 | a name with no dot, or whose only dot is its first character, has no extension |
| `Decimal.DecimalString` | src/lib.rs:205 | `to_string` gives a non-empty digit string with no leading zero, one digit long exactly below 10 |
| `Decimal.ValueOfDecimalString` | src/lib.rs:205 | the printed digits read back as the number |
| `Decimal.DecimalStringOfValue` | src/lib.rs:283 | every canonical digit string is how its value prints |
| `Decimal.DecimalStringInjective` | src/lib.rs:283 | distinct lengths print differently |
| `UrlEscape.EncodeComponent` | src/lib.rs:164 | the encoded text holds only unreserved characters and `%`, and is empty exactly when the name is |
| `UrlEscape.PercentRoundTrip` | src/lib.rs:164 | percent-decoding undoes percent-encoding for every byte string |
| `UrlEscape.Utf8RoundTrip` | src/lib.rs:164 | UTF-8 decoding undoes UTF-8 encoding for every string |
| `UrlEscape.ComponentRoundTrip` | src/lib.rs:164 | the encoded component percent-decodes to the name's UTF-8 bytes, and UTF-8-decoding that result gives back the name |

## Left out

- Async file opening and the `tokio` `File`/`AsyncRead` handles are I/O. They are opaque identities here, and the result of `File::open` is a parameter.
- `TempFileAsyncReader` is not part of this model. Only its success or failure is modelled, as `Env.tempFileReader`.
- The tables of `url_escape` and `mime_guess` are foreign. `Negotiation` takes them as parameters. Every property holds for any guesser and any upload adapter, and for any encoder except `ExplicitNameRoundTrips`, `PathNameRoundTrips` and `ReportPdf`, which are proved with the assumed `UrlEscape` encoder. The concrete `UrlEscape` encoder is an assumption: the library may leave more characters unescaped than RFC 3986's unreserved set.
- `mime_guess` is case-insensitive and falls back to `application/octet-stream`. Neither is modelled: `guessMime` is an arbitrary total function.
- Rocket's `Response` builder internals, how `sized_body(None, file)` finds the size, and writing to the wire belong to the framework. Only the builder calls the core makes are modelled.
- `OpenApiResponderInner::responses` is a stub of a foreign trait.
- Lifetimes, `Send`/`Unpin`, `Arc<Path>` sharing and the `Debug` derive concern memory and formatting.
- `to_string_lossy` and `OsStr::to_str`: paths and names are already valid Unicode strings here. So the branch where a `File`'s extension is not UTF-8 and no `Content-Type` is sent (src/lib.rs:236) cannot arise in the model.
- Paths follow Unix rules only. Windows prefixes and `\` separators are not modelled.
- Rocket compares header names case-insensitively. This is not modelled, because the core only uses three fixed names.
- Mid-stream read failures and cancellation happen after `respond_to` returns, inside the framework.
