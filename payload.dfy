/**
  The payload of a raw response (`RawResponsePro` in src/lib.rs): an
  optional file name, an optional content type and one of five data
  sources, built by one of five constructors.

  Handles the core only passes on (the open file, the reader) are
  identities; their bytes are not modelled. The filesystem's answer to
  `File::open` is a parameter of `FromFile`.
 */
module Payload {
  import opened Wrappers
  import opened Primitives

  /** A media type; `text` is what `Mime::to_string` prints. */
  datatype Mime = Mime(text: string)

  /** An open `tokio::fs::File`. */
  datatype FileHandle = FileHandle(id: nat)

  /** A boxed `AsyncRead` supplied by the caller. */
  datatype ReaderHandle = ReaderHandle(id: nat)

  /**
    Rocket's `TempFile` as the core reads it: `name()`, `content_type()` and
    `len()`, plus `id`, the identity of the upload itself, so that two
    uploads with the same metadata stay distinct.
   */
  datatype TempUpload = TempUpload(id: nat, name: Option<string>, contentType: Option<Mime>, len: u64)

  /** `RawResponseData`: exactly one data source per payload. */
  datatype RawResponseData =
    | Slice(bytes: seq<byte>)
    | Vec(bytes: seq<byte>)
    | Reader(reader: ReaderHandle, contentLength: Option<u64>)
    | File(path: string, file: FileHandle)
    | TempFile(upload: TempUpload)

  datatype RawResponsePro = RawResponsePro(fileName: Option<string>, contentType: Option<Mime>, data: RawResponseData)

  /** The kinds of `io::Error` that opening a file can report. */
  datatype IoError = NotFound | PermissionDenied | OtherIo(code: int)

  /** What the filesystem answers to one `File::open`. */
  datatype OpenOutcome = Opened(file: FileHandle) | OpenFailed(error: IoError)

  /** `from_slice`: borrows the bytes. */
  function FromSlice(data: seq<byte>, fileName: Option<string>, contentType: Option<Mime>): (r: RawResponsePro)
    ensures r.data.Slice? && r.data.bytes == data
    ensures r.fileName == fileName && r.contentType == contentType
  {
    RawResponsePro(fileName, contentType, Slice(data))
  }

  /** `from_vec`: owns the bytes. */
  function FromVec(vec: seq<byte>, fileName: Option<string>, contentType: Option<Mime>): (r: RawResponsePro)
    ensures r.data.Vec? && r.data.bytes == vec
    ensures r.fileName == fileName && r.contentType == contentType
  {
    RawResponsePro(fileName, contentType, Vec(vec))
  }

  /** `from_reader`: keeps the reader and the declared length, checking neither. */
  function FromReader(reader: ReaderHandle, fileName: Option<string>, contentType: Option<Mime>,
                      contentLength: Option<u64>): (r: RawResponsePro)
    ensures r.data.Reader? && r.data.reader == reader && r.data.contentLength == contentLength
    ensures r.fileName == fileName && r.contentType == contentType
  {
    RawResponsePro(fileName, contentType, Reader(reader, contentLength))
  }

  /**
    `from_file`: opens the path once (`open` is the filesystem) and fails
    with the filesystem's error, or keeps the path and the open file.
   */
  function FromFile(path: string, fileName: Option<string>, contentType: Option<Mime>,
                    open: string -> OpenOutcome): (r: Result<RawResponsePro, IoError>)
    ensures r.Err? <==> open(path).OpenFailed?
    ensures r.Err? ==> r.error == open(path).error
    ensures r.Ok? ==> r.value.data == File(path, open(path).file)
    ensures r.Ok? ==> r.value.fileName == fileName && r.value.contentType == contentType
  {
    match open(path)
    case OpenFailed(e) => Err(e)
    case Opened(file) => Ok(RawResponsePro(fileName, contentType, File(path, file)))
  }

  /** `from_temp_file`: keeps the upload, whose own name, type and length stay with it. */
  function FromTempFile(tempFile: TempUpload, fileName: Option<string>, contentType: Option<Mime>): (r: RawResponsePro)
    ensures r.data.TempFile? && r.data.upload == tempFile
    ensures r.fileName == fileName && r.contentType == contentType
  {
    RawResponsePro(fileName, contentType, TempFile(tempFile))
  }
}
