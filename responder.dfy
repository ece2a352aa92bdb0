/**
  `respond_to` as the source runs it (src/lib.rs): one branch per data
  source, appending raw headers one at a time to Rocket's response builder,
  then setting the body, and finishing with `ok()`. `RespondTo` is proved
  to compute the header-by-header decision `Negotiation.Respond`.
 */
module Responder {
  import opened Wrappers
  import opened Payload
  import opened Negotiation
  import Paths
  import Decimal

  /** The part of Rocket's response `Builder` that `respond_to` uses. */
  class ResponseBuilder {
    var headers: map<string, string>
    var body: Body

    /** `Response::build()`: no headers, empty body. */
    constructor ()
      ensures headers == map[] && body == Empty
    {
      headers := map[];
      body := Empty;
    }

    /** `raw_header`: sets the header, replacing any header of the same name. */
    method RawHeader(name: string, value: string)
      modifies this
      ensures headers == old(headers)[name := value] && body == old(body)
    {
      headers := headers[name := value];
    }

    /** `sized_body`: a body whose size Rocket frames (`None`: Rocket finds it out). */
    method SizedBody(size: Option<nat>, source: BodySource)
      modifies this
      ensures body == Sized(size, source) && headers == old(headers)
    {
      body := Sized(size, source);
    }

    /** `streamed_body`: a body sent in chunks. */
    method StreamedBody(source: BodySource)
      modifies this
      ensures body == Streamed(source) && headers == old(headers)
    {
      body := Streamed(source);
    }

    /** `ok()`: the finished response. */
    method Finish() returns (r: Result<Response, Status>)
      ensures r == Ok(Response(headers, body))
    {
      r := Ok(Response(headers, body));
    }
  }

  /** The `file_name!` macro: a disposition from the caller's file name, if there is one. */
  method ExplicitFileName(fileName: Option<string>, env: Env, response: ResponseBuilder)
    modifies response
    ensures response.headers == SetHeader(old(response.headers), CONTENT_DISPOSITION,
                                          if fileName.Some? then Some(ExplicitDisposition(fileName.value, env)) else None)
    ensures response.body == old(response.body)
  {
    if fileName.Some? {
      var name := fileName.value;
      if name == "" {
        response.RawHeader(CONTENT_DISPOSITION, INLINE);
      } else {
        var v := INLINE_FILENAME;
        v := v + env.encodeComponent(name);
        response.RawHeader(CONTENT_DISPOSITION, v);
      }
    }
  }

  /** The `content_type!` macro: the caller's content type, if there is one. */
  method ExplicitContentType(contentType: Option<Mime>, response: ResponseBuilder)
    modifies response
    ensures response.headers == SetHeader(old(response.headers), CONTENT_TYPE,
                                          if contentType.Some? then Some(contentType.value.text) else None)
    ensures response.body == old(response.body)
  {
    if contentType.Some? {
      response.RawHeader(CONTENT_TYPE, contentType.value.text);
    }
  }

  /** The `File` branch's disposition: the caller's name, else the path's file name, else `inline`. */
  method FileDispositionHeader(p: RawResponsePro, env: Env, response: ResponseBuilder)
    requires p.data.File?
    modifies response
    ensures response.headers == old(response.headers)[CONTENT_DISPOSITION := Disposition(p, env).value]
    ensures response.body == old(response.body)
  {
    var path := p.data.path;
    if p.fileName.Some? {
      ExplicitFileName(p.fileName, env, response);
    } else if Paths.FileName(path).Some? {
      var v := INLINE_FILENAME;
      v := v + env.encodeComponent(Paths.FileName(path).value);
      response.RawHeader(CONTENT_DISPOSITION, v);
    } else {
      response.RawHeader(CONTENT_DISPOSITION, INLINE);
    }
  }

  /** The `File` branch's type: the caller's, else the guess for the path's extension, else none. */
  method FileContentTypeHeader(p: RawResponsePro, env: Env, response: ResponseBuilder)
    requires p.data.File?
    modifies response
    ensures response.headers == SetHeader(old(response.headers), CONTENT_TYPE, ContentType(p, env))
    ensures response.body == old(response.body)
  {
    var path := p.data.path;
    if p.contentType.Some? {
      response.RawHeader(CONTENT_TYPE, p.contentType.value.text);
    } else if Paths.Extension(path).Some? {
      var contentType := env.guessMime(Paths.Extension(path).value);
      response.RawHeader(CONTENT_TYPE, contentType.text);
    }
  }

  /** The `TempFile` branch's disposition: the caller's name, else the upload's as an attachment, else `inline`. */
  method TempFileDispositionHeader(p: RawResponsePro, env: Env, response: ResponseBuilder)
    requires p.data.TempFile?
    modifies response
    ensures response.headers == old(response.headers)[CONTENT_DISPOSITION := Disposition(p, env).value]
    ensures response.body == old(response.body)
  {
    var file := p.data.upload;
    if p.fileName.Some? {
      ExplicitFileName(p.fileName, env, response);
    } else if file.name.Some? {
      var name := file.name.value;
      if name == "" {
        response.RawHeader(CONTENT_DISPOSITION, INLINE);
      } else {
        var v := ATTACHMENT_FILENAME;
        v := v + env.encodeComponent(name);
        response.RawHeader(CONTENT_DISPOSITION, v);
      }
    } else {
      response.RawHeader(CONTENT_DISPOSITION, INLINE);
    }
  }

  /** The `TempFile` branch's type: the caller's, else the upload's, else the guess for its name's extension. */
  method TempFileContentTypeHeader(p: RawResponsePro, env: Env, response: ResponseBuilder)
    requires p.data.TempFile?
    modifies response
    ensures response.headers == SetHeader(old(response.headers), CONTENT_TYPE, ContentType(p, env))
    ensures response.body == old(response.body)
  {
    var file := p.data.upload;
    if p.contentType.Some? {
      response.RawHeader(CONTENT_TYPE, p.contentType.value.text);
    } else if file.contentType.Some? {
      response.RawHeader(CONTENT_TYPE, file.contentType.value.text);
    } else if file.name.Some? && Paths.Extension(file.name.value).Some? {
      var contentType := env.guessMime(Paths.Extension(file.name.value).value);
      response.RawHeader(CONTENT_TYPE, contentType.text);
    }
  }

  /** `respond_to`: the response for a payload, or the status of the failure. */
  method RespondTo(p: RawResponsePro, env: Env) returns (r: Result<Response, Status>)
    ensures r == Respond(p, env)
  {
    var response := new ResponseBuilder();
    match p.data {
      case Slice(data) =>
        ExplicitFileName(p.fileName, env, response);
        ExplicitContentType(p.contentType, response);
        response.SizedBody(Some(|data|), InMemory(data));
      case Vec(data) =>
        ExplicitFileName(p.fileName, env, response);
        ExplicitContentType(p.contentType, response);
        response.SizedBody(Some(|data|), InMemory(data));
      case Reader(data, contentLength) =>
        ExplicitFileName(p.fileName, env, response);
        ExplicitContentType(p.contentType, response);
        if contentLength.Some? {
          response.RawHeader(CONTENT_LENGTH, Decimal.DecimalString(contentLength.value as nat));
        }
        response.StreamedBody(Stream(data));
      case File(path, file) =>
        FileDispositionHeader(p, env, response);
        FileContentTypeHeader(p, env, response);
        response.SizedBody(None, OpenFile(file));
      case TempFile(file) =>
        TempFileDispositionHeader(p, env, response);
        TempFileContentTypeHeader(p, env, response);
        response.RawHeader(CONTENT_LENGTH, Decimal.DecimalString(file.len as nat));
        var reader := env.tempFileReader(file);
        if reader.None? {
          return Err(InternalServerError);
        }
        response.StreamedBody(Stream(reader.value));
    }
    r := response.Finish();
  }
}
