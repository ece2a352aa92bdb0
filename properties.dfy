/**
  What `respond_to` promises, variant by variant and across variants,
  stated about `Negotiation.Respond` (to which `Responder.RespondTo` is
  proved equal). `Env` is arbitrary unless a lemma says otherwise.
 */
module Properties {
  import opened Wrappers
  import opened Payload
  import opened Negotiation
  import Paths
  import Decimal
  import UrlEscape

  predicate HeldInMemory(d: RawResponseData) {
    d.Slice? || d.Vec?
  }

  /** The three sources that carry no name of their own. */
  predicate Unnamed(d: RawResponseData) {
    d.Slice? || d.Vec? || d.Reader?
  }

  // ---- Slice, Vec, Reader ----

  /** An in-memory body is sized by its byte count; no raw length header and no stream. */
  lemma InMemoryBodyIsSized(p: RawResponsePro, env: Env)
    requires HeldInMemory(p.data)
    ensures Respond(p, env).Ok?
    ensures Respond(p, env).value.body == Sized(Some(|p.data.bytes|), InMemory(p.data.bytes))
    ensures CONTENT_LENGTH !in Respond(p, env).value.headers
  {
  }

  /** Without a source name, the disposition comes from the caller's file name alone. */
  lemma UnnamedDisposition(p: RawResponsePro, env: Env)
    requires Unnamed(p.data)
    ensures Respond(p, env).Ok?
    ensures var h := Respond(p, env).value.headers;
      && (CONTENT_DISPOSITION in h <==> p.fileName.Some?)
      && (p.fileName == Some("") ==> h[CONTENT_DISPOSITION] == INLINE)
      && (p.fileName.Some? && p.fileName.value != "" ==>
            h[CONTENT_DISPOSITION] == INLINE_FILENAME + env.encodeComponent(p.fileName.value))
  {
  }

  /** For the unnamed sources, two payloads with the same file name get the same disposition. */
  lemma UnnamedDispositionDependsOnlyOnFileName(p: RawResponsePro, q: RawResponsePro, env: Env)
    requires Unnamed(p.data) && Unnamed(q.data) && p.fileName == q.fileName
    ensures Respond(p, env).Ok? && Respond(q, env).Ok?
    ensures var hp, hq := Respond(p, env).value.headers, Respond(q, env).value.headers;
      (CONTENT_DISPOSITION in hp <==> CONTENT_DISPOSITION in hq) &&
      (CONTENT_DISPOSITION in hp ==> hp[CONTENT_DISPOSITION] == hq[CONTENT_DISPOSITION])
  {
  }

  /** For the unnamed sources, a type is sent exactly when the caller gave one, and it is that one. */
  lemma UnnamedContentType(p: RawResponsePro, env: Env)
    requires Unnamed(p.data)
    ensures Respond(p, env).Ok?
    ensures var h := Respond(p, env).value.headers;
      (CONTENT_TYPE in h <==> p.contentType.Some?) &&
      (CONTENT_TYPE in h ==> h[CONTENT_TYPE] == p.contentType.value.text)
  {
  }

  /** A reader's length header is sent exactly when the length was declared, and reads back as it. */
  lemma ReaderLengthAndStream(p: RawResponsePro, env: Env)
    requires p.data.Reader?
    ensures Respond(p, env).Ok?
    ensures Respond(p, env).value.body == Streamed(Stream(p.data.reader))
    ensures var h := Respond(p, env).value.headers;
      && (CONTENT_LENGTH in h <==> p.data.contentLength.Some?)
      && (CONTENT_LENGTH in h ==>
            && h[CONTENT_LENGTH] == Decimal.DecimalString(p.data.contentLength.value as nat)
            && Decimal.IsCanonical(h[CONTENT_LENGTH])
            && Decimal.DecimalValue(h[CONTENT_LENGTH]) == p.data.contentLength.value as nat)
  {
    if p.data.contentLength.Some? {
      Decimal.ValueOfDecimalString(p.data.contentLength.value as nat);
    }
  }

  // ---- File ----

  /**
    A file payload always sends one disposition: the caller's file name
    first, else the path's file name (never empty), else bare `inline`.
   */
  lemma FileDisposition(p: RawResponsePro, env: Env)
    requires p.data.File?
    ensures Respond(p, env).Ok?
    ensures var h := Respond(p, env).value.headers;
      && CONTENT_DISPOSITION in h
      && (p.fileName.Some? ==> h[CONTENT_DISPOSITION] == ExplicitDisposition(p.fileName.value, env))
      && (p.fileName.None? && Paths.FileName(p.data.path).Some? ==>
            && Paths.FileName(p.data.path).value != ""
            && h[CONTENT_DISPOSITION] == INLINE_FILENAME + env.encodeComponent(Paths.FileName(p.data.path).value))
      && (p.fileName.None? && Paths.FileName(p.data.path).None? ==> h[CONTENT_DISPOSITION] == INLINE)
  {
  }

  /**
    A file payload's type: the caller's, else the guess for the path's
    extension, else none at all; the body is sized with the size left to
    the framework, and no raw length header is sent.
   */
  lemma FileContentTypeAndBody(p: RawResponsePro, env: Env)
    requires p.data.File?
    ensures Respond(p, env).Ok?
    ensures Respond(p, env).value.body == Sized(None, OpenFile(p.data.file))
    ensures var h := Respond(p, env).value.headers;
      && CONTENT_LENGTH !in h
      && (p.contentType.Some? ==> h[CONTENT_TYPE] == p.contentType.value.text)
      && (p.contentType.None? && Paths.Extension(p.data.path).Some? ==>
            h[CONTENT_TYPE] == env.guessMime(Paths.Extension(p.data.path).value).text)
      && (p.contentType.None? && Paths.Extension(p.data.path).None? ==> CONTENT_TYPE !in h)
  {
  }

  // ---- TempFile ----

  /**
    An upload always sends one disposition: the caller's file name first;
    else the upload's own non-empty name as an attachment; else bare `inline`.
   */
  lemma TempFileDisposition(p: RawResponsePro, env: Env)
    requires p.data.TempFile? && env.tempFileReader(p.data.upload).Some?
    ensures Respond(p, env).Ok?
    ensures var h, name := Respond(p, env).value.headers, p.data.upload.name;
      && CONTENT_DISPOSITION in h
      && (p.fileName.Some? ==> h[CONTENT_DISPOSITION] == ExplicitDisposition(p.fileName.value, env))
      && (p.fileName.None? && name.Some? && name.value != "" ==>
            h[CONTENT_DISPOSITION] == ATTACHMENT_FILENAME + env.encodeComponent(name.value))
      && (p.fileName.None? && (name.None? || name == Some("")) ==> h[CONTENT_DISPOSITION] == INLINE)
  {
  }

  /** An upload's type: the caller's, else the upload's own, else the guess for its name's extension. */
  lemma TempFileContentType(p: RawResponsePro, env: Env)
    requires p.data.TempFile? && env.tempFileReader(p.data.upload).Some?
    ensures Respond(p, env).Ok?
    ensures var h, u := Respond(p, env).value.headers, p.data.upload;
      && (p.contentType.Some? ==> h[CONTENT_TYPE] == p.contentType.value.text)
      && (p.contentType.None? && u.contentType.Some? ==> h[CONTENT_TYPE] == u.contentType.value.text)
      && (p.contentType.None? && u.contentType.None? && u.name.Some? && Paths.Extension(u.name.value).Some? ==>
            h[CONTENT_TYPE] == env.guessMime(Paths.Extension(u.name.value).value).text)
      && (p.contentType.None? && u.contentType.None? && (u.name.None? || Paths.Extension(u.name.value).None?) ==>
            CONTENT_TYPE !in h)
  {
  }

  /**
    An upload always states its length, which reads back as the upload's
    `len`, and is streamed; the only failure of `respond_to` is the
    upload's reader failing, and it is a 500.
   */
  lemma TempFileLengthAndOutcome(p: RawResponsePro, env: Env)
    requires p.data.TempFile?
    ensures Respond(p, env).Err? <==> env.tempFileReader(p.data.upload).None?
    ensures Respond(p, env).Err? ==> Respond(p, env).error == InternalServerError
    ensures Respond(p, env).Ok? ==>
      var h := Respond(p, env).value.headers;
      && Respond(p, env).value.body == Streamed(Stream(env.tempFileReader(p.data.upload).value))
      && CONTENT_LENGTH in h
      && h[CONTENT_LENGTH] == Decimal.DecimalString(p.data.upload.len as nat)
      && Decimal.DecimalValue(h[CONTENT_LENGTH]) == p.data.upload.len as nat
  {
    Decimal.ValueOfDecimalString(p.data.upload.len as nat);
  }

  // ---- across variants ----

  /** Only a temporary file can make `respond_to` fail. */
  lemma OnlyTempFileFails(p: RawResponsePro, env: Env)
    requires !p.data.TempFile?
    ensures Respond(p, env).Ok?
  {
  }

  /** An empty file name forces bare `inline`, whatever the source. */
  lemma EmptyFileNameIsBareInline(p: RawResponsePro, env: Env)
    requires p.fileName == Some("")
    requires Respond(p, env).Ok?
    ensures Respond(p, env).value.headers[CONTENT_DISPOSITION] == INLINE
  {
  }

  /** The caller's file name and content type override whatever the source implies. */
  lemma ExplicitValuesWin(p: RawResponsePro, env: Env)
    requires Respond(p, env).Ok?
    ensures var h := Respond(p, env).value.headers;
      && (p.fileName.Some? ==> h[CONTENT_DISPOSITION] == ExplicitDisposition(p.fileName.value, env))
      && (p.contentType.Some? ==> h[CONTENT_TYPE] == p.contentType.value.text)
  {
  }

  /**
    The caller's file name never reaches the type: changing it leaves the
    `Content-Type` and `Content-Length` headers and the body as they were.
   */
  lemma FileNameDoesNotAffectType(p: RawResponsePro, name: Option<string>, env: Env)
    ensures var q := p.(fileName := name);
      && Respond(p, env).Ok? == Respond(q, env).Ok?
      && (Respond(p, env).Ok? ==>
            var hp, hq := Respond(p, env).value.headers, Respond(q, env).value.headers;
            && Respond(p, env).value.body == Respond(q, env).value.body
            && (CONTENT_TYPE in hp <==> CONTENT_TYPE in hq)
            && (CONTENT_TYPE in hp ==> hp[CONTENT_TYPE] == hq[CONTENT_TYPE])
            && (CONTENT_LENGTH in hp <==> CONTENT_LENGTH in hq)
            && (CONTENT_LENGTH in hp ==> hp[CONTENT_LENGTH] == hq[CONTENT_LENGTH]))
  {
  }

  /**
    A file and an upload that bear the same name and no caller's name
    differ in one word: the file is shown `inline`, the upload is an
    `attachment`.
   */
  lemma UploadIsAttachmentFileIsInline(dir: string, name: string, file: FileHandle, upload: TempUpload,
                                       ct: Option<Mime>, env: Env)
    requires Paths.IsNormal(name) && upload.name == Some(name) && env.tempFileReader(upload).Some?
    ensures var f, t := RawResponsePro(None, ct, File(dir + "/" + name, file)), RawResponsePro(None, ct, TempFile(upload));
      && Respond(f, env).value.headers[CONTENT_DISPOSITION] == INLINE_FILENAME + env.encodeComponent(name)
      && Respond(t, env).value.headers[CONTENT_DISPOSITION] == ATTACHMENT_FILENAME + env.encodeComponent(name)
  {
    Paths.FileNameOfJoin(dir, name);
  }

  // ---- with the concrete percent-encoder ----

  /**
    With the RFC 3986 encoder, a non-empty caller's file name becomes an
    RFC 5987 extended value that only holds unreserved characters and
    '%' (so it cannot end the header parameter), and that decodes to the
    name's UTF-8 bytes and back to the name.
   */
  lemma ExplicitNameRoundTrips(p: RawResponsePro, guess: string -> Mime,
                               tempFileReader: TempUpload -> Option<ReaderHandle>)
    requires p.fileName.Some? && p.fileName.value != ""
    requires Respond(p, Env(UrlEscape.EncodeComponent, guess, tempFileReader)).Ok?
    ensures var name, h := p.fileName.value, Respond(p, Env(UrlEscape.EncodeComponent, guess, tempFileReader)).value.headers;
      var v := h[CONTENT_DISPOSITION];
      && |v| > |INLINE_FILENAME|
      && v[..|INLINE_FILENAME|] == INLINE_FILENAME
      && (forall i :: |INLINE_FILENAME| <= i < |v| ==> UrlEscape.IsUnreserved(v[i]) || v[i] == '%')
      && UrlEscape.PercentDecode(v[|INLINE_FILENAME|..]) == Some(UrlEscape.Utf8(name))
      && UrlEscape.Utf8Decode(UrlEscape.PercentDecode(v[|INLINE_FILENAME|..]).value) == Some(name)
  {
    var name := p.fileName.value;
    var env := Env(UrlEscape.EncodeComponent, guess, tempFileReader);
    assert Respond(p, env).value.headers[CONTENT_DISPOSITION] == INLINE_FILENAME + UrlEscape.EncodeComponent(name);
    var t := UrlEscape.EncodeComponent(name);
    PrefixedText(INLINE_FILENAME, t);
    UrlEscape.ComponentRoundTrip(name);
  }

  /** A prefix followed by encoded text: the prefix comes back, and so does the text. */
  lemma PrefixedText(prefix: string, t: string)
    requires forall i :: 0 <= i < |t| ==> UrlEscape.IsUnreserved(t[i]) || t[i] == '%'
    ensures var v := prefix + t;
      && v[..|prefix|] == prefix && v[|prefix|..] == t
      && (forall i :: |prefix| <= i < |v| ==> UrlEscape.IsUnreserved(v[i]) || v[i] == '%')
  {
    var v := prefix + t;
    assert forall i :: |prefix| <= i < |v| ==> v[i] == t[i - |prefix|];
  }

  // ---- worked examples ----

  /**
    A file at `dir/stem.ext` served with no file name and no type: shown
    inline under its own name, typed by the guess for its extension, with
    the open file as its body and nothing else.
   */
  lemma FileServedUnderOwnName(dir: string, stem: string, ext: string, file: FileHandle, env: Env)
    requires Paths.IsNormal(stem + "." + ext) && stem != "" && '.' !in ext
    ensures var name := stem + "." + ext;
      Respond(RawResponsePro(None, None, File(dir + "/" + name, file)), env) ==
        Ok(Response(map[CONTENT_DISPOSITION := INLINE_FILENAME + env.encodeComponent(name),
                        CONTENT_TYPE := env.guessMime(ext).text],
                    Sized(None, OpenFile(file))))
  {
    var name := stem + "." + ext;
    Paths.FileNameOfJoin(dir, name);
    Paths.SplitExtensionOf(stem, ext);
  }

  /**
    examples/view_image.rs: `examples/images/image(貓).jpg`, opened with no
    file name and no type, is shown inline as `image(貓).jpg` and typed by
    the guess for `jpg`.
   */
  lemma ViewImage(path: string, env: Env, open: string -> OpenOutcome)
    requires path == "examples/images/image(貓).jpg" && open(path).Opened?
    ensures FromFile(path, None, None, open).Ok?
    ensures Respond(FromFile(path, None, None, open).value, env) ==
      Ok(Response(map[CONTENT_DISPOSITION := INLINE_FILENAME + env.encodeComponent("image(貓).jpg"),
                      CONTENT_TYPE := env.guessMime("jpg").text],
                  Sized(None, OpenFile(open(path).file))))
  {
    var dir, stem, ext := "examples/images", "image(貓)", "jpg";
    assert stem + "." + ext == "image(貓).jpg";
    assert dir + "/" + (stem + "." + ext) == path;
    FileServedUnderOwnName(dir, stem, ext, open(path).file, env);
  }

  /**
    With the RFC 3986 encoder, a file served under its own name carries
    that name as a parameter that decodes back to it.
   */
  lemma PathNameRoundTrips(dir: string, name: string, file: FileHandle, ct: Option<Mime>, guess: string -> Mime,
                           tempFileReader: TempUpload -> Option<ReaderHandle>)
    requires Paths.IsNormal(name)
    ensures var v := Respond(RawResponsePro(None, ct, File(dir + "/" + name, file)),
                             Env(UrlEscape.EncodeComponent, guess, tempFileReader)).value.headers[CONTENT_DISPOSITION];
      && v == INLINE_FILENAME + UrlEscape.EncodeComponent(name)
      && UrlEscape.PercentDecode(v[|INLINE_FILENAME|..]) == Some(UrlEscape.Utf8(name))
      && UrlEscape.Utf8Decode(UrlEscape.PercentDecode(v[|INLINE_FILENAME|..]).value) == Some(name)
  {
    Paths.FileNameOfJoin(dir, name);
    var t := UrlEscape.EncodeComponent(name);
    assert (INLINE_FILENAME + t)[|INLINE_FILENAME|..] == t;
    UrlEscape.ComponentRoundTrip(name);
  }

  /** `a/b/report.pdf` with no caller's name: the disposition parameter decodes to `report.pdf`. */
  lemma ReportPdf(path: string, name: string, file: FileHandle, guess: string -> Mime,
                  tempFileReader: TempUpload -> Option<ReaderHandle>)
    requires name == "report.pdf" && path == "a/b/report.pdf"
    ensures var h := Respond(RawResponsePro(None, None, File(path, file)),
                             Env(UrlEscape.EncodeComponent, guess, tempFileReader)).value.headers;
      && h[CONTENT_DISPOSITION] == INLINE_FILENAME + UrlEscape.EncodeComponent(name)
      && UrlEscape.PercentDecode(h[CONTENT_DISPOSITION][|INLINE_FILENAME|..]) == Some(UrlEscape.Utf8(name))
      && UrlEscape.Utf8Decode(UrlEscape.PercentDecode(h[CONTENT_DISPOSITION][|INLINE_FILENAME|..]).value) == Some(name)
      && CONTENT_TYPE in h && h[CONTENT_TYPE] == guess("pdf").text
  {
    var dir, stem, ext := "a/b", "report", "pdf";
    assert stem + "." + ext == name;
    assert dir + "/" + name == path;
    FileServedUnderOwnName(dir, stem, ext, file, Env(UrlEscape.EncodeComponent, guess, tempFileReader));
    PathNameRoundTrips(dir, name, file, None, guess, tempFileReader);
  }
}
