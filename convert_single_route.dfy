/** `POST /api/convert-single`: convert the one uploaded `image` to WebP,
    naming the download after the optional `fileName` field. */
module ConvertSingleRoute {
  import opened Types
  import ConvertRoute

  const NoFileMessage := "No image file provided"
  const ConversionFailedMessage := "Failed to convert image"

  /** `fileName || file.name.split('.')[0]`: an absent or empty override
      falls back to the file's base name. */
  function OutputBase(fileName: Option<string>, name: string): string {
    if fileName.Some? && fileName.value != "" then fileName.value else BaseName(name)
  }

  /** The route as a value, for the form fields `image` and `fileName`. */
  function Respond(image: Option<File>, fileName: Option<string>, encode: Codec): Response {
    match image
    case None => Json(400, NoFileMessage, None)
    case Some(file) =>
      match encode(file.bytes)
      case Failure(e) => Json(500, ConversionFailedMessage, Some(Details(e)))
      case Success(webp) => Binary("image/webp", Attachment(OutputBase(fileName, file.name) + ".webp"), WebP(webp))
  }

  /** Every error this route sends carries a 4xx or 5xx status, so a
      response the client sees as ok is a download. */
  lemma OkIsDownload(image: Option<File>, fileName: Option<string>, encode: Codec)
    ensures Respond(image, fileName, encode).Json? ==> Status(Respond(image, fileName, encode)) in {400, 500}
    ensures IsOk(Respond(image, fileName, encode)) <==> Respond(image, fileName, encode).Binary?
  {
  }

  /** A missing `image` field is refused with 400 before anything is converted. */
  lemma MissingImage(fileName: Option<string>, encode: Codec)
    ensures Respond(None, fileName, encode) == Json(400, NoFileMessage, None)
    ensures Status(Respond(None, fileName, encode)) == 400
  {
  }

  /** The route checks neither size nor anything else: a present file
      succeeds exactly when the codec accepts it, and a codec error gives 500
      with its details. */
  lemma NoLimits(file: File, fileName: Option<string>, encode: Codec)
    ensures IsOk(Respond(Some(file), fileName, encode)) <==> encode(file.bytes).Success?
    ensures encode(file.bytes).Success? ==>
      Respond(Some(file), fileName, encode).contentType == "image/webp" &&
      Respond(Some(file), fileName, encode).body == WebP(encode(file.bytes).value)
    ensures encode(file.bytes).Failure? ==>
      Respond(Some(file), fileName, encode) == Json(500, ConversionFailedMessage, Some(Details(encode(file.bytes).error)))
  {
  }

  /** A non-empty override names the download verbatim, dots and all; an
      absent or empty one gives the text before the first '.' of the file's name. */
  lemma DownloadName(file: File, fileName: Option<string>, encode: Codec)
    requires encode(file.bytes).Success?
    ensures fileName.Some? && fileName.value != "" ==>
      Respond(Some(file), fileName, encode).disposition == Attachment(fileName.value + ".webp")
    ensures fileName.None? || fileName == Some("") ==>
      Respond(Some(file), fileName, encode).disposition == Attachment(BaseName(file.name) + ".webp")
    ensures '.' !in file.name ==>
      Respond(Some(file), None, encode).disposition == Attachment(file.name + ".webp")
  {
  }

  /** The two routes disagree on uploads over 20 MiB: the batch route refuses
      a single such file, this route converts it. */
  lemma SizeLimitOnlyInBatchRoute(file: File, encode: Codec)
    requires file.size > ConvertRoute.MaxTotalSize && encode(file.bytes).Success?
    ensures Status(ConvertRoute.BatchResponse([file], encode)) == 400
    ensures IsOk(Respond(Some(file), None, encode))
  {
  }

  /** Within the limit, a single file sent here without an override gets the
      same download as from the batch route. */
  lemma AgreesWithBatchRoute(file: File, encode: Codec)
    requires file.size <= ConvertRoute.MaxTotalSize && encode(file.bytes).Success?
    ensures Respond(Some(file), None, encode) == ConvertRoute.BatchResponse([file], encode)
  {
    assert [file][..0] == [];
    assert ConvertRoute.TotalSize([file]) == file.size;
  }
}
