/** `POST /api/convert`: validate a batch of uploaded images, convert each
    to WebP, and answer with the single WebP file or with a ZIP archive of
    all of them. */
module ConvertRoute {
  import opened Types

  /** The total upload limit, 20 MiB. */
  const MaxTotalSizeMiB: nat := 20
  const MaxTotalSize: nat := MaxTotalSizeMiB * 1024 * 1024

  const ArchiveName := "converted-images.zip"

  const NoFilesMessage := "No image files provided"
  const TooManyFilesMessage := "Maximum 10 files allowed"
  /** `Maximum ${maxSize / 1024 / 1024}MB allowed.` with the division worked out. */
  const TooLargeMessage := "Total file size too large. Maximum 20MB allowed."
  const ConversionFailedMessage := "Failed to convert images"

  /** One element of `convertedFiles`: output name, WebP bytes, original name. */
  datatype ConvertedEntry = ConvertedEntry(name: string, buffer: seq<byte>, originalName: string)

  /** What the multi-file loop leaves behind when every file converts:
      the archive's entries and the list of converted files. */
  datatype Zipped = Zipped(zip: map<string, seq<byte>>, convertedFiles: seq<ConvertedEntry>)

  /** `files.reduce((sum, file) => sum + file.size, 0)`, a left fold. */
  function TotalSize(files: seq<File>): nat {
    if files == [] then 0 else TotalSize(files[..|files| - 1]) + files[|files| - 1].size
  }

  /** The total of two batches side by side is the sum of their totals. */
  lemma {:induction false} TotalSizeAppend(a: seq<File>, b: seq<File>)
    ensures TotalSize(a + b) == TotalSize(a) + TotalSize(b)
    decreases |b|
  {
    if b == [] {
      assert a + b == a;
    } else {
      var b' := b[..|b| - 1];
      assert (a + b)[..|a + b| - 1] == a + b';
      TotalSizeAppend(a, b');
    }
  }

  /** No single file is larger than the total. */
  lemma {:induction false} TotalSizeBoundsEachFile(files: seq<File>, i: nat)
    requires i < |files|
    ensures files[i].size <= TotalSize(files)
  {
    TotalSizeAppend(files[..i], files[i..]);
    assert files[..i] + files[i..] == files;
    assert files[i..] == [files[i]] + files[i + 1..];
    TotalSizeAppend([files[i]], files[i + 1..]);
    assert TotalSize([files[i]]) == files[i].size by {
      assert [files[i]][..0] == [];
    }
  }

  /** The validation chain: the first check that fails decides the 400
      response; `None` lets the batch through to conversion. */
  function Rejection(files: seq<File>): Option<Response> {
    if |files| == 0 then Some(Json(400, NoFilesMessage, None))
    else if |files| > MaxFiles then Some(Json(400, TooManyFilesMessage, None))
    else if TotalSize(files) > MaxTotalSize then Some(Json(400, TooLargeMessage, None))
    else None
  }

  /** The catch-all handler's 500 response. */
  function ConversionFailed(e: Thrown): Response {
    Json(500, ConversionFailedMessage, Some(Details(e)))
  }

  /** The converted-file record for `f` once the codec produced `webp`. */
  function EntryFor(f: File, webp: seq<byte>): ConvertedEntry {
    ConvertedEntry(OutputName(f.name), webp, f.name)
  }

  /** The codec accepts every file of the batch. */
  predicate AllEncode(files: seq<File>, encode: Codec) {
    forall i :: 0 <= i < |files| ==> encode(files[i].bytes).Success?
  }

  /** `k` is the first file of the batch the codec rejects. */
  predicate FirstFailureAt(files: seq<File>, encode: Codec, k: nat) {
    && k < |files|
    && encode(files[k].bytes).Failure?
    && forall j :: 0 <= j < k ==> encode(files[j].bytes).Success?
  }

  /** The loop over the batch as a value: the converted files in order, or
      the error thrown by the first file the codec rejects. */
  function Converted(files: seq<File>, encode: Codec): Result<seq<ConvertedEntry>, Thrown> {
    if files == [] then Success([])
    else
      match Converted(files[..|files| - 1], encode)
      case Failure(e) => Failure(e)
      case Success(done) =>
        var f := files[|files| - 1];
        match encode(f.bytes)
        case Failure(e) => Failure(e)
        case Success(webp) => Success(done + [EntryFor(f, webp)])
  }

  /** The converted list is complete exactly when every file converts; it then
      holds one entry per file, in submission order. */
  lemma {:induction false} ConvertedSuccess(files: seq<File>, encode: Codec)
    ensures Converted(files, encode).Success? <==> AllEncode(files, encode)
    ensures Converted(files, encode).Success? ==>
      var c := Converted(files, encode).value;
      && |c| == |files|
      && forall i :: 0 <= i < |files| ==> c[i] == EntryFor(files[i], encode(files[i].bytes).value)
    decreases |files|
  {
    if files != [] {
      var n := |files| - 1;
      var prefix := files[..n];
      ConvertedSuccess(prefix, encode);
      assert forall i :: 0 <= i < n ==> prefix[i] == files[i];
    }
  }

  /** A failing batch fails with the error of the first file the codec rejects. */
  lemma {:induction false} ConvertedFailure(files: seq<File>, encode: Codec)
    requires Converted(files, encode).Failure?
    ensures exists k: nat :: FirstFailureAt(files, encode, k) && encode(files[k].bytes).error == Converted(files, encode).error
    decreases |files|
  {
    var n := |files| - 1;
    var prefix := files[..n];
    if Converted(prefix, encode).Failure? {
      ConvertedFailure(prefix, encode);
      var k: nat :| FirstFailureAt(prefix, encode, k) && encode(prefix[k].bytes).error == Converted(prefix, encode).error;
      assert forall i :: 0 <= i < n ==> prefix[i] == files[i];
      assert FirstFailureAt(files, encode, k);
    } else {
      ConvertedSuccess(prefix, encode);
      assert forall i :: 0 <= i < n ==> prefix[i] == files[i];
      assert FirstFailureAt(files, encode, n);
    }
  }

  /** Once a prefix of the batch fails, the whole batch fails the same way:
      later files are never reached. */
  lemma {:induction false} ConvertedPrefixFailure(files: seq<File>, encode: Codec, k: nat)
    requires k <= |files|
    requires Converted(files[..k], encode).Failure?
    ensures Converted(files, encode) == Converted(files[..k], encode)
    decreases |files| - k
  {
    if k < |files| {
      assert files[..k + 1][..k] == files[..k];
      ConvertedPrefixFailure(files, encode, k + 1);
    } else {
      assert files[..k] == files;
    }
  }

  /** `zip.file(name, data)` applied to each entry in turn: a later entry with
      the same name replaces the earlier one. */
  function ArchiveOf(entries: seq<ConvertedEntry>): map<string, seq<byte>> {
    if entries == [] then map[]
    else
      var last := entries[|entries| - 1];
      ArchiveOf(entries[..|entries| - 1])[last.name := last.buffer]
  }

  /** The names the entries carry. */
  function Names(entries: seq<ConvertedEntry>): set<string> {
    set i | 0 <= i < |entries| :: entries[i].name
  }

  /** The archive holds exactly one entry per distinct name. */
  lemma {:induction false} ArchiveKeys(entries: seq<ConvertedEntry>)
    ensures ArchiveOf(entries).Keys == Names(entries)
    decreases |entries|
  {
    if entries != [] {
      var n := |entries| - 1;
      var prefix := entries[..n];
      ArchiveKeys(prefix);
      assert forall i :: 0 <= i < n ==> prefix[i] == entries[i];
      assert Names(entries) == Names(prefix) + {entries[n].name};
    }
  }

  /** Under each name the archive stores the bytes of the last entry with that name. */
  lemma {:induction false} ArchiveLastWins(entries: seq<ConvertedEntry>, i: nat)
    requires i < |entries|
    requires forall j :: i < j < |entries| ==> entries[j].name != entries[i].name
    ensures entries[i].name in ArchiveOf(entries)
    ensures ArchiveOf(entries)[entries[i].name] == entries[i].buffer
    decreases |entries|
  {
    var n := |entries| - 1;
    if i < n {
      var prefix := entries[..n];
      ArchiveLastWins(prefix, i);
    }
  }

  /** The archive never has more entries than were added. */
  lemma {:induction false} ArchiveSizeBound(entries: seq<ConvertedEntry>)
    ensures |ArchiveOf(entries)| <= |entries|
    decreases |entries|
  {
    if entries != [] {
      ArchiveSizeBound(entries[..|entries| - 1]);
    }
  }

  /** Two entries with one name leave fewer archive entries than files. */
  lemma {:induction false} ArchiveCollision(entries: seq<ConvertedEntry>, i: nat, j: nat)
    requires i < j < |entries|
    requires entries[i].name == entries[j].name
    ensures |ArchiveOf(entries)| < |entries|
    decreases |entries|
  {
    var n := |entries| - 1;
    var prefix := entries[..n];
    if j == n {
      ArchiveKeys(prefix);
      assert prefix[i].name in Names(prefix);
      ArchiveSizeBound(prefix);
    } else {
      ArchiveCollision(prefix, i, j);
    }
  }

  /** With pairwise distinct names nothing is replaced: one archive entry per file. */
  lemma {:induction false} ArchiveDistinct(entries: seq<ConvertedEntry>)
    requires forall i, j :: 0 <= i < j < |entries| ==> entries[i].name != entries[j].name
    ensures |ArchiveOf(entries)| == |entries|
    decreases |entries|
  {
    if entries != [] {
      var n := |entries| - 1;
      var prefix := entries[..n];
      ArchiveDistinct(prefix);
      ArchiveKeys(prefix);
      assert entries[n].name !in Names(prefix);
    }
  }

  /** The route as a value: the response `POST` sends for the `images` field. */
  function BatchResponse(files: seq<File>, encode: Codec): Response {
    match Rejection(files)
    case Some(error) => error
    case None =>
      if |files| == 1 then
        match encode(files[0].bytes)
        case Failure(e) => ConversionFailed(e)
        case Success(webp) => Binary("image/webp", Attachment(OutputName(files[0].name)), WebP(webp))
      else
        match Converted(files, encode)
        case Failure(e) => ConversionFailed(e)
        case Success(c) => Binary("application/zip", Attachment(ArchiveName), Zip(ArchiveOf(c)))
  }

  /** Every error this route sends carries a 4xx or 5xx status, so a
      response the client sees as ok is a download. */
  lemma OkIsDownload(files: seq<File>, encode: Codec)
    ensures BatchResponse(files, encode).Json? ==> Status(BatchResponse(files, encode)) in {400, 500}
    ensures IsOk(BatchResponse(files, encode)) <==> BatchResponse(files, encode).Binary?
  {
  }

  /** The multi-file `for` loop of the batch handler: encode each file in
      order, add it to the archive under its output name and to
      `convertedFiles`; the first codec error ends the loop. `encoded` lists the codec's inputs in the
      order it received them. */
  method ZipAll(files: seq<File>, encode: Codec) returns (outcome: Result<Zipped, Thrown>, encoded: seq<seq<byte>>)
    ensures outcome == match Converted(files, encode)
                       case Success(c) => Success(Zipped(ArchiveOf(c), c))
                       case Failure(e) => Failure(e)
    ensures |encoded| <= |files|
    ensures forall j :: 0 <= j < |encoded| ==> encoded[j] == files[j].bytes
    ensures outcome.Success? ==> |encoded| == |files|
    ensures outcome.Failure? ==>
      && |encoded| > 0
      && encode(encoded[|encoded| - 1]) == Failure(outcome.error)
      && forall j :: 0 <= j < |encoded| - 1 ==> encode(encoded[j]).Success?
  {
    var zip: map<string, seq<byte>> := map[];
    var convertedFiles: seq<ConvertedEntry> := [];
    encoded := [];
    var i := 0;
    while i < |files|
      invariant 0 <= i <= |files|
      invariant |encoded| == i
      invariant forall j :: 0 <= j < i ==> encoded[j] == files[j].bytes
      invariant forall j :: 0 <= j < i ==> encode(files[j].bytes).Success?
      invariant Converted(files[..i], encode) == Success(convertedFiles)
      invariant zip == ArchiveOf(convertedFiles)
    {
      var file := files[i];
      encoded := encoded + [file.bytes];
      var webpBuffer := encode(file.bytes);
      assert files[..i + 1][..i] == files[..i];
      if webpBuffer.Failure? {
        ConvertedPrefixFailure(files, encode, i + 1);
        outcome := Failure(webpBuffer.error);
        return;
      }
      var fileName := OutputName(file.name);
      zip := zip[fileName := webpBuffer.value];
      var entry := ConvertedEntry(fileName, webpBuffer.value, file.name);
      assert (convertedFiles + [entry])[..|convertedFiles|] == convertedFiles;
      convertedFiles := convertedFiles + [entry];
      i := i + 1;
    }
    assert files[..i] == files;
    outcome := Success(Zipped(zip, convertedFiles));
  }

  /** `POST /api/convert`. The response is `BatchResponse`; `encoded` lists
      what was handed to the codec, in order: nothing for a rejected batch,
      the one file for a single upload, every file when all convert, and
      every file up to and including the first rejected one otherwise. */
  method Post(files: seq<File>, encode: Codec) returns (response: Response, encoded: seq<seq<byte>>)
    ensures response == BatchResponse(files, encode)
    ensures Rejection(files).Some? ==> encoded == []
    ensures Rejection(files).None? && |files| == 1 ==> encoded == [files[0].bytes]
    ensures Rejection(files).None? && AllEncode(files, encode) ==>
      |encoded| == |files| && forall j :: 0 <= j < |files| ==> encoded[j] == files[j].bytes
    ensures Rejection(files).None? && !AllEncode(files, encode) ==>
      && 0 < |encoded| <= |files|
      && FirstFailureAt(files, encode, |encoded| - 1)
      && forall j :: 0 <= j < |encoded| ==> encoded[j] == files[j].bytes
  {
    var rejection := Rejection(files);
    if rejection.Some? {
      return rejection.value, [];
    }
    if |files| == 1 {
      var file := files[0];
      encoded := [file.bytes];
      var webpBuffer := encode(file.bytes);
      if webpBuffer.Failure? {
        return ConversionFailed(webpBuffer.error), encoded;
      }
      var originalName := BaseName(file.name);
      response := Binary("image/webp", Attachment(originalName + ".webp"), WebP(webpBuffer.value));
    } else {
      var outcome;
      outcome, encoded := ZipAll(files, encode);
      ConvertedSuccess(files, encode);
      if outcome.Failure? {
        return ConversionFailed(outcome.error), encoded;
      }
      response := Binary("application/zip", Attachment(ArchiveName), Zip(outcome.value.zip));
    }
  }

  /** The checks run in a fixed order and the first failure decides: an empty
      batch, then more than ten files, then a total above 20 MiB. Exactly ten
      files and a total of exactly 20 MiB pass. */
  lemma ValidationOrder(files: seq<File>, encode: Codec)
    ensures |files| == 0 ==> BatchResponse(files, encode) == Json(400, NoFilesMessage, None)
    ensures |files| > MaxFiles ==> BatchResponse(files, encode) == Json(400, TooManyFilesMessage, None)
    ensures 0 < |files| <= MaxFiles ==>
      (BatchResponse(files, encode) == Json(400, TooLargeMessage, None) <==> TotalSize(files) > MaxTotalSize)
    ensures Rejection(files).None? <==> 0 < |files| <= 10 && TotalSize(files) <= 20 * 1024 * 1024
    ensures Rejection(files).Some? ==> Status(BatchResponse(files, encode)) == 400
  {
  }

  /** A total of exactly 20 MiB is accepted; one byte more is refused. */
  lemma SizeLimitBoundary(f: File, g: File)
    requires f.size == MaxTotalSize && g.size == MaxTotalSize + 1
    ensures Rejection([f]).None?
    ensures Rejection([g]) == Some(Json(400, TooLargeMessage, None))
  {
    assert [f][..0] == [] && [g][..0] == [];
    assert TotalSize([f]) == f.size && TotalSize([g]) == g.size;
  }

  /** A single valid upload comes back as one WebP file named after it, or as
      the 500 error when the codec throws; no archive is involved. */
  lemma SingleFileResponse(files: seq<File>, encode: Codec)
    requires |files| == 1 && TotalSize(files) <= MaxTotalSize
    ensures BatchResponse(files, encode).Binary? <==> encode(files[0].bytes).Success?
    ensures encode(files[0].bytes).Success? ==>
      BatchResponse(files, encode) ==
        Binary("image/webp", Attachment(BaseName(files[0].name) + ".webp"), WebP(encode(files[0].bytes).value))
    ensures encode(files[0].bytes).Failure? ==>
      BatchResponse(files, encode) == Json(500, ConversionFailedMessage, Some(Details(encode(files[0].bytes).error)))
  {
  }

  /** The set of output names the batch's files derive. */
  function OutputNames(files: seq<File>): set<string> {
    set i | 0 <= i < |files| :: OutputName(files[i].name)
  }

  /** Several valid files that all convert give a ZIP download named
      `converted-images.zip` whose entry names are exactly the derived names,
      each holding the WebP bytes of the last file that derives it; with
      pairwise distinct names there are exactly as many entries as files. */
  lemma ArchiveResponse(files: seq<File>, encode: Codec)
    requires 2 <= |files| && Rejection(files).None? && AllEncode(files, encode)
    ensures BatchResponse(files, encode).Binary?
    ensures BatchResponse(files, encode).contentType == "application/zip"
    ensures BatchResponse(files, encode).disposition == Attachment(ArchiveName)
    ensures BatchResponse(files, encode).body.Zip?
    ensures BatchResponse(files, encode).body.entries.Keys == OutputNames(files)
    ensures forall i :: 0 <= i < |files| && LastWithItsName(files, i) ==>
      BatchResponse(files, encode).body.entries[OutputName(files[i].name)] == encode(files[i].bytes).value
    ensures DistinctOutputNames(files) ==> |BatchResponse(files, encode).body.entries| == |files|
  {
    ConvertedSuccess(files, encode);
    var c := Converted(files, encode).value;
    ArchiveKeys(c);
    ConvertedNames(files, encode);
    forall i | 0 <= i < |files| && LastWithItsName(files, i)
      ensures ArchiveOf(c)[OutputName(files[i].name)] == encode(files[i].bytes).value
    {
      ArchiveLastWins(c, i);
    }
    if DistinctOutputNames(files) {
      ArchiveDistinct(c);
    }
  }

  /** No later file of the batch derives the same output name as file `i`. */
  predicate LastWithItsName(files: seq<File>, i: nat)
    requires i < |files|
  {
    forall j :: i < j < |files| ==> OutputName(files[j].name) != OutputName(files[i].name)
  }

  /** No two files of the batch derive the same output name. */
  predicate DistinctOutputNames(files: seq<File>) {
    forall i, j :: 0 <= i < j < |files| ==> OutputName(files[i].name) != OutputName(files[j].name)
  }

  /** The converted list of a batch that converts carries the batch's derived names. */
  lemma ConvertedNames(files: seq<File>, encode: Codec)
    requires AllEncode(files, encode)
    ensures Converted(files, encode).Success? && Names(Converted(files, encode).value) == OutputNames(files)
  {
    ConvertedSuccess(files, encode);
    var c := Converted(files, encode).value;
    forall x ensures x in Names(c) <==> x in OutputNames(files) {
      if x in Names(c) {
        var i :| 0 <= i < |c| && c[i].name == x;
        assert OutputName(files[i].name) == x;
      }
      if x in OutputNames(files) {
        var i :| 0 <= i < |files| && OutputName(files[i].name) == x;
        assert c[i].name == x;
      }
    }
  }

  /** Two files of a converting batch that derive the same name ("img.png" and
      "img.jpg") share one archive entry, so the archive has fewer entries
      than the batch has files. */
  lemma NameCollision(files: seq<File>, encode: Codec, i: nat, j: nat)
    requires 2 <= |files| && Rejection(files).None? && AllEncode(files, encode)
    requires i < j < |files| && OutputName(files[i].name) == OutputName(files[j].name)
    ensures BatchResponse(files, encode).Binary? && BatchResponse(files, encode).body.Zip?
    ensures |BatchResponse(files, encode).body.entries| < |files|
  {
    ConvertedSuccess(files, encode);
    ArchiveCollision(Converted(files, encode).value, i, j);
  }

  /** One file the codec rejects fails the whole valid batch with a 500 whose
      details are those of the first failing file; no file or archive is sent. */
  lemma FailureAbortsBatch(files: seq<File>, encode: Codec)
    requires Rejection(files).None? && !AllEncode(files, encode)
    ensures BatchResponse(files, encode).Json?
    ensures Status(BatchResponse(files, encode)) == 500
    ensures BatchResponse(files, encode).error == ConversionFailedMessage
    ensures exists k: nat ::
      FirstFailureAt(files, encode, k) && BatchResponse(files, encode).details == Some(Details(encode(files[k].bytes).error))
  {
    ConvertedSuccess(files, encode);
    if |files| == 1 {
      assert FirstFailureAt(files, encode, 0);
    } else {
      ConvertedFailure(files, encode);
    }
  }
}
