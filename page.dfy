/** The client page's state and the logic behind its controls: the list of
    selected files (a new file that matches a selected one by name and size
    is skipped; at most ten), removing one file, clearing the list, and the
    convert button that fills the list of conversion results. Rendering is not part of this model. */
module Page {
  import opened Types
  import ConvertRoute
  import ConvertSingleRoute

  /** One conversion result shown on the page. `blob` is the response body
      the page's object URL points at. */
  datatype ConvertedFile = ConvertedFile(name: string, blob: Body, originalFile: File)

  /** Two files count as the same file when name and size agree. */
  predicate SameFile(a: File, b: File) {
    a.name == b.name && a.size == b.size
  }

  /** `existing.some(e => e.name === f.name && e.size === f.size)`. */
  predicate IsSelected(existing: seq<File>, f: File) {
    exists e :: e in existing && SameFile(e, f)
  }

  /** The incoming files that do not duplicate an already selected one, in
      their incoming order. Incoming files are not compared with each other. */
  function FreshFiles(existing: seq<File>, incoming: seq<File>): (unique: seq<File>)
    ensures forall f :: f in unique <==> f in incoming && !IsSelected(existing, f)
    ensures |unique| <= |incoming|
  {
    if incoming == [] then []
    else (if IsSelected(existing, incoming[0]) then [] else [incoming[0]]) + FreshFiles(existing, incoming[1..])
  }

  /** Filtering works file by file: filtering two lists side by side is
      filtering each; together with the one-file case this fixes the order. */
  lemma {:induction false} FreshFilesAppend(existing: seq<File>, a: seq<File>, b: seq<File>)
    ensures FreshFiles(existing, a + b) == FreshFiles(existing, a) + FreshFiles(existing, b)
    decreases |a|
  {
    if a != [] {
      assert (a + b)[0] == a[0];
      assert (a + b)[1..] == a[1..] + b;
      FreshFilesAppend(existing, a[1..], b);
    } else {
      assert a + b == b;
    }
  }

  /** `[...files, ...uniqueFiles].slice(0, 10)`. */
  function Merge(existing: seq<File>, incoming: seq<File>): (merged: seq<File>)
    ensures |merged| <= MaxFiles
  {
    var all := existing + FreshFiles(existing, incoming);
    if |all| <= MaxFiles then all else all[..MaxFiles]
  }

  /** Adding files keeps the earlier selection, in order, as a prefix; what
      follows it is the start of the fresh incoming files, in incoming order,
      none duplicating an earlier selected file; all of them are added when
      they fit, and otherwise the selection is full. */
  lemma MergeSpec(existing: seq<File>, incoming: seq<File>)
    requires |existing| <= MaxFiles
    ensures existing <= Merge(existing, incoming)
    ensures Merge(existing, incoming)[|existing|..] <= FreshFiles(existing, incoming)
    ensures forall f :: f in Merge(existing, incoming)[|existing|..] ==> f in incoming && !IsSelected(existing, f)
    ensures |existing| + |FreshFiles(existing, incoming)| <= MaxFiles ==>
      Merge(existing, incoming) == existing + FreshFiles(existing, incoming)
    ensures |existing| + |FreshFiles(existing, incoming)| > MaxFiles ==> |Merge(existing, incoming)| == MaxFiles
  {
  }

  /** Files repeated within one selection are all added. */
  lemma MergeKeepsRepeatsWithinBatch(f: File)
    ensures Merge([], [f, f]) == [f, f]
  {
  }

  /** A file already selected (same name and size) is not added again. */
  lemma MergeSkipsSelected(existing: seq<File>, f: File)
    requires |existing| <= MaxFiles && IsSelected(existing, f)
    ensures Merge(existing, [f]) == existing
  {
  }

  /** When every incoming file is already selected nothing is fresh. */
  lemma {:induction false} FreshFilesNone(existing: seq<File>, incoming: seq<File>)
    requires forall f :: f in incoming ==> IsSelected(existing, f)
    ensures FreshFiles(existing, incoming) == []
    decreases |incoming|
  {
    if incoming != [] {
      assert incoming[0] in incoming;
      assert forall f :: f in incoming[1..] ==> f in incoming;
      FreshFilesNone(existing, incoming[1..]);
    }
  }

  /** Selecting the same files a second time changes nothing. */
  lemma MergeIdempotent(existing: seq<File>, incoming: seq<File>)
    requires |existing| <= MaxFiles
    ensures Merge(Merge(existing, incoming), incoming) == Merge(existing, incoming)
  {
    var merged := Merge(existing, incoming);
    MergeSpec(existing, incoming);
    var again := FreshFiles(merged, incoming);
    if |merged| < MaxFiles {
      assert merged == existing + FreshFiles(existing, incoming);
      forall f | f in incoming ensures IsSelected(merged, f) {
        if IsSelected(existing, f) {
          var e :| e in existing && SameFile(e, f);
          assert e in merged;
        } else {
          assert f in merged;
          assert SameFile(f, f);
        }
      }
      FreshFilesNone(merged, incoming);
      assert merged + again == merged;
    } else {
      assert (merged + again)[..MaxFiles] == merged;
    }
  }

  /** `files.filter((_, i) => i !== index)`. */
  function WithoutIndex(s: seq<File>, index: int): seq<File> {
    if s == [] then []
    else (if index == 0 then [] else [s[0]]) + WithoutIndex(s[1..], index - 1)
  }

  /** An index in range removes exactly that file and keeps the others in
      order; any other index leaves the list as it is. */
  lemma {:induction false} RemoveAt(s: seq<File>, index: int)
    ensures 0 <= index < |s| ==> WithoutIndex(s, index) == s[..index] + s[index + 1..]
    ensures !(0 <= index < |s|) ==> WithoutIndex(s, index) == s
    decreases |s|
  {
    if s != [] {
      var rest := s[1..];
      RemoveAt(rest, index - 1);
      assert WithoutIndex(s, index) == (if index == 0 then [] else [s[0]]) + WithoutIndex(rest, index - 1);
      if index == 0 {
        assert s[..0] + s[1..] == rest;
      } else if 0 < index < |s| {
        assert s[..index] == [s[0]] + rest[..index - 1];
        assert s[index + 1..] == rest[index..];
      } else {
        assert WithoutIndex(rest, index - 1) == rest;
        assert [s[0]] + rest == s;
      }
    }
  }

  /** The preview the page keeps for `file` after asking the single-file
      route to convert it under its base name, if that request succeeded. */
  function PreviewFor(file: File, encode: Codec): Option<ConvertedFile> {
    var response := ConvertSingleRoute.Respond(Some(file), Some(BaseName(file.name)), encode);
    ConvertSingleRoute.OkIsDownload(Some(file), Some(BaseName(file.name)), encode);
    if IsOk(response) then Some(ConvertedFile(OutputName(file.name), response.body, file)) else None
  }

  /** The previews of the successful files, in selection order. */
  function Previews(files: seq<File>, encode: Codec): seq<ConvertedFile> {
    if files == [] then []
    else
      var last := files[|files| - 1];
      Previews(files[..|files| - 1], encode) + match PreviewFor(last, encode)
                                               case Some(p) => [p]
                                               case None => []
  }

  /** The preview loop of the convert button (`handleBulkConvert`): one
      single-file request per selected file, keeping the successful ones. */
  method CollectPreviews(files: seq<File>, encode: Codec) returns (individualFiles: seq<ConvertedFile>)
    ensures individualFiles == Previews(files, encode)
  {
    individualFiles := [];
    for i := 0 to |files|
      invariant individualFiles == Previews(files[..i], encode)
    {
      var file := files[i];
      var singleResponse := ConvertSingleRoute.Respond(Some(file), Some(BaseName(file.name)), encode);
      ConvertSingleRoute.OkIsDownload(Some(file), Some(BaseName(file.name)), encode);
      if IsOk(singleResponse) {
        individualFiles := individualFiles + [ConvertedFile(OutputName(file.name), singleResponse.body, file)];
      }
      assert files[..i + 1][..i] == files[..i];
    }
    assert files[..|files|] == files;
  }

  /** Previews are collected file by file, in order. */
  lemma {:induction false} PreviewsAppend(a: seq<File>, b: seq<File>, encode: Codec)
    ensures Previews(a + b, encode) == Previews(a, encode) + Previews(b, encode)
    decreases |b|
  {
    if b == [] {
      assert a + b == a;
    } else {
      var b' := b[..|b| - 1];
      assert (a + b)[..|a + b| - 1] == a + b';
      assert (a + b)[|a + b| - 1] == b[|b| - 1];
      PreviewsAppend(a, b', encode);
    }
  }

  /** Only successful files get a preview, so there are at most as many
      previews as files; each one is named `BaseName + ".webp"` after a
      selected file and shows that file's WebP bytes. */
  lemma {:induction false} PreviewsAreSuccesses(files: seq<File>, encode: Codec)
    ensures |Previews(files, encode)| <= |files|
    ensures forall p :: p in Previews(files, encode) ==>
      && p.originalFile in files
      && encode(p.originalFile.bytes).Success?
      && p.name == BaseName(p.originalFile.name) + ".webp"
      && p.blob == WebP(encode(p.originalFile.bytes).value)
    decreases |files|
  {
    if files != [] {
      var prefix := files[..|files| - 1];
      PreviewsAreSuccesses(prefix, encode);
      assert forall f :: f in prefix ==> f in files;
    }
  }

  /** When every file converts, every file gets its preview, in selection order. */
  lemma {:induction false} PreviewsAllSucceed(files: seq<File>, encode: Codec)
    requires ConvertRoute.AllEncode(files, encode)
    ensures |Previews(files, encode)| == |files|
    ensures forall i :: 0 <= i < |files| ==>
      Previews(files, encode)[i] == ConvertedFile(OutputName(files[i].name), WebP(encode(files[i].bytes).value), files[i])
    decreases |files|
  {
    if files != [] {
      var n := |files| - 1;
      var prefix := files[..n];
      assert forall i :: 0 <= i < n ==> prefix[i] == files[i];
      PreviewsAllSucceed(prefix, encode);
    }
  }

  /** The preview's name is also the name the single-file route gives the download. */
  lemma PreviewNameMatchesDownload(file: File, encode: Codec)
    requires encode(file.bytes).Success?
    ensures PreviewFor(file, encode).Some?
    ensures ConvertSingleRoute.Respond(Some(file), Some(BaseName(file.name)), encode).disposition ==
      Attachment(PreviewFor(file, encode).value.name)
  {
  }

  /** What the convert button leaves in the list of results, given the
      selection and the list before: nothing changes for an empty selection
      or a refused batch; one file gives its own preview; several files give
      the previews of the single-file requests. */
  function AfterBulkConvert(files: seq<File>, previous: seq<ConvertedFile>, encode: Codec): seq<ConvertedFile> {
    if files == [] then previous
    else
      var response := ConvertRoute.BatchResponse(files, encode);
      ConvertRoute.OkIsDownload(files, encode);
      if !IsOk(response) then previous
      else if |files| == 1 then [ConvertedFile(OutputName(files[0].name), response.body, files[0])]
      else Previews(files, encode)
  }

  /** A batch refused or failed by the server leaves the results as they were. */
  lemma BulkConvertRefused(files: seq<File>, previous: seq<ConvertedFile>, encode: Codec)
    requires !IsOk(ConvertRoute.BatchResponse(files, encode))
    ensures AfterBulkConvert(files, previous, encode) == previous
  {
  }

  /** A single selected file that converts is shown as one preview named after it. */
  lemma BulkConvertOneFile(file: File, previous: seq<ConvertedFile>, encode: Codec)
    requires file.size <= ConvertRoute.MaxTotalSize && encode(file.bytes).Success?
    ensures AfterBulkConvert([file], previous, encode) ==
      [ConvertedFile(BaseName(file.name) + ".webp", WebP(encode(file.bytes).value), file)]
  {
    assert [file][..0] == [];
    assert ConvertRoute.TotalSize([file]) == file.size;
  }

  /** When the server's batch succeeds for several files, each of them has
      converted, so each gets its preview, in selection order, and each
      preview agrees with the archive entry of its name unless a later file
      derives the same name. */
  lemma BulkConvertManyFiles(files: seq<File>, previous: seq<ConvertedFile>, encode: Codec)
    requires |files| >= 2 && IsOk(ConvertRoute.BatchResponse(files, encode))
    ensures |AfterBulkConvert(files, previous, encode)| == |files|
    ensures forall i :: 0 <= i < |files| ==>
      AfterBulkConvert(files, previous, encode)[i].originalFile == files[i] &&
      AfterBulkConvert(files, previous, encode)[i].name == OutputName(files[i].name)
    ensures ConvertRoute.BatchResponse(files, encode).Binary? && ConvertRoute.BatchResponse(files, encode).body.Zip?
    ensures forall i :: 0 <= i < |files| && ConvertRoute.LastWithItsName(files, i) ==>
      OutputName(files[i].name) in ConvertRoute.BatchResponse(files, encode).body.entries &&
      AfterBulkConvert(files, previous, encode)[i].blob ==
        WebP(ConvertRoute.BatchResponse(files, encode).body.entries[OutputName(files[i].name)])
  {
    ConvertRoute.ConvertedSuccess(files, encode);
    assert ConvertRoute.AllEncode(files, encode);
    PreviewsAllSucceed(files, encode);
    ConvertRoute.ArchiveResponse(files, encode);
  }

  /** The page's state: the selected files and the conversion results. */
  class Home {
    var files: seq<File>
    var convertedFiles: seq<ConvertedFile>

    /** The selection never holds more than ten files. */
    ghost predicate Valid()
      reads this
    {
      |files| <= MaxFiles
    }

    constructor ()
      ensures Valid() && files == [] && convertedFiles == []
    {
      files := [];
      convertedFiles := [];
    }

    /** The file input's change handler. An absent file list changes nothing;
        any file list, even an empty one, merges and clears the results. */
    method HandleFileChange(selected: Option<seq<File>>)
      requires Valid()
      modifies this
      ensures Valid()
      ensures selected.None? ==> files == old(files) && convertedFiles == old(convertedFiles)
      ensures selected.Some? ==> files == Merge(old(files), selected.value) && convertedFiles == []
      ensures old(files) <= files
    {
      if selected.Some? {
        MergeSpec(files, selected.value);
        files := Merge(files, selected.value);
        convertedFiles := [];
      }
    }

    /** The drop handler: a drop without files changes nothing; otherwise
        the dropped files are merged and the results cleared. */
    method HandleDrop(dropped: seq<File>)
      requires Valid()
      modifies this
      ensures Valid()
      ensures dropped == [] ==> files == old(files) && convertedFiles == old(convertedFiles)
      ensures dropped != [] ==> files == Merge(old(files), dropped) && convertedFiles == []
      ensures old(files) <= files
    {
      if dropped != [] {
        MergeSpec(files, dropped);
        files := Merge(files, dropped);
        convertedFiles := [];
      }
    }

    /** The remove button of the file at `index`; the results stay. */
    method RemoveFile(index: int)
      requires Valid()
      modifies this
      ensures Valid()
      ensures 0 <= index < |old(files)| ==> files == old(files)[..index] + old(files)[index + 1..]
      ensures !(0 <= index < |old(files)|) ==> files == old(files)
      ensures convertedFiles == old(convertedFiles)
    {
      RemoveAt(files, index);
      files := WithoutIndex(files, index);
    }

    /** "Clear All" empties the selection; the results stay. */
    method ClearAll()
      modifies this
      ensures Valid()
      ensures files == [] && convertedFiles == old(convertedFiles)
    {
      files := [];
    }

    /** The convert button: nothing for an empty selection; otherwise the
        batch request, then the result list as `AfterBulkConvert` says. */
    method HandleBulkConvert(encode: Codec)
      requires Valid()
      modifies this
      ensures Valid()
      ensures files == old(files)
      ensures old(files) == [] ==> convertedFiles == old(convertedFiles)
      ensures convertedFiles == AfterBulkConvert(old(files), old(convertedFiles), encode)
    {
      if |files| == 0 {
        return;
      }
      var response, _ := ConvertRoute.Post(files, encode);
      ConvertRoute.OkIsDownload(files, encode);
      if IsOk(response) {
        if |files| == 1 {
          var originalName := BaseName(files[0].name);
          convertedFiles := [ConvertedFile(originalName + ".webp", response.body, files[0])];
        } else {
          var individualFiles := CollectPreviews(files, encode);
          convertedFiles := individualFiles;
        }
      }
    }
  }
}
