# next-webp-converter, modelled in Dafny

This is a model of the decision logic in a small Next.js utility. The utility converts uploaded images to WebP. It has three parts:

- `POST /api/convert` checks a batch of up to ten files, 20 MiB in total. It converts each file. One file comes back as a WebP download; several come back as a ZIP archive named `converted-images.zip`.
- `POST /api/convert-single` converts one `image`. An optional `fileName` field overrides the download's base name.
- The client page keeps a selection of at most ten files. A new file that matches an already selected file by name and size is skipped; a file repeated within one pick is kept each time. It can remove one file or clear them all. Its convert button fills a list of preview results.

The image codec is a parameter `encode: Codec`. It maps input bytes either to WebP bytes or to a thrown value. The ZIP archive is modelled as the map from entry names to bytes that successive `zip.file(name, data)` calls build: a later entry with the same name replaces the earlier one. Responses are data values. A download carries its content type, its `Content-Disposition` header and a body, which is WebP bytes or the archive's entries. An error carries its status, `error` text and optional `details`.

Files:

- `types.dfy` (module `Types`): files, responses, the codec type, JavaScript's `split`/`join` for one separator, and `BaseName` (`name.split('.')[0]`).
- `convert_route.dfy` (module `ConvertRoute`): the validation chain, the size sum, the loop that builds the archive (`ZipAll`), the route itself (`Post`), and the lemmas about its responses.
- `convert_single_route.dfy` (module `ConvertSingleRoute`): the single-file route, and how it compares with the batch route.
- `page.dfy` (module `Page`): the selection rules, and the `Home` class. `Home` holds the page's `files` and `convertedFiles` state and has one method per handler.

The page's requests to the two routes are modelled by calling the route models with the same codec. This treats the codec as deterministic.

Three behaviours of the code that a reader might not expect:

- The output name is the text before the FIRST '.', so `"a.tar.gz"` gives `"a.webp"` and `".png"` gives `".webp"`.
- Two files of a batch whose names give the same output name share one archive entry. It holds the later file's bytes, so the archive can have fewer entries than the batch has files (`ArchiveCollision`, `NameCollision`).
- The 25-second timer in the batch route cannot abort the conversion loop, because its callback throws outside the awaited loop.

## Model

| member | source | states |
|---|---|---|
| Types.Split | src/app/api/convert/route.ts:43 | `split` for one separator yields at least one piece, no piece contains the separator, and the first piece is the prefix of the string that ends at its first separator (or is the whole string) |
| Types.JoinSplit | src/app/api/convert/route.ts:43 | joining the pieces with the separator gives back the original string |
| Types.SplitJoin | src/app/api/convert/route.ts:43 | splitting the join of separator-free pieces gives back the pieces |
| Types.BaseName | src/app/api/convert/route.ts:43 | `name.split('.')[0]` is a prefix of the name, contains no '.', and is followed in the name by a '.' unless it is the whole name |
| Types.BaseNameUnique | src/app/api/convert/route.ts:71 | any prefix with those three properties is the base name, so they define it |
| Types.BaseNameWithoutDot | src/app/api/convert-single/route.ts:26 | a name with no '.' is its own base name |
| Types.BaseNameExamples | src/app/api/convert/route.ts:71-72 | `"a.tar.gz"` gives `"a"`, and every name starting with '.' gives the empty base name |
| Types.Details | src/app/api/convert/route.ts:102 | no contract of its own: the `error instanceof Error ? error.message : "Unknown error"` rule that both routes' catch handlers apply (also src/app/api/convert-single/route.ts:39); FailureAbortsBatch and ConvertSingleRoute.NoLimits carry its properties |
| Types.Attachment | src/app/api/convert/route.ts:49 | no contract of its own: the `attachment; filename="…"` disposition template; AttachmentInjective carries its property |
| Types.OutputName | src/app/api/convert/route.ts:71-72 | no contract of its own: `${name.split('.')[0]}.webp`; BaseName's ensures, ConvertedNames, NameCollision and PreviewNameMatchesDownload carry its properties |
| Types.Status | src/app/api/convert/route.ts:17-21 | no contract of its own: the status a response carries, 200 for a download and the given status for a JSON error (the statuses at src/app/api/convert/route.ts:30, :46, :103 and src/app/api/convert-single/route.ts:17, :29, :40); ConvertRoute.OkIsDownload, ConvertRoute.ValidationOrder, ConvertRoute.FailureAbortsBatch and ConvertSingleRoute.MissingImage carry its properties |
| Types.IsOk | src/app/page.tsx:80 | no contract of its own: `response.ok`, a 2xx status (also src/app/page.tsx:115); ConvertRoute.OkIsDownload and ConvertSingleRoute.OkIsDownload carry its properties |
| Types.AttachmentInjective | src/app/api/convert/route.ts:49 | two equal `attachment; filename="…"` headers name the same file |
| ConvertRoute.TotalSize | src/app/api/convert/route.ts:25 | no contract of its own: the `reduce` sum of the sizes as a left fold; TotalSizeAppend and TotalSizeBoundsEachFile carry its properties |
| ConvertRoute.TotalSizeAppend | src/app/api/convert/route.ts:25 | the `reduce` size sum of two batches side by side is the sum of their sums |
| ConvertRoute.TotalSizeBoundsEachFile | src/app/api/convert/route.ts:25-27 | each file's size is at most the batch total |
| ConvertRoute.Rejection | src/app/api/convert/route.ts:16-31 | no contract of its own: the validation chain, giving the first failing check's 400 response or none; ValidationOrder and SizeLimitBoundary carry its properties |
| ConvertRoute.BatchResponse | src/app/api/convert/route.ts:11-104 | no contract of its own: the route's response as a value; Post is proved to return it, and ValidationOrder, SingleFileResponse, ArchiveResponse, NameCollision, FailureAbortsBatch and OkIsDownload carry its properties |
| ConvertRoute.OkIsDownload | src/app/api/convert/route.ts:16-104 | every JSON error of the route has status 400 or 500, so a response is ok exactly when it is a download |
| ConvertRoute.ValidationOrder | src/app/api/convert/route.ts:16-31 | an empty batch gives 400 "No image files provided"; more than 10 files gives 400 "Maximum 10 files allowed", whatever the sizes; with 1..10 files the size error appears exactly when the total exceeds 20·1024·1024; a batch passes exactly when it has 1..10 files and a total of at most 20·1024·1024 |
| ConvertRoute.SizeLimitBoundary | src/app/api/convert/route.ts:24-31 | a single file of exactly 20 MiB passes; one byte more is refused with the size message |
| ConvertRoute.SingleFileResponse | src/app/api/convert/route.ts:34-51 | one valid file gives a download exactly when the codec accepts it: `image/webp`, disposition filename `BaseName(name) + ".webp"`, body the codec's bytes; otherwise 500 "Failed to convert images" with the codec's details |
| ConvertRoute.ConversionFailed | src/app/api/convert/route.ts:98-104 | no contract of its own: the catch's 500 "Failed to convert images" with the thrown value's details; FailureAbortsBatch and SingleFileResponse carry its properties |
| ConvertRoute.EntryFor | src/app/api/convert/route.ts:75-79 | no contract of its own: the `convertedFiles.push({name, buffer, originalName})` record; ConvertedSuccess and ConvertedNames carry its properties |
| ConvertRoute.Converted | src/app/api/convert/route.ts:63-80 | no contract of its own: the loop's outcome as a value, the converted list in order or the first codec error; ConvertedSuccess, ConvertedFailure and ConvertedPrefixFailure carry its properties, and ZipAll is proved against it |
| ConvertRoute.ConvertedSuccess | src/app/api/convert/route.ts:63-80 | the loop completes exactly when the codec accepts every file; `convertedFiles` then has one entry per file, in submission order, with its output name, WebP bytes and original name |
| ConvertRoute.ConvertedFailure | src/app/api/convert/route.ts:62-86 | a loop that fails carries the error of the first file the codec rejects |
| ConvertRoute.ConvertedPrefixFailure | src/app/api/convert/route.ts:63-86 | once a prefix of the batch fails, the whole loop fails with the same error |
| ConvertRoute.ArchiveOf | src/app/api/convert/route.ts:74 | no contract of its own: successive `zip.file(name, data)` calls as a map update; ArchiveKeys, ArchiveLastWins, ArchiveSizeBound, ArchiveCollision and ArchiveDistinct carry its properties |
| ConvertRoute.ArchiveKeys | src/app/api/convert/route.ts:74 | the archive's entry names are exactly the names that were added |
| ConvertRoute.ArchiveLastWins | src/app/api/convert/route.ts:71-74 | under each name the archive holds the bytes of the last entry added with that name |
| ConvertRoute.ArchiveSizeBound | src/app/api/convert/route.ts:74 | the archive has at most as many entries as were added |
| ConvertRoute.ArchiveCollision | src/app/api/convert/route.ts:71-74 | two additions under one name leave strictly fewer entries than additions |
| ConvertRoute.ArchiveDistinct | src/app/api/convert/route.ts:74 | with pairwise distinct names there is exactly one entry per addition |
| ConvertRoute.ConvertedNames | src/app/api/convert/route.ts:71-79 | for a batch that converts, the names in `convertedFiles` are exactly the derived output names of the files |
| ConvertRoute.ZipAll | src/app/api/convert/route.ts:63-80 | the loop method gives the archive and `convertedFiles` of `Converted`, or its first error; the codec receives the files' bytes in submission order, each once, all of them on success, and up to and including the first rejected file on failure |
| ConvertRoute.Post | src/app/api/convert/route.ts:11-104 | the route's response is `BatchResponse`; a rejected batch reaches the codec not at all, a single file exactly once, a batch that converts file by file in order, and a batch that fails file by file up to and including its first rejected file |
| ConvertRoute.ArchiveResponse | src/app/api/convert/route.ts:54-96 | 2..10 valid files that all convert give `application/zip` named "converted-images.zip"; its entry names are the set of derived names, each entry holds the WebP bytes of the last file deriving that name, and distinct names give exactly N entries |
| ConvertRoute.NameCollision | src/app/api/convert/route.ts:71-74 | two files of such a batch that derive the same name leave fewer archive entries than files |
| ConvertRoute.FailureAbortsBatch | src/app/api/convert/route.ts:98-104 | a valid batch with any file the codec rejects gives a 500 JSON error "Failed to convert images" whose details are those of the first rejected file, and no file or archive |
| ConvertSingleRoute.Respond | src/app/api/convert-single/route.ts:10-42 | no contract of its own: the whole route as a value; OkIsDownload, MissingImage, NoLimits, DownloadName, SizeLimitOnlyInBatchRoute and AgreesWithBatchRoute carry its properties |
| ConvertSingleRoute.OutputBase | src/app/api/convert-single/route.ts:26 | no contract of its own: the `fileName \|\| name.split('.')[0]` rule; DownloadName carries its properties |
| ConvertSingleRoute.OkIsDownload | src/app/api/convert-single/route.ts:16-41 | every JSON error of the route has status 400 or 500, so a response is ok exactly when it is a download |
| ConvertSingleRoute.MissingImage | src/app/api/convert-single/route.ts:16-18 | no `image` field gives 400 "No image file provided", whatever the codec |
| ConvertSingleRoute.NoLimits | src/app/api/convert-single/route.ts:16-41 | for any present file, of any size, the response is ok exactly when the codec accepts it: `image/webp` with the codec's bytes; otherwise 500 "Failed to convert image" with the codec's details |
| ConvertSingleRoute.DownloadName | src/app/api/convert-single/route.ts:26-33 | a non-empty `fileName` names the download `fileName + ".webp"` verbatim; an absent or empty one gives `BaseName(name) + ".webp"`, which is the whole name plus ".webp" when it has no '.' |
| ConvertSingleRoute.SizeLimitOnlyInBatchRoute | src/app/api/convert-single/route.ts:16-25 | a file over 20 MiB that the codec accepts is refused by the batch route and converted by this one |
| ConvertSingleRoute.AgreesWithBatchRoute | src/app/api/convert-single/route.ts:23-33 | within the size limit, and with no override, a file that converts gets the same download from both routes |
| Page.IsSelected | src/app/page.tsx:21-23 | no contract of its own: the `some` test by name and size; FreshFiles, MergeSpec and MergeSkipsSelected carry its properties |
| Page.FreshFiles | src/app/page.tsx:20-24 | a file is kept exactly when it is incoming and matches no selected file by name and size; at most as many files as came in |
| Page.FreshFilesAppend | src/app/page.tsx:20-24 | the filter works file by file, so it keeps the incoming order |
| Page.FreshFilesNone | src/app/page.tsx:20-24 | when every incoming file is already selected, nothing is added |
| Page.Merge | src/app/page.tsx:25 | the merged selection has at most 10 files |
| Page.MergeSpec | src/app/page.tsx:20-25 | the earlier selection stays, in order, as a prefix; the rest is a prefix of the fresh incoming files, none of them a duplicate of a selected file; all fresh files are added when they fit, and otherwise the selection holds exactly 10 |
| Page.MergeKeepsRepeatsWithinBatch | src/app/page.tsx:20-25 | an empty selection given the same file twice in one batch holds it twice |
| Page.MergeSkipsSelected | src/app/page.tsx:49-54 | a file whose name and size match a selected file leaves the selection as it was |
| Page.MergeIdempotent | src/app/page.tsx:16-28 | merging the same incoming files a second time changes nothing |
| Page.WithoutIndex | src/app/page.tsx:61 | no contract of its own: the index filter; RemoveAt carries its properties |
| Page.RemoveAt | src/app/page.tsx:60-62 | the index filter removes exactly position `index` and keeps the others in order when `index` is in range, and otherwise leaves the list unchanged |
| Page.PreviewFor | src/app/page.tsx:106-123 | no contract of its own: one file's single-file request and the preview kept when it succeeds; PreviewNameMatchesDownload and PreviewsAreSuccesses carry its properties |
| Page.Previews | src/app/page.tsx:104-124 | no contract of its own: the successful previews in selection order; CollectPreviews is proved against it, and PreviewsAppend, PreviewsAreSuccesses and PreviewsAllSucceed carry its properties |
| Page.CollectPreviews | src/app/page.tsx:104-124 | the preview loop gives `Previews`: for each selected file in order, its preview when the single-file request succeeds |
| Page.PreviewsAppend | src/app/page.tsx:104-125 | the previews of two selections side by side are the previews of each, so they are in selection order |
| Page.PreviewsAreSuccesses | src/app/page.tsx:104-125 | there are at most N previews; each one belongs to a selected file that the codec accepts, is named `BaseName + ".webp"` and shows that file's WebP bytes |
| Page.PreviewsAllSucceed | src/app/page.tsx:104-125 | when every file converts, preview i is the preview of file i, so there are exactly N |
| Page.PreviewNameMatchesDownload | src/app/page.tsx:106-122 | a file that converts gets a preview, and the single-file route names its download after the preview's name |
| Page.AfterBulkConvert | src/app/page.tsx:64-133 | no contract of its own: the results list the convert button leaves; HandleBulkConvert is proved against it, and BulkConvertRefused, BulkConvertOneFile and BulkConvertManyFiles carry its properties |
| Page.BulkConvertRefused | src/app/page.tsx:80 | a batch response that is not ok leaves the results as they were |
| Page.BulkConvertOneFile | src/app/page.tsx:81-90 | one selected file within the size limit that converts gives exactly one result, named `BaseName(name) + ".webp"`, with its WebP bytes |
| Page.BulkConvertManyFiles | src/app/page.tsx:91-125 | when the batch succeeds for N ≥ 2 files, there are N results in selection order with their derived names; each one matches its archive entry unless a later file derives the same name |
| Page.Home.constructor | src/app/page.tsx:11-12 | the page starts with no files and no results |
| Page.Home.HandleFileChange | src/app/page.tsx:16-29 | an absent file list changes nothing; any file list, even an empty one, sets the selection to the merge and clears the results; the earlier selection stays a prefix, and at most 10 files are selected |
| Page.Home.HandleDrop | src/app/page.tsx:41-58 | a drop without files changes nothing; otherwise the selection becomes the merge and the results are cleared; at most 10 files are selected |
| Page.Home.RemoveFile | src/app/page.tsx:60-62 | an index in range removes exactly that file and keeps the order; any other index leaves the selection unchanged; the results stay |
| Page.Home.ClearAll | src/app/page.tsx:233 | "Clear All" empties the selection and keeps the results |
| Page.Home.HandleBulkConvert | src/app/page.tsx:64-133 | an empty selection changes nothing; otherwise the selection stays and the results become `AfterBulkConvert` of it |

## Left out

- The WebP encoding itself (sharp, quality 80, effort 1) is out of scope: it is a foreign library. It is the opaque parameter `encode`. The production-mode `sharp.cache(false)`/`sharp.simd(false)` switch is left out for the same reason.
- The ZIP byte stream and `zip.generateAsync` are out of scope: they are a foreign library. The archive is only its map of entries, and a failure of `generateAsync` is not modelled.
- The 25-second `setTimeout` at src/app/api/convert/route.ts:58-60 is timer behaviour outside the awaited loop, so it is not modelled.
- Request parsing is I/O and is not modelled. This covers `request.formData()`, `file.arrayBuffer()`, and the case where a form field holds a string where a file is expected. The routes take the parsed fields as values: a list of files, or an optional file and an optional string.
- `NextResponse` serialization is I/O and is not modelled. Responses are data values, and JSON error bodies are not rendered as text.
- Logging to `console.error` is not modelled.
- File sizes are natural numbers. JavaScript adds them as floating-point numbers, which stays exact below 2^53 bytes.
- ConvertRoute.SingleFileResponse, ConvertSingleRoute.NoLimits, ConvertSingleRoute.DownloadName, ConvertSingleRoute.AgreesWithBatchRoute, Page.PreviewNameMatchesDownload, Page.PreviewsAllSucceed, Page.BulkConvertOneFile and Page.BulkConvertManyFiles assume that every `Content-Disposition` value is a valid header value (a ByteString without CR or LF). The Fetch `Headers` behind `NextResponse` throw a TypeError for a file name or `fileName` override with a character above U+00FF or a line break. Both routes' catch handlers then answer 500 (src/app/api/convert/route.ts:98-104, src/app/api/convert-single/route.ts:35-41), so such a file gets no download and no preview. The model answers with the download instead, because header validation belongs to the foreign HTTP layer.
- ConvertRoute.ArchiveOf, ConvertRoute.ArchiveKeys, ConvertRoute.ArchiveSizeBound, ConvertRoute.ArchiveDistinct and ConvertRoute.ArchiveResponse describe the map from names to bytes that `zip.file` calls build, not the ZIP's full entry list. JSZip also adds a folder entry for each directory prefix of a name containing '/' (`"x/a.webp"` adds `"x/"`), and the model leaves out those implied folder entries.
- Strings are sequences of characters. UTF-16 code units and header escaping are not modelled.
- Client networking is browser plumbing and is not modelled: `fetch`, `response.blob()`, `URL.createObjectURL`, the ZIP download through a temporary anchor and `URL.revokeObjectURL`. A result's URL is the response body it points at, and a request always reaches the route model.
- Page.Home.HandleBulkConvert is one atomic step. In the page, the handler awaits the batch request and then one request per file (src/app/page.tsx:75, :110). Only the file input and the convert button are disabled meanwhile, so a drop, a removal or "Clear All" can run during those awaits. The results written at the end are those of the selection at the click, and may overwrite results that such a handler just cleared. The model does not capture this interleaving.
- A rejected `fetch` (src/app/page.tsx:128-129) is not modelled. The catch leaves the results unchanged.
- The `isConverting` and `dragActive` flags, `handleDrag`, `downloadSingle`, the JSX and the size display in MB are UI rendering and are not modelled.
- next.config.ts is build configuration with no logic, and is not part of this model.
