# capt_archive_converter — conversion engine, modelled in Dafny

The modelled system converts comic-book archives between CBR (RAR), CBZ (ZIP)
and PDF, and reports progress and status while it does so. This project
models its conversion engine:

- **Formats** (`arc_convert_util.py`). Format detection is an ordered decision:
  a `.pdf` suffix wins, then ZIP, then RAR, else none. Validation scans an
  archive's entry names and counts images, flags metadata and folders, and
  sums sizes.
- **Helpers** (`arc_conv_helpers.py`):
  - extracting ZIP and RAR archives into a scratch directory;
  - packing a scratch directory as ZIP or RAR;
  - their progress reports;
  - **Progress**: the per-file progress normaliser and the interpolation
    formulas, in integer arithmetic.
- **ArchiveProcessor** (`arc_conv_cb_proc.py`). `FORMAT_MAP`, `convert_archive`
  (check, extract, pack) and `convert_file`: a supported pair, success judged
  by whether the output exists, optional deletion of the original, every
  error folded into the result tuple.
- **PdfProcessor** (`arc_conv_pdf_proc.py`):
  - PDF to CBZ: one `page_NNN.png` per page;
  - CBZ to PDF: the image entries, sorted, each copied out under its base
    name, decoded and saved as one PDF;
  - `convert_file` with its case-insensitive routing.
- **Batches**. `convert_batch`, which both processors define identically: one
  result per path, in order. Progress goes through the per-file normaliser
  and status messages get a `"File i/N: "` prefix.
- **Worker** (`arc_convert_worker.py`). `ConversionWorker`:
  - converter selection;
  - the throttled `emit_progress`;
  - the exact order of the signals `run` emits.
- **Paths**, **Text**, **Sorting**: what the code relies on from `pathlib`
  (3.12 semantics), `str.lower`/`str(int)`/`format(n, '03d')`, and
  `list.sort()` on strings.

The file system is a map from path to content. Content is a PDF document (its
page images and byte size), a ZIP or RAR entry list, or any other file. File
bytes are abstract `Blob`s. Each library call (`zipfile`, `rarfile`, PyMuPDF,
PIL, the `rar` tool, `unlink`) is a parameter of type `Library`. It says where
the call raises and with what message. Every conversion is a
function over these values, and a method that performs the same steps
imperatively is proved equal to it. The worker is a class whose methods append
to an event log of signals.

Progress feedback might be expected to be monotonic. The code's is not:
`convert_archive` reports `(10, 100)` and then raw entry counts `(1, n)`, so
with more than ten entries the forwarded percentage drops
(`ArchiveProcessor.ExtractionProgressRestarts`). The model follows the code.

`convert_file` of the CBR/CBZ converter deletes the original after a
successful conversion even when the original is the converted file (see
"## Findings"). `ConvertFile`, the batch and the worker model that deletion
as written. The corrected step (`Jobs.FinishCorrected`,
`ArchiveProcessor.FileConversionCorrected`) is modelled beside it, with the
intended property proved about it.

## Model

| member | source | states |
|---|---|---|
| Formats.PdfSuffixDecides | src/capt_archive_converter/utils/arc_convert_util.py:54-56 | a path whose lowercased suffix is `.pdf` is classified PDF, whatever the file holds and even when it is missing |
| Formats.DetectArchive | src/capt_archive_converter/utils/arc_convert_util.py:57-64 | without a `.pdf` suffix, CBZ iff the file is a ZIP, CBR iff it is a RAR (ZIP checked first); a missing file gives None instead of raising |
| Formats.DetectionIsLocal | src/capt_archive_converter/utils/arc_convert_util.py:44-64 | detection depends only on the file at the path itself |
| Formats.LookupMeans | src/capt_archive_converter/utils/arc_convert_util.py:147-149 | `getinfo` finds nothing iff no entry has the name; otherwise it finds the last entry with that name |
| Formats.ImageNamesMembers | src/capt_archive_converter/utils/arc_convert_util.py:144-146 | a name is in `image_files` iff some entry has it and its lowercased suffix is a supported image extension |
| Formats.AnyMetadataMeans | src/capt_archive_converter/utils/arc_convert_util.py:140-141 | the metadata flag of the scan holds iff some entry's lowercased base name is `comicinfo.xml` |
| Formats.AnyNestedMeans | src/capt_archive_converter/utils/arc_convert_util.py:142-143 | the folder flag of the scan holds iff some entry has more than one path part |
| Formats.ScanEntries | src/capt_archive_converter/utils/arc_convert_util.py:136-153 | the validation loop: `image_files` is the image entries in order, `image_count` its length, the metadata and folder flags hold iff some entry qualifies, `total_size` sums the sizes of the image entries only |
| Formats.ValidateComicArchive | src/capt_archive_converter/utils/arc_convert_util.py:66-190 | the format is the detected one; valid iff `image_count > 0`; undetected gives `UNKNOWN` with zero details; CBZ/CBR give the scan of the entries, or invalid with zero details, still tagged CBZ/CBR, when `ZipFile`/`RarFile` cannot open the archive; a PDF gives its page count and size, or zeros when PyMuPDF cannot open it |
| Paths.Parse | src/capt_archive_converter/processors/arc_conv_cb_proc.py:73 | `Path(file_path)` is well formed: no empty, `.` or `/`-holding component |
| Paths.ParseStr | src/capt_archive_converter/processors/arc_conv_cb_proc.py:126 | reading back `str(path)` gives the same path |
| Paths.Suffix | src/capt_archive_converter/utils/arc_convert_util.py:144 | `suffix` is empty or a dot followed by no other dot |
| Paths.WithSuffixFails | src/capt_archive_converter/processors/arc_conv_cb_proc.py:100 | `with_suffix('.' + t)` raises iff `t` is empty, `t` holds `/`, or the path has no name |
| Paths.WithSuffixFixed | src/capt_archive_converter/processors/arc_conv_cb_proc.py:100 | a path that `with_suffix('.' + t)` leaves unchanged already has the suffix `.t` |
| Paths.WithSuffixReplaces | src/capt_archive_converter/processors/arc_conv_cb_proc.py:100 | the converted path keeps the parent and stem, gets suffix `.t`, and replacing the suffix again changes nothing |
| Text.LowerEqualsMeans | src/capt_archive_converter/utils/arc_convert_util.py:140 | comparing `name.lower()` one character at a time decides equality of the lowered string |
| Text.LowerInMeans | src/capt_archive_converter/utils/arc_convert_util.py:144 | membership test of `suffix.lower()` in the extension set |
| Text.ThreeDigits | src/capt_archive_converter/processors/arc_conv_pdf_proc.py:164 | `format(k, '03d')` for `k < 1000` is exactly its three decimal digits |
| Sorting.LexTransitive | src/capt_archive_converter/processors/arc_conv_pdf_proc.py:220 | string order is transitive |
| Sorting.LexTotal | src/capt_archive_converter/processors/arc_conv_pdf_proc.py:220 | distinct strings are ordered one way or the other |
| Sorting.SortSpec | src/capt_archive_converter/processors/arc_conv_pdf_proc.py:220 | `image_files.sort()` leaves the list sorted and a permutation of the original |
| Sorting.SortedUnique | src/capt_archive_converter/processors/arc_conv_pdf_proc.py:220 | two sorted lists with the same elements are equal, so the sorted result does not depend on the input order |
| Sorting.SortRecovers | src/capt_archive_converter/processors/arc_conv_pdf_proc.py:220 | sorting any reordering of a strictly sorted list gives that list back |
| Progress.PerFilePercent | src/capt_archive_converter/utils/arc_conv_helpers.py:193-202 | the forwarded percentage is within 0..100 and never 100 for a file that is not the last |
| Progress.Normalise | src/capt_archive_converter/utils/arc_conv_helpers.py:193-202 | one forwarded call, out of 100 and within 0..100, when the base callback exists, none otherwise |
| Progress.PerFileIsFloorPercent | src/capt_archive_converter/utils/arc_conv_helpers.py:195-196 | below the total, the forwarded value is the floor of `current * 100 / total` |
| Progress.PerFileDone | src/capt_archive_converter/utils/arc_conv_helpers.py:199-202 | `current >= total > 0` forwards 100 for the last file and 99 otherwise |
| Progress.PerFileNoTotal | src/capt_archive_converter/utils/arc_conv_helpers.py:197-198 | a total of zero or less forwards 0 |
| Progress.PerFileMonotone | src/capt_archive_converter/utils/arc_conv_helpers.py:195-202 | for a fixed total, more raw progress never forwards a smaller percentage |
| Progress.PackIsStep | src/capt_archive_converter/utils/arc_conv_helpers.py:110-113 | `int(start + k/n*(end-start))` equals `start + int(k/n*(end-start))` for non-negative bounds |
| Progress.StepProgressBounds | src/capt_archive_converter/processors/arc_conv_pdf_proc.py:167 | interpolated progress stays within [start, end] and equals `end` after the last item |
| Progress.StepProgressMonotone | src/capt_archive_converter/processors/arc_conv_pdf_proc.py:167 | interpolated progress never decreases over the items when `end >= start` |
| Helpers.PutSpec | src/capt_archive_converter/utils/arc_conv_helpers.py:36 | writing a file into the scratch directory replaces any file at that path, adds it otherwise, and touches nothing else |
| Helpers.UnpackSpec | src/capt_archive_converter/utils/arc_conv_helpers.py:64-68 | extraction leaves one file per destination, each holding the content of an entry written there |
| Helpers.ExtractArchive | src/capt_archive_converter/utils/arc_conv_helpers.py:63-72 | opening the archive and the extraction loop equal the reference definition `Extract` |
| Helpers.ExtractReports | src/capt_archive_converter/utils/arc_conv_helpers.py:31-40 | progress `(i+1, n)` after each entry: strictly increasing, out of the entry count, ending at `(n, n)` on success; an archive that cannot be opened, even an empty one, fails before any entry or report; failures re-raised with "Failed to extract … archive: " |
| Helpers.CreateZipArchive | src/capt_archive_converter/utils/arc_conv_helpers.py:95-115 | opening the output and the packing loop equal the reference definition `PackZip`; an output `ZipFile` cannot create fails before anything is written |
| Helpers.PackZipReports | src/capt_archive_converter/utils/arc_conv_helpers.py:105-113 | the k-th report is `(start + k*(end-start)/n, n)`: within [start, end], non-decreasing, ending at `end` on success; no report for an empty directory; an output that cannot be created gives "Failed to create ZIP archive: …" with nothing written or reported |
| Helpers.PackRar | src/capt_archive_converter/utils/arc_conv_helpers.py:138-171 | succeeds iff the tool is installed and exits 0, then writes a RAR of the files and reports `start+10` then `end`; otherwise the error is "Failed to create RAR archive: " + "RAR creation failed: …" or the missing-tool text |
| Helpers.RepackPreservesEntries | src/capt_archive_converter/utils/arc_conv_helpers.py:100-108 | packing what was extracted from a clean archive stores the same entries in the same order |
| Helpers.RepackZip | src/capt_archive_converter/processors/arc_conv_cb_proc.py:158-163 | a clean CBR extracted and packed as ZIP yields a ZIP with exactly the RAR's entries |
| Jobs.FinishSpec | src/capt_archive_converter/processors/arc_conv_cb_proc.py:113-124 | success iff no error was caught and the converted file exists; "… was not created." otherwise; the only change is deleting the original, on success and when asked, which keeps the converted file unless it is the original; a failed delete keeps success and reports its message |
| Jobs.FinishInPlaceLosesOutput | src/capt_archive_converter/processors/arc_conv_cb_proc.py:113-118 | converting in place with deletion reports success and leaves no file |
| Jobs.FinishCorrectedSpec | src/capt_archive_converter/processors/arc_conv_cb_proc.py:113-124 | the corrected step: as above, but the converted file always exists after a success, because an original that is the converted file is kept |
| Jobs.FinishAgrees | src/capt_archive_converter/processors/arc_conv_cb_proc.py:113-121 | when the original is not the output, the corrected final step equals the step as written |
| Jobs.ForwardSpec | src/capt_archive_converter/processors/arc_conv_cb_proc.py:66-73 | forwarding keeps every status message, in order, behind "File i/N: " and sends progress out of 100, within 0..100, never 100 before the last file |
| ArchiveProcessor.FormatMapPairs | src/capt_archive_converter/processors/arc_conv_cb_proc.py:21-24 | CBR maps to (extract RAR, create ZIP, `.cbz`, CBZ) and CBZ to the mirror image |
| ArchiveProcessor.ConvertArchive | src/capt_archive_converter/processors/arc_conv_cb_proc.py:128-176 | the steps of `convert_archive` equal the reference definition `ArchiveConversion` |
| ArchiveProcessor.ArchiveConversionSpec | src/capt_archive_converter/processors/arc_conv_cb_proc.py:140-176 | an unknown format raises the `KeyError` `'PDF'`, a missing source "Source X file not found: …", a source detected as another format "File is not a valid X archive: …", each before anything is done; later errors carry "Failed to convert X to Y: "; success starts with the extraction status and `(10, 100)`, ends with `(100, 100)`, and changes only the output, an archive of the target format |
| ArchiveProcessor.ArchiveConversionRepacks | src/capt_archive_converter/processors/arc_conv_cb_proc.py:151-172 | with libraries that do not fail, a clean archive becomes the other format holding exactly its entries |
| ArchiveProcessor.ExtractionProgressRestarts | src/capt_archive_converter/processors/arc_conv_cb_proc.py:156-158 | with more than ten entries the first extraction report is forwarded as a smaller percentage than the `(10, 100)` before it |
| ArchiveProcessor.ConvertFile | src/capt_archive_converter/processors/arc_conv_cb_proc.py:78-126 | `convert_file`, with its unconditional deletion of the original, equals the reference definition `FileConversion` |
| ArchiveProcessor.FileConversionPaths | src/capt_archive_converter/processors/arc_conv_cb_proc.py:99-126 | raises only where `with_suffix` does; otherwise returns the original and the original with suffix `.target` |
| ArchiveProcessor.UnsupportedPairFails | src/capt_archive_converter/processors/arc_conv_cb_proc.py:105-111 | every pair but (`cbz`, CBR) and (`cbr`, CBZ), a missing file included, fails with "Unsupported conversion type or file extension." and changes nothing |
| ArchiveProcessor.FileConversionSuccess | src/capt_archive_converter/processors/arc_conv_cb_proc.py:113-124 | success iff the conversion raised nothing and the converted file exists; it still exists afterwards unless it is the original and the original was deleted, in which case it is gone; failure leaves only what the conversion wrote |
| ArchiveProcessor.MisnamedArchiveInPlace | src/capt_archive_converter/processors/arc_conv_cb_proc.py:100 | `book.cbz` with suffix `.cbz` is the same path |
| ArchiveProcessor.InPlaceConversionAsWritten | src/capt_archive_converter/processors/arc_conv_cb_proc.py:113-118 | as written, a RAR named `*.cbz` converted to `cbz` with deletion reports success and the file is gone |
| ArchiveProcessor.InPlaceConversionKeepsOutput | src/capt_archive_converter/processors/arc_conv_cb_proc.py:113-118 | with the corrected final step (`FileConversionCorrected`), the same conversion reports success and leaves the ZIP at that path |
| PdfProcessor.PageNameOrder | src/capt_archive_converter/processors/arc_conv_pdf_proc.py:164 | for pages 1..999, `page_NNN.png` names sort exactly as the page numbers |
| PdfProcessor.PageNamesDiffer | src/capt_archive_converter/processors/arc_conv_pdf_proc.py:164 | different pages up to 999 get different names |
| PdfProcessor.PageThousandSortsEarly | src/capt_archive_converter/processors/arc_conv_pdf_proc.py:164 | page 1000's name sorts before page 999's |
| PdfProcessor.PageNameIsImage | src/capt_archive_converter/processors/arc_conv_pdf_proc.py:164 | a page name is a plain image name and its own base name |
| PdfProcessor.PageNamesStrictlySorted | src/capt_archive_converter/processors/arc_conv_pdf_proc.py:162-165 | up to 999 pages, the page names in page order are strictly sorted |
| PdfProcessor.PageOrderRecovered | src/capt_archive_converter/processors/arc_conv_pdf_proc.py:162-165 | up to 999 pages, sorting the page names in any order gives page order |
| PdfProcessor.PageFilesInOrder | src/capt_archive_converter/processors/arc_conv_pdf_proc.py:162-165 | up to 999 pages, each page goes to a new file, in page order |
| PdfProcessor.StepCallsBounds | src/capt_archive_converter/processors/arc_conv_pdf_proc.py:166-168 | every per-page report is out of 100, within [10, 80], non-decreasing, and 80 after the last page |
| PdfProcessor.RasterisePages | src/capt_archive_converter/processors/arc_conv_pdf_proc.py:162-170 | the page loop equals the reference definition `Rasterisation` |
| PdfProcessor.ConvertPdfToCbz | src/capt_archive_converter/processors/arc_conv_pdf_proc.py:123-186 | `convert_pdf_to_cbz` equals the reference definition `PdfToCbzConversion` |
| PdfProcessor.PdfToCbzFails | src/capt_archive_converter/processors/arc_conv_pdf_proc.py:136-186 | a missing source raises "Source PDF file not found: …" and a non-PDF one "File is not a valid PDF: …", before anything is done; later errors carry "Failed to convert PDF to CBZ: " |
| PdfProcessor.MissingPdfNotFound | src/capt_archive_converter/processors/arc_conv_pdf_proc.py:96-137 | `convert_file` of a missing `.pdf` file to `cbz` reports "Initializing PDF converter..." and then fails with "Source PDF file not found: …", changing nothing |
| PdfProcessor.PdfToCbzWrites | src/capt_archive_converter/processors/arc_conv_pdf_proc.py:145-182 | on success the source is a PDF, the calls open with "Processing …" and `(10, 100)` and end with `(100, 100)` and the clean-up status, and the only change is the ZIP of the page files |
| PdfProcessor.PdfToPageArchive | src/capt_archive_converter/processors/arc_conv_pdf_proc.py:156-177 | up to 999 pages and no failure, the CBZ holds page i+1 under its page name, in page order |
| PdfProcessor.ExtractedAt | src/capt_archive_converter/processors/arc_conv_pdf_proc.py:229-233 | `extracted_images[i]` is the base name of the i-th sorted image |
| PdfProcessor.CopyImages | src/capt_archive_converter/processors/arc_conv_pdf_proc.py:228-236 | the copy loop equals the reference definition `Copying` |
| PdfProcessor.DecodeImages | src/capt_archive_converter/processors/arc_conv_pdf_proc.py:238-243 | the PIL loop equals the reference definition `Decoding` |
| PdfProcessor.WriteImagesAsPdf | src/capt_archive_converter/processors/arc_conv_pdf_proc.py:215-265 | the work inside the temporary directory equals the reference definition `ImagesToPdf` |
| PdfProcessor.ConvertCbzToPdf | src/capt_archive_converter/processors/arc_conv_pdf_proc.py:188-269 | `convert_cbz_to_pdf` equals the reference definition `CbzToPdfConversion` |
| PdfProcessor.ImagesToPdfFails | src/capt_archive_converter/processors/arc_conv_pdf_proc.py:215-223 | errors carry "Failed to convert CBZ to PDF: " and write nothing; a CBZ `ZipFile` cannot open fails before any call; otherwise no image entries gives "No images found in CBZ archive." |
| PdfProcessor.ImagesToPdfWrites | src/capt_archive_converter/processors/arc_conv_pdf_proc.py:238-265 | on success the PDF has one page per image entry and the size PIL wrote, and the calls end with `(100, 100)` and the clean-up status |
| PdfProcessor.ImagesToPdfDecodes | src/capt_archive_converter/processors/arc_conv_pdf_proc.py:238-256 | on success the PDF holds what PIL decoded from the copied files |
| PdfProcessor.CbzToPdfRuns | src/capt_archive_converter/processors/arc_conv_pdf_proc.py:199-215 | a present CBZ source reports "Processing …" and then does the work inside the archive |
| PdfProcessor.CbzToPdfFails | src/capt_archive_converter/processors/arc_conv_pdf_proc.py:199-269 | a missing source raises "Source CBZ file not found: …" and a non-CBZ one "File is not a valid CBZ archive: …", before anything is done; later errors carry the prefix; on failure the file system is unchanged |
| PdfProcessor.CbzToPdfWrites | src/capt_archive_converter/processors/arc_conv_pdf_proc.py:210-265 | on success the source is a ZIP and the only change is the output, a PDF with one page per image entry |
| PdfProcessor.CopiedFilesLast | src/capt_archive_converter/processors/arc_conv_pdf_proc.py:229-233 | an image no later image shares a base name with is what the copy leaves under that name |
| PdfProcessor.PagesFollowBaseNames | src/capt_archive_converter/processors/arc_conv_pdf_proc.py:229-256 | page j is the last sorted image with page j's base name: same-named images in different folders collapse |
| PdfProcessor.PagesAreSortedImages | src/capt_archive_converter/processors/arc_conv_pdf_proc.py:216-256 | with distinct base names, page j of the PDF is the j-th image entry in sorted order |
| PdfProcessor.PageArchiveToPdf | src/capt_archive_converter/processors/arc_conv_pdf_proc.py:215-256 | the CBZ of 1 to 999 page entries converts to a PDF of exactly those pages |
| PdfProcessor.PdfCbzRoundTrip | src/capt_archive_converter/processors/arc_conv_pdf_proc.py:123-269 | PDF to CBZ and back to PDF keeps every page, in order, for 1 to 999 pages and libraries that do not fail |
| PdfProcessor.ConvertFile | src/capt_archive_converter/processors/arc_conv_pdf_proc.py:68-121 | `convert_file` equals the reference definition `FileConversion` |
| PdfProcessor.RouteSpec | src/capt_archive_converter/processors/arc_conv_pdf_proc.py:95-106 | only (`cbz`, PDF) and (`pdf`, CBZ) proceed, target lowercased; an undetected file with one of those targets fails on `None.upper()` |
| PdfProcessor.FileConversionPaths | src/capt_archive_converter/processors/arc_conv_pdf_proc.py:89-121 | raises only where `with_suffix` does; otherwise returns the original and the original with the lowercased target as suffix |
| PdfProcessor.NeverInPlace | src/capt_archive_converter/processors/arc_conv_pdf_proc.py:89-113 | whenever a conversion runs, the converted path differs from the original, so deletion never removes the output |
| PdfProcessor.RejectedPairFails | src/capt_archive_converter/processors/arc_conv_pdf_proc.py:95-106 | a pair that does not proceed fails with its error, `cbr` included, changing and reporting nothing |
| PdfProcessor.FileConversionSuccess | src/capt_archive_converter/processors/arc_conv_pdf_proc.py:108-119 | success iff the conversion raised nothing and the converted file exists; it still exists afterwards, because it is never the original |
| Batches.ConvertOne | src/capt_archive_converter/processors/arc_conv_cb_proc.py:72-74 | one `convert_file` call of the chosen converter equals that converter's reference definition |
| Batches.ConvertBatch | src/capt_archive_converter/processors/arc_conv_cb_proc.py:63-76 | the batch loop equals the reference definition `RunBatch` |
| Batches.FileConversionRaises | src/capt_archive_converter/processors/arc_conv_pdf_proc.py:62-64 | either converter's `convert_file` raises iff `with_suffix` refuses the path, otherwise it names the original |
| Batches.BatchResults | src/capt_archive_converter/processors/arc_conv_cb_proc.py:63-76 | one result per path unless a path is refused, and then the batch stops at the first such path: every path before it is accepted; an empty batch returns `[]` |
| Batches.BatchOrder | src/capt_archive_converter/processors/arc_conv_pdf_proc.py:53-66 | result i names path i |
| Batches.BatchProgress | src/capt_archive_converter/processors/arc_conv_cb_proc.py:65-70 | every forwarded progress call is out of 100, within 0..100, never 100 before the last file; none without a progress callback |
| Batches.BatchStatuses | src/capt_archive_converter/processors/arc_conv_cb_proc.py:72-73 | every forwarded status message starts with "File i/N: " for a file already started |
| Batches.ForwardTagged | src/capt_archive_converter/processors/arc_conv_pdf_proc.py:62-63 | the status messages of file idx all carry its prefix |
| Worker.ThrottleSpec | src/capt_archive_converter/processors/arc_convert_worker.py:82-88 | emits iff the total is not positive, or the percentage differs from the last one, or it is 100; records the percentage iff it emits with a positive total |
| Worker.ThrottleRepeat | src/capt_archive_converter/processors/arc_convert_worker.py:84-86 | repeating a call just emitted is suppressed unless it reports 100% |
| Worker.ThrottleFirst | src/capt_archive_converter/processors/arc_convert_worker.py:82-86 | from the initial -1, the first non-negative progress emits |
| Worker.ReplaySpec | src/capt_archive_converter/processors/arc_convert_worker.py:39-40 | status messages are never throttled: they come out exactly, in order; every other signal is a progress call of the batch |
| Worker.JobSpec | src/capt_archive_converter/processors/arc_convert_worker.py:43-58 | the PDF converter iff target `pdf` or some lowercased path ends in `.pdf`, announced accordingly; the batch gets every path, in order, and both callbacks |
| Worker.UpperCasePdfSelectsPdf | src/capt_archive_converter/processors/arc_convert_worker.py:43 | an upper-case `.PDF` path selects the PDF converter even for target `cbz` |
| Worker.JobBatch | src/capt_archive_converter/processors/arc_convert_worker.py:56-58 | the batch completes iff no path is refused, then with one result per file path in order; its progress calls are within 0..100 out of 100 |
| Worker.RunSignalsShape | src/capt_archive_converter/processors/arc_convert_worker.py:50-75 | "Initializing … converter..." and "Starting conversion of N file(s)..." first; then the batch; then the end message, the only `result` (results, or `[]` on failure), `progress(100, 100)`, and the only `finished`, last |
| Worker.RunBounded | src/capt_archive_converter/processors/arc_convert_worker.py:56-65 | when the batch's progress stays within 0..100 out of 100, so does every progress signal |
| Worker.ConversionWorker.constructor | src/capt_archive_converter/processors/arc_convert_worker.py:17-32 | stores the arguments; not done; last percentage -1; no signals |
| Worker.ConversionWorker.EmitProgress | src/capt_archive_converter/processors/arc_convert_worker.py:77-88 | appends the progress signal and updates the last percentage exactly as `Throttle` decides |
| Worker.ConversionWorker.EmitStatus | src/capt_archive_converter/processors/arc_convert_worker.py:39-40 | appends one status signal |
| Worker.ConversionWorker.ReplayCalls | src/capt_archive_converter/processors/arc_convert_worker.py:56-58 | the batch's callback calls become the signals `Replay` gives, in order |
| Worker.ConversionWorker.Open | src/capt_archive_converter/processors/arc_convert_worker.py:50-54 | appends the two opening status messages |
| Worker.ConversionWorker.Close | src/capt_archive_converter/processors/arc_convert_worker.py:59-75 | appends the end message, the result, `(100, 100)` and `finished`; sets `conversion_done` |
| Worker.ConversionWorker.Report | src/capt_archive_converter/processors/arc_convert_worker.py:50-75 | the signals around a finished batch are exactly `RunSignals` |
| Worker.ConversionWorker.Run | src/capt_archive_converter/processors/arc_convert_worker.py:34-75 | `run` converts the chosen batch and emits exactly `RunSignals` of it; the file system afterwards is the batch's |

## Left out

- Floating point: percentages are `int((current / total) * 100)` in binary floating point in the code. The model uses exact rationals truncated toward zero, which differ on inputs such as 29/100.
- Threading and Qt: signals are a sequential event log. The batch's callback calls are replayed into the worker after `ConvertBatch` returns, in the order the batch made them. This gives the same log, because the callbacks run synchronously and the converters never read the worker's state.
- Logging: every `self.logger` call is left out.
- Container formats and libraries: ZIP, RAR and PDF bytes, PyMuPDF rendering, PIL decoding and RGB conversion. Each is an oracle in `Library` that either succeeds, fails to open the archive it reads or writes, or raises at a given item with a given message.
- `tempfile.TemporaryDirectory` is a fresh scratch directory, listed in creation order, and not part of the file system map.
- `os.walk` order is taken to be the order in which files were written.
- The `rar` tool stores the scratch files in that order too, and the model does not capture how `rar a` orders or updates an existing archive.
- An entry name that loses every component when made safe writes nothing. A clash between a file and a directory of the same name is not modelled.
- A PDF that PIL fails to save part-way leaves no file in the model.
- `//` at the start of a path is treated as `/`.
- Paths.WithSuffix: the "Invalid suffix …" message quotes the suffix as `'…'`. Python builds it with `%r`, which picks other quotes or escapes for a suffix holding a quote, a backslash or a non-printable character.
- `str.lower` is modelled for ASCII letters only.
- `convert_archive`, `convert_pdf_to_cbz` and `convert_cbz_to_pdf` are modelled with their default progress ranges only, the only ones `convert_file` uses.
- PdfProcessor.EntryData and PdfProcessor.FileData: both return `Blob(0, 0)` for a name that is absent. Every name the code looks up comes from the archive or was just written, so this value is never used.
- Dead code:
  - `PdfArchiveConverter._create_zip_archive`, `CONVERTED_EXTENSIONS` and `get_archive_converter`;
  - the "No valid images to convert to PDF." branch, which cannot be reached once the empty check has passed.
- PdfProcessor.PageNameOrder: page order is proved only for 1 to 999 pages. From page 1000 on the names misorder, as PdfProcessor.PageThousandSortsEarly shows.
- PdfProcessor.PagesAreSortedImages: needs distinct base names. Images with the same file name in different folders overwrite each other, as PdfProcessor.PagesFollowBaseNames states.
- Batches.BatchResults: the only exception that escapes `convert_file` in the model is the `ValueError` of `with_suffix`. Every other error, including one raised by a callback, happens inside its `try` and becomes a failed result. A `BaseException` that is not an `Exception` (such as `KeyboardInterrupt`) would escape, and it is not modelled.

## Findings

| source | as written | input that shows it | evidently intended | confidence | as-written member | corrected member |
|---|---|---|---|---|---|---|
| src/capt_archive_converter/processors/arc_conv_cb_proc.py:113-118 | after a successful conversion with `delete_original`, the original path is unlinked even when it is the converted path | a RAR archive named `book.cbz`, target `cbz`, `delete_original=True`: the ZIP is written over `book.cbz`, success is reported, and `book.cbz` is then deleted | keep the original when it is the converted file, so the reported output exists | not executed | ArchiveProcessor.InPlaceConversionAsWritten | ArchiveProcessor.InPlaceConversionKeepsOutput |
