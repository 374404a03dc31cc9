/**
 * Format detection and validation of comic archives
 * (`ArchiveConverter` in arc_convert_util.py).
 *
 * The file system is a map from path to what the file holds, as the
 * libraries see it: a document PyMuPDF opens, an archive `zipfile` or
 * `rarfile` opens (with its entry list), or anything else.
 */
module Formats {
  import opened Wrappers
  import opened Text
  import opened Paths

  datatype Format = CBZ | CBR | PDF

  /** The string the source uses for a format. */
  function Tag(f: Format): string {
    match f
    case CBZ => "CBZ"
    case CBR => "CBR"
    case PDF => "PDF"
  }

  /**
   * The bytes of a file, kept abstract: an identity standing for the content
   * and the number of bytes. Two blobs with the same id are the same image.
   */
  datatype Blob = Blob(id: nat, size: nat)

  /** An entry of a ZIP or RAR archive: its stored name and its (uncompressed) content. */
  datatype Entry = Entry(name: string, data: Blob)

  datatype Content =
    /** A document PyMuPDF opens: the image of each page, and the file's byte size. */
    | PdfDoc(pages: seq<Blob>, byteSize: nat)
    | ZipArchive(entries: seq<Entry>)
    | RarArchive(entries: seq<Entry>)
    /** Anything none of the libraries accepts. */
    | OtherFile(byteSize: nat)

  type FileSystem = map<Path, Content>

  /** `supported_image_extensions`. */
  const ImageExtensions: seq<string> := [".jpg", ".jpeg", ".png", ".gif", ".bmp", ".tiff", ".webp"]

  predicate HasPdfSuffix(p: Path) {
    LowerEquals(Suffix(Name(p)), ".pdf")
  }

  /** An entry name whose lowercased suffix is a supported image extension. */
  predicate IsImageName(name: string) {
    LowerIn(Suffix(Name(Parse(name))), ImageExtensions)
  }

  /** An entry whose lowercased base name is `comicinfo.xml`. */
  predicate IsMetadataName(name: string) {
    LowerEquals(Name(Parse(name)), "comicinfo.xml")
  }

  /** An entry name with more than one path part. */
  predicate IsNested(name: string) {
    PartCount(Parse(name)) > 1
  }

  /**
   * `detect_archive_format`: a `.pdf` suffix (any case) decides without
   * opening the file; otherwise a ZIP is checked before a RAR. A missing or
   * unreadable file is neither, so detection gives None instead of raising.
   */
  function DetectFormat(fs: FileSystem, p: Path): Option<Format> {
    if HasPdfSuffix(p) then Some(PDF)
    else if p in fs && fs[p].ZipArchive? then Some(CBZ)
    else if p in fs && fs[p].RarArchive? then Some(CBR)
    else None
  }

  /** A `.pdf` path is classified PDF whatever the file holds, and even when it is missing. */
  lemma PdfSuffixDecides(fs: FileSystem, p: Path)
    requires HasPdfSuffix(p)
    ensures DetectFormat(fs, p) == Some(PDF)
    ensures forall fs' :: DetectFormat(fs', p) == DetectFormat(fs, p)
  {
  }

  /** Detection reads nothing but the file at the path itself. */
  lemma DetectionIsLocal(fs1: FileSystem, fs2: FileSystem, p: Path)
    requires p in fs1 <==> p in fs2
    requires p in fs1 ==> fs1[p] == fs2[p]
    ensures DetectFormat(fs1, p) == DetectFormat(fs2, p)
  {
  }

  /** Without a `.pdf` suffix, CBZ and CBR are found exactly for ZIP and RAR content, and a missing file gives None. */
  lemma DetectArchive(fs: FileSystem, p: Path)
    requires !HasPdfSuffix(p)
    ensures DetectFormat(fs, p) == Some(CBZ) <==> p in fs && fs[p].ZipArchive?
    ensures DetectFormat(fs, p) == Some(CBR) <==> p in fs && fs[p].RarArchive?
    ensures p !in fs ==> DetectFormat(fs, p) == None
  {
  }

  // ---------------------------------------------------------------------
  // Validation.

  /** The `details` dictionary. */
  datatype Details = Details(imageCount: nat, hasMetadata: bool, hasFolders: bool, imageFiles: seq<string>, totalSize: nat)

  const NoDetails := Details(0, false, false, [], 0)

  /** The triple `(is_valid, format, details)`; a format of None stands for `'UNKNOWN'`. */
  datatype Validation = Validation(isValid: bool, format: Option<Format>, details: Details)

  /** The names of the image entries, in entry order. */
  function ImageNames(es: seq<Entry>): seq<string> {
    if es == [] then []
    else ImageNames(es[..|es| - 1]) + (if IsImageName(es[|es| - 1].name) then [es[|es| - 1].name] else [])
  }

  /**
   * `getinfo(name)` and `open(name)`: the content stored under `name`, the
   * last entry winning when several share the name.
   */
  function Lookup(es: seq<Entry>, name: string): Option<Blob> {
    if es == [] then None
    else if es[|es| - 1].name == name then Some(es[|es| - 1].data)
    else Lookup(es[..|es| - 1], name)
  }

  /** Nothing is found for a name no entry has; otherwise the last entry with the name is. */
  lemma {:induction false} LookupMeans(es: seq<Entry>, name: string)
    ensures Lookup(es, name).None? <==> forall i :: 0 <= i < |es| ==> es[i].name != name
    ensures Lookup(es, name).Some? ==>
      exists i :: 0 <= i < |es| && es[i].name == name && es[i].data == Lookup(es, name).value &&
        forall j :: i < j < |es| ==> es[j].name != name
  {
    if es != [] && es[|es| - 1].name != name {
      var es' := es[..|es| - 1];
      LookupMeans(es', name);
      if Lookup(es', name).Some? {
        var i :| 0 <= i < |es'| && es'[i].name == name && es'[i].data == Lookup(es', name).value &&
          forall j :: i < j < |es'| ==> es'[j].name != name;
        assert es[i] == es'[i];
      }
    }
  }

  /** With distinct names, every entry is found under its own name. */
  lemma LookupDistinct(es: seq<Entry>, i: nat)
    requires i < |es|
    requires forall j, k :: 0 <= j < k < |es| ==> es[j].name != es[k].name
    ensures Lookup(es, es[i].name) == Some(es[i].data)
  {
    LookupMeans(es, es[i].name);
  }

  /** The size `getinfo` reports for a name of the archive `all`. */
  function SizeOf(all: seq<Entry>, name: string): nat {
    match Lookup(all, name)
    case Some(b) => b.size
    case None => 0
  }

  /** The sizes `getinfo` reports for `names` in the archive `all`, summed. */
  function SizeSum(all: seq<Entry>, names: seq<string>): nat {
    if names == [] then 0 else SizeSum(all, names[..|names| - 1]) + SizeOf(all, names[|names| - 1])
  }

  /** Keeping the image names of a concatenation keeps those of each part, in order. */
  lemma {:induction false} ImageNamesAppend(a: seq<Entry>, b: seq<Entry>)
    ensures ImageNames(a + b) == ImageNames(a) + ImageNames(b)
    decreases |b|
  {
    if b != [] {
      var b' := b[..|b| - 1];
      assert (a + b)[..|a + b| - 1] == a + b';
      ImageNamesAppend(a, b');
    } else {
      assert a + b == a;
    }
  }

  /** Some entry has the name exactly when an earlier one or the last one has it. */
  lemma NamedSnoc(es: seq<Entry>, init: seq<Entry>, last: Entry, x: string)
    requires es == init + [last]
    ensures (exists i :: 0 <= i < |es| && es[i].name == x) <==>
      (exists i :: 0 <= i < |init| && init[i].name == x) || last.name == x
  {
    if i :| 0 <= i < |es| && es[i].name == x {
      if i < |init| {
        assert init[i].name == x;
      }
    }
    if i :| 0 <= i < |init| && init[i].name == x {
      assert es[i].name == x;
    }
    if last.name == x {
      assert es[|init|].name == x;
    }
  }

  /** A name is listed exactly when some entry has it and it is an image name. */
  lemma {:induction false} ImageNamesMembers(es: seq<Entry>, x: string)
    ensures x in ImageNames(es) <==> IsImageName(x) && exists i :: 0 <= i < |es| && es[i].name == x
  {
    if es != [] {
      var es', last := es[..|es| - 1], es[|es| - 1];
      assert es == es' + [last];
      ImageNamesMembers(es', x);
      NamedSnoc(es, es', last, x);
      assert ImageNames(es) == ImageNames(es') + (if IsImageName(last.name) then [last.name] else []);
    }
  }

  /** Whether some entry is the metadata file. */
  predicate AnyMetadata(es: seq<Entry>) {
    es != [] && (AnyMetadata(es[..|es| - 1]) || IsMetadataName(es[|es| - 1].name))
  }

  /** Whether some entry lies in a folder. */
  predicate AnyNested(es: seq<Entry>) {
    es != [] && (AnyNested(es[..|es| - 1]) || IsNested(es[|es| - 1].name))
  }

  /** Some entry has a metadata name exactly when an earlier one or the last one has. */
  lemma MetadataSnoc(es: seq<Entry>, init: seq<Entry>, last: Entry)
    requires es == init + [last]
    ensures (exists i :: 0 <= i < |es| && IsMetadataName(es[i].name)) <==>
      (exists i :: 0 <= i < |init| && IsMetadataName(init[i].name)) || IsMetadataName(last.name)
  {
    if i :| 0 <= i < |es| && IsMetadataName(es[i].name) {
      if i < |init| {
        assert IsMetadataName(init[i].name);
      }
    }
    if i :| 0 <= i < |init| && IsMetadataName(init[i].name) {
      assert IsMetadataName(es[i].name);
    }
    if IsMetadataName(last.name) {
      assert IsMetadataName(es[|init|].name);
    }
  }

  lemma {:induction false} AnyMetadataMeans(es: seq<Entry>)
    ensures AnyMetadata(es) <==> exists i :: 0 <= i < |es| && IsMetadataName(es[i].name)
  {
    if es != [] {
      var es', last := es[..|es| - 1], es[|es| - 1];
      assert es == es' + [last];
      AnyMetadataMeans(es');
      MetadataSnoc(es, es', last);
    }
  }

  /** Some entry lies in a folder exactly when an earlier one or the last one does. */
  lemma NestedSnoc(es: seq<Entry>, init: seq<Entry>, last: Entry)
    requires es == init + [last]
    ensures (exists i :: 0 <= i < |es| && IsNested(es[i].name)) <==>
      (exists i :: 0 <= i < |init| && IsNested(init[i].name)) || IsNested(last.name)
  {
    if i :| 0 <= i < |es| && IsNested(es[i].name) {
      if i < |init| {
        assert IsNested(init[i].name);
      }
    }
    if i :| 0 <= i < |init| && IsNested(init[i].name) {
      assert IsNested(es[i].name);
    }
    if IsNested(last.name) {
      assert IsNested(es[|init|].name);
    }
  }

  lemma {:induction false} AnyNestedMeans(es: seq<Entry>)
    ensures AnyNested(es) <==> exists i :: 0 <= i < |es| && IsNested(es[i].name)
  {
    if es != [] {
      var es', last := es[..|es| - 1], es[|es| - 1];
      assert es == es' + [last];
      AnyNestedMeans(es');
      NestedSnoc(es, es', last);
    }
  }

  lemma SizeSumLast(all: seq<Entry>, names: seq<string>, name: string)
    ensures SizeSum(all, names + [name]) == SizeSum(all, names) + SizeOf(all, name)
  {
    assert (names + [name])[..|names|] == names;
  }

  /** What one more entry adds to each of the four summaries. */
  lemma ScanStep(entries: seq<Entry>, i: nat)
    requires i < |entries|
    ensures var e, done, before := entries[i], entries[..i + 1], entries[..i];
      && ImageNames(done) == ImageNames(before) + (if IsImageName(e.name) then [e.name] else [])
      && AnyMetadata(done) == (AnyMetadata(before) || IsMetadataName(e.name))
      && AnyNested(done) == (AnyNested(before) || IsNested(e.name))
  {
    var done := entries[..i + 1];
    assert done[..i] == entries[..i] && done[i] == entries[i];
  }

  /**
   * The loop of `_validate_zip_archive` / `_validate_rar_archive` over
   * `namelist()`. The `getinfo` lookup it guards with `except` cannot fail
   * for a name taken from `namelist()`, so every image adds a size: that of
   * the last entry sharing its name.
   */
  method ScanEntries(entries: seq<Entry>) returns (d: Details)
    ensures d.imageFiles == ImageNames(entries)
    ensures d.imageCount == |d.imageFiles|
    ensures d.hasMetadata <==> exists i :: 0 <= i < |entries| && IsMetadataName(entries[i].name)
    ensures d.hasFolders <==> exists i :: 0 <= i < |entries| && IsNested(entries[i].name)
    ensures d.totalSize == SizeSum(entries, d.imageFiles)
  {
    var images: seq<string> := [];
    var metadata, folders := false, false;
    var bytes: nat := 0;
    for i := 0 to |entries|
      invariant images == ImageNames(entries[..i])
      invariant metadata == AnyMetadata(entries[..i])
      invariant folders == AnyNested(entries[..i])
      invariant bytes == SizeSum(entries, images)
    {
      var e := entries[i];
      ScanStep(entries, i);
      var size := SizeOf(entries, e.name);
      metadata := metadata || IsMetadataName(e.name);
      folders := folders || IsNested(e.name);
      if IsImageName(e.name) {
        SizeSumLast(entries, images, e.name);
        images := images + [e.name];
        bytes := bytes + size;
      }
    }
    assert entries[..|entries|] == entries;
    d := Details(|images|, metadata, folders, images, bytes);
    assert d.hasMetadata <==> exists i :: 0 <= i < |entries| && IsMetadataName(entries[i].name) by {
      AnyMetadataMeans(entries);
    }
    assert d.hasFolders <==> exists i :: 0 <= i < |entries| && IsNested(entries[i].name) by {
      AnyNestedMeans(entries);
    }
  }

  /**
   * `validate_comic_archive`: validity is "at least one image" in every
   * case; an undetected file is `(False, 'UNKNOWN', zeros)`, and a PDF that
   * PyMuPDF cannot open is invalid with zero details but still tagged PDF.
   * `opens` says whether `zipfile.ZipFile` / `rarfile.RarFile` open an
   * archive that `is_zipfile` / `is_rarfile` accepted (a damaged archive
   * can pass the signature test and still fail to open); when they raise,
   * the error is caught and the result is invalid with zero details,
   * tagged with the detected format.
   */
  method ValidateComicArchive(fs: FileSystem, p: Path, opens: bool) returns (v: Validation)
    ensures v.format == DetectFormat(fs, p)
    ensures v.isValid <==> v.details.imageCount > 0
    ensures v.format == None ==> v.details == NoDetails
    ensures v.format == Some(CBZ) || v.format == Some(CBR) ==> p in fs && (fs[p].ZipArchive? || fs[p].RarArchive?)
    ensures (v.format == Some(CBZ) || v.format == Some(CBR)) && !opens ==> !v.isValid && v.details == NoDetails
    ensures (v.format == Some(CBZ) || v.format == Some(CBR)) && opens ==>
      v.details.imageFiles == ImageNames(fs[p].entries) &&
      v.details.imageCount == |ImageNames(fs[p].entries)| &&
      v.details.totalSize == SizeSum(fs[p].entries, ImageNames(fs[p].entries)) &&
      (v.details.hasMetadata <==> exists i :: 0 <= i < |fs[p].entries| && IsMetadataName(fs[p].entries[i].name)) &&
      (v.details.hasFolders <==> exists i :: 0 <= i < |fs[p].entries| && IsNested(fs[p].entries[i].name))
    ensures v.format == Some(PDF) ==>
      v.details == if p in fs && fs[p].PdfDoc? then Details(|fs[p].pages|, false, false, [], fs[p].byteSize) else NoDetails
  {
    var format := DetectFormat(fs, p);
    if format == None {
      return Validation(false, None, NoDetails);
    }
    match format.value
    case PDF =>
      if p in fs && fs[p].PdfDoc? {
        var d := NoDetails.(imageCount := |fs[p].pages|, totalSize := fs[p].byteSize);
        v := Validation(d.imageCount > 0, format, d);
      } else {
        v := Validation(false, format, NoDetails);
      }
    case CBZ =>
      if !opens {
        return Validation(false, format, NoDetails);
      }
      var d := ScanEntries(fs[p].entries);
      v := Validation(d.imageCount > 0, format, d);
    case CBR =>
      if !opens {
        return Validation(false, format, NoDetails);
      }
      var d := ScanEntries(fs[p].entries);
      v := Validation(d.imageCount > 0, format, d);
  }
}
