/** The report (`create_image_metadata_report`): metadata merged into the
    inventory, one flat row per image, and the derived columns. */
module Report {
  import opened Wrappers
  import opened Errors
  import opened Text
  import opened Seqs
  import opened Paths
  import opened Gps
  import opened CaptureDate
  import opened Metadata
  import opened Inventory
  import opened Patterns

  /** The mount prefix that replaces the scanned root in every text cell. */
  const NasPrefix: string := "volume1/photo"

  /** Reads the decoded tags of the image file at a path. */
  type Reader = string -> Exif

  /** How the merge step names an image's file, from the scanned root, the
      directory key and the image name. */
  type PathRule = (string, string, string) -> string

  /** Where the walk found an image: in the root itself, or in the directory
      at `relPath` below it. */
  function TrueImagePath(folder: string, relPath: string, name: string): string {
    Join(if relPath == "." then folder else Join(folder, relPath), name)
  }

  /** The path the source opens: root, key and name joined, so the root's own
      images are looked for under a directory called `root`. */
  function MetadataPathAsWritten(folder: string, key: string, name: string): (r: string)
    ensures key != "root" ==> r == MetadataPath(folder, key, name)
  {
    Join(Join(folder, key), name)
  }

  /** The path the merge step should open: the root's key maps back to the
      root itself. */
  function MetadataPath(folder: string, key: string, name: string): string {
    if key == "root" then Join(folder, name) else Join(Join(folder, key), name)
  }

  /** The corrected rule opens exactly the file the walk listed, for every
      directory except one literally named `root` at the top level (whose key
      the root's key collides with). */
  lemma MetadataPathFindsImage(folder: string, relPath: string, name: string)
    requires relPath != "root"
    ensures MetadataPath(folder, DirectoryKey(relPath), name) == TrueImagePath(folder, relPath, name)
  {
  }

  lemma JoinExamples()
    ensures Join("/data", "root") == "/data/root"
    ensures Join("/data/root", "a.jpg") == "/data/root/a.jpg"
    ensures Join("/data", "a.jpg") == "/data/a.jpg"
  {
    assert "/data"[4] != '/' && "/data/root"[9] != '/';
    assert "root"[0] != '/' && "a.jpg"[0] != '/';
  }

  /** The rule as written misses an image in the root: it opens
      `/data/root/a.jpg` while the file is `/data/a.jpg`. */
  lemma AsWrittenRootPathMisses()
    ensures MetadataPathAsWritten("/data", DirectoryKey("."), "a.jpg") == "/data/root/a.jpg"
    ensures TrueImagePath("/data", ".", "a.jpg") == "/data/a.jpg"
    ensures MetadataPathAsWritten("/data", DirectoryKey("."), "a.jpg") != TrueImagePath("/data", ".", "a.jpg")
  {
    JoinExamples();
  }

  /** Every image of a directory with the same metadata. */
  function Stamp(images: seq<ImageEntry>, meta: ImageMeta): (r: seq<ImageEntry>)
    ensures |r| == |images|
    ensures forall i :: 0 <= i < |r| ==> r[i] == ImageEntry(images[i].name, Some(meta))
  {
    if |images| == 0 then [] else [ImageEntry(images[0].name, Some(meta))] + Stamp(images[1..], meta)
  }

  lemma StampNames(images: seq<ImageEntry>, meta: ImageMeta)
    ensures ImageNames(Stamp(images, meta)) == ImageNames(images)
  {
    var a, b := ImageNames(Stamp(images, meta)), ImageNames(images);
    assert forall i :: 0 <= i < |a| ==> a[i] == b[i];
  }

  /** Stamping again overrides the earlier metadata completely. */
  lemma StampTwice(images: seq<ImageEntry>, m1: ImageMeta, m2: ImageMeta)
    ensures Stamp(Stamp(images, m1), m2) == Stamp(images, m2)
  {
    var a, b := Stamp(Stamp(images, m1), m2), Stamp(images, m2);
    assert forall i :: 0 <= i < |a| ==> a[i] == b[i];
  }

  function MetaAt(folder: string, key: string, name: string, read: Reader, rule: PathRule): Result<ImageMeta, Error> {
    ExtractMetadata(read(rule(folder, key, name)))
  }

  /** The source's inner loop over one directory's image names: every pass
      extracts the current image's metadata and rebuilds the whole image
      dictionary with it. */
  function MergeImages(folder: string, key: string, e: DirEntry, pending: seq<string>, read: Reader, rule: PathRule)
    : (r: Result<DirEntry, Error>)
    ensures r.Success? ==> && r.value.imagesCount == e.imagesCount
                           && r.value.otherFilesCount == e.otherFilesCount
                           && r.value.files == e.files
                           && |r.value.images| == |e.images|
                           && ImageNames(r.value.images) == ImageNames(e.images)
    ensures r.Failure? <==> e.imagesCount != 0 && exists i :: 0 <= i < |pending| && MetaAt(folder, key, pending[i], read, rule).Failure?
    ensures (|pending| == 0 || e.imagesCount == 0) ==> r == Success(e)
    ensures r.Success? && |pending| > 0 && e.imagesCount != 0 ==>
              && MetaAt(folder, key, pending[|pending| - 1], read, rule).Success?
              && r.value.images == Stamp(e.images, MetaAt(folder, key, pending[|pending| - 1], read, rule).value)
    decreases |pending|
  {
    if |pending| == 0 then Success(e)
    else if e.imagesCount == 0 then MergeImages(folder, key, e, pending[1..], read, rule)
    else
      match MetaAt(folder, key, pending[0], read, rule)
      case Failure(err) => Failure(err)
      case Success(meta) =>
        StampNames(e.images, meta);
        var r := MergeImages(folder, key, e.(images := Stamp(e.images, meta)), pending[1..], read, rule);
        assert forall i :: 0 < i < |pending| ==> pending[i] == pending[1..][i - 1];
        if |pending| > 1 && r.Success? then
          StampTwice(e.images, meta, MetaAt(folder, key, pending[|pending| - 1], read, rule).value);
          r
        else r
  }

  /** One directory with its metadata merged in (see `MergeDirSpec`). */
  function MergeDir(folder: string, d: Dir, read: Reader, rule: PathRule): (r: Result<Dir, Error>)
    ensures r.Success? ==> r.value.key == d.key
  {
    var e :- MergeImages(folder, d.key, d.entry, ImageNames(d.entry.images), read, rule);
    Success(Dir(d.key, e))
  }

  /** Merging a directory keeps its key, counts, image names and other files;
      leaves it alone when it has no images or a zero `images_count`; fails
      exactly when the extraction of one of its images fails; and otherwise
      gives every image the metadata of the last image. */
  lemma MergeDirSpec(folder: string, d: Dir, read: Reader, rule: PathRule)
    ensures var r := MergeDir(folder, d, read, rule);
            r.Success? ==> && r.value.key == d.key
                           && r.value.entry.imagesCount == d.entry.imagesCount
                           && r.value.entry.otherFilesCount == d.entry.otherFilesCount
                           && r.value.entry.files == d.entry.files
                           && ImageNames(r.value.entry.images) == ImageNames(d.entry.images)
    ensures |d.entry.images| == 0 || d.entry.imagesCount == 0 ==> MergeDir(folder, d, read, rule) == Success(d)
    ensures var r := MergeDir(folder, d, read, rule);
            r.Success? && |d.entry.images| > 0 && d.entry.imagesCount != 0 ==>
              var last := d.entry.images[|d.entry.images| - 1].name;
              && MetaAt(folder, d.key, last, read, rule).Success?
              && forall i :: 0 <= i < |r.value.entry.images| ==>
                   r.value.entry.images[i] == ImageEntry(d.entry.images[i].name, Some(MetaAt(folder, d.key, last, read, rule).value))
    ensures MergeDir(folder, d, read, rule).Failure? <==>
              && d.entry.imagesCount != 0
              && exists i :: 0 <= i < |d.entry.images| && MetaAt(folder, d.key, d.entry.images[i].name, read, rule).Failure?
  {
    var names := ImageNames(d.entry.images);
    assert forall i :: 0 <= i < |names| ==> names[i] == d.entry.images[i].name;
  }

  /** The outer loop: every directory merged, in order (see `MergeAt`); the
      first failing image aborts the whole merge. */
  function Merge(folder: string, inv: Inventory, read: Reader, rule: PathRule): (r: Result<Inventory, Error>)
    ensures r.Success? ==> |r.value| == |inv|
  {
    if |inv| == 0 then Success([])
    else
      var prefix :- Merge(folder, inv[..|inv| - 1], read, rule);
      var d :- MergeDir(folder, inv[|inv| - 1], read, rule);
      Success(prefix + [d])
  }

  /** Directory `j` of a successful merge is directory `j` of the inventory,
      merged. */
  lemma {:induction false} MergeAt(folder: string, inv: Inventory, read: Reader, rule: PathRule, j: int)
    requires Merge(folder, inv, read, rule).Success? && 0 <= j < |inv|
    ensures MergeDir(folder, inv[j], read, rule) == Success(Merge(folder, inv, read, rule).value[j])
  {
    var init := inv[..|inv| - 1];
    var prefix := Merge(folder, init, read, rule).value;
    var d := MergeDir(folder, inv[|inv| - 1], read, rule).value;
    assert Merge(folder, inv, read, rule).value == prefix + [d];
    if j < |init| {
      MergeAt(folder, init, read, rule, j);
      assert init[j] == inv[j];
    }
  }

  /** The merge fails exactly when some directory's merge fails. */
  lemma {:induction false} MergeFailure(folder: string, inv: Inventory, read: Reader, rule: PathRule)
    ensures Merge(folder, inv, read, rule).Failure? <==> exists j :: 0 <= j < |inv| && MergeDir(folder, inv[j], read, rule).Failure?
  {
    if |inv| > 0 {
      var init := inv[..|inv| - 1];
      MergeFailure(folder, init, read, rule);
      if Merge(folder, inv, read, rule).Success? {
        forall j | 0 <= j < |inv|
          ensures MergeDir(folder, inv[j], read, rule).Success?
        {
          MergeAt(folder, inv, read, rule, j);
        }
      } else if Merge(folder, init, read, rule).Failure? {
        var j :| 0 <= j < |init| && MergeDir(folder, init[j], read, rule).Failure?;
        assert init[j] == inv[j];
      }
    }
  }

  /** One image as a row, before the derived columns. */
  datatype FlatRow = FlatRow(subfolder: string, imageName: string, gps: Option<Coord>, date: Option<Date>, otherFiles: seq<string>)

  /** The rows of one directory's images, in dictionary order; an image still
      holding the placeholder raises. */
  function FlattenImages(key: string, images: seq<ImageEntry>, files: seq<string>): (r: Result<seq<FlatRow>, Error>)
    ensures r.Success? <==> forall i :: 0 <= i < |images| ==> images[i].info.Some?
    ensures r.Success? ==> |r.value| == |images|
    ensures r.Success? ==> forall i :: 0 <= i < |images| ==>
              r.value[i] == FlatRow(key, images[i].name, images[i].info.value.gps, images[i].info.value.date, files)
  {
    if |images| == 0 then Success([])
    else if images[0].info.None? then Failure(MissingMetadata(images[0].name))
    else
      var rest :- FlattenImages(key, images[1..], files);
      assert forall i :: 0 < i < |images| ==> images[i] == images[1..][i - 1];
      var info := images[0].info.value;
      Success([FlatRow(key, images[0].name, info.gps, info.date, files)] + rest)
  }

  /** The number of images the inventory's dictionaries hold. */
  function TotalImages(inv: Inventory): nat {
    if |inv| == 0 then 0 else TotalImages(inv[..|inv| - 1]) + |inv[|inv| - 1].entry.images|
  }

  /** A directory's rows start before the end of the directories around it. */
  lemma {:induction false} PrefixTotal(inv: Inventory, j: int)
    requires 0 <= j < |inv|
    ensures TotalImages(inv[..j]) + |inv[j].entry.images| <= TotalImages(inv)
    decreases |inv|
  {
    var init := inv[..|inv| - 1];
    if j < |inv| - 1 {
      assert init[..j] == inv[..j] && init[j] == inv[j];
      PrefixTotal(init, j);
    } else {
      assert inv[..j] == init;
    }
  }

  /** The sum of the recorded `images_count` values. */
  function TotalImagesCount(inv: Inventory): nat {
    if |inv| == 0 then 0 else TotalImagesCount(inv[..|inv| - 1]) + inv[|inv| - 1].entry.imagesCount
  }

  /** Every image slot of the inventory holds metadata. */
  predicate AllMerged(inv: Inventory) {
    forall j, i :: 0 <= j < |inv| && 0 <= i < |inv[j].entry.images| ==> inv[j].entry.images[i].info.Some?
  }

  /** One row per image of every directory, directory by directory (see
      `FlattenPositions`). */
  function Flatten(inv: Inventory): (r: Result<seq<FlatRow>, Error>)
    ensures r.Success? <==> AllMerged(inv)
    ensures r.Success? ==> |r.value| == TotalImages(inv)
  {
    if |inv| == 0 then Success([])
    else
      var init := inv[..|inv| - 1];
      var last := inv[|inv| - 1];
      assert forall j :: 0 <= j < |init| ==> init[j] == inv[j];
      var prefix :- Flatten(init);
      var rows :- FlattenImages(last.key, last.entry.images, last.entry.files);
      Success(prefix + rows)
  }

  /** Image `i` of directory `j` is the row right after the rows of the
      directories before `j` and the images before `i`; it carries its
      directory's key, its own name and metadata, and its directory's other
      files. */
  lemma {:induction false} FlattenPositions(inv: Inventory, j: int, i: int)
    requires Flatten(inv).Success?
    requires 0 <= j < |inv| && 0 <= i < |inv[j].entry.images|
    ensures TotalImages(inv[..j]) + i < |Flatten(inv).value|
    ensures Flatten(inv).value[TotalImages(inv[..j]) + i] ==
              FlatRow(inv[j].key, inv[j].entry.images[i].name, inv[j].entry.images[i].info.value.gps,
                      inv[j].entry.images[i].info.value.date, inv[j].entry.files)
  {
    var init := inv[..|inv| - 1];
    var last := inv[|inv| - 1];
    assert forall k :: 0 <= k < |init| ==> init[k] == inv[k];
    var prefix := Flatten(init).value;
    var rows := FlattenImages(last.key, last.entry.images, last.entry.files).value;
    assert Flatten(inv).value == prefix + rows;
    if j < |init| {
      assert init[..j] == inv[..j];
      FlattenPositions(init, j, i);
      PrefixTotal(init, j);
    } else {
      assert inv[..j] == init;
    }
  }

  /** Every directory's `images_count` covers its image dictionary, so a
      directory with images is never skipped by the merge. */
  predicate WellFormed(inv: Inventory) {
    forall j :: 0 <= j < |inv| ==> |inv[j].entry.images| <= inv[j].entry.imagesCount
  }

  lemma BuildInventoryWellFormed(walk: seq<WalkEntry>)
    ensures WellFormed(BuildInventory(walk))
  {
    BuildInventoryFromWalk(walk);
  }

  /** With duplicate-free listings, each `images_count` is exactly the size of
      its image dictionary. */
  lemma BuildInventoryCounted(walk: seq<WalkEntry>)
    requires forall i :: 0 <= i < |walk| ==> Distinct(walk[i].files)
    ensures forall j :: 0 <= j < |BuildInventory(walk)| ==>
              BuildInventory(walk)[j].entry.imagesCount == |BuildInventory(walk)[j].entry.images|
  {
    BuildInventoryFromWalk(walk);
  }

  lemma {:induction false} TotalsAgree(inv: Inventory)
    requires forall j :: 0 <= j < |inv| ==> inv[j].entry.imagesCount == |inv[j].entry.images|
    ensures TotalImagesCount(inv) == TotalImages(inv)
  {
    if |inv| > 0 {
      var init := inv[..|inv| - 1];
      assert forall j :: 0 <= j < |init| ==> init[j] == inv[j];
      TotalsAgree(init);
    }
  }

  /** Two inventories with the same keys and the same image counts, slot
      by slot. */
  predicate SameShape(a: Inventory, b: Inventory) {
    && |a| == |b|
    && forall j :: 0 <= j < |a| ==>
         && a[j].key == b[j].key
         && |a[j].entry.images| == |b[j].entry.images|
         && a[j].entry.imagesCount == b[j].entry.imagesCount
  }

  lemma {:induction false} SameShapeTotals(a: Inventory, b: Inventory)
    requires SameShape(a, b)
    ensures TotalImages(a) == TotalImages(b) && TotalImagesCount(a) == TotalImagesCount(b)
    ensures Keys(a) == Keys(b)
  {
    if |a| > 0 {
      var ia, ib := a[..|a| - 1], b[..|b| - 1];
      assert forall j :: 0 <= j < |ia| ==> ia[j] == a[j] && ib[j] == b[j];
      SameShapeTotals(ia, ib);
    }
  }

  /** The merge keeps every directory's key, counts and number of images, so
      the keys and the totals are unchanged. */
  lemma MergeKeepsShape(folder: string, inv: Inventory, read: Reader, rule: PathRule)
    requires Merge(folder, inv, read, rule).Success?
    ensures SameShape(Merge(folder, inv, read, rule).value, inv)
    ensures TotalImages(Merge(folder, inv, read, rule).value) == TotalImages(inv)
    ensures TotalImagesCount(Merge(folder, inv, read, rule).value) == TotalImagesCount(inv)
    ensures Keys(Merge(folder, inv, read, rule).value) == Keys(inv)
  {
    var m := Merge(folder, inv, read, rule).value;
    forall j | 0 <= j < |m|
      ensures m[j].key == inv[j].key && |m[j].entry.images| == |inv[j].entry.images|
      ensures m[j].entry.imagesCount == inv[j].entry.imagesCount
    {
      MergeDirSpec(folder, inv[j], read, rule);
      MergeAt(folder, inv, read, rule, j);
      assert |ImageNames(m[j].entry.images)| == |ImageNames(inv[j].entry.images)|;
    }
    SameShapeTotals(m, inv);
  }

  /** After a successful merge of a well-formed inventory no placeholder
      is left. */
  lemma MergeCompletes(folder: string, inv: Inventory, read: Reader, rule: PathRule)
    requires WellFormed(inv) && Merge(folder, inv, read, rule).Success?
    ensures AllMerged(Merge(folder, inv, read, rule).value)
  {
    var m := Merge(folder, inv, read, rule).value;
    forall j, i | 0 <= j < |m| && 0 <= i < |m[j].entry.images|
      ensures m[j].entry.images[i].info.Some?
    {
      MergeDirSpec(folder, inv[j], read, rule);
      MergeAt(folder, inv, read, rule, j);
      assert |m[j].entry.images| == |ImageNames(inv[j].entry.images)|;
    }
  }

  /** A row of the report. Text cells have had the scanned root replaced by
      the mount prefix; the metadata, the list of other files and the missing
      values are not text and are kept as they are. */
  datatype Row = Row(
    subfolder: string,
    imageName: string,
    gps: Option<Coord>,
    date: Option<Date>,
    otherFiles: seq<string>,
    parentFolder: string,
    imagePath: string,
    folderDate: Option<string>,
    viscode: Option<string>,
    viscodeSubfolder: Option<string>,
    viscodeImageName: Option<string>,
    viscodeOtherFiles: Option<string>)

  /** The `image_path` column: parent folder, subfolder, `/` and image name,
      concatenated with no separator after the parent folder. */
  function ImagePath(parent: string, subfolder: string, name: string): (r: string)
    ensures StartsWith(r, parent + subfolder) && EndsWith(r, "/" + name)
    ensures |r| == |parent| + |subfolder| + 1 + |name|
  {
    var r := parent + subfolder + "/" + name;
    assert r[..|parent + subfolder|] == parent + subfolder;
    assert r[|r| - |"/" + name|..] == "/" + name;
    r
  }

  lemma ImagePathHasNoSeparator()
    ensures ImagePath("/data", "2022-01-01", "a.jpg") == "/data2022-01-01/a.jpg"
  {
  }

  /** The root-path substitution applied to one text cell. */
  function Substitute(folder: string, cell: string): string {
    ReplaceAll(cell, folder, NasPrefix)
  }

  function SubstituteOpt(folder: string, cell: Option<string>): Option<string> {
    match cell
    case None => None
    case Some(c) => Some(Substitute(folder, c))
  }

  /** The substitution turns the parent folder into the mount prefix ... */
  lemma SubstitutedParent(folder: string)
    ensures Substitute(folder, folder) == NasPrefix
  {
    ReplaceAllWhole(folder, NasPrefix);
  }

  /** ... and, since every image path starts with the scanned root, puts the
      mount prefix in front of the rest of the path. */
  lemma SubstitutedImagePath(folder: string, subfolder: string, name: string)
    ensures |folder| > 0 ==>
              Substitute(folder, ImagePath(folder, subfolder, name)) == NasPrefix + Substitute(folder, subfolder + "/" + name)
  {
    if |folder| > 0 {
      assert ImagePath(folder, subfolder, name) == folder + (subfolder + "/" + name);
      ReplaceAllLeading(folder, subfolder + "/" + name, NasPrefix);
    }
  }

  /** The derived columns of one row, in the order the source adds them:
      parent folder, image path and folder date from the original text, then
      the substitution, then the three visit codes from the substituted text
      and their combination. */
  function DeriveRow(folder: string, f: FlatRow): (r: Row)
    ensures r.subfolder == Substitute(folder, f.subfolder) && r.imageName == Substitute(folder, f.imageName)
    ensures r.parentFolder == NasPrefix
    ensures |folder| > 0 ==> r.imagePath == NasPrefix + Substitute(folder, f.subfolder + "/" + f.imageName)
    ensures r.gps == f.gps && r.date == f.date && r.otherFiles == f.otherFiles
    ensures r.folderDate.None? <==> FolderDate(f.subfolder).None?
    ensures r.folderDate == SubstituteOpt(folder, FolderDate(f.subfolder))
    ensures r.viscode.None? <==> r.viscodeSubfolder.None? && r.viscodeImageName.None? && r.viscodeOtherFiles.None?
    ensures r.viscodeSubfolder.Some? ==> r.viscode == r.viscodeSubfolder
    ensures r.viscodeSubfolder.None? && r.viscodeImageName.Some? ==> r.viscode == r.viscodeImageName
    ensures r.viscodeSubfolder.None? && r.viscodeImageName.None? ==> r.viscode == r.viscodeOtherFiles
    ensures r.viscodeSubfolder == VisitCode(r.subfolder) && r.viscodeImageName == VisitCode(r.imageName)
    ensures r.viscodeOtherFiles == FirstVisitCode(f.otherFiles)
  {
    var subfolder := Substitute(folder, f.subfolder);
    var name := Substitute(folder, f.imageName);
    var bySubfolder := VisitCode(subfolder);
    var byName := VisitCode(name);
    var byOthers := FirstVisitCode(f.otherFiles);
    SubstitutedParent(folder);
    SubstitutedImagePath(folder, f.subfolder, f.imageName);
    Row(subfolder, name, f.gps, f.date, f.otherFiles, Substitute(folder, folder),
        Substitute(folder, ImagePath(folder, f.subfolder, f.imageName)),
        SubstituteOpt(folder, FolderDate(f.subfolder)), Prioritised(bySubfolder, byName, byOthers),
        bySubfolder, byName, byOthers)
  }

  function DeriveRows(folder: string, flat: seq<FlatRow>): (r: seq<Row>)
    ensures |r| == |flat|
    ensures forall i :: 0 <= i < |flat| ==> r[i] == DeriveRow(folder, flat[i])
  {
    if |flat| == 0 then [] else [DeriveRow(folder, flat[0])] + DeriveRows(folder, flat[1..])
  }

  /** The report with the merge opening the right file for the root's images
      and the combined visit code read from the visit-code column of the
      subfolder. A tree without images gives an empty report. */
  function Report(folder: string, walk: seq<WalkEntry>, read: Reader): (r: Result<seq<Row>, Error>)
    ensures r.Success? <==> Merge(folder, BuildInventory(walk), read, MetadataPath).Success?
    ensures r.Success? ==> |r.value| == TotalImages(BuildInventory(walk))
    ensures r.Success? ==> forall i :: 0 <= i < |r.value| ==> r.value[i].parentFolder == NasPrefix
  {
    var inv := BuildInventory(walk);
    BuildInventoryWellFormed(walk);
    match Merge(folder, inv, read, MetadataPath)
    case Failure(e) => Failure(e)
    case Success(merged) =>
      MergeCompletes(folder, inv, read, MetadataPath);
      MergeKeepsShape(folder, inv, read, MetadataPath);
      var flat := Flatten(merged).value;
      Success(DeriveRows(folder, flat))
  }

  /** The report as the source computes it: after the merge and the
      flattening, an empty table has no `subfolder` column to read, and any
      other table has no `viscxode_subfolder` column, so it never completes. */
  function ReportAsWritten(folder: string, walk: seq<WalkEntry>, read: Reader): (r: Result<seq<Row>, Error>)
    ensures r.Failure?
    ensures Merge(folder, BuildInventory(walk), read, MetadataPathAsWritten).Success? ==>
              r == Failure(MissingColumn(if TotalImages(BuildInventory(walk)) == 0 then "subfolder" else "viscxode_subfolder"))
  {
    var inv := BuildInventory(walk);
    BuildInventoryWellFormed(walk);
    var merged :- Merge(folder, inv, read, MetadataPathAsWritten);
    MergeCompletes(folder, inv, read, MetadataPathAsWritten);
    MergeKeepsShape(folder, inv, read, MetadataPathAsWritten);
    var flat := Flatten(merged).value;
    if |flat| == 0 then Failure(MissingColumn("subfolder"))
    else Failure(MissingColumn("viscxode_subfolder"))
  }

  /** With duplicate-free listings there is one row per counted image: the
      number of rows is the sum of `images_count` over the inventory. */
  lemma ReportRowCount(folder: string, walk: seq<WalkEntry>, read: Reader)
    requires forall i :: 0 <= i < |walk| ==> Distinct(walk[i].files)
    requires Report(folder, walk, read).Success?
    ensures |Report(folder, walk, read).value| == TotalImagesCount(BuildInventory(walk))
  {
    BuildInventoryCounted(walk);
    TotalsAgree(BuildInventory(walk));
  }

  /** The walk of a root holding no files and one dated folder with an image
      and a text file. */
  const ExampleWalk: seq<WalkEntry> := [WalkEntry(".", []), WalkEntry("2022-01-01", ["a.jpg", "a.txt"])]

  /** Two directories with different keys give two entries, in walk order. */
  lemma BuildInventoryPair(a: WalkEntry, b: WalkEntry)
    requires DirectoryKey(a.relPath) != DirectoryKey(b.relPath)
    ensures BuildInventory([a, b]) == [Dir(DirectoryKey(a.relPath), Classify(a.files)), Dir(DirectoryKey(b.relPath), Classify(b.files))]
  {
    var first := Dir(DirectoryKey(a.relPath), Classify(a.files));
    BuildInventorySingle(a);
    assert [a, b][..1] == [a];
    assert BuildInventory([a, b]) == Put([first], DirectoryKey(b.relPath), Classify(b.files));
    PutAfterSingle(first, DirectoryKey(b.relPath), Classify(b.files));
  }

  lemma BuildInventorySingle(a: WalkEntry)
    ensures BuildInventory([a]) == [Dir(DirectoryKey(a.relPath), Classify(a.files))]
  {
    assert [a][..0] == [];
  }

  /** A new key goes after the one existing entry. */
  lemma PutAfterSingle(d: Dir, key: string, e: DirEntry)
    requires d.key != key
    ensures Put([d], key, e) == [d, Dir(key, e)]
  {
    assert [d][1..] == [];
    assert Put([], key, e) == [Dir(key, e)];
  }

  lemma ExampleInventory()
    ensures BuildInventory(ExampleWalk) ==
              [Dir("root", DirEntry(0, [], 0, [])), Dir("2022-01-01", DirEntry(1, [ImageEntry("a.jpg", None)], 1, ["a.txt"]))]
  {
    ClassifyEmpty();
    ClassifyExample();
    BuildInventoryPair(ExampleWalk[0], ExampleWalk[1]);
  }

  /** Only the second of two directories holds an image; its one extraction
      fills its slot and the first directory is left alone. */
  lemma MergeSecondOnly(folder: string, d0: Dir, d1: Dir, name: string, meta: ImageMeta, read: Reader, rule: PathRule)
    requires |d0.entry.images| == 0
    requires d1.entry.images == [ImageEntry(name, None)] && d1.entry.imagesCount != 0
    requires MetaAt(folder, d1.key, name, read, rule) == Success(meta)
    ensures Merge(folder, [d0, d1], read, rule) == Success([d0, Dir(d1.key, d1.entry.(images := [ImageEntry(name, Some(meta))]))])
  {
    var inv := [d0, d1];
    MergeDirSpec(folder, d0, read, rule);
    MergeDirSpec(folder, d1, read, rule);
    assert MergeDir(folder, d0, read, rule) == Success(d0);
    assert MergeDir(folder, d1, read, rule).Success?;
    assert forall j :: 0 <= j < |inv| ==> MergeDir(folder, inv[j], read, rule).Success?;
    MergeFailure(folder, inv, read, rule);
    var m := Merge(folder, inv, read, rule).value;
    MergeAt(folder, inv, read, rule, 0);
    MergeAt(folder, inv, read, rule, 1);
    assert |ImageNames(m[1].entry.images)| == 1;
    assert m[1].entry.images[0] == ImageEntry(name, Some(meta));
    assert m[1].entry.images == [ImageEntry(name, Some(meta))];
    assert m[1] == Dir(d1.key, d1.entry.(images := [ImageEntry(name, Some(meta))]));
    assert m == [m[0], m[1]];
  }

  /** One image in the second of two directories gives one row. */
  lemma FlattenSecondOnly(d0: Dir, d1: Dir, name: string, meta: ImageMeta)
    requires |d0.entry.images| == 0 && d1.entry.images == [ImageEntry(name, Some(meta))]
    ensures Flatten([d0, d1]) == Success([FlatRow(d1.key, name, meta.gps, meta.date, d1.entry.files)])
  {
    var inv := [d0, d1];
    assert inv[..1] == [d0];
    assert [d0][..0] == [];
    assert TotalImages([d0]) == 0;
    assert TotalImages(inv) == 1;
    assert AllMerged(inv);
    FlattenPositions(inv, 1, 0);
    var r := Flatten(inv).value;
    assert |r| == 1 && inv[..1] == [d0];
    assert r[0] == FlatRow(d1.key, name, meta.gps, meta.date, d1.entry.files);
    assert r == [r[0]];
  }

  /** A text with no character of `folder`'s first one is left alone by the
      substitution. */
  lemma SubstituteAbsent(folder: string, s: string)
    requires |folder| > 0 && forall i :: 0 <= i < |s| ==> s[i] != folder[0]
    ensures Substitute(folder, s) == s
  {
    forall i | 0 <= i <= |s|
      ensures !OccursAt(s, folder, i)
    {
      if i + |folder| <= |s| {
        assert s[i..i + |folder|][0] == s[i] != folder[0];
      }
    }
    ReplaceAllAbsent(s, folder, NasPrefix);
  }

  /** A name with no `L` carries no visit code. */
  lemma NoVisitCodeWithoutL(s: string)
    requires forall i :: 0 <= i < |s| ==> s[i] != 'L'
    ensures VisitCode(s) == None
  {
    forall i
      ensures !MatchesAt(s, VisitCodePattern, i)
    {
      if 0 <= i < |s| {
        assert !Fits(VisitCodePattern[0], s[i + 0]);
      }
    }
  }

  /** A row whose texts the substitution leaves alone and which carries no
      visit code. */
  lemma DeriveRowPlain(folder: string, f: FlatRow, path: string, date: string)
    requires |folder| > 0
    requires Substitute(folder, f.subfolder) == f.subfolder && Substitute(folder, f.imageName) == f.imageName
    requires path == f.subfolder + "/" + f.imageName && Substitute(folder, path) == path
    requires FolderDate(f.subfolder) == Some(date) && Substitute(folder, date) == date
    requires VisitCode(f.subfolder) == None && VisitCode(f.imageName) == None && FirstVisitCode(f.otherFiles) == None
    ensures DeriveRow(folder, f) ==
              Row(f.subfolder, f.imageName, f.gps, f.date, f.otherFiles, NasPrefix, NasPrefix + path,
                  Some(date), None, None, None, None)
  {
  }

  /** The substitution of `/data` leaves the example's folder and image names
      alone. */
  lemma ExampleNamesUnchanged()
    ensures Substitute("/data", "2022-01-01") == "2022-01-01" && Substitute("/data", "a.jpg") == "a.jpg"
  {
    SubstituteAbsent("/data", "2022-01-01");
    SubstituteAbsent("/data", "a.jpg");
  }

  /** ... and the example's relative image path. */
  lemma ExamplePathUnchanged()
    ensures Substitute("/data", "2022-01-01/a.jpg") == "2022-01-01/a.jpg"
  {
    var folder, path := "/data", "2022-01-01/a.jpg";
    forall i | 0 <= i <= |path|
      ensures !OccursAt(path, folder, i)
    {
      if i + |folder| <= |path| {
        if i == 10 {
          assert path[i..i + |folder|][1] == path[11] == 'a';
        } else {
          assert path[i..i + |folder|][0] == path[i] != '/';
        }
      }
    }
    ReplaceAllAbsent(path, folder, NasPrefix);
  }

  /** The pattern columns of the example row: a folder date and no visit code. */
  lemma ExamplePatternColumns()
    ensures FolderDate("2022-01-01") == Some("2022-01-01")
    ensures VisitCode("2022-01-01") == None && VisitCode("a.jpg") == None && FirstVisitCode(["a.txt"]) == None
  {
    FolderDateOfDateName("2022-01-01");
    NoVisitCodeWithoutL("2022-01-01");
    NoVisitCodeWithoutL("a.jpg");
    NoVisitCodeWithoutL("a.txt");
    assert ["a.txt"][1..] == [];
  }

  lemma ExamplePathJoin()
    ensures "2022-01-01" + "/" + "a.jpg" == "2022-01-01/a.jpg"
  {
  }

  /** The row of an image `a.jpg` in folder `2022-01-01` under `/data`: the
      folder date is read from the folder name, the image path gets the mount
      prefix, and no visit code is found. */
  lemma DeriveRowExample()
    ensures DeriveRow("/data", FlatRow("2022-01-01", "a.jpg", None, None, ["a.txt"])) ==
              Row("2022-01-01", "a.jpg", None, None, ["a.txt"], NasPrefix, NasPrefix + "2022-01-01/a.jpg",
                  Some("2022-01-01"), None, None, None, None)
  {
    ExamplePathJoin();
    ExampleNamesUnchanged();
    ExamplePathUnchanged();
    ExamplePatternColumns();
    DeriveRowPlain("/data", FlatRow("2022-01-01", "a.jpg", None, None, ["a.txt"]), "2022-01-01/a.jpg", "2022-01-01");
  }

  /** The whole report for `ExampleWalk` under `/data` with images that carry
      no metadata tags: one row, for the one image, with no position and no
      date, and nothing for the root folder, which holds no image. */
  lemma ReportExample()
    ensures Report("/data", ExampleWalk, _ => Exif(map[], None)) ==
              Success([Row("2022-01-01", "a.jpg", None, None, ["a.txt"], NasPrefix, NasPrefix + "2022-01-01/a.jpg",
                           Some("2022-01-01"), None, None, None, None)])
  {
    var read: Reader := _ => Exif(map[], None);
    var inv := BuildInventory(ExampleWalk);
    ExampleInventory();
    NoTagsNoMetadata();
    var meta := ImageMeta(None, None);
    assert MetaAt("/data", inv[1].key, "a.jpg", read, MetadataPath) == Success(meta);
    MergeSecondOnly("/data", inv[0], inv[1], "a.jpg", meta, read, MetadataPath);
    assert inv == [inv[0], inv[1]];
    var merged := Merge("/data", inv, read, MetadataPath).value;
    FlattenSecondOnly(merged[0], merged[1], "a.jpg", meta);
    assert merged == [merged[0], merged[1]];
    var flat := Flatten(merged).value;
    assert flat == [FlatRow("2022-01-01", "a.jpg", None, None, ["a.txt"])];
    DeriveRowExample();
    assert DeriveRows("/data", flat) == [DeriveRow("/data", flat[0])];
  }

  /** A tree without a single image: the source fails for want of a
      `subfolder` column, the corrected report is empty. */
  lemma EmptyTreeReport(folder: string, read: Reader)
    ensures ReportAsWritten(folder, [WalkEntry(".", [])], read) == Failure(MissingColumn("subfolder"))
    ensures Report(folder, [WalkEntry(".", [])], read) == Success([])
  {
    ClassifyEmpty();
    var walk := [WalkEntry(".", [])];
    assert walk[..0] == [];
    var inv := BuildInventory(walk);
    assert inv == [Dir("root", DirEntry(0, [], 0, []))];
    MergeDirSpec(folder, inv[0], read, MetadataPath);
    MergeDirSpec(folder, inv[0], read, MetadataPathAsWritten);
    assert MergeDir(folder, inv[0], read, MetadataPath).Success?;
    assert MergeDir(folder, inv[0], read, MetadataPathAsWritten).Success?;
    MergeFailure(folder, inv, read, MetadataPath);
    MergeFailure(folder, inv, read, MetadataPathAsWritten);
    assert TotalImages(inv) == 0 by {
      assert inv[..0] == [];
    }
  }

  /** The example tree with images: the source fails for want of the
      misspelled `viscxode_subfolder` column. */
  lemma ReportAsWrittenExample()
    ensures ReportAsWritten("/data", ExampleWalk, _ => Exif(map[], None)) == Failure(MissingColumn("viscxode_subfolder"))
  {
    var read: Reader := _ => Exif(map[], None);
    var inv := BuildInventory(ExampleWalk);
    ExampleInventory();
    NoTagsNoMetadata();
    var meta := ImageMeta(None, None);
    assert MetaAt("/data", inv[1].key, "a.jpg", read, MetadataPathAsWritten) == Success(meta);
    MergeSecondOnly("/data", inv[0], inv[1], "a.jpg", meta, read, MetadataPathAsWritten);
    assert inv == [inv[0], inv[1]];
    ReportExample();
    assert TotalImages(inv) == |Report("/data", ExampleWalk, read).value| == 1;
  }
}
