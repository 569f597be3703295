/** The tree inventory (`count_files_and_list_all_contents`): every directory
    of the walk, keyed by its path relative to the root, with its files split
    into images and other files. */
module Inventory {
  import opened Wrappers
  import opened Text
  import opened Seqs
  import opened Metadata

  /** The extension allow-list, in the order the source lists it. */
  const ImageExtensions: seq<string> := [".JPG", ".jpg", ".jpeg", ".png", ".gif", ".bmp", ".tiff", ".webp"]

  /** The allow-list without its upper-case entry. */
  const LowerCaseExtensions: seq<string> := [".jpg", ".jpeg", ".png", ".gif", ".bmp", ".tiff", ".webp"]

  /** A file is an image when its lower-cased name ends with an allowed
      extension. */
  predicate IsImage(name: string)
    ensures IsImage(name) <==> exists ext :: ext in ImageExtensions && EndsWith(Lower(name), ext)
  {
    EndsWithAnyExists(Lower(name), ImageExtensions);
    EndsWithAny(Lower(name), ImageExtensions)
  }

  predicate EndsWithAny(s: string, suffixes: seq<string>) {
    if |suffixes| == 0 then false
    else EndsWith(s, suffixes[0]) || EndsWithAny(s, suffixes[1..])
  }

  lemma {:induction false} EndsWithAnyExists(s: string, suffixes: seq<string>)
    ensures EndsWithAny(s, suffixes) <==> exists ext :: ext in suffixes && EndsWith(s, ext)
  {
    if |suffixes| > 0 {
      EndsWithAnyExists(s, suffixes[1..]);
      assert forall ext :: ext in suffixes <==> ext == suffixes[0] || ext in suffixes[1..];
    }
  }

  predicate IsOther(name: string) {
    !IsImage(name)
  }

  /** The upper-case `.JPG` entry can never match a lower-cased name, so the
      allow-list acts as its seven lower-case entries, and case is ignored. */
  lemma IsImageIgnoresCase(name: string)
    ensures IsImage(name) <==> exists ext :: ext in LowerCaseExtensions && EndsWith(Lower(name), ext)
    ensures IsImage(name) <==> IsImage(Lower(name))
  {
    var low := Lower(name);
    assert !EndsWith(low, ".JPG") by {
      if 4 <= |low| {
        assert low[|low| - 4..][3] == low[|low| - 1];
        assert !IsUpper(low[|low| - 1]);
      }
    }
    EndsWithAnyExists(low, ImageExtensions);
    EndsWithAnyExists(low, LowerCaseExtensions);
    assert forall ext :: ext in ImageExtensions <==> ext == ".JPG" || ext in LowerCaseExtensions;
    LowerIdempotent(name);
  }

  lemma LowerExamples()
    ensures Lower("a.JPG") == "a.jpg" && Lower("a.txt") == "a.txt"
  {
    assert Lower("G") == ['g'];
    assert Lower("PG") == ['p'] + Lower("G");
    assert Lower("JPG") == ['j'] + Lower("PG");
    assert Lower(".JPG") == ['.'] + Lower("JPG");
    assert Lower("t") == ['t'];
    assert Lower("xt") == ['x'] + Lower("t");
    assert Lower("txt") == ['t'] + Lower("xt");
    assert Lower(".txt") == ['.'] + Lower("txt");
  }

  /** An upper-case `.JPG` file is an image ... */
  lemma UpperCaseJpgIsImage()
    ensures IsImage("a.JPG")
  {
    LowerExamples();
    EndsWithAnyExists("a.jpg", ImageExtensions);
    assert ".jpg" in ImageExtensions && EndsWith("a.jpg", ".jpg");
  }

  /** ... and a `.txt` file is not. */
  lemma TextFileIsOther()
    ensures IsOther("a.txt")
  {
    LowerExamples();
    EndsWithAnyExists("a.txt", ImageExtensions);
    assert forall ext :: ext in ImageExtensions ==> !EndsWith("a.txt", ext);
  }

  lemma LowerCaseJpgIsImage()
    ensures IsImage("a.jpg")
  {
    UpperCaseJpgIsImage();
    IsImageIgnoresCase("a.JPG");
    LowerExamples();
  }

  /** Filtering a two-name listing keeps each name the test accepts, in order. */
  lemma FilterPair(x: string, y: string, keep: string -> bool)
    ensures Filter([x, y], keep) == (if keep(x) then [x] else []) + (if keep(y) then [y] else [])
  {
    assert [x, y][1..] == [y];
    assert [y][1..] == [];
  }

  /** A listing with one image and one other file. */
  lemma ClassifyPair(image: string, other: string)
    requires IsImage(image) && IsOther(other)
    ensures Classify([image, other]) == DirEntry(1, [ImageEntry(image, None)], 1, [other])
  {
    FilterPair(image, other, IsImage);
    FilterPair(image, other, IsOther);
    assert Filter([image, other], IsImage) == [image];
    assert Filter([image, other], IsOther) == [other];
    assert Distinct([image]) && Distinct([other]);
    assert Dedup([image]) == [image] && Dedup([other]) == [other];
    assert Placeholders([image]) == [ImageEntry(image, None)] by {
      assert [image][1..] == [];
    }
  }

  lemma ClassifyExample()
    ensures Classify(["a.jpg", "a.txt"]) == DirEntry(1, [ImageEntry("a.jpg", None)], 1, ["a.txt"])
  {
    LowerCaseJpgIsImage();
    TextFileIsOther();
    ClassifyPair("a.jpg", "a.txt");
  }

  lemma ClassifyEmpty()
    ensures Classify([]) == DirEntry(0, [], 0, [])
  {
    assert Distinct<string>([]);
  }

  /** The inventory key of a directory: its path relative to the root, with the
      root itself (`.`) renamed `root`. */
  function DirectoryKey(relPath: string): (r: string)
    ensures relPath != "." ==> r == relPath
    ensures r == "root" <==> relPath == "." || relPath == "root"
  {
    if relPath == "." then "root" else relPath
  }

  /** Two directories share a key exactly when they are the same directory, or
      when one is the root and the other a top-level directory named `root`. */
  lemma DirectoryKeyCollision(a: string, b: string)
    ensures DirectoryKey(a) == DirectoryKey(b) <==> a == b || (a == "." && b == "root") || (a == "root" && b == ".")
    ensures DirectoryKey(".") == "root"
  {
  }

  /** One image of a directory with its metadata slot, `None` until the
      metadata has been merged in. */
  datatype ImageEntry = ImageEntry(name: string, info: Option<ImageMeta>)

  /** What the inventory records for one directory. `files` stands for the
      other files; the source builds that list from a set, so only its
      elements are meaningful and this model keeps them in listing order. */
  datatype DirEntry = DirEntry(imagesCount: nat, images: seq<ImageEntry>, otherFilesCount: nat, files: seq<string>)

  function ImageNames(images: seq<ImageEntry>): (r: seq<string>)
    ensures |r| == |images|
    ensures forall i :: 0 <= i < |images| ==> r[i] == images[i].name
  {
    if |images| == 0 then [] else [images[0].name] + ImageNames(images[1..])
  }

  /** The image dictionary before metadata extraction: each name with the
      `None` placeholder. */
  function Placeholders(names: seq<string>): (r: seq<ImageEntry>)
    ensures ImageNames(r) == names
    ensures forall i :: 0 <= i < |r| ==> r[i].info == None
  {
    if |names| == 0 then [] else [ImageEntry(names[0], None)] + Placeholders(names[1..])
  }

  /** Splits one directory listing into images and other files. */
  function Classify(files: seq<string>): (r: DirEntry)
    ensures forall f :: f in ImageNames(r.images) <==> f in files && IsImage(f)
    ensures forall f :: f in r.files <==> f in files && IsOther(f)
    ensures Distinct(ImageNames(r.images)) && Distinct(r.files)
    ensures forall i :: 0 <= i < |r.images| ==> r.images[i].info == None
    ensures |r.images| <= r.imagesCount == |Filter(files, IsImage)|
    ensures r.otherFilesCount == |r.files|
    ensures Distinct(files) ==> r.imagesCount == |r.images| && r.imagesCount + r.otherFilesCount == |files|
    ensures Distinct(files) ==> ImageNames(r.images) == Filter(files, IsImage)
  {
    var imageFiles := Filter(files, IsImage);
    var names := Dedup(imageFiles);
    var others := Dedup(Filter(files, IsOther));
    CardinalityOfSubset(names, imageFiles);
    FilterComplement(files, IsImage, IsOther);
    DirEntry(|imageFiles|, Placeholders(names), |others|, others)
  }

  /** The other files are the listing minus the images, as sets, and the two
      groups share no name. */
  lemma ClassifyPartition(files: seq<string>)
    ensures var r := Classify(files);
            && ToSet(r.files) == ToSet(files) - ToSet(ImageNames(r.images))
            && ToSet(r.files) !! ToSet(ImageNames(r.images))
            && ToSet(r.files) + ToSet(ImageNames(r.images)) == ToSet(files)
  {
  }

  /** A duplicate-free sequence is no longer than any sequence holding all of
      its elements. */
  lemma CardinalityOfSubset(s: seq<string>, t: seq<string>)
    requires Distinct(s) && forall x :: x in s ==> x in t
    ensures |s| <= |t|
  {
    DistinctCardinality(s);
    var small, big := ToSet(s), ToSet(t);
    assert big == small + (big - small);
    assert small * (big - small) == {};
    assert |big| == |small| + |big - small|;
    CardinalityOfSeqSet(t);
  }

  lemma {:induction false} CardinalityOfSeqSet(t: seq<string>)
    ensures |ToSet(t)| <= |t|
  {
    if |t| > 0 {
      CardinalityOfSeqSet(t[..|t| - 1]);
      assert ToSet(t) == ToSet(t[..|t| - 1]) + {t[|t| - 1]};
    }
  }

  /** The inventory: directories in the order they were first seen, each
      under its key, as the source's dictionary keeps them. */
  datatype Dir = Dir(key: string, entry: DirEntry)

  type Inventory = seq<Dir>

  function Keys(inv: Inventory): (r: seq<string>)
    ensures |r| == |inv|
    ensures forall i :: 0 <= i < |inv| ==> r[i] == inv[i].key
  {
    if |inv| == 0 then [] else [inv[0].key] + Keys(inv[1..])
  }

  /** The entry stored under `key`, if any. */
  function Lookup(inv: Inventory, key: string): (r: Option<DirEntry>)
    ensures r.Some? <==> key in Keys(inv)
    ensures r.Some? ==> Dir(key, r.value) in inv
  {
    if |inv| == 0 then None
    else if inv[0].key == key then Some(inv[0].entry)
    else
      var r := Lookup(inv[1..], key);
      assert Keys(inv) == [inv[0].key] + Keys(inv[1..]);
      r
  }

  /** Dictionary assignment: an existing key keeps its position and gets the
      new entry; a new key is appended (see `PutKeys`). */
  function Put(inv: Inventory, key: string, e: DirEntry): (r: Inventory)
    ensures Lookup(r, key) == Some(e)
    ensures forall k :: k != key ==> Lookup(r, k) == Lookup(inv, k)
    ensures forall j :: 0 <= j < |r| ==> r[j] == Dir(key, e) || r[j] in inv
  {
    if |inv| == 0 then [Dir(key, e)]
    else if inv[0].key == key then
      var r := [Dir(key, e)] + inv[1..];
      assert r[0] == Dir(key, e) && r[1..] == inv[1..];
      r
    else
      var rest := Put(inv[1..], key, e);
      var r := [inv[0]] + rest;
      assert r[0] == inv[0] && r[1..] == rest;
      r
  }

  /** The keys after an assignment: unchanged in order for an existing key,
      the new key last otherwise. */
  lemma {:induction false} PutKeys(inv: Inventory, key: string, e: DirEntry)
    ensures key in Keys(inv) ==> Keys(Put(inv, key, e)) == Keys(inv)
    ensures key !in Keys(inv) ==> Keys(Put(inv, key, e)) == Keys(inv) + [key]
  {
    if |inv| > 0 {
      assert Keys(inv) == [inv[0].key] + Keys(inv[1..]);
      if inv[0].key == key {
        assert Keys(Put(inv, key, e)) == [key] + Keys(inv[1..]);
      } else {
        PutKeys(inv[1..], key, e);
        var rest := Put(inv[1..], key, e);
        assert Keys(Put(inv, key, e)) == [inv[0].key] + Keys(rest);
      }
    }
  }

  /** Assignment keeps the keys duplicate-free. */
  lemma PutKeepsKeysDistinct(inv: Inventory, key: string, e: DirEntry)
    requires Distinct(Keys(inv))
    ensures Distinct(Keys(Put(inv, key, e)))
  {
    PutKeys(inv, key, e);
    if key !in Keys(inv) {
      DistinctAppend(Keys(inv), key);
    }
  }

  /** One step of the directory walk: a directory's path relative to the root
      and the names of the files directly inside it. */
  datatype WalkEntry = WalkEntry(relPath: string, files: seq<string>)

  /** No later step of the walk has the same key as step `i`. */
  predicate IsLastWithKey(walk: seq<WalkEntry>, i: int)
    requires 0 <= i < |walk|
  {
    forall j :: i < j < |walk| ==> DirectoryKey(walk[j].relPath) != DirectoryKey(walk[i].relPath)
  }

  /** `d` records some directory of the walk. */
  predicate FromWalk(walk: seq<WalkEntry>, d: Dir) {
    exists i :: 0 <= i < |walk| && d == Dir(DirectoryKey(walk[i].relPath), Classify(walk[i].files))
  }

  /** The inventory of a walk: one entry per distinct key; a later directory
      with the same key replaces an earlier one's entry (see
      `BuildInventoryKeys` and `BuildInventoryLastWins`). */
  function BuildInventory(walk: seq<WalkEntry>): (r: Inventory)
    ensures Distinct(Keys(r))
  {
    if |walk| == 0 then []
    else
      var init := walk[..|walk| - 1];
      var last := walk[|walk| - 1];
      var prefix := BuildInventory(init);
      PutKeepsKeysDistinct(prefix, DirectoryKey(last.relPath), Classify(last.files));
      Put(prefix, DirectoryKey(last.relPath), Classify(last.files))
  }

  /** A directory recorded by a prefix of the walk is recorded by the walk. */
  lemma FromWalkExtends(walk: seq<WalkEntry>, n: nat, d: Dir)
    requires n <= |walk| && FromWalk(walk[..n], d)
    ensures FromWalk(walk, d)
  {
    var i :| 0 <= i < n && d == Dir(DirectoryKey(walk[..n][i].relPath), Classify(walk[..n][i].files));
    assert walk[..n][i] == walk[i];
  }

  /** Every entry of the inventory records some directory of the walk. */
  lemma {:induction false} BuildInventoryFromWalk(walk: seq<WalkEntry>)
    ensures forall j :: 0 <= j < |BuildInventory(walk)| ==> FromWalk(walk, BuildInventory(walk)[j])
  {
    if |walk| > 0 {
      var init := walk[..|walk| - 1];
      var last := walk[|walk| - 1];
      var prefix := BuildInventory(init);
      var d := Dir(DirectoryKey(last.relPath), Classify(last.files));
      var r := BuildInventory(walk);
      assert r == Put(prefix, d.key, d.entry);
      BuildInventoryFromWalk(init);
      assert FromWalk(walk, d);
      forall j | 0 <= j < |r|
        ensures FromWalk(walk, r[j])
      {
        if r[j] != d {
          assert r[j] in prefix;
          var k :| 0 <= k < |prefix| && r[j] == prefix[k];
          FromWalkExtends(walk, |walk| - 1, prefix[k]);
        }
      }
    }
  }


  /** The inventory has exactly one key per directory key of the walk. */
  lemma {:induction false} BuildInventoryKeys(walk: seq<WalkEntry>)
    ensures ToSet(Keys(BuildInventory(walk))) == WalkKeys(walk)
  {
    if |walk| > 0 {
      var init := walk[..|walk| - 1];
      var last := walk[|walk| - 1];
      var key := DirectoryKey(last.relPath);
      BuildInventoryKeys(init);
      KeysAfterPut(BuildInventory(init), key, Classify(last.files));
      WalkKeysSnoc(walk);
    }
  }

  function WalkKeys(walk: seq<WalkEntry>): set<string> {
    set i | 0 <= i < |walk| :: DirectoryKey(walk[i].relPath)
  }

  lemma WalkKeysSnoc(walk: seq<WalkEntry>)
    requires |walk| > 0
    ensures WalkKeys(walk) == WalkKeys(walk[..|walk| - 1]) + {DirectoryKey(walk[|walk| - 1].relPath)}
  {
    var init := walk[..|walk| - 1];
    assert forall i :: 0 <= i < |init| ==> init[i] == walk[i];
  }

  /** Assignment adds its key to the set of keys. */
  lemma KeysAfterPut(inv: Inventory, key: string, e: DirEntry)
    ensures ToSet(Keys(Put(inv, key, e))) == ToSet(Keys(inv)) + {key}
  {
    PutKeys(inv, key, e);
    if key !in Keys(inv) {
      ToSetAppend(Keys(inv), key);
    }
  }

  /** Each directory key maps to the listing of the last directory of the walk
      with that key. */
  lemma {:induction false} BuildInventoryLastWins(walk: seq<WalkEntry>, i: int)
    requires 0 <= i < |walk| && IsLastWithKey(walk, i)
    ensures Lookup(BuildInventory(walk), DirectoryKey(walk[i].relPath)) == Some(Classify(walk[i].files))
  {
    var init := walk[..|walk| - 1];
    var last := walk[|walk| - 1];
    if i < |walk| - 1 {
      assert init[i] == walk[i];
      assert IsLastWithKey(init, i) by {
        assert forall j :: i < j < |init| ==> init[j] == walk[j];
      }
      BuildInventoryLastWins(init, i);
    }
  }
}
