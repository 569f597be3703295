# Photo metadata report, modelled in Dafny

This project models the report builder in `src/utils.py` of the photo
GPS-locations tool. The tool walks a photo folder tree and classifies every
file of every directory as an image or another file. It reads each image's GPS
position and capture date from its EXIF tags. It then writes one report row
per image, with derived columns: the image path, the date in the folder name,
the root path rewritten to the NAS mount prefix `volume1/photo`, and a visit
code of the shape `L123R045`.

The model is purely functional. The walk is an input sequence of
`WalkEntry(relative path, file names)`. An image's tags arrive as an `Exif`
record. File reading is a `Reader` function parameter. Python errors become
the `Failure` case of a `Result`. The modules follow the source's functions:

- `Inventory` models `count_files_and_list_all_contents`. The inventory is an
  association list with Python dict semantics: re-assigning a key keeps its
  place.
- `Gps` models `convert_to_degrees` and `get_gps_location`.
- `CaptureDate` models `get_image_date`.
- `Metadata` models `extract_image_metadata`.
- `Patterns` models the two `str.extract` patterns and `combine_first`.
- `Report` models `create_image_metadata_report`: the merge loop, the
  flattening loop and the derived columns.
- `Text`, `Seqs` and `Paths` hold the string, sequence and `os.path.join`
  helpers those modules use.

Coordinates are Dafny `real`s. Text is `seq<char>`.

## Model

| member | source | states |
|---|---|---|
| Seqs.Filter | src/utils.py:13-14 | the list comprehension keeps exactly the listed names the test accepts, is never longer than the listing, and keeps a duplicate-free listing duplicate-free |
| Seqs.FilterSnoc | src/utils.py:13-14 | the comprehension over a listing with one more name is the comprehension over the listing, followed by that name exactly when it is accepted: the order and the number of copies follow the listing |
| Seqs.FilterComplement | src/utils.py:13-22 | every file is counted once, either among the images or among the other files |
| Seqs.Dedup | src/utils.py:21-22 | the dict keys and `set(...)` contain each name once and exactly the names listed; a duplicate-free listing is unchanged |
| Inventory.IsImage | src/utils.py:9-14 | a file is an image iff its lower-cased name ends with some entry of the eight-entry extension list |
| Inventory.EndsWithAnyExists | src/utils.py:13-14 | `any(... endswith(ext) for ext in ...)` holds iff some listed extension is a suffix |
| Inventory.IsImageIgnoresCase | src/utils.py:9-14 | the upper-case `.JPG` entry can never match a lower-cased name, so a file is an image iff its lower-cased name ends with one of the seven lower-case extensions; the test does not depend on letter case |
| Inventory.UpperCaseJpgIsImage | src/utils.py:9-14 | `a.JPG` is classified as an image |
| Inventory.LowerCaseJpgIsImage | src/utils.py:9-14 | `a.jpg` is classified as an image |
| Inventory.TextFileIsOther | src/utils.py:9-14 | `a.txt` is not an image |
| Inventory.DirectoryKey | src/utils.py:16-19 | every directory other than the root is keyed by its relative path; the key is `root` exactly for the root and for a top-level folder named `root` |
| Inventory.DirectoryKeyCollision | src/utils.py:16-19 | two directories share a key iff they have the same relative path, or one is the root and the other a top-level folder literally named `root`; the root's key is `root` |
| Inventory.Placeholders | src/utils.py:21 | the image dictionary holds every image name, in order, each with the `None` placeholder |
| Inventory.Classify | src/utils.py:13-22 | the image names are exactly the listed images and the other files exactly the listed non-images, each group duplicate-free; all metadata slots are empty; `images_count` counts the image list; `other_files_count` is the size of the other-file set; for a duplicate-free listing the two counts are the group sizes and sum to the listing size, and the image dictionary lists the images in listing order |
| Inventory.ClassifyPartition | src/utils.py:22 | as sets, the other files are the listing minus the images; the two groups are disjoint and together cover the listing |
| Inventory.FilterPair | src/utils.py:13-14 | the comprehension over a two-name listing keeps each accepted name, in listing order |
| Inventory.ClassifyPair | src/utils.py:13-22 | a listing of one image and one other file gives counts 1 and 1, the image with a placeholder, and the other file |
| Inventory.ClassifyExample | src/utils.py:13-22 | `["a.jpg", "a.txt"]` is split into the image `a.jpg` and the other file `a.txt` |
| Inventory.ClassifyEmpty | src/utils.py:13-22 | an empty directory gives zero counts and empty collections, not an error |
| Inventory.Lookup | src/utils.py:21 | a key is found iff it is one of the inventory's keys, and what is found is stored under that key |
| Inventory.Put | src/utils.py:21 | after `result[key] = entry`, the key maps to the entry, every other key maps to what it mapped to before, and nothing but the new entry and old entries is stored |
| Inventory.PutKeys | src/utils.py:21 | assigning an existing key keeps the key order; a new key is appended last |
| Inventory.PutKeepsKeysDistinct | src/utils.py:21 | assignment never duplicates a key |
| Inventory.KeysAfterPut | src/utils.py:21 | assignment adds exactly its key to the set of keys |
| Inventory.BuildInventory | src/utils.py:11-23 | the inventory holds each key once |
| Inventory.BuildInventoryFromWalk | src/utils.py:12-22 | every inventory entry is the key and classified listing of some directory of the walk |
| Inventory.BuildInventoryKeys | src/utils.py:12-21 | the inventory's keys are exactly the keys of the walked directories |
| Inventory.BuildInventoryLastWins | src/utils.py:12-21 | each key maps to the classified listing of the last walked directory with that key |
| Gps.ToDegrees | src/utils.py:46-49 | the decimal value counts the same number of arc-seconds as the degree/minute/second triple |
| Gps.ToDegreesWithinDegree | src/utils.py:46-49 | with whole minutes and seconds below 60, the value lies in the whole degree the triple names |
| Gps.Signed | src/utils.py:65-69 | the magnitude is kept iff the reference is exactly the positive hemisphere letter, and negated otherwise |
| Gps.GpsLocation | src/utils.py:52-71 | no position iff one of the four GPS sub-tags is missing or falsy, which covers an empty GPS block; a failure iff all four are truthy but a coordinate is not a triple; otherwise each coordinate is its decimal degrees, negated iff its reference is not exactly `N` or `E` |
| Gps.EmptyGpsInfoHasNoPosition | src/utils.py:55-57 | an empty or missing GPS block gives no position |
| Gps.SouthernLatitudeExample | src/utils.py:63-70 | 10 degrees 30 minutes south, 5 degrees east is (-10.5, 5.0) |
| Gps.ZeroPositionIsReported | src/utils.py:63-70 | a zero triple is a truthy tuple, so a position at (0, 0) is reported and not dropped |
| Gps.HemisphereMirror | src/utils.py:63-69 | switching the latitude reference from `N` to `S` negates the latitude and keeps the longitude |
| CaptureDate.DaysInMonth | src/utils.py:80-81 | April, June, September and November have 30 days; the other months except February have 31; February has 29 exactly in a Gregorian leap year and 28 otherwise |
| CaptureDate.Pad2OfNum2 | src/utils.py:80-81 | two digits read as a number and written back zero-padded give the same text |
| CaptureDate.Pad4OfNum4 | src/utils.py:80-81 | the same for the four-digit year |
| CaptureDate.ParseDateTime | src/utils.py:80-81 | the model of `strptime` with `%Y:%m:%d %H:%M:%S` accepts only the fixed-width 19-character form `DDDD:DD:DD DD:DD:DD`, and only when it names a date and time that exist |
| CaptureDate.Format | src/utils.py:80-81 | a valid timestamp renders in the shape `DDDD:DD:DD DD:DD:DD` |
| CaptureDate.FormatOfParse | src/utils.py:80-81 | whatever parses is a valid timestamp that renders back to exactly the parsed text, so nothing else is accepted (no trailing characters) |
| CaptureDate.ParseOfFormat | src/utils.py:80-81 | every valid timestamp, rendered, parses back to itself |
| CaptureDate.ImageDate | src/utils.py:74-84 | a missing or empty tag gives no date; a date is given only for a tag that is the rendering of a valid timestamp, and it is that timestamp's date |
| CaptureDate.ImageDateOfFormat | src/utils.py:74-84 | conversely, every valid timestamp's rendering gives exactly its date |
| CaptureDate.FormatExample | src/utils.py:80-81 | 2023-07-15 14:22:10 renders as `2023:07:15 14:22:10` |
| CaptureDate.ImageDateExample | src/utils.py:80-82 | the tag `2023:07:15 14:22:10` gives the date 2023-07-15 |
| CaptureDate.ImageDateRejectsMalformed | src/utils.py:80-84 | `not-a-date`, and a timestamp with a trailing space, give no date rather than an error |
| CaptureDate.FormatLeapDay | src/utils.py:80-81 | 2024-02-29 23:59:59 renders as `2024:02:29 23:59:59` |
| CaptureDate.ImageDateLeapDay | src/utils.py:80-82 | February 29th of the leap year 2024 is accepted |
| CaptureDate.NoLeapDayInCommonYear | src/utils.py:80-84 | February 29th of any common year does not parse |
| CaptureDate.ImageDateNoLeapDay | src/utils.py:80-84 | the tag `2023:02:29 00:00:00` gives no date |
| Metadata.ExtractMetadata | src/utils.py:87-90 | extraction fails iff GPS decoding fails; otherwise the position is what GPS decoding gives and the date what date decoding gives, so a position implies all four GPS sub-tags and a date comes from a valid timestamp tag |
| Metadata.NoTagsNoMetadata | src/utils.py:87-90 | an image without tags has neither position nor date |
| Paths.Join | src/utils.py:102 | an absolute second part replaces the first; otherwise the second part is appended directly when the first is empty or ends in `/`, and after exactly one `/` when it does not |
| Report.MetadataPathAsWritten | src/utils.py:102 | the path as written agrees with the corrected rule for every key but the root's |
| Report.MetadataPathFindsImage | src/utils.py:102 | the corrected path rule opens the very file the walk listed, for every directory except a top-level one named `root` |
| Report.JoinExamples | src/utils.py:102 | `/data` joined with `root` and `a.jpg` gives `/data/root/a.jpg`; `/data` joined with `a.jpg` gives `/data/a.jpg` |
| Report.AsWrittenRootPathMisses | src/utils.py:102 | for an image in the root, the path as written is `/data/root/a.jpg` while the file is `/data/a.jpg` |
| Report.Stamp | src/utils.py:104-105 | the rebuilt image dictionary has the same names, in order, each with the given metadata |
| Report.StampNames | src/utils.py:104-105 | rebuilding the dictionary keeps its names |
| Report.StampTwice | src/utils.py:104-105 | a later rebuild overwrites an earlier one completely |
| Report.MergeImages | src/utils.py:100-105 | the inner loop keeps counts, other files and image names; fails iff `images_count` is non-zero and some extraction fails; leaves the entry alone when there is nothing to do; otherwise every image carries the last image's metadata |
| Report.MergeDir | src/utils.py:99-105 | merging a directory keeps its key |
| Report.MergeDirSpec | src/utils.py:99-105 | merging a directory keeps key, counts, names and other files; leaves a directory without images or with a zero count unchanged; fails iff some image's extraction fails; otherwise gives every image the last image's metadata |
| Report.Merge | src/utils.py:98-105 | the outer loop keeps the number of directories |
| Report.MergeAt | src/utils.py:98-105 | directory `j` of a successful merge is directory `j` of the inventory, merged |
| Report.MergeFailure | src/utils.py:98-105 | the merge fails iff the merge of some directory fails |
| Report.MergeKeepsShape | src/utils.py:98-105 | the merge keeps every key, every image count and every `images_count`, so the totals are unchanged |
| Report.MergeCompletes | src/utils.py:98-105 | after a successful merge of an inventory whose counts cover its images, no image is left with the placeholder |
| Report.FlattenImages | src/utils.py:110-117 | one row per image of a directory, in dictionary order, each with the directory's key, the image's name and metadata and the directory's other files; it fails iff an image still has the placeholder |
| Report.PrefixTotal | src/utils.py:108-117 | the rows of a directory start after those of the directories before it and end within the table |
| Report.Flatten | src/utils.py:108-117 | flattening succeeds iff every image has metadata, and then gives exactly one row per image of the inventory |
| Report.FlattenPositions | src/utils.py:108-117 | image `i` of directory `j` is the row right after the rows of the earlier directories and earlier images, and it carries that directory's key and other files and that image's name and metadata |
| Report.BuildInventoryWellFormed | src/utils.py:13-21 | every `images_count` covers its image dictionary |
| Report.BuildInventoryCounted | src/utils.py:13-21 | with duplicate-free listings, every `images_count` is exactly the size of its image dictionary |
| Report.TotalsAgree | src/utils.py:21 | when every `images_count` is its dictionary's size, the sum of `images_count` is the number of images |
| Report.SameShapeTotals | src/utils.py:108-117 | inventories with the same keys and counts have the same totals |
| Report.ImagePath | src/utils.py:121-122 | the image path starts with parent folder and subfolder, ends with `/` and the image name, and is exactly as long as those parts plus one |
| Report.ImagePathHasNoSeparator | src/utils.py:121-122 | `/data`, `2022-01-01` and `a.jpg` give `/data2022-01-01/a.jpg`: no separator after the parent folder |
| Text.ReplaceAll | src/utils.py:125 | replacing every occurrence of an equally long text keeps the length; text shorter than the pattern is unchanged; with an empty pattern the result is longer by one copy of the replacement per character plus one |
| Text.ReplaceAllStep | src/utils.py:125 | where no occurrence starts, the character is copied and the scan moves on by one |
| Text.ReplaceAllSkip | src/utils.py:125 | a stretch at the front where no occurrence starts is copied unchanged |
| Text.ReplaceAllFirst | src/utils.py:125 | the leftmost occurrence, wherever it starts, is replaced, the text before it is copied, and the scan resumes right after it, so every occurrence the left-to-right scan reaches is replaced |
| Text.ReplaceAllAbsent | src/utils.py:125 | the substitution leaves text without the root path unchanged |
| Text.ReplaceAllSelf | src/utils.py:125 | replacing a text by itself changes nothing |
| Text.ReplaceAllLeading | src/utils.py:125 | text that starts with the root path gets the replacement in front |
| Text.ReplaceAllWhole | src/utils.py:125 | the root path alone becomes exactly the replacement |
| Report.SubstitutedParent | src/utils.py:120-125 | after the substitution the `parent_folder` column is the mount prefix |
| Report.SubstitutedImagePath | src/utils.py:121-125 | after the substitution the image path is the mount prefix followed by the substituted subfolder, `/` and name |
| Report.SubstituteAbsent | src/utils.py:125 | a cell without the first character of the root path is left alone |
| Patterns.MatchFrom | src/utils.py:123 | the scan returns the first index at or after the start where the pattern matches, and none when there is none |
| Patterns.Extract | src/utils.py:123 | extraction gives nothing iff the pattern matches nowhere, and otherwise the leftmost match |
| Patterns.ExtractMatches | src/utils.py:123 | what is extracted fits the pattern entirely |
| Patterns.ExtractWhole | src/utils.py:123 | a text that fits the pattern is its own extraction |
| Patterns.ExtractIdempotent | src/utils.py:123 | extracting again from an extracted value returns it unchanged |
| Patterns.FolderDate | src/utils.py:123 | the folder date is missing iff the subfolder has no substring of four digits, `-`, two digits, `-`, two digits; otherwise it is the leftmost such substring |
| Patterns.FolderDateOfDateName | src/utils.py:123 | a name that is exactly four digits, `-`, two digits, `-`, two digits is its own folder date |
| Patterns.FolderDateNotValidated | src/utils.py:123 | `9999-99-99` is taken as a folder date: there is no calendar check |
| Patterns.VisitCode | src/utils.py:130-132 | the visit code is missing iff the text has no substring `L`, three digits, `R`, three digits; otherwise it is the leftmost such substring |
| Patterns.FirstVisitCode | src/utils.py:133-134 | the other files' code is missing iff no other file has one, and otherwise it is the code of the first file that has one |
| Patterns.FolderNameExample | src/utils.py:123-132 | `2023-07-15_L123R045_visit` has folder date `2023-07-15` and visit code `L123R045` |
| Patterns.CombineFirst | src/utils.py:135-136 | `combine_first` keeps a present value and otherwise takes the other one |
| Patterns.Prioritised | src/utils.py:135-136 | the combined code is missing iff all three sources are; otherwise it is the first present one in the order subfolder, image name, other files |
| Patterns.CombineFirstAssociative | src/utils.py:135-136 | chained `combine_first` does not depend on grouping |
| Report.NoVisitCodeWithoutL | src/utils.py:130-132 | a text without `L` carries no visit code |
| Report.DeriveRow | src/utils.py:120-136 | the subfolder and image name are the input's with the root path substituted; the parent folder becomes the mount prefix; the image path is the mount prefix before the substituted subfolder, `/` and name; metadata and other files pass through; the folder date is the leftmost date in the original subfolder, substituted, and missing iff there is none; the three visit codes are read from the substituted subfolder, the substituted name and the other files; the combined code follows their priority |
| Report.DeriveRows | src/utils.py:120-136 | one derived row per flattened row, in order |
| Report.DeriveRowPlain | src/utils.py:120-136 | a row whose texts the substitution leaves alone and which has no visit code gets the mount-prefixed path, its folder date and no code |
| Report.DeriveRowExample | src/utils.py:120-136 | image `a.jpg` in folder `2022-01-01` under `/data` gets path `volume1/photo2022-01-01/a.jpg`, folder date `2022-01-01` and no visit code |
| Report.Report | src/utils.py:95-136 | the corrected report succeeds iff the merge succeeds, and then has one row per image, each with the mount prefix as parent folder |
| Report.ReportRowCount | src/utils.py:108-117 | with duplicate-free listings the number of rows is the sum of `images_count` |
| Report.ReportAsWritten | src/utils.py:95-136 | the report as written never completes: after a successful merge it fails on the missing `subfolder` column when there is no image and on the misspelled `viscxode_subfolder` column otherwise |
| Report.BuildInventoryPair | src/utils.py:12-22 | two directories with different keys give two entries in walk order |
| Report.ExampleInventory | src/utils.py:12-22 | a root without files and a folder `2022-01-01` with `a.jpg` and `a.txt` give a root entry with zero counts and one entry with one image and one other file |
| Report.MergeSecondOnly | src/utils.py:98-105 | when only the second of two directories has an image, its one extraction fills its slot and the first directory is left alone |
| Report.FlattenSecondOnly | src/utils.py:108-117 | one image in the second of two directories gives exactly one row |
| Report.ReportExample | src/utils.py:93-136 | the example tree, with images without tags, gives exactly one row: `2022-01-01`, `a.jpg`, no position, no date, other files `["a.txt"]`, folder date `2022-01-01`, no visit code |
| Report.EmptyTreeReport | src/utils.py:119-122 | a tree without images makes the report as written fail on the missing `subfolder` column; the corrected report is empty |
| Report.ReportAsWrittenExample | src/utils.py:135 | on the example tree the report as written fails on the misspelled `viscxode_subfolder` column |

## Left out

- The directory walk (`os.walk`, `os.path.relpath`) is an input sequence of relative paths and listings. Walk order and symbolic links are not modelled.
- Opening images and decoding EXIF tag numbers into names (lines 26-43) are left out, because they are calls into PIL. An image's tags are an `Exif` record, and reading is a `Reader` parameter. A file that cannot be opened is not modelled.
- The source reads each image's EXIF data twice, once for the position and once for the date. The model reads it once, since the reader is a pure function.
- Floating-point rounding in `convert_to_degrees` is left out: coordinates are exact reals.
- Gps.GpsLocation: values of other shapes are not modelled. A coordinate is a degree/minute/second triple or a text, and a reference is compared as text.
- CaptureDate.ParseDateTime: only the fixed-width 19-character form is parsed. CPython's `strptime` also lets `%m`, `%H`, `%M` and `%S` take one digit, lets `%d` take one digit or a space and a digit, and matches the format's space against any run of whitespace; so `2023:7:5 1:2:3` gives a date in the source and none in the model.
- CaptureDate.ImageDate: only the fixed-width form `DDDD:DD:DD DD:DD:DD` is accepted. `strptime` also accepts one-digit fields and other leniencies, which are not modelled. A non-text tag value is not modelled either.
- Inventory.IsImage: lower-casing is ASCII only, and `\d` in the patterns is ASCII digits only. Python's Unicode case mapping and Unicode digits are not modelled.
- Inventory.Classify: the other files come from `list(set(...))`, whose order Python does not define. The model keeps them in listing order, without repeats. Contracts speak of their set, and only the other-files visit code depends on the order.
- Patterns.FirstVisitCode: at lines 133-134 pandas' `str.extract` is applied to the `other_files_in_subfolder` cells, which hold lists, not text; it yields a missing value for every such cell, so the source never finds a code among the other files. The model searches the other files name by name and takes the first code, which is what the column is evidently meant to hold; it does not model the missing value the source produces.
- Report.DeriveRow: the substitution at line 125 is `regex=True`, so the root path is read as a regular expression. The model replaces it literally, occurrence by occurrence from the left. A root path with regex metacharacters can match more in the source (`.`), or less (`(`, `)`, `+`), or make the substitution raise `re.error` (an unbalanced `[` or `(`).
- pandas `DataFrame` mechanics are left out: NaN, column dtypes and the row index. A missing value is `None`.
- Writing the CSV file (line 137) and the hard-coded entry point (lines 140-142) are left out, because they are plain I/O.

## Findings

| source | as written | input that shows it | evidently intended | confidence | as-written member | corrected member |
|---|---|---|---|---|---|---|
| src/utils.py:135 | reads the column `viscxode_subfolder`, which is never created | any tree with at least one image, e.g. folder `2022-01-01` with `a.jpg` | read `viscode_subfolder`, so the combined visit code is computed and the CSV is written | high, not executed | Report.ReportAsWrittenExample | Report.ReportExample |
| src/utils.py:119-122 | a tree without images gives a table with no columns, so reading `subfolder` fails | a tree whose only directory is an empty root | an empty report | medium, not executed | Report.EmptyTreeReport | Report.Report |
| src/utils.py:102 | the root's images are opened at `folder/root/name`, because the root's key `root` is joined into the path | an image `a.jpg` directly in `/data` | open `/data/a.jpg`, the file the walk listed | high, not executed | Report.AsWrittenRootPathMisses | Report.MetadataPathFindsImage |
