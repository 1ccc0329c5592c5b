# FaviconCollection builder, modelled in Dafny

This project models the bookkeeping core of the FaviconCollection `Builder`.
The builder takes one source image and renders a fixed catalog of favicon
variants: Apple touch icons, Windows tiles, Android icons and social-media
images. It can add an ICO composite, packages the produced files into a zip
archive, and deletes the files it produced.

The pixel work is done by libraries outside the repository. The model keeps
the logic the builder itself decides:

- the catalog of fifteen `ImageDefinition` records;
- which sizes a request selects (`sanitizeSizes`);
- the background-colour fallback (`sanitizeBackgroundColor`);
- which renders `build` asks for, and with which parameters;
- the file names it derives;
- how the tracked `outputFiles` list grows;
- how `removeOutputFiles` and `zipOutputFiles` shrink and extend that list.

Effects the builder cannot decide become parameters of the model:

- the colour parser (`cleanHexColor`);
- whether each PNG write succeeded (`pngWritten`);
- the source's dimensions;
- whether the ICO save succeeded (`icoSaved`);
- which files exist when a cleanup pass starts (`present`);
- whether each deletion succeeded (`unlinked`);
- the system temporary directory;
- whether an ICO converter was handed to the constructor.

Modules:

- `ImageDefinitions` (`image_definition.dfy`): the immutable variant record and its four accessors.
- `Catalog` (`catalog.dfy`): the fixed fifteen-entry table the constructor builds.
- `SizeSelection` (`size_selection.dfy`): the resolution of the requested sizes.
- `Filenames` (`filenames.dfy`):
  - the zero-padded size label (`str_pad` of the size to three characters with '0' on the left);
  - the PNG, ICO, intermediate-PNG and zip paths;
  - `basename`.
- `Rendering` (`rendering.dfy`):
  - the colour fallback;
  - the render each catalog entry gets;
  - the renders of a build, in catalog order;
  - the paths a build adds;
  - the ICO step's square size and frames.
- `Lifecycle` (`lifecycle.dfy`):
  - the cleanup pass, as the specification function `Sweep`;
  - the archive entries;
  - PHP truthiness of the optional output path.
- `FaviconBuilder` (`builder.dfy`): the `Builder` class, with the mutable `outputFiles` list as a `seq<string>` field. Its methods are proved against the functions above. Around it are lemmas that relate whole builds to cleanup.
- `Basics` (`basics.dfy`): `Option` and distinctness of a sequence.

Three behaviours of the code are easy to miss and are stated by the model:

- The catalog has fifteen entries (`Catalog.Definitions`).
- An empty size request, the default of `build`, selects no size at all, so
  such a build produces no PNG and at most the ICO
  (`FaviconBuilder.EmptyRequestAddsOnlyIco`).
- `zipOutputFiles` first adds every tracked file to the archive and only then
  runs the cleanup pass (`FaviconBuilder.Builder.ZipOutputFiles`).

File names are formed exactly as the code forms them: the temporary directory
is a plain string prefix, with no separator added. `sys_get_temp_dir` usually
returns a directory without a trailing slash, so the files then land next to
that directory rather than inside it. `Filenames.DirectoryWithoutTrailingSlash`
shows this for "/tmp", and `FaviconBuilder.BuildThenZipSession` shows that
the archive entries then carry the directory's last component, such as
"tmpfavicon-192.png".

## Model

| member | source | states |
|---|---|---|
| ImageDefinitions.ImageDefinition.GetSize | src/ImageDefinition.php:20-23 | returns the size the record was built with; see AccessorsReturnConstructorArguments |
| ImageDefinitions.ImageDefinition.HasTransparentBackground | src/ImageDefinition.php:25-28 | returns the transparency flag the record was built with; see AccessorsReturnConstructorArguments |
| ImageDefinitions.ImageDefinition.HasRoundEdges | src/ImageDefinition.php:30-33 | returns the rounding flag the record was built with; see AccessorsReturnConstructorArguments |
| ImageDefinitions.ImageDefinition.GetOutputFilenamePrefix | src/ImageDefinition.php:35-38 | returns the file-name prefix the record was built with; see AccessorsReturnConstructorArguments |
| ImageDefinitions.AccessorsReturnConstructorArguments | src/ImageDefinition.php:12-38 | each accessor returns exactly the constructor argument it stands for |
| ImageDefinitions.AccessorsDetermineDefinition | src/ImageDefinition.php:20-38 | two records are equal iff all four accessors agree, so records built from equal arguments are indistinguishable |
| Catalog.Sizes | src/Builder.php:172-175 | the catalog sizes in catalog order, the fallback selection of `sanitizeSizes`; DefinitionSizes writes them out |
| Catalog.Definitions | src/Builder.php:21-52 | the catalog has 15 entries and every size is positive |
| Catalog.DefinitionSizes | src/Builder.php:21-52 | the catalog sizes are 57, 70, 76, 100, 114, 120, 128, 144, 150, 152, 167, 180, 192, 200, 310, in that order |
| Catalog.CatalogSizesIncreasing | src/Builder.php:21-52 | catalog sizes strictly increase in catalog order |
| Catalog.CatalogSizesDistinct | src/Builder.php:21-52 | two different catalog positions never carry the same size |
| Catalog.CatalogSizesBelowThousand | src/Builder.php:23-51 | every catalog size lies in 1..999, so it fits the three-character label |
| Catalog.PrefixesAreShared | src/Builder.php:23-51 | each of "apple-touch-icon", "windows" and "favicon" is carried by at least two entries, so a prefix does not identify an entry |
| SizeSelection.KeepKnown | src/Builder.php:177 | the intersection contains a value iff the request has it and it is a known size; it is no longer than the request |
| SizeSelection.KeepKnownCounts | src/Builder.php:177 | the intersection keeps each known value exactly as often as it was requested, and drops unknown values |
| SizeSelection.KeepKnownAppend | src/Builder.php:177 | the intersection preserves request order: intersecting a + b gives the intersection of a followed by that of b |
| SizeSelection.SanitizeSizes | src/Builder.php:161-184 | an empty request selects nothing, and every selected size is a catalog size |
| SizeSelection.SanitizeSizesCases | src/Builder.php:161-184 | the three cases: an empty request gives []; a request naming no catalog size gives all catalog sizes in catalog order; otherwise the request's catalog sizes, in request order, duplicates kept |
| SizeSelection.SelectedSize | src/Builder.php:161-184 | a size is selected iff the request is non-empty, the size is in the catalog, and the request names it or names no catalog size |
| SizeSelection.NonEmptyRequestSelects | src/Builder.php:177-183 | against the catalog, any non-empty request selects at least one size |
| SizeSelection.SanitizeSizesExample | src/Builder.php:161-184 | the request [76, 192, 999] selects [76, 192], and the unknown 999 does not trigger the fallback |
| Rendering.SanitizeBackgroundColor | src/Builder.php:192-200 | the colour is never empty; it is the parser's result when that is non-empty, and "fff" otherwise |
| Rendering.SanitizeBackgroundColorIdempotent | src/Builder.php:192-200 | with an idempotent parser that accepts "fff", sanitizing a sanitized colour leaves it unchanged |
| Rendering.RenderRequestFor | src/Builder.php:80-83 | the render a selected entry gets; its parameters are stated by RenderRequestParameters |
| Rendering.RenderRequestParameters | src/Builder.php:80-83 | an entry's render is a square PNG of the entry's size from the source; it has no background fill iff the entry is transparent, and otherwise the build's colour; rounding and gutter are passed through; it writes to the entry's file name |
| Rendering.RenderPlan | src/Builder.php:76-91 | a build makes at most one render per catalog entry |
| Rendering.RenderPlanMembership | src/Builder.php:76-83 | a render is made iff it is the render of some entry whose size is selected |
| Rendering.RenderedIffSelected | src/Builder.php:78-79 | entry i is rendered iff its size is in the selected sizes |
| Rendering.SelectedDefinitions | src/Builder.php:76-79 | the catalog entries that pass the size test, in catalog order; EverySizeSelectedSelectsAll and SelectedDefinitionsAt fix which they are |
| Rendering.EverySizeSelectedSelectsAll | src/Builder.php:76-79 | when every entry's size is selected, the selected entries are all of them, in order |
| Rendering.SelectedDefinitionsAt | src/Builder.php:76-79 | when the selected entries are exactly those at some increasing positions, the selection is those entries, in position order |
| Rendering.RenderPlanRendersSelected | src/Builder.php:76-91 | the renders are those of the selected entries, one each, in catalog order |
| Rendering.RenderPlanFollowsCatalogOrder | src/Builder.php:76-79 | with increasing catalog sizes, render sizes strictly increase, so no size is rendered twice |
| Rendering.RenderPlanEntrySource | src/Builder.php:76-83 | every render comes from a selected entry of the catalog |
| Rendering.RenderPlanAppend | src/Builder.php:76-91 | rendering two consecutive parts of a catalog renders the first part, then the second |
| Rendering.NothingSelectedRendersNothing | src/Builder.php:79 | with no selected size, there is no render |
| Rendering.UnselectedRendersNothing | src/Builder.php:79 | entries whose sizes are not selected produce no render |
| Rendering.EmptyRequestRendersNothing | src/Builder.php:163-166 | a build with an empty size request renders no PNG |
| Rendering.EverySizeSelectedRendersAll | src/Builder.php:76-83 | when every entry's size is selected, every entry is rendered, in catalog order |
| Rendering.UnknownRequestRendersAll | src/Builder.php:179-181 | a non-empty request naming no catalog size renders the whole catalog, in catalog order |
| Rendering.CatalogRenderPathsDistinct | src/Builder.php:80 | within one build over the catalog, no two renders write the same file |
| Rendering.WrittenPaths | src/Builder.php:85-87 | a build adds at most one path per render |
| Rendering.WrittenPathsMembership | src/Builder.php:85-87 | a path is added iff some render writes to it and that write succeeded |
| Rendering.AllWrittenAddsEveryPath | src/Builder.php:85-87 | when every write succeeds, every render's path is added, in render order |
| Rendering.WrittenPathsDistinct | src/Builder.php:85-87 | distinct render paths give distinct added paths |
| Rendering.SelectedDefinitionsExample | src/Builder.php:76-79 | sizes 76 and 192 select catalog entries 2 and 12, in that order |
| Rendering.TwoRenderPaths | src/Builder.php:76-87 | when exactly two entries are selected, the renders write their two files, in catalog order |
| Rendering.CatalogEntryNames | src/Builder.php:80 | catalog entry 2 is written to tmpPath + "apple-touch-icon-076.png" and entry 12 to tmpPath + "favicon-192.png" |
| Rendering.RenderPlanExample | src/Builder.php:73-80 | the request [76, 192, 999] renders to tmpPath + "apple-touch-icon-076.png" and then tmpPath + "favicon-192.png" |
| Rendering.IcoSquareSize | src/Builder.php:213 | the ICO square is at least as large as both sides of the source, and equal to one of them |
| Filenames.IntToString | src/Builder.php:80 | the decimal form PHP gives a size when `str_pad` receives it; see NatToStringDigits and DecimalValueOfNatToString |
| Filenames.PadLeft | src/Builder.php:80 | `str_pad` with STR_PAD_LEFT and a one-character pad; see PadLeftShape |
| Filenames.SizeLabel | src/Builder.php:80 | the size padded to three characters with '0' on the left; see SizeLabelEncodesSize and SizeLabelInjective |
| Filenames.OutputFilename | src/Builder.php:80 | the directory, the prefix, '-', the size label and ".png", joined with no separator; see OutputFilenameParts and OutputFilenamesDiffer |
| Filenames.NatToStringDigits | src/Builder.php:80 | the decimal form of a size is a non-empty string of digits with no leading zero |
| Filenames.DecimalValueOfNatToString | src/Builder.php:80 | reading back the decimal form of n gives n |
| Filenames.PadLeftShape | src/Builder.php:80 | left padding gives exactly the target width (or the string itself when it is already that long), ends with the string, and has only pad characters in front |
| Filenames.SizeLabelEncodesSize | src/Builder.php:80 | for sizes 0..999 the label is exactly three digits and reads back as the size |
| Filenames.SizeLabelInjective | src/Builder.php:80 | for sizes 0..999, labels are equal iff sizes are equal |
| Filenames.SizeLabelExamples | src/Builder.php:80 | 57, 76, 192 and 310 are labelled "057", "076", "192" and "310" |
| Filenames.OutputFilenameParts | src/Builder.php:80 | a variant's file name starts with the directory, ends with ".png", and carries the size label just before that ending |
| Filenames.OutputFilenamesDiffer | src/Builder.php:80 | variants of different sizes never share a file name, whatever their prefixes |
| Filenames.OutputFilenameExamples | src/Builder.php:80 | the size-57 and size-76 touch icons and the size-192 favicon are named tmpPath + "apple-touch-icon-057.png", "apple-touch-icon-076.png" and "favicon-192.png" |
| Filenames.IcoFilePath | src/Builder.php:219 | the ICO is saved as the directory followed by "favicon.ico"; see IcoPathIsNoVariantPath |
| Filenames.TemporaryPngPath | src/Builder.php:210 | the intermediate PNG is the directory followed by "temp.png"; used by Builder.BuildIcoFile |
| Filenames.ZipFilePath | src/Builder.php:113 | the archive is the directory followed by "faviconCollection.zip"; used by Builder.ZipOutputFiles |
| Filenames.IcoPathIsNoVariantPath | src/Builder.php:219 | the ICO path is never the file name of a PNG variant |
| Filenames.Basename | src/Builder.php:119 | the part of a path after its last '/'; see BasenameShape, BasenameAppend and BasenameAfterSeparator |
| Filenames.BasenameShape | src/Builder.php:119 | the base name contains no '/', ends the path, and is preceded by '/' unless it is the whole path |
| Filenames.BasenameAppend | src/Builder.php:119 | appending a name without '/' to a path extends the path's base name by that name |
| Filenames.BasenameAfterSeparator | src/Builder.php:119 | a name without '/' placed after a directory ending in '/' is its own base name |
| Filenames.DirectoryWithoutTrailingSlash | src/Builder.php:219 | the base name of "/tmp" is "tmp"; with the directory "/tmp", the ICO path is "/tmpfavicon.ico" and its base name is "tmpfavicon.ico": no separator is inserted |
| Lifecycle.Sweep | src/Builder.php:234-241 | one cleanup pass, front to back: a path is forgotten when its file exists and the pass has not deleted it yet, and its deletion succeeds; see the Sweep lemmas below |
| Lifecycle.SweepDeletes | src/Builder.php:234-241 | cleanup deletes exactly the tracked files that exist and whose deletion succeeds |
| Lifecycle.SweepCounts | src/Builder.php:234-241 | each path stays tracked as often as it was tracked, minus the one occurrence whose file was deleted |
| Lifecycle.SweepKeptStep | src/Builder.php:236-238 | one more tracked path is kept, at the end, unless its file exists, its deletion succeeds and no earlier occurrence of it was deleted already |
| Lifecycle.KeptPositions | src/Builder.php:236-238 | the positions of the list whose entries the pass keeps; see KeptPositionsIncrease, KeptPositionsExact and KeptPositionsSelect |
| Lifecycle.KeptPositionsIncrease | src/Builder.php:236-238 | kept positions lie inside the list and strictly increase |
| Lifecycle.KeptPositionsFront | src/Builder.php:236-238 | visiting one more entry does not change whether an earlier entry is kept |
| Lifecycle.KeptPositionsLast | src/Builder.php:236-238 | the last entry is kept iff its file is missing, its deletion fails, or an earlier entry has the same path |
| Lifecycle.KeptPositionsExact | src/Builder.php:236-238 | position i is kept iff the file of entry i is missing, its deletion fails, or an earlier occurrence of the same path was deleted already |
| Lifecycle.KeptPositionsSelect | src/Builder.php:236-238 | what the pass keeps is exactly the list's entries at the kept positions, in order |
| Lifecycle.SweepKeepsOrder | src/Builder.php:236-238 | the surviving entries keep their original relative order at strictly increasing positions of the old list, and entry i survives iff its file is missing, its deletion fails, or an earlier occurrence of the same path was deleted already |
| Lifecycle.StillPresentStaysTracked | src/Builder.php:237-238 | a tracked file that still exists after cleanup is still tracked |
| Lifecycle.SweepKeepsAllWhenNothingDeletable | src/Builder.php:237 | when no tracked file both exists and can be deleted, cleanup changes nothing |
| Lifecycle.SweepIdempotent | src/Builder.php:234-241 | a retried cleanup, with the same deletion outcomes and the deleted files gone, deletes nothing and keeps everything |
| Lifecycle.SweepEmptiesIff | src/Builder.php:236-238 | cleanup empties the list iff no path is tracked twice and every tracked file exists and is deleted |
| Lifecycle.ZipEntryFor | src/Builder.php:119 | a file enters the archive as its path, stored under its base name |
| Lifecycle.ZipEntries | src/Builder.php:118-120 | every tracked file, in order, as its archive entry; see ZipEntryNamesAreFlat |
| Lifecycle.ZipEntryNamesAreFlat | src/Builder.php:118-120 | the archive gets one entry per tracked file, in order, each under a base name without directory part |
| Lifecycle.IsTruthy | src/Builder.php:126 | PHP truthiness of the output path: no path, "" and "0" count as no path; used by Builder.ZipOutputFiles |
| FaviconBuilder.BuildOutputs | src/Builder.php:85-98 | a build adds at most one path per catalog entry, plus the ICO |
| FaviconBuilder.IcoOutput | src/Builder.php:93-98 | the ICO path is added iff a converter is configured and its save succeeded |
| FaviconBuilder.Builder.constructor | src/Builder.php:17-55 | a new builder holds the fifteen-entry catalog, the given temporary directory and converter, and no tracked file |
| FaviconBuilder.Builder.Build | src/Builder.php:71-101 | the renders are the catalog-order renders of the sanitized sizes with the sanitized colour; the tracked list only grows: the old list stays a prefix, then come the successfully written PNG paths, then the ICO path last when saved; the ICO step runs iff a converter is configured, and it is then the job of BuildIcoFile: the intermediate PNG path, the larger side of the source, the five frames and the "favicon.ico" save path |
| FaviconBuilder.Builder.BuildIcoFile | src/Builder.php:208-227 | the ICO is made from the intermediate PNG at the larger side of the source, with frames 16, 32, 48, 64 and 128, and saved to tmpPath + "favicon.ico"; that path is returned iff the save succeeded |
| FaviconBuilder.Builder.ZipOutputFiles | src/Builder.php:111-133 | the archive gets every tracked file under its base name; the list then becomes what cleanup keeps, followed by the archive path iff no truthy output path was given; the archive is copied iff one was given |
| FaviconBuilder.Builder.HasOutputFiles | src/Builder.php:140-143 | true iff the tracked list is non-empty |
| FaviconBuilder.Builder.GetOutputFiles | src/Builder.php:150-153 | returns the tracked list, in production order |
| FaviconBuilder.Builder.RemoveOutputFiles | src/Builder.php:234-241 | the list becomes what `Sweep` keeps, with the entries removed in place, and the method returns what `Sweep` deleted |
| FaviconBuilder.Builder.Destruct | src/Builder.php:57-60 | tearing the builder down runs the cleanup pass |
| FaviconBuilder.EmptyRequestAddsOnlyIco | src/Builder.php:163-166 | a build with an empty size request adds no PNG path, only the ICO path when one was saved |
| FaviconBuilder.BuildOutputsMembership | src/Builder.php:76-98 | a build adds a path iff it is the file name of a selected entry whose write succeeded, or the saved ICO path |
| FaviconBuilder.SingleBuildOutputsDistinct | src/Builder.php:76-98 | one build over the catalog never tracks the same path twice |
| FaviconBuilder.SingleBuildCleanupEmpties | src/Builder.php:234-241 | after one build on a fresh builder, cleanup empties the list iff every produced file exists and is deleted |
| FaviconBuilder.RepeatedPathStaysTracked | src/Builder.php:236-238 | a path tracked twice (two builds without cleanup) leaves one stale entry, because its second occurrence finds the file gone |
| FaviconBuilder.TwoSizeBuildOutputs | src/Builder.php:71-101 | building sizes [76, 192, 999] with every write succeeding and no ICO adds exactly the size-76 touch icon and the size-192 favicon |
| FaviconBuilder.TwoFileCleanup | src/Builder.php:234-241 | cleaning up two different existing files that are both deleted forgets both |
| FaviconBuilder.TwoFileZipEntryNames | src/Builder.php:118-120 | two files without '/' in their names, placed in the same directory, enter the archive in order under their names preceded by what follows the directory's last '/' (nothing when the directory ends in '/') |
| FaviconBuilder.TwoFileZipEntries | src/Builder.php:118-120 | files directly inside a directory ending in '/' enter the archive under their own names |
| FaviconBuilder.BuildThenZipSession | src/Builder.php:111-133 | for any directory string, building [76, 192, 999] and then zipping with no output path archives exactly the two variants in catalog order, each under its file name preceded by the directory's last component (the bare file name only when the directory ends in '/'), and leaves only the archive path tracked |

## Left out

- Raster work (`Resize::resize`, `imagepng`, `imagedestroy`, `getimagesize`) is a foreign library. A render is recorded as the request it makes, with its parameters. Whether its write succeeded is a parameter. Pixel content is not modelled, and neither is a failing `getimagesize`.
- ICO encoding (`IcoConverter::addImage`, `saveIco`) is a foreign library. The model records the ICO step as an `IcoJob` and takes the outcome of the save as a parameter.
- The intermediate PNG of the ICO step is written and deleted again without being tracked. The model records its path only, and not the outcome of that write and delete.
- Zip container writing (`ZipArchive::open`, `addFile`, `close`) is a foreign library. The code ignores its outcomes. The model keeps only the (path, name) entries handed to the archive.
- `copy` of the archive: the code ignores its outcome. `Builder.ZipOutputFiles` returns only the destination.
- `file_exists`, `unlink` and `sys_get_temp_dir` are filesystem calls. They are parameters: the files present when cleanup starts, the outcome of each deletion, and the directory string.
- `General::cleanHexColor` is not part of this model. It is an uninterpreted function parameter.
- The `(int)` cast of arbitrary PHP values in `sanitizeSizes` is not modelled. A request is a sequence of integers, and PHP integer width is not modelled either.
- `unset` leaves gaps in the keys of the PHP array. The model keeps the list as a sequence of values in order, so the keys `getOutputFiles` would expose are not modelled.
- PHP calls `__destruct` at a time of its own choosing. The model offers an explicit `Builder.Destruct` instead.
- Default arguments of `build` ('fff', 0, []) and of `zipOutputFiles` (null) are passed explicitly.
- Filenames.Basename: only the part after the last '/' is modelled. PHP's stripping of trailing slashes and its platform-specific separators are not.
