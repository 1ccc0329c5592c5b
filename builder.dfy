/**
 * The builder object: it owns the catalog, renders the selected variants of
 * a source image into the temporary directory, optionally adds an ICO
 * composite, tracks every file it produced, packages them into a zip
 * archive and deletes them again.
 */
module FaviconBuilder {
  import opened Basics
  import opened ImageDefinitions
  import opened Catalog
  import opened Filenames
  import opened SizeSelection
  import opened Rendering
  import opened Lifecycle

  /**
   * The paths one build adds to the tracked list: the PNG variants whose
   * write succeeded, in catalog order, then the ICO composite when one was
   * saved.
   */
  function BuildOutputs(
    defs: seq<ImageDefinition>, settings: RenderSettings, sizes: seq<int>,
    pngWritten: RenderRequest -> bool, ico: Option<string>): (paths: seq<string>)
    ensures |paths| <= |defs| + 1
  {
    WrittenPaths(RenderPlan(defs, settings, sizes), pngWritten) + (if ico.Some? then [ico.value] else [])
  }

  /** The ICO path a build adds: present exactly when a converter is configured and the save succeeded. */
  function IcoOutput(hasIcoConverter: bool, tmpPath: string, icoSaved: bool): (ico: Option<string>)
    ensures ico.Some? <==> hasIcoConverter && icoSaved
    ensures ico.Some? ==> ico.value == IcoFilePath(tmpPath)
  {
    if hasIcoConverter && icoSaved then Some(IcoFilePath(tmpPath)) else None
  }

  class Builder {
    /** Whether an ICO converter was handed to the constructor. */
    const hasIcoConverter: bool
    const imageDefinitions: seq<ImageDefinition>
    /** The system temporary directory, used as a plain string prefix. */
    const tmpPath: string
    /** The paths of the files produced and not yet deleted, in the order they were produced. */
    var outputFiles: seq<string>

    /**
     * A builder with the fixed catalog and nothing produced yet. The
     * temporary directory is read from the system and passed in.
     */
    constructor (hasIcoConverter: bool, tmpPath: string)
      ensures this.hasIcoConverter == hasIcoConverter && this.tmpPath == tmpPath
      ensures imageDefinitions == Definitions()
      ensures outputFiles == []
    {
      this.hasIcoConverter := hasIcoConverter;
      imageDefinitions := Definitions();
      this.tmpPath := tmpPath;
      outputFiles := [];
    }

    /**
     * Renders the selected variants of the source image, in catalog order,
     * and the ICO composite when a converter is configured. Returns the
     * renders asked of the resize library and the ICO step, if any. Each
     * written PNG, and a saved ICO, is appended to the tracked list. The
     * colour parser, the outcome of each PNG write, the source's dimensions
     * and the outcome of the ICO save are passed in.
     */
    method Build(
      sourceFilePath: string, backgroundColorHex: string, gutter: int, sizes: seq<int>,
      cleanHexColor: string -> string, pngWritten: RenderRequest -> bool,
      sourceWidth: int, sourceHeight: int, icoSaved: bool)
      returns (renders: seq<RenderRequest>, icoJob: Option<IcoJob>)
      modifies this
      ensures var settings := RenderSettings(tmpPath, sourceFilePath,
          SanitizeBackgroundColor(backgroundColorHex, cleanHexColor), gutter);
        var selected := SanitizeSizes(imageDefinitions, sizes);
        && renders == RenderPlan(imageDefinitions, settings, selected)
        && outputFiles == old(outputFiles) +
             BuildOutputs(imageDefinitions, settings, selected, pngWritten, IcoOutput(hasIcoConverter, tmpPath, icoSaved))
      ensures icoJob.Some? <==> hasIcoConverter
      ensures icoJob.Some? ==>
        icoJob.value == IcoJob(TemporaryPngPath(tmpPath), IcoSquareSize(sourceWidth, sourceHeight), ICO_FRAME_SIZES, IcoFilePath(tmpPath))
    {
      var defs := imageDefinitions;
      var selected := SanitizeSizes(defs, sizes);
      var color := SanitizeBackgroundColor(backgroundColorHex, cleanHexColor);
      var settings := RenderSettings(tmpPath, sourceFilePath, color, gutter);
      renders := [];
      ghost var added: seq<string> := [];
      for i := 0 to |defs|
        invariant renders == RenderPlan(defs[..i], settings, selected)
        invariant added == WrittenPaths(renders, pngWritten)
        invariant outputFiles == old(outputFiles) + added
      {
        var d := defs[i];
        RenderPlanPrefixStep(defs, i, settings, selected);
        if d.GetSize() in selected {
          var request := RenderRequestFor(d, settings);
          WrittenPathsSnoc(renders, request, pngWritten);
          if pngWritten(request) {
            AppendAssociative(old(outputFiles), added, [request.outputPath]);
            outputFiles := outputFiles + [request.outputPath];
            added := added + [request.outputPath];
          }
          renders := renders + [request];
        }
      }
      assert defs[..|defs|] == defs;
      assert added + [] == added;
      icoJob := None;
      if hasIcoConverter {
        var job, icoOutput := BuildIcoFile(sourceFilePath, sourceWidth, sourceHeight, icoSaved);
        icoJob := Some(job);
        if icoOutput.Some? {
          AppendAssociative(old(outputFiles), added, [icoOutput.value]);
          outputFiles := outputFiles + [icoOutput.value];
          added := added + [icoOutput.value];
        }
      }
    }

    /**
     * The ICO step: renders the source to a square as large as its larger
     * side into the intermediate PNG, asks the converter for the five
     * standard frames and saves the composite. The intermediate PNG is
     * deleted again. Gives the composite's path when the save succeeded.
     */
    method BuildIcoFile(sourceFilePath: string, sourceWidth: int, sourceHeight: int, icoSaved: bool)
      returns (job: IcoJob, icoOutput: Option<string>)
      ensures job.temporaryFilePath == TemporaryPngPath(tmpPath) && job.outputPath == IcoFilePath(tmpPath)
      ensures job.size >= sourceWidth && job.size >= sourceHeight
      ensures job.size == sourceWidth || job.size == sourceHeight
      ensures job.frames == ICO_FRAME_SIZES
      ensures icoOutput.Some? <==> icoSaved
      ensures icoOutput.Some? ==> icoOutput.value == job.outputPath
    {
      var temporaryFilePath := TemporaryPngPath(tmpPath);
      var size := IcoSquareSize(sourceWidth, sourceHeight);
      var outputPath := IcoFilePath(tmpPath);
      job := IcoJob(temporaryFilePath, size, ICO_FRAME_SIZES, outputPath);
      icoOutput := if icoSaved then Some(outputPath) else None;
    }

    /**
     * Packages every tracked file into the archive under its base name, then
     * deletes the tracked files. With an output path the archive is copied
     * there and left untracked; without one the archive itself becomes the
     * tracked file. Returns the archive's entries and the copy's
     * destination, if any.
     */
    method ZipOutputFiles(outputPath: Option<string>, present: set<string>, unlinked: string -> bool)
      returns (entries: seq<ZipEntry>, copiedTo: Option<string>)
      modifies this
      ensures entries == ZipEntries(old(outputFiles))
      ensures outputFiles == Sweep(old(outputFiles), present, unlinked).kept +
        (if IsTruthy(outputPath) then [] else [ZipFilePath(tmpPath)])
      ensures copiedTo.Some? <==> IsTruthy(outputPath)
      ensures copiedTo.Some? ==> copiedTo == outputPath
    {
      var zipFilePath := ZipFilePath(tmpPath);
      var files := outputFiles;
      entries := [];
      for i := 0 to |files|
        invariant entries == ZipEntries(files[..i])
        invariant outputFiles == files
      {
        ZipEntriesSnoc(files[..i], files[i]);
        assert files[..i + 1] == files[..i] + [files[i]];
        entries := entries + [ZipEntryFor(files[i])];
      }
      assert files[..|files|] == files;
      var _ := RemoveOutputFiles(present, unlinked);
      if IsTruthy(outputPath) {
        copiedTo := outputPath;
      } else {
        copiedTo := None;
        outputFiles := outputFiles + [zipFilePath];
      }
    }

    /** Whether any file is tracked. */
    method HasOutputFiles() returns (b: bool)
      ensures b <==> |outputFiles| > 0
    {
      b := |outputFiles| > 0;
    }

    /** The tracked files, in the order they were produced. */
    method GetOutputFiles() returns (files: seq<string>)
      ensures files == outputFiles
    {
      files := outputFiles;
    }

    /**
     * Deletes every tracked file that exists and forgets those whose
     * deletion succeeded, leaving the others in place and in order. Which
     * files exist as the pass begins, and whether each deletion succeeds,
     * are passed in. Returns the files deleted.
     */
    method RemoveOutputFiles(present: set<string>, unlinked: string -> bool) returns (deleted: set<string>)
      modifies this
      ensures outputFiles == Sweep(old(outputFiles), present, unlinked).kept
      ensures deleted == Sweep(old(outputFiles), present, unlinked).deleted
    {
      var files := outputFiles;
      deleted := {};
      ghost var kept: seq<string> := [];
      var position := 0;
      for i := 0 to |files|
        invariant Sweep(files[..i], present, unlinked) == SweepResult(kept, deleted)
        invariant position == |kept|
        invariant outputFiles == kept + files[i..]
      {
        var filePath := files[i];
        SweepSnoc(files[..i], filePath, present, unlinked);
        SplitAt(files, i);
        AppendAssociative(kept, [filePath], files[i + 1..]);
        AroundElement(kept, filePath, files[i + 1..]);
        if filePath in present && filePath !in deleted && unlinked(filePath) {
          outputFiles := outputFiles[..position] + outputFiles[position + 1..];
          deleted := deleted + {filePath};
        } else {
          kept := kept + [filePath];
          position := position + 1;
        }
      }
      assert files[..|files|] == files;
    }

    /** What happens when the builder goes away: the tracked files are deleted. */
    method Destruct(present: set<string>, unlinked: string -> bool)
      modifies this
      ensures outputFiles == Sweep(old(outputFiles), present, unlinked).kept
    {
      var _ := RemoveOutputFiles(present, unlinked);
    }
  }

  /** A build with an empty size request adds no PNG path: at most the ICO path. */
  lemma EmptyRequestAddsOnlyIco(
    defs: seq<ImageDefinition>, settings: RenderSettings, pngWritten: RenderRequest -> bool, ico: Option<string>)
    ensures BuildOutputs(defs, settings, SanitizeSizes(defs, []), pngWritten, ico) ==
      if ico.Some? then [ico.value] else []
  {
    EmptyRequestRendersNothing(defs, settings);
  }

  /**
   * A build adds a path exactly when it is the file name of a selected entry
   * whose PNG write succeeded, or the saved ICO path.
   */
  lemma BuildOutputsMembership(
    defs: seq<ImageDefinition>, settings: RenderSettings, sizes: seq<int>,
    pngWritten: RenderRequest -> bool, ico: Option<string>, p: string)
    ensures p in BuildOutputs(defs, settings, sizes, pngWritten, ico) <==>
      || (exists i :: Selected(defs, sizes, i) && pngWritten(RenderRequestFor(defs[i], settings))
           && p == OutputFilename(settings.tmpPath, defs[i]))
      || ico == Some(p)
  {
    var plan := RenderPlan(defs, settings, sizes);
    WrittenPathsMembership(plan, pngWritten);
    RenderPlanMembership(defs, settings, sizes);
    if p in WrittenPaths(plan, pngWritten) {
      var r :| r in plan && pngWritten(r) && r.outputPath == p;
      var i :| Selected(defs, sizes, i) && r == RenderRequestFor(defs[i], settings);
      RenderRequestParameters(defs[i], settings);
    }
    if exists i :: Selected(defs, sizes, i) && pngWritten(RenderRequestFor(defs[i], settings))
        && p == OutputFilename(settings.tmpPath, defs[i]) {
      var i :| Selected(defs, sizes, i) && pngWritten(RenderRequestFor(defs[i], settings))
        && p == OutputFilename(settings.tmpPath, defs[i]);
      RenderRequestParameters(defs[i], settings);
      assert RenderRequestFor(defs[i], settings) in plan;
    }
  }

  /**
   * On a fresh builder, one build tracks no path twice: distinct variants
   * have distinct file names and the ICO path is no variant's name.
   */
  lemma SingleBuildOutputsDistinct(
    settings: RenderSettings, sizes: seq<int>, pngWritten: RenderRequest -> bool, ico: Option<string>)
    requires ico.Some? ==> ico.value == IcoFilePath(settings.tmpPath)
    ensures Distinct(BuildOutputs(Definitions(), settings, sizes, pngWritten, ico))
  {
    var plan := RenderPlan(Definitions(), settings, sizes);
    var written := WrittenPaths(plan, pngWritten);
    CatalogRenderPathsDistinct(settings, sizes);
    WrittenPathsDistinct(plan, pngWritten);
    if ico.Some? {
      WrittenPathsMembership(plan, pngWritten);
      RenderPlanMembership(Definitions(), settings, sizes);
      forall p | p in written ensures p != ico.value {
        var r :| r in plan && pngWritten(r) && r.outputPath == p;
        var i :| Selected(Definitions(), sizes, i) && r == RenderRequestFor(Definitions()[i], settings);
        RenderRequestParameters(Definitions()[i], settings);
        IcoPathIsNoVariantPath(settings.tmpPath, Definitions()[i]);
      }
      var all := BuildOutputs(Definitions(), settings, sizes, pngWritten, ico);
      assert all == written + [ico.value];
      forall i, j | 0 <= i < j < |all| ensures all[i] != all[j] {
        if j == |written| {
          assert all[i] in written;
        }
      }
    }
  }

  /**
   * After one build on a fresh builder, cleanup forgets every path exactly
   * when every produced file still exists and is deleted.
   */
  lemma SingleBuildCleanupEmpties(
    settings: RenderSettings, sizes: seq<int>, pngWritten: RenderRequest -> bool, ico: Option<string>,
    present: set<string>, unlinked: string -> bool)
    requires ico.Some? ==> ico.value == IcoFilePath(settings.tmpPath)
    ensures var files := BuildOutputs(Definitions(), settings, sizes, pngWritten, ico);
      Sweep(files, present, unlinked).kept == [] <==> forall p :: p in files ==> p in present && unlinked(p)
  {
    SingleBuildOutputsDistinct(settings, sizes, pngWritten, ico);
    SweepEmptiesIff(BuildOutputs(Definitions(), settings, sizes, pngWritten, ico), present, unlinked);
  }

  /**
   * Building twice without cleanup tracks each path twice, and cleanup then
   * keeps one stale entry: the second occurrence finds the file gone.
   */
  lemma RepeatedPathStaysTracked(p: string, unlinked: string -> bool)
    requires unlinked(p)
    ensures Sweep([p, p], {p}, unlinked) == SweepResult([p], {p})
  {
    SweepSnoc([], p, {p}, unlinked);
    assert [] + [p] == [p];
    SweepSnoc([p], p, {p}, unlinked);
    assert [p] + [p] == [p, p];
  }

  /**
   * A build of sizes 76, 192 and 999 without ICO, every write succeeding,
   * adds the size-76 touch icon and the size-192 favicon, in that order.
   */
  lemma TwoSizeBuildOutputs(settings: RenderSettings, pngWritten: RenderRequest -> bool)
    requires forall r :: pngWritten(r)
    ensures BuildOutputs(Definitions(), settings, SanitizeSizes(Definitions(), [76, 192, 999]), pngWritten, None) ==
      [settings.tmpPath + "apple-touch-icon-076.png", settings.tmpPath + "favicon-192.png"]
  {
    var plan := RenderPlan(Definitions(), settings, SanitizeSizes(Definitions(), [76, 192, 999]));
    AllWrittenAddsEveryPath(plan, pngWritten);
    RenderPlanExample(settings);
  }

  /** Cleaning up two different existing files that are both deleted forgets both. */
  lemma TwoFileCleanup(a: string, b: string, unlinked: string -> bool)
    requires a != b && unlinked(a) && unlinked(b)
    ensures Sweep([a, b], {a, b}, unlinked).kept == []
  {
    SweepEmptiesIff([a, b], {a, b}, unlinked);
  }

  /** The two variant file names of the session below hold no '/'. */
  lemma VariantNamesHaveNoSeparator()
    ensures '/' !in "apple-touch-icon-076.png" && '/' !in "favicon-192.png"
  {
  }

  /**
   * Two files placed in the same directory enter the archive under their
   * names preceded by the last component of the directory.
   */
  lemma TwoFileZipEntryNames(dir: string, a: string, b: string)
    requires '/' !in a && '/' !in b
    ensures ZipEntries([dir + a, dir + b]) ==
      [ZipEntry(dir + a, Basename(dir) + a), ZipEntry(dir + b, Basename(dir) + b)]
  {
    BasenameAppend(dir, a);
    BasenameAppend(dir, b);
  }

  /** Files directly inside a directory path ending in '/' enter the archive under their own names. */
  lemma TwoFileZipEntries(dir: string)
    requires dir == [] || dir[|dir| - 1] == '/'
    ensures ZipEntries([dir + "apple-touch-icon-076.png", dir + "favicon-192.png"]) ==
      [ ZipEntry(dir + "apple-touch-icon-076.png", "apple-touch-icon-076.png"),
        ZipEntry(dir + "favicon-192.png", "favicon-192.png") ]
  {
    BasenameAfterSeparator(dir, "apple-touch-icon-076.png");
    BasenameAfterSeparator(dir, "favicon-192.png");
  }

  /**
   * A whole session: a builder without ICO converter builds sizes 76, 192
   * and 999 with every write succeeding, then zips with no output path while
   * every produced file exists and is deleted. The archive holds the two
   * PNG variants, in catalog order, and the archive is all that stays
   * tracked. Each entry's name is the variant's file name preceded by the
   * last component of the directory: the bare file name when the directory
   * ends in '/', and for example "tmpfavicon-192.png" for "/tmp".
   */
  method BuildThenZipSession(tmpPath: string, sourceFilePath: string, cleanHexColor: string -> string)
    returns (entries: seq<ZipEntry>, files: seq<string>)
    ensures entries ==
      [ ZipEntry(tmpPath + "apple-touch-icon-076.png", Basename(tmpPath) + "apple-touch-icon-076.png"),
        ZipEntry(tmpPath + "favicon-192.png", Basename(tmpPath) + "favicon-192.png") ]
    ensures tmpPath == [] || tmpPath[|tmpPath| - 1] == '/' ==>
      entries == [ ZipEntry(tmpPath + "apple-touch-icon-076.png", "apple-touch-icon-076.png"),
                   ZipEntry(tmpPath + "favicon-192.png", "favicon-192.png") ]
    ensures files == [ZipFilePath(tmpPath)]
  {
    var builder := new Builder(false, tmpPath);
    var written := (r: RenderRequest) => true;
    var renders, icoJob := builder.Build(sourceFilePath, "fff", 0, [76, 192, 999], cleanHexColor, written, 500, 500, false);
    TwoSizeBuildOutputs(RenderSettings(tmpPath, sourceFilePath, SanitizeBackgroundColor("fff", cleanHexColor), 0), written);
    var png76, png192 := tmpPath + "apple-touch-icon-076.png", tmpPath + "favicon-192.png";
    assert builder.outputFiles == [png76, png192];
    assert png76[|tmpPath|] != png192[|tmpPath|];
    var unlinked := (p: string) => true;
    TwoFileCleanup(png76, png192, unlinked);
    var copiedTo;
    entries, copiedTo := builder.ZipOutputFiles(None, {png76, png192}, unlinked);
    files := builder.GetOutputFiles();
    VariantNamesHaveNoSeparator();
    TwoFileZipEntryNames(tmpPath, "apple-touch-icon-076.png", "favicon-192.png");
    if tmpPath == [] || tmpPath[|tmpPath| - 1] == '/' {
      TwoFileZipEntries(tmpPath);
    }
  }
}
