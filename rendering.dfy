/**
 * The render calls a build makes: for every catalog entry whose size was
 * selected, in catalog order, one call to the resize library with the
 * entry's parameters and one write of the resulting PNG; and the square
 * size and frames of the optional ICO composite.
 */
module Rendering {
  import opened ImageDefinitions
  import opened Catalog
  import opened Filenames
  import opened SizeSelection
  import opened Basics

  /**
   * One render: the arguments given to the resize library (source, width,
   * height, format, background fill or none, rounded corners, gutter) and
   * the path the PNG is written to.
   */
  datatype RenderRequest = RenderRequest(
    sourceFilePath: string,
    width: int,
    height: int,
    format: string,
    backgroundColor: Option<string>,
    roundEdges: bool,
    gutter: int,
    outputPath: string)

  /** What every render of one build shares. */
  datatype RenderSettings = RenderSettings(
    tmpPath: string,
    sourceFilePath: string,
    backgroundColor: string,
    gutter: int)

  const DEFAULT_BACKGROUND_COLOR: string := "fff"

  /**
   * The background colour a build uses: the colour parser's result, or
   * white when the parser gives back nothing. The parser itself is not part
   * of this model and is passed in.
   */
  function SanitizeBackgroundColor(backgroundColorHex: string, cleanHexColor: string -> string): (color: string)
    ensures color != ""
    ensures cleanHexColor(backgroundColorHex) != "" ==> color == cleanHexColor(backgroundColorHex)
    ensures cleanHexColor(backgroundColorHex) == "" ==> color == DEFAULT_BACKGROUND_COLOR
  {
    var cleanedColor := cleanHexColor(backgroundColorHex);
    if cleanedColor == "" then DEFAULT_BACKGROUND_COLOR else cleanedColor
  }

  /**
   * With a parser that is idempotent and accepts white, sanitizing a
   * sanitized colour changes nothing.
   */
  lemma SanitizeBackgroundColorIdempotent(backgroundColorHex: string, cleanHexColor: string -> string)
    requires forall s :: cleanHexColor(cleanHexColor(s)) == cleanHexColor(s)
    requires cleanHexColor(DEFAULT_BACKGROUND_COLOR) == DEFAULT_BACKGROUND_COLOR
    ensures var color := SanitizeBackgroundColor(backgroundColorHex, cleanHexColor);
      SanitizeBackgroundColor(color, cleanHexColor) == color
  {
  }

  /**
   * The render of one catalog entry: a square PNG of the entry's size,
   * filled with the build's colour unless the entry keeps its background
   * transparent, with the entry's rounding and the build's gutter, written
   * to the entry's file name.
   */
  function RenderRequestFor(d: ImageDefinition, settings: RenderSettings): RenderRequest
  {
    RenderRequest(
      settings.sourceFilePath,
      d.GetSize(),
      d.GetSize(),
      "png",
      if d.HasTransparentBackground() then None else Some(settings.backgroundColor),
      d.HasRoundEdges(),
      settings.gutter,
      OutputFilename(settings.tmpPath, d))
  }

  /**
   * The parameters of an entry's render: the source, a square of the
   * entry's size as PNG, no background fill exactly when the entry keeps its
   * background transparent and otherwise the build's colour, the entry's
   * rounding and the build's gutter unchanged, written to the entry's file.
   */
  lemma RenderRequestParameters(d: ImageDefinition, settings: RenderSettings)
    ensures var r := RenderRequestFor(d, settings);
      && r.sourceFilePath == settings.sourceFilePath
      && r.width == r.height == d.GetSize() && r.format == "png"
      && (r.backgroundColor == None <==> d.HasTransparentBackground())
      && (r.backgroundColor != None ==> r.backgroundColor.value == settings.backgroundColor)
      && r.roundEdges == d.HasRoundEdges() && r.gutter == settings.gutter
      && r.outputPath == OutputFilename(settings.tmpPath, d)
  {
  }

  /**
   * The renders of a build over `defs`, in the order of `defs`: one for
   * each entry whose size is in `sizes`.
   */
  function RenderPlan(defs: seq<ImageDefinition>, settings: RenderSettings, sizes: seq<int>): (plan: seq<RenderRequest>)
    ensures |plan| <= |defs|
    decreases |defs|
  {
    if defs == [] then []
    else
      var last := defs[|defs| - 1];
      RenderPlan(defs[..|defs| - 1], settings, sizes)
        + (if last.GetSize() in sizes then [RenderRequestFor(last, settings)] else [])
  }

  /** One more catalog entry: one more render at the end exactly when its size is selected. */
  lemma RenderPlanPrefixStep(defs: seq<ImageDefinition>, i: int, settings: RenderSettings, sizes: seq<int>)
    requires 0 <= i < |defs|
    ensures RenderPlan(defs[..i + 1], settings, sizes) ==
      RenderPlan(defs[..i], settings, sizes) + (if defs[i].GetSize() in sizes then [RenderRequestFor(defs[i], settings)] else [])
  {
    assert defs[..i + 1][..i] == defs[..i];
  }

  /** Entry `i` of `defs` is selected. */
  predicate Selected(defs: seq<ImageDefinition>, sizes: seq<int>, i: int)
  {
    0 <= i < |defs| && defs[i].GetSize() in sizes
  }

  /** The renders of a build are exactly the renders of the selected entries. */
  lemma {:induction false} RenderPlanMembership(defs: seq<ImageDefinition>, settings: RenderSettings, sizes: seq<int>)
    ensures forall r :: r in RenderPlan(defs, settings, sizes) <==>
      exists i :: Selected(defs, sizes, i) && r == RenderRequestFor(defs[i], settings)
    decreases |defs|
  {
    if defs != [] {
      var front := defs[..|defs| - 1];
      RenderPlanMembership(front, settings, sizes);
      forall i | Selected(front, sizes, i) ensures Selected(defs, sizes, i) && front[i] == defs[i] { }
      forall r | r in RenderPlan(defs, settings, sizes)
        ensures exists i :: Selected(defs, sizes, i) && r == RenderRequestFor(defs[i], settings)
      {
        if r !in RenderPlan(front, settings, sizes) {
          assert Selected(defs, sizes, |defs| - 1);
        }
      }
    }
  }

  /** An entry is rendered exactly when its size is selected. */
  lemma RenderedIffSelected(defs: seq<ImageDefinition>, settings: RenderSettings, sizes: seq<int>, i: int)
    requires 0 <= i < |defs|
    ensures RenderRequestFor(defs[i], settings) in RenderPlan(defs, settings, sizes) <==> defs[i].GetSize() in sizes
  {
    RenderPlanMembership(defs, settings, sizes);
    if RenderRequestFor(defs[i], settings) in RenderPlan(defs, settings, sizes) {
      var j :| Selected(defs, sizes, j) && RenderRequestFor(defs[i], settings) == RenderRequestFor(defs[j], settings);
      assert defs[j].GetSize() == RenderRequestFor(defs[j], settings).width;
    } else {
      assert !Selected(defs, sizes, i);
    }
  }

  /** No selected size, no render. */
  lemma {:induction false} NothingSelectedRendersNothing(defs: seq<ImageDefinition>, settings: RenderSettings)
    ensures RenderPlan(defs, settings, []) == []
    decreases |defs|
  {
    if defs != [] {
      NothingSelectedRendersNothing(defs[..|defs| - 1], settings);
    }
  }

  /** A build with an empty size request renders nothing at all. */
  lemma EmptyRequestRendersNothing(defs: seq<ImageDefinition>, settings: RenderSettings)
    ensures RenderPlan(defs, settings, SanitizeSizes(defs, [])) == []
  {
    NothingSelectedRendersNothing(defs, settings);
  }

  /** When every size is selected, every entry is rendered, in order. */
  lemma EverySizeSelectedRendersAll(defs: seq<ImageDefinition>, settings: RenderSettings, sizes: seq<int>)
    requires forall i :: 0 <= i < |defs| ==> defs[i].GetSize() in sizes
    ensures |RenderPlan(defs, settings, sizes)| == |defs|
    ensures forall i :: 0 <= i < |defs| ==> RenderPlan(defs, settings, sizes)[i] == RenderRequestFor(defs[i], settings)
  {
    EverySizeSelectedSelectsAll(defs, sizes);
    RenderPlanRendersSelected(defs, settings, sizes);
  }

  /**
   * A request that names no catalog size renders the whole catalog, in
   * catalog order.
   */
  lemma UnknownRequestRendersAll(defs: seq<ImageDefinition>, settings: RenderSettings, requested: seq<int>)
    requires requested != [] && NoneKnown(defs, requested)
    ensures |RenderPlan(defs, settings, SanitizeSizes(defs, requested))| == |defs|
    ensures forall i :: 0 <= i < |defs| ==>
      RenderPlan(defs, settings, SanitizeSizes(defs, requested))[i] == RenderRequestFor(defs[i], settings)
  {
    SanitizeSizesCases(defs, requested);
    forall i | 0 <= i < |defs| ensures defs[i].GetSize() in Sizes(defs) {
      assert Sizes(defs)[i] == defs[i].GetSize();
    }
    EverySizeSelectedRendersAll(defs, settings, Sizes(defs));
  }

  /** Each render is larger than the ones before it. */
  predicate IncreasingWidths(plan: seq<RenderRequest>)
  {
    forall i, j :: 0 <= i < j < |plan| ==> plan[i].width < plan[j].width
  }

  /**
   * Renders follow catalog order: when the catalog sizes increase, so do the
   * sizes of the renders, and no size is rendered twice.
   */
  lemma {:induction false} RenderPlanFollowsCatalogOrder(defs: seq<ImageDefinition>, settings: RenderSettings, sizes: seq<int>)
    requires StrictlyIncreasing(Sizes(defs))
    ensures IncreasingWidths(RenderPlan(defs, settings, sizes))
    decreases |defs|
  {
    if defs != [] {
      var front := defs[..|defs| - 1];
      var last := defs[|defs| - 1];
      assert Sizes(front) == Sizes(defs)[..|defs| - 1];
      RenderPlanFollowsCatalogOrder(front, settings, sizes);
      RenderPlanMembership(front, settings, sizes);
      var before := RenderPlan(front, settings, sizes);
      forall k | 0 <= k < |before| ensures before[k].width < last.GetSize() {
        assert before[k] in before;
        var i :| Selected(front, sizes, i) && before[k] == RenderRequestFor(front[i], settings);
        assert Sizes(defs)[i] < Sizes(defs)[|defs| - 1];
      }
      var plan := RenderPlan(defs, settings, sizes);
      assert plan == before + (if last.GetSize() in sizes then [RenderRequestFor(last, settings)] else []);
      forall i, j | 0 <= i < j < |plan| ensures plan[i].width < plan[j].width {
        if j < |before| {
          assert plan[i] == before[i] && plan[j] == before[j];
          assert before[i].width < before[j].width;
        } else {
          assert plan[i] == before[i];
          assert before[i].width < last.GetSize();
          assert plan[j] == RenderRequestFor(last, settings);
          RenderRequestParameters(last, settings);
          assert plan[j].width == last.GetSize();
        }
      }
    }
  }

  /** Where entry `k` of a build's renders comes from: a selected entry of `defs`. */
  lemma RenderPlanEntrySource(defs: seq<ImageDefinition>, settings: RenderSettings, sizes: seq<int>, k: int)
    returns (i: int)
    requires 0 <= k < |RenderPlan(defs, settings, sizes)|
    ensures Selected(defs, sizes, i)
    ensures RenderPlan(defs, settings, sizes)[k] == RenderRequestFor(defs[i], settings)
  {
    var plan := RenderPlan(defs, settings, sizes);
    RenderPlanMembership(defs, settings, sizes);
    assert plan[k] in plan;
    i :| Selected(defs, sizes, i) && plan[k] == RenderRequestFor(defs[i], settings);
  }

  /** The output paths of `plan`, in order. */
  function Paths(plan: seq<RenderRequest>): seq<string>
  {
    seq(|plan|, k requires 0 <= k < |plan| => plan[k].outputPath)
  }

  /** Over the catalog, no two renders of a build write the same file. */
  lemma CatalogRenderPathsDistinct(settings: RenderSettings, sizes: seq<int>)
    ensures Distinct(Paths(RenderPlan(Definitions(), settings, sizes)))
  {
    var defs := Definitions();
    var plan := RenderPlan(defs, settings, sizes);
    CatalogSizesIncreasing();
    RenderPlanFollowsCatalogOrder(defs, settings, sizes);
    forall i, j | 0 <= i < j < |plan| ensures Paths(plan)[i] != Paths(plan)[j] {
      var a := RenderPlanEntrySource(defs, settings, sizes, i);
      var b := RenderPlanEntrySource(defs, settings, sizes, j);
      RenderRequestParameters(defs[a], settings);
      RenderRequestParameters(defs[b], settings);
      CatalogSizesBelowThousand(a);
      CatalogSizesBelowThousand(b);
      OutputFilenamesDiffer(settings.tmpPath, defs[a], defs[b]);
    }
  }

  /**
   * The paths a build adds for its PNG variants: the paths of the renders
   * whose write succeeded, in render order. Whether a write succeeds is
   * not part of this model and is passed in.
   */
  function WrittenPaths(plan: seq<RenderRequest>, pngWritten: RenderRequest -> bool): (paths: seq<string>)
    ensures |paths| <= |plan|
    decreases |plan|
  {
    if plan == [] then []
    else
      var last := plan[|plan| - 1];
      WrittenPaths(plan[..|plan| - 1], pngWritten) + (if pngWritten(last) then [last.outputPath] else [])
  }

  /** One more render: its path is added at the end exactly when its write succeeded. */
  lemma WrittenPathsSnoc(plan: seq<RenderRequest>, r: RenderRequest, pngWritten: RenderRequest -> bool)
    ensures WrittenPaths(plan + [r], pngWritten) ==
      WrittenPaths(plan, pngWritten) + (if pngWritten(r) then [r.outputPath] else [])
  {
    assert (plan + [r])[..|plan|] == plan;
  }

  /** A path is added exactly when some render writes to it successfully. */
  lemma {:induction false} WrittenPathsMembership(plan: seq<RenderRequest>, pngWritten: RenderRequest -> bool)
    ensures forall p :: p in WrittenPaths(plan, pngWritten) <==>
      exists r :: r in plan && pngWritten(r) && r.outputPath == p
    decreases |plan|
  {
    if plan != [] {
      var front := plan[..|plan| - 1];
      WrittenPathsMembership(front, pngWritten);
      assert forall r :: r in plan <==> r in front || r == plan[|plan| - 1] by {
        assert plan == front + [plan[|plan| - 1]];
      }
    }
  }

  /** When every write succeeds, every render adds its path, in order. */
  lemma {:induction false} AllWrittenAddsEveryPath(plan: seq<RenderRequest>, pngWritten: RenderRequest -> bool)
    requires forall r :: r in plan ==> pngWritten(r)
    ensures WrittenPaths(plan, pngWritten) == Paths(plan)
    decreases |plan|
  {
    if plan != [] {
      var front := plan[..|plan| - 1];
      assert forall r :: r in front ==> r in plan;
      AllWrittenAddsEveryPath(front, pngWritten);
      assert plan[|plan| - 1] in plan;
    }
  }

  /** Distinct render paths give distinct added paths. */
  lemma {:induction false} WrittenPathsDistinct(plan: seq<RenderRequest>, pngWritten: RenderRequest -> bool)
    requires Distinct(Paths(plan))
    ensures Distinct(WrittenPaths(plan, pngWritten))
    decreases |plan|
  {
    if plan != [] {
      var front := plan[..|plan| - 1];
      var last := plan[|plan| - 1];
      assert Paths(front) == Paths(plan)[..|plan| - 1];
      WrittenPathsDistinct(front, pngWritten);
      WrittenPathsMembership(front, pngWritten);
      forall r | r in front ensures r.outputPath != last.outputPath {
        var k :| 0 <= k < |front| && front[k] == r;
        assert Paths(plan)[k] != Paths(plan)[|plan| - 1];
      }
      var earlier := WrittenPaths(front, pngWritten);
      var all := WrittenPaths(plan, pngWritten);
      assert last.outputPath !in earlier;
      assert all == earlier + (if pngWritten(last) then [last.outputPath] else []);
      forall i, j | 0 <= i < j < |all| ensures all[i] != all[j] {
        if j >= |earlier| {
          assert all[i] in earlier;
        }
      }
    }
  }

  /** Rendering two parts of a catalog renders the first part, then the second. */
  lemma {:induction false} RenderPlanAppend(a: seq<ImageDefinition>, b: seq<ImageDefinition>, settings: RenderSettings, sizes: seq<int>)
    ensures RenderPlan(a + b, settings, sizes) == RenderPlan(a, settings, sizes) + RenderPlan(b, settings, sizes)
    decreases |b|
  {
    if b == [] {
      assert a + b == a;
    } else {
      assert (a + b)[..|a + b| - 1] == a + b[..|b| - 1];
      RenderPlanAppend(a, b[..|b| - 1], settings, sizes);
    }
  }

  /** A part of the catalog none of whose sizes is selected renders nothing. */
  lemma {:induction false} UnselectedRendersNothing(defs: seq<ImageDefinition>, settings: RenderSettings, sizes: seq<int>)
    requires forall i :: 0 <= i < |defs| ==> defs[i].GetSize() !in sizes
    ensures RenderPlan(defs, settings, sizes) == []
    decreases |defs|
  {
    if defs != [] {
      UnselectedRendersNothing(defs[..|defs| - 1], settings, sizes);
    }
  }

  /** The entries of `defs` whose size is in `sizes`, in order. */
  function SelectedDefinitions(defs: seq<ImageDefinition>, sizes: seq<int>): seq<ImageDefinition>
    decreases |defs|
  {
    if defs == [] then []
    else
      var last := defs[|defs| - 1];
      SelectedDefinitions(defs[..|defs| - 1], sizes) + (if last.GetSize() in sizes then [last] else [])
  }

  /** When every size of `defs` is selected, every entry is. */
  lemma {:induction false} EverySizeSelectedSelectsAll(defs: seq<ImageDefinition>, sizes: seq<int>)
    requires forall i :: 0 <= i < |defs| ==> defs[i].GetSize() in sizes
    ensures SelectedDefinitions(defs, sizes) == defs
    decreases |defs|
  {
    if defs != [] {
      var front := defs[..|defs| - 1];
      EverySizeSelectedSelectsAll(front, sizes);
      assert defs == front + [defs[|defs| - 1]];
    }
  }

  /** The renders of a build are the renders of the selected entries, one each, in order. */
  lemma {:induction false} RenderPlanRendersSelected(defs: seq<ImageDefinition>, settings: RenderSettings, sizes: seq<int>)
    ensures var selected := SelectedDefinitions(defs, sizes);
      var plan := RenderPlan(defs, settings, sizes);
      |plan| == |selected| && forall k :: 0 <= k < |plan| ==> plan[k] == RenderRequestFor(selected[k], settings)
    decreases |defs|
  {
    if defs != [] {
      RenderPlanRendersSelected(defs[..|defs| - 1], settings, sizes);
    }
  }

  /**
   * When the selected entries are exactly those at the increasing positions
   * `picks`, the selection is those entries, in the order of the positions.
   */
  lemma {:induction false} SelectedDefinitionsAt(defs: seq<ImageDefinition>, sizes: seq<int>, picks: seq<int>)
    requires forall k :: 0 <= k < |picks| ==> 0 <= picks[k] < |defs|
    requires forall k, l :: 0 <= k < l < |picks| ==> picks[k] < picks[l]
    requires forall i :: 0 <= i < |defs| ==> (defs[i].GetSize() in sizes <==> i in picks)
    ensures SelectedDefinitions(defs, sizes) == seq(|picks|, k requires 0 <= k < |picks| => defs[picks[k]])
    decreases |defs|
  {
    var selected := SelectedDefinitions(defs, sizes);
    if defs == [] {
      assert forall x :: x in picks ==> 0 <= x < |defs|;
    } else {
      var n := |defs| - 1;
      var front := defs[..n];
      if n in picks {
        var m := |picks| - 1;
        var k :| 0 <= k < |picks| && picks[k] == n;
        assert picks[k] <= picks[m] < |defs|;
        var earlier := picks[..m];
        forall i | 0 <= i < n && i in picks ensures i in earlier {
          var j :| 0 <= j < |picks| && picks[j] == i;
          assert j != m;
          assert earlier[j] == i;
        }
        SelectedDefinitionsAt(front, sizes, earlier);
        assert selected == SelectedDefinitions(front, sizes) + [defs[n]];
        assert selected[m] == defs[picks[m]];
      } else {
        forall k | 0 <= k < |picks| ensures picks[k] < n {
          assert picks[k] != n;
        }
        SelectedDefinitionsAt(front, sizes, picks);
      }
    }
  }

  /** The catalog entries a request for sizes 76 and 192 selects: entries 2 and 12, in that order. */
  lemma SelectedDefinitionsExample()
    ensures SelectedDefinitions(Definitions(), [76, 192]) == [Definitions()[2], Definitions()[12]]
  {
    var defs := Definitions();
    DefinitionSizes();
    forall i | 0 <= i < |defs| ensures defs[i].GetSize() in [76, 192] <==> i in [2, 12] {
      assert defs[i].GetSize() == Sizes(defs)[i];
    }
    SelectedDefinitionsAt(defs, [76, 192], [2, 12]);
  }

  /** When two entries are selected, the build writes their two files, in order. */
  lemma TwoRenderPaths(defs: seq<ImageDefinition>, settings: RenderSettings, sizes: seq<int>, a: ImageDefinition, b: ImageDefinition)
    requires SelectedDefinitions(defs, sizes) == [a, b]
    ensures Paths(RenderPlan(defs, settings, sizes)) ==
      [OutputFilename(settings.tmpPath, a), OutputFilename(settings.tmpPath, b)]
  {
    RenderPlanRendersSelected(defs, settings, sizes);
    RenderRequestParameters(a, settings);
    RenderRequestParameters(b, settings);
  }

  /** The files the size-76 touch icon and the size-192 favicon of the catalog are written to. */
  lemma CatalogEntryNames(tmp: string)
    ensures OutputFilename(tmp, Definitions()[2]) == tmp + "apple-touch-icon-076.png"
    ensures OutputFilename(tmp, Definitions()[12]) == tmp + "favicon-192.png"
  {
    var defs := Definitions();
    var d76, d192 := defs[2], defs[12];
    assert d76 == ImageDefinition(76, false, false, "apple-touch-icon");
    assert d192 == ImageDefinition(192, false, true, "favicon");
    OutputFilenameExamples(tmp, ImageDefinition(57, false, false, "apple-touch-icon"), d76, d192);
  }

  /**
   * The paths the request [76, 192, 999] renders to: the size-76 touch icon
   * and the size-192 favicon, in that order; 999 is dropped.
   */
  lemma RenderPlanExample(settings: RenderSettings)
    ensures Paths(RenderPlan(Definitions(), settings, SanitizeSizes(Definitions(), [76, 192, 999]))) ==
      [settings.tmpPath + "apple-touch-icon-076.png", settings.tmpPath + "favicon-192.png"]
  {
    var defs, tmp := Definitions(), settings.tmpPath;
    assert SanitizeSizes(defs, [76, 192, 999]) == [76, 192] by {
      SanitizeSizesExample();
    }
    var d76, d192 := defs[2], defs[12];
    assert Paths(RenderPlan(defs, settings, [76, 192])) == [OutputFilename(tmp, d76), OutputFilename(tmp, d192)] by {
      SelectedDefinitionsExample();
      TwoRenderPaths(defs, settings, [76, 192], d76, d192);
    }
    CatalogEntryNames(tmp);
  }

  /** The frames the ICO composite holds. */
  const ICO_FRAME_SIZES: seq<(int, int)> := [(16, 16), (32, 32), (48, 48), (64, 64), (128, 128)]

  /** The square the ICO composite is rendered from: the larger side of the source. */
  function IcoSquareSize(width: int, height: int): (size: int)
    ensures size >= width && size >= height
    ensures size == width || size == height
  {
    if width > height then width else height
  }

  /**
   * The ICO step of a build: the intermediate PNG, its square size, the
   * frames asked of the encoder, and where the ICO is saved.
   */
  datatype IcoJob = IcoJob(
    temporaryFilePath: string,
    size: int,
    frames: seq<(int, int)>,
    outputPath: string)
}
