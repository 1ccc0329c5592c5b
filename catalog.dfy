/** The fixed, ordered table of output variants that the builder owns. */
module Catalog {
  import opened ImageDefinitions

  /** The sizes of `defs`, in the same order. */
  function Sizes(defs: seq<ImageDefinition>): seq<int>
  {
    seq(|defs|, i requires 0 <= i < |defs| => defs[i].GetSize())
  }

  predicate StrictlyIncreasing(s: seq<int>)
  {
    forall i, j :: 0 <= i < j < |s| ==> s[i] < s[j]
  }

  /** A sequence whose neighbours increase is strictly increasing throughout. */
  lemma {:induction false} NeighboursIncreasing(s: seq<int>)
    requires forall k :: 0 <= k < |s| - 1 ==> s[k] < s[k + 1]
    ensures StrictlyIncreasing(s)
    decreases |s|
  {
    if |s| > 1 {
      var front := s[..|s| - 1];
      NeighboursIncreasing(front);
      forall i | 0 <= i < |s| - 1 ensures s[i] < s[|s| - 1] {
        if i < |s| - 2 {
          assert front[i] < front[|s| - 2];
        }
      }
    }
  }

  /**
   * The catalog the builder's constructor sets up: fifteen variants for
   * Apple touch icons, Windows tiles, Android and social media, in the
   * order in which they are rendered.
   */
  function Definitions(): (defs: seq<ImageDefinition>)
    ensures |defs| == 15
    ensures forall i :: 0 <= i < |defs| ==> defs[i].GetSize() > 0
  {
    [ ImageDefinition(57, false, false, "apple-touch-icon"),
      ImageDefinition(70, false, false, "windows"),
      ImageDefinition(76, false, false, "apple-touch-icon"),
      ImageDefinition(100, true, false, "favicon"),
      ImageDefinition(114, false, false, "apple-touch-icon"),
      ImageDefinition(120, false, false, "apple-touch-icon"),
      ImageDefinition(128, false, true, "favicon"),
      ImageDefinition(144, false, false, "apple-touch-icon"),
      ImageDefinition(150, false, false, "windows"),
      ImageDefinition(152, false, false, "apple-touch-icon"),
      ImageDefinition(167, false, false, "apple-touch-icon"),
      ImageDefinition(180, false, false, "apple-touch-icon"),
      ImageDefinition(192, false, true, "favicon"),
      ImageDefinition(200, true, false, "favicon"),
      ImageDefinition(310, false, false, "favicon") ]
  }

  /** The catalog sizes, written out. */
  lemma DefinitionSizes()
    ensures Sizes(Definitions()) ==
      [57, 70, 76, 100, 114, 120, 128, 144, 150, 152, 167, 180, 192, 200, 310]
  {
  }

  /** Catalog sizes strictly increase in catalog order. */
  lemma CatalogSizesIncreasing()
    ensures StrictlyIncreasing(Sizes(Definitions()))
  {
    DefinitionSizes();
    NeighboursIncreasing(Sizes(Definitions()));
  }

  /** Distinct positions of the catalog hold distinct sizes. */
  lemma {:induction false} CatalogSizesDistinct(i: int, j: int)
    requires 0 <= i < |Definitions()| && 0 <= j < |Definitions()| && i != j
    ensures Definitions()[i].GetSize() != Definitions()[j].GetSize()
  {
    var s := Sizes(Definitions());
    CatalogSizesIncreasing();
    if i < j {
      assert s[i] < s[j];
    } else {
      assert s[j] < s[i];
    }
  }

  /** Every catalog size fits in three decimal digits. */
  lemma CatalogSizesBelowThousand(i: int)
    requires 0 <= i < |Definitions()|
    ensures 0 < Definitions()[i].GetSize() <= 999
  {
    var s := Sizes(Definitions());
    CatalogSizesIncreasing();
    assert s[i] <= s[14] by {
      if i < 14 {
        assert s[i] < s[14];
      }
    }
  }

  /** Two different entries of `defs` carry `prefix`. */
  predicate PrefixShared(defs: seq<ImageDefinition>, prefix: string)
  {
    exists i, j :: 0 <= i < j < |defs| &&
      defs[i].GetOutputFilenamePrefix() == prefix && defs[j].GetOutputFilenamePrefix() == prefix
  }

  /**
   * A prefix does not identify an entry: each of the three prefixes of the
   * catalog is carried by at least two entries.
   */
  lemma PrefixesAreShared()
    ensures PrefixShared(Definitions(), "apple-touch-icon")
    ensures PrefixShared(Definitions(), "windows")
    ensures PrefixShared(Definitions(), "favicon")
  {
    var defs := Definitions();
    assert defs[0].GetOutputFilenamePrefix() == defs[2].GetOutputFilenamePrefix() == "apple-touch-icon";
    assert defs[1].GetOutputFilenamePrefix() == defs[8].GetOutputFilenamePrefix() == "windows";
    assert defs[3].GetOutputFilenamePrefix() == defs[6].GetOutputFilenamePrefix() == "favicon";
  }
}
