/**
 * Which sizes a build renders: the requested sizes, each already cast to an
 * integer, matched against the sizes of the catalog.
 */
module SizeSelection {
  import opened ImageDefinitions
  import opened Catalog

  /**
   * The intersection of a request with the known sizes: the requested values
   * that are known, in request order, duplicates kept.
   */
  function KeepKnown(requested: seq<int>, known: seq<int>): (kept: seq<int>)
    ensures forall x :: x in kept <==> x in requested && x in known
    ensures |kept| <= |requested|
  {
    if requested == [] then []
    else (if requested[0] in known then [requested[0]] else []) + KeepKnown(requested[1..], known)
  }

  /** The intersection keeps every known value as often as it was requested. */
  lemma {:induction false} KeepKnownCounts(requested: seq<int>, known: seq<int>)
    ensures forall x ::
      multiset(KeepKnown(requested, known))[x] == if x in known then multiset(requested)[x] else 0
  {
    if requested != [] {
      KeepKnownCounts(requested[1..], known);
      assert requested == [requested[0]] + requested[1..];
    }
  }

  /**
   * The intersection respects request order: intersecting a request made of
   * two parts gives the intersection of the first part, then of the second.
   */
  lemma {:induction false} KeepKnownAppend(a: seq<int>, b: seq<int>, known: seq<int>)
    ensures KeepKnown(a + b, known) == KeepKnown(a, known) + KeepKnown(b, known)
  {
    if a == [] {
      assert a + b == b;
    } else {
      var head := if a[0] in known then [a[0]] else [];
      calc {
        KeepKnown(a + b, known);
        { assert (a + b)[0] == a[0] && (a + b)[1..] == a[1..] + b; }
        head + KeepKnown(a[1..] + b, known);
        { KeepKnownAppend(a[1..], b, known); }
        head + (KeepKnown(a[1..], known) + KeepKnown(b, known));
        (head + KeepKnown(a[1..], known)) + KeepKnown(b, known);
        KeepKnown(a, known) + KeepKnown(b, known);
      }
    }
  }

  /**
   * The sizes a build renders. An empty request selects nothing; otherwise
   * the request is intersected with the catalog sizes, and when nothing is
   * left every catalog size is selected.
   */
  function SanitizeSizes(defs: seq<ImageDefinition>, requested: seq<int>): (sizes: seq<int>)
    ensures requested == [] ==> sizes == []
    ensures forall x :: x in sizes ==> x in Sizes(defs)
  {
    if |requested| == 0 then []
    else
      var outputSizes := KeepKnown(requested, Sizes(defs));
      if |outputSizes| == 0 then Sizes(defs) else outputSizes
  }

  /** No requested value is a catalog size. */
  predicate NoneKnown(defs: seq<ImageDefinition>, requested: seq<int>)
  {
    forall x :: x in requested ==> x !in Sizes(defs)
  }

  /**
   * The three cases of the selection, as a reference: nothing for an empty
   * request, every catalog size when the request names none of them, and
   * otherwise exactly the request's catalog sizes, in request order with the
   * request's duplicates.
   */
  lemma SanitizeSizesCases(defs: seq<ImageDefinition>, requested: seq<int>)
    ensures requested == [] ==> SanitizeSizes(defs, requested) == []
    ensures requested != [] && NoneKnown(defs, requested) ==>
      SanitizeSizes(defs, requested) == Sizes(defs)
    ensures requested != [] && !NoneKnown(defs, requested) ==>
      SanitizeSizes(defs, requested) == KeepKnown(requested, Sizes(defs))
  {
    var kept := KeepKnown(requested, Sizes(defs));
    if requested != [] && !NoneKnown(defs, requested) {
      var x :| x in requested && x in Sizes(defs);
      assert x in kept;
    }
    if requested != [] && NoneKnown(defs, requested) && kept != [] {
      assert kept[0] in kept;
    }
  }

  /**
   * A size is selected exactly when the request is non-empty, the size is a
   * catalog size, and either the request names it or names no catalog size
   * at all.
   */
  lemma SelectedSize(defs: seq<ImageDefinition>, requested: seq<int>, size: int)
    ensures size in SanitizeSizes(defs, requested) <==>
      requested != [] && size in Sizes(defs) && (size in requested || NoneKnown(defs, requested))
  {
    SanitizeSizesCases(defs, requested);
  }

  /** A non-empty request against the catalog always selects some size. */
  lemma NonEmptyRequestSelects(requested: seq<int>)
    requires requested != []
    ensures SanitizeSizes(Definitions(), requested) != []
  {
    SanitizeSizesCases(Definitions(), requested);
  }

  /** The selection for the request [76, 192, 999]: the unknown 999 is dropped, with no fallback. */
  lemma SanitizeSizesExample()
    ensures SanitizeSizes(Definitions(), [76, 192, 999]) == [76, 192]
  {
    DefinitionSizes();
    var known := Sizes(Definitions());
    assert 76 in known && 192 in known && 999 !in known;
    assert KeepKnown([999], known) == [];
    assert KeepKnown([192, 999], known) == [192];
  }
}
