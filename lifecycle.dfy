/**
 * The life of the tracked output list after a build: the cleanup pass that
 * deletes tracked files and forgets those it deleted, and the entries a
 * zip archive is given.
 */
module Lifecycle {
  import opened Basics
  import opened Filenames

  /** What a cleanup pass leaves tracked, and the files it deleted. */
  datatype SweepResult = SweepResult(kept: seq<string>, deleted: set<string>)

  /**
   * One cleanup pass over the tracked paths, front to back. A path is
   * forgotten when its file exists and deleting it succeeds; a file exists
   * when it was `present` as the pass began and the pass has not deleted it
   * already. Whether a deletion succeeds is not part of this model and is
   * passed in as `unlinked`.
   */
  function Sweep(files: seq<string>, present: set<string>, unlinked: string -> bool): SweepResult
    decreases |files|
  {
    if files == [] then SweepResult([], {})
    else
      var before := Sweep(files[..|files| - 1], present, unlinked);
      var path := files[|files| - 1];
      if path in present && path !in before.deleted && unlinked(path) then
        SweepResult(before.kept, before.deleted + {path})
      else
        SweepResult(before.kept + [path], before.deleted)
  }

  /** One more tracked path: the pass over the longer list is one step after the pass over the shorter. */
  lemma SweepSnoc(front: seq<string>, path: string, present: set<string>, unlinked: string -> bool)
    ensures var before := Sweep(front, present, unlinked);
      Sweep(front + [path], present, unlinked) ==
        if path in present && path !in before.deleted && unlinked(path)
        then SweepResult(before.kept, before.deleted + {path})
        else SweepResult(before.kept + [path], before.deleted)
  {
    assert (front + [path])[..|front|] == front;
  }

  /** The pass deletes exactly the tracked files that exist and whose deletion succeeds. */
  lemma {:induction false} SweepDeletes(files: seq<string>, present: set<string>, unlinked: string -> bool)
    ensures forall p :: p in Sweep(files, present, unlinked).deleted <==> p in files && p in present && unlinked(p)
    decreases |files|
  {
    if files != [] {
      var front := files[..|files| - 1];
      SweepDeletes(front, present, unlinked);
      assert files == front + [files[|files| - 1]];
    }
  }

  /**
   * A path stays tracked once for each time it was tracked, less the one
   * occurrence whose file the pass deleted.
   */
  lemma {:induction false} SweepCounts(files: seq<string>, present: set<string>, unlinked: string -> bool)
    ensures var s := Sweep(files, present, unlinked);
      forall p :: multiset(s.kept)[p] + (if p in s.deleted then 1 else 0) == multiset(files)[p]
    decreases |files|
  {
    if files != [] {
      var front, path := files[..|files| - 1], files[|files| - 1];
      SweepCounts(front, present, unlinked);
      SweepDeletes(front, present, unlinked);
      assert files == front + [path];
      assert multiset(files) == multiset(front) + multiset{path};
    }
  }

  /**
   * One more tracked path: it is kept, at the end, unless its file exists,
   * its deletion succeeds and no earlier occurrence deleted it already.
   */
  lemma SweepKeptStep(front: seq<string>, path: string, present: set<string>, unlinked: string -> bool)
    ensures Sweep(front + [path], present, unlinked).kept == Sweep(front, present, unlinked).kept +
      (if path in present && unlinked(path) && path !in front then [] else [path])
  {
    SweepSnoc(front, path, present, unlinked);
    SweepDeletes(front, present, unlinked);
  }

  /**
   * The positions of the list whose entries the pass keeps: entry i is kept
   * unless its file exists, its deletion succeeds and no earlier occurrence
   * of the same path deleted it already.
   */
  function KeptPositions(files: seq<string>, present: set<string>, unlinked: string -> bool): seq<nat>
    decreases |files|
  {
    if files == [] then []
    else
      var n := |files| - 1;
      var path := files[n];
      KeptPositions(files[..n], present, unlinked) +
        (if path in present && unlinked(path) && path !in files[..n] then [] else [n])
  }

  /** Kept positions lie inside the list and increase. */
  lemma {:induction false} KeptPositionsIncrease(files: seq<string>, present: set<string>, unlinked: string -> bool)
    ensures forall k :: 0 <= k < |KeptPositions(files, present, unlinked)| ==>
      KeptPositions(files, present, unlinked)[k] < |files|
    ensures forall k, l :: 0 <= k < l < |KeptPositions(files, present, unlinked)| ==>
      KeptPositions(files, present, unlinked)[k] < KeptPositions(files, present, unlinked)[l]
    decreases |files|
  {
    if files != [] {
      var n := |files| - 1;
      var front, path := files[..n], files[n];
      KeptPositionsIncrease(front, present, unlinked);
      var earlier := KeptPositions(front, present, unlinked);
      assert KeptPositions(files, present, unlinked) ==
        earlier + (if path in present && unlinked(path) && path !in front then [] else [n]);
    }
  }

  /** An earlier position is kept in the whole list exactly when it is kept in the list without its last entry. */
  lemma KeptPositionsFront(files: seq<string>, present: set<string>, unlinked: string -> bool, i: int)
    requires 0 <= i < |files| - 1
    ensures var front := files[..|files| - 1];
      && (i in KeptPositions(files, present, unlinked) <==> i in KeptPositions(front, present, unlinked))
      && front[i] == files[i] && front[..i] == files[..i]
  {
    var n := |files| - 1;
    var path := files[n];
    assert KeptPositions(files, present, unlinked) == KeptPositions(files[..n], present, unlinked) +
      (if path in present && unlinked(path) && path !in files[..n] then [] else [n]);
  }

  /** The last position is kept unless its file exists, is deleted, and no earlier entry has its path. */
  lemma KeptPositionsLast(files: seq<string>, present: set<string>, unlinked: string -> bool)
    requires files != []
    ensures var n := |files| - 1;
      n in KeptPositions(files, present, unlinked) <==> !(files[n] in present && unlinked(files[n]) && files[n] !in files[..n])
  {
    var n := |files| - 1;
    var earlier := KeptPositions(files[..n], present, unlinked);
    KeptPositionsIncrease(files[..n], present, unlinked);
    forall x | x in earlier ensures x < n {
      var k :| 0 <= k < |earlier| && earlier[k] == x;
    }
  }

  /** Entry i is at a kept position exactly when it survives the pass. */
  lemma {:induction false} KeptPositionsExact(files: seq<string>, present: set<string>, unlinked: string -> bool)
    ensures forall i :: 0 <= i < |files| ==>
      (i in KeptPositions(files, present, unlinked) <==>
        !(files[i] in present && unlinked(files[i]) && files[i] !in files[..i]))
    decreases |files|
  {
    if files != [] {
      var n := |files| - 1;
      KeptPositionsExact(files[..n], present, unlinked);
      forall i | 0 <= i < |files|
        ensures i in KeptPositions(files, present, unlinked) <==>
          !(files[i] in present && unlinked(files[i]) && files[i] !in files[..i])
      {
        if i < n {
          KeptPositionsFront(files, present, unlinked, i);
        } else {
          KeptPositionsLast(files, present, unlinked);
        }
      }
    }
  }

  /** What the pass keeps is the list's entries at the kept positions, in order. */
  lemma {:induction false} KeptPositionsSelect(files: seq<string>, present: set<string>, unlinked: string -> bool)
    ensures var positions, kept := KeptPositions(files, present, unlinked), Sweep(files, present, unlinked).kept;
      && |positions| == |kept|
      && forall k :: 0 <= k < |positions| ==> 0 <= positions[k] < |files| && kept[k] == files[positions[k]]
    decreases |files|
  {
    if files != [] {
      var n := |files| - 1;
      var front, path := files[..n], files[n];
      KeptPositionsSelect(front, present, unlinked);
      SweepKeptStep(front, path, present, unlinked);
      assert files == front + [path];
    }
  }

  /**
   * The pass keeps the surviving paths in their original relative order:
   * entry k of what it keeps is the entry at `positions[k]` of the list, and
   * the positions increase. Entry i survives exactly when its file cannot be
   * deleted, or an earlier occurrence of the same path already deleted it.
   */
  lemma SweepKeepsOrder(files: seq<string>, present: set<string>, unlinked: string -> bool)
    returns (positions: seq<nat>)
    ensures var kept := Sweep(files, present, unlinked).kept;
      && |positions| == |kept|
      && (forall k :: 0 <= k < |positions| ==> positions[k] < |files| && kept[k] == files[positions[k]])
      && (forall k, l :: 0 <= k < l < |positions| ==> positions[k] < positions[l])
    ensures forall i :: 0 <= i < |files| ==>
      (i in positions <==> !(files[i] in present && unlinked(files[i]) && files[i] !in files[..i]))
  {
    positions := KeptPositions(files, present, unlinked);
    KeptPositionsIncrease(files, present, unlinked);
    KeptPositionsExact(files, present, unlinked);
    KeptPositionsSelect(files, present, unlinked);
  }

  /** A tracked file that is still on disk after the pass is still tracked. */
  lemma StillPresentStaysTracked(files: seq<string>, present: set<string>, unlinked: string -> bool, p: string)
    requires p in files && p in present - Sweep(files, present, unlinked).deleted
    ensures p in Sweep(files, present, unlinked).kept
  {
    SweepCounts(files, present, unlinked);
    assert multiset(Sweep(files, present, unlinked).kept)[p] > 0;
  }

  /** A pass that can delete none of the tracked files keeps them all. */
  lemma {:induction false} SweepKeepsAllWhenNothingDeletable(files: seq<string>, present: set<string>, unlinked: string -> bool)
    requires forall p :: p in files ==> !(p in present && unlinked(p))
    ensures Sweep(files, present, unlinked) == SweepResult(files, {})
    decreases |files|
  {
    if files != [] {
      var front := files[..|files| - 1];
      assert forall p :: p in front ==> p in files;
      SweepKeepsAllWhenNothingDeletable(front, present, unlinked);
      assert files == front + [files[|files| - 1]];
    }
  }

  /**
   * Cleanup can be retried safely: a second pass over what the first kept,
   * with the same deletion outcomes and the deleted files gone, deletes
   * nothing and keeps everything.
   */
  lemma SweepIdempotent(files: seq<string>, present: set<string>, unlinked: string -> bool)
    ensures var s := Sweep(files, present, unlinked);
      Sweep(s.kept, present - s.deleted, unlinked) == SweepResult(s.kept, {})
  {
    var s := Sweep(files, present, unlinked);
    SweepDeletes(files, present, unlinked);
    SweepCounts(files, present, unlinked);
    forall p | p in s.kept ensures !(p in present - s.deleted && unlinked(p)) {
      assert multiset(s.kept)[p] > 0;
      assert multiset(files)[p] > 0;
      assert p in files;
    }
    SweepKeepsAllWhenNothingDeletable(s.kept, present - s.deleted, unlinked);
  }

  /**
   * The pass forgets every tracked path exactly when no path is tracked
   * twice and every tracked file exists and is deleted. A path tracked twice
   * is kept once: its second occurrence finds the file already gone.
   */
  lemma SweepEmptiesIff(files: seq<string>, present: set<string>, unlinked: string -> bool)
    ensures Sweep(files, present, unlinked).kept == [] <==>
      Distinct(files) && forall p :: p in files ==> p in present && unlinked(p)
  {
    var s := Sweep(files, present, unlinked);
    SweepDeletes(files, present, unlinked);
    SweepCounts(files, present, unlinked);
    DistinctIffCountsAtMostOne(files);
    if s.kept == [] {
      forall p | p in files ensures p in present && unlinked(p) {
        assert multiset(files)[p] > 0;
      }
      forall p ensures multiset(files)[p] <= 1 {
        assert multiset(s.kept)[p] == 0;
      }
    } else {
      assert multiset(s.kept)[s.kept[0]] > 0;
    }
  }

  /** A file as it enters the zip archive: its path and the name it is stored under. */
  datatype ZipEntry = ZipEntry(path: string, name: string)

  /** A file as the archive is given it: under its base name. */
  function ZipEntryFor(path: string): ZipEntry
  {
    ZipEntry(path, Basename(path))
  }

  /** The entries an archive of `files` is given: every file, in order, under its base name. */
  function ZipEntries(files: seq<string>): (entries: seq<ZipEntry>)
  {
    seq(|files|, k requires 0 <= k < |files| => ZipEntryFor(files[k]))
  }

  /** One more tracked file: one more entry, at the end. */
  lemma ZipEntriesSnoc(front: seq<string>, path: string)
    ensures ZipEntries(front + [path]) == ZipEntries(front) + [ZipEntryFor(path)]
  {
    var all := front + [path];
    assert forall k :: 0 <= k < |front| ==> all[k] == front[k];
  }

  /**
   * Entries hold no directory part: each name is a suffix of its path with no
   * '/' in it, preceded by a '/' unless it is the whole path.
   */
  lemma ZipEntryNamesAreFlat(files: seq<string>)
    ensures |ZipEntries(files)| == |files|
    ensures forall k :: 0 <= k < |files| ==>
      var e := ZipEntries(files)[k];
      && e.path == files[k]
      && '/' !in e.name
      && |e.name| <= |files[k]| && files[k][|files[k]| - |e.name|..] == e.name
      && (|e.name| < |files[k]| ==> files[k][|files[k]| - |e.name| - 1] == '/')
  {
    forall k | 0 <= k < |files| {
      BasenameShape(files[k]);
    }
  }

  /**
   * PHP's truthiness of the optional output path: no path, the empty
   * string and "0" all count as "no path given".
   */
  predicate IsTruthy(outputPath: Option<string>)
  {
    outputPath.Some? && outputPath.value != "" && outputPath.value != "0"
  }
}
