/**
 * `DiskMap` of 2024/day_9: the parsed disk with its unit layout and its two
 * run maps, updated in place by block-wise compaction (`defrag`) and by
 * whole-file compaction (`defrag_contiguous`, `move_file`, `add_free_space`).
 */
module DiskMap {
  import opened Wrappers
  import OrderedMaps
  import opened DiskLayout
  import RunIndex

  /** No free unit comes before a file unit. */
  ghost predicate Packed(layout: seq<DiskContent>)
  {
    forall i, j :: 0 <= i < j < |layout| && layout[i] == FreeSpace ==> layout[j] == FreeSpace
  }

  /** The offset of the first free unit, or the length of the layout when there is none. */
  function FirstFree(layout: seq<DiskContent>): (k: nat)
    ensures k <= |layout|
    ensures k < |layout| ==> layout[k] == FreeSpace
    ensures forall i :: 0 <= i < k ==> layout[i] != FreeSpace
    decreases |layout|
  {
    if layout == [] || layout[0] == FreeSpace then 0 else 1 + FirstFree(layout[1..])
  }

  /**
   * What `defrag` makes of a layout: leading file units stay put, trailing free
   * units stay put, and otherwise the leftmost free unit receives the
   * rightmost file unit, which leaves a free unit behind it.
   */
  function Compact(s: seq<DiskContent>): (r: seq<DiskContent>)
    ensures |r| == |s|
    decreases |s|
  {
    if s == [] then []
    else if s[0] != FreeSpace then [s[0]] + Compact(s[1..])
    else if s[|s| - 1] == FreeSpace then Compact(s[..|s| - 1]) + [FreeSpace]
    else [s[|s| - 1]] + Compact(s[1..|s| - 1]) + [FreeSpace]
  }

  /** The number of file units of a layout. */
  function Files(s: seq<DiskContent>): (n: nat)
    ensures n <= |s|
    decreases |s|
  {
    if s == [] then 0 else (if s[0] != FreeSpace then 1 else 0) + Files(s[1..])
  }

  lemma {:induction false} FilesLast(s: seq<DiskContent>)
    requires s != []
    ensures Files(s) == Files(s[..|s| - 1]) + (if s[|s| - 1] != FreeSpace then 1 else 0)
    decreases |s|
  {
    if |s| > 1 {
      FilesLast(s[1..]);
      assert s[1..][..|s[1..]| - 1] == s[..|s| - 1][1..];
    }
  }

  /** A trailing free unit stays last, whatever comes before it. */
  lemma {:induction false} CompactLastFree(s: seq<DiskContent>)
    requires s != [] && s[|s| - 1] == FreeSpace
    ensures Compact(s) == Compact(s[..|s| - 1]) + [FreeSpace]
    decreases |s|
  {
    if s[0] != FreeSpace {
      CompactLastFree(s[1..]);
      assert s[1..][..|s[1..]| - 1] == s[..|s| - 1][1..];
    }
  }

  /** `Compact` keeps the units. */
  lemma {:induction false} CompactUnits(s: seq<DiskContent>)
    ensures multiset(Compact(s)) == multiset(s)
    decreases |s|
  {
    if s == [] {
    } else if s[0] != FreeSpace {
      CompactUnits(s[1..]);
      UnitsLeading(s, Compact(s[1..]));
    } else if s[|s| - 1] == FreeSpace {
      CompactUnits(s[..|s| - 1]);
      UnitsTrailing(s, Compact(s[..|s| - 1]));
    } else {
      CompactUnits(s[1..|s| - 1]);
      UnitsSwapped(s, Compact(s[1..|s| - 1]));
    }
  }

  lemma UnitsLeading(s: seq<DiskContent>, c: seq<DiskContent>)
    requires s != [] && multiset(c) == multiset(s[1..])
    ensures multiset([s[0]] + c) == multiset(s)
  {
    assert s == s[..1] + s[1..];
    assert s[..1] == [s[0]];
  }

  lemma UnitsTrailing(s: seq<DiskContent>, c: seq<DiskContent>)
    requires s != [] && s[|s| - 1] == FreeSpace
    requires multiset(c) == multiset(s[..|s| - 1])
    ensures multiset(c + [FreeSpace]) == multiset(s)
  {
    assert s == s[..|s| - 1] + s[|s| - 1..];
    assert s[|s| - 1..] == [FreeSpace];
  }

  lemma UnitsSwapped(s: seq<DiskContent>, c: seq<DiskContent>)
    requires |s| >= 2 && s[0] == FreeSpace
    requires multiset(c) == multiset(s[1..|s| - 1])
    ensures multiset([s[|s| - 1]] + c + [FreeSpace]) == multiset(s)
  {
    var t := s[1..];
    assert s == s[..1] + t && s[..1] == [FreeSpace];
    assert t == t[..|t| - 1] + t[|t| - 1..] && t[..|t| - 1] == s[1..|s| - 1] && t[|t| - 1..] == [s[|s| - 1]];
  }

  /** `Compact` puts the file units first and the free units last. */
  lemma {:induction false} CompactSplits(s: seq<DiskContent>)
    ensures forall i :: 0 <= i < |s| ==> (Compact(s)[i] != FreeSpace <==> i < Files(s))
    decreases |s|
  {
    if s == [] {
    } else if s[0] != FreeSpace {
      CompactSplits(s[1..]);
    } else if s[|s| - 1] == FreeSpace {
      CompactSplits(s[..|s| - 1]);
      FilesLast(s);
    } else {
      var m := s[1..|s| - 1];
      CompactSplits(m);
      FilesLast(s[1..]);
      assert s[1..][..|s[1..]| - 1] == m;
      var c := Compact(s);
      assert c == [s[|s| - 1]] + Compact(m) + [FreeSpace];
      forall i | 0 < i < |s| - 1
        ensures c[i] == Compact(m)[i - 1]
      {
      }
    }
  }

  /** Every file unit already inside the file part stays where it is. */
  lemma {:induction false} CompactKeeps(s: seq<DiskContent>)
    ensures forall i :: 0 <= i < Files(s) && s[i] != FreeSpace ==> Compact(s)[i] == s[i]
    decreases |s|
  {
    if s == [] {
    } else if s[0] != FreeSpace {
      CompactKeeps(s[1..]);
    } else if s[|s| - 1] == FreeSpace {
      CompactKeeps(s[..|s| - 1]);
      FilesLast(s);
    } else {
      var m := s[1..|s| - 1];
      CompactKeeps(m);
      FilesLast(s[1..]);
      assert s[1..][..|s[1..]| - 1] == m;
      var c := Compact(s);
      assert c == [s[|s| - 1]] + Compact(m) + [FreeSpace];
      forall i | 0 < i < Files(s) && s[i] != FreeSpace
        ensures c[i] == s[i]
      {
        assert c[i] == Compact(m)[i - 1] && s[i] == m[i - 1];
      }
    }
  }

  /** File units before the first free unit stay put. */
  lemma {:induction false} CompactPrefix(s: seq<DiskContent>)
    ensures forall i :: 0 <= i < FirstFree(s) ==> Compact(s)[i] == s[i]
    decreases |s|
  {
    if s != [] && s[0] != FreeSpace {
      CompactPrefix(s[1..]);
    }
  }

  /** The compacted layout is packed. */
  lemma CompactPacked(s: seq<DiskContent>)
    ensures Packed(Compact(s))
  {
    CompactSplits(s);
  }

  /** The compacted layout is a packed rearrangement that keeps the leading file units. */
  lemma CompactFacts(s: seq<DiskContent>)
    ensures multiset(Compact(s)) == multiset(s)
    ensures Packed(Compact(s))
    ensures forall i :: 0 <= i < FirstFree(s) ==> Compact(s)[i] == s[i]
  {
    CompactUnits(s);
    CompactPacked(s);
    CompactPrefix(s);
  }

  /**
   * The layout while `defrag` runs: settled below `lo`, settled from `hi` on,
   * and the window in between still to be compacted.
   */
  ghost function Pending(l: seq<DiskContent>, lo: nat, hi: nat): seq<DiskContent>
    requires lo <= hi <= |l|
  {
    l[..lo] + Compact(l[lo..hi]) + l[hi..]
  }

  /** A window of at most one unit is already compact. */
  lemma SettledWindow(l: seq<DiskContent>, lo: nat, hi: nat)
    requires lo <= hi <= |l| && hi <= lo + 1
    ensures Pending(l, lo, hi) == l
  {
    if hi == lo + 1 {
      assert Compact(l[lo..hi]) == l[lo..hi];
    }
    assert l == l[..lo] + l[lo..hi] + l[hi..];
  }

  /** File units at the left edge of the window are settled. */
  lemma {:induction false} SkipFiles(l: seq<DiskContent>, lo: nat, mid: nat, hi: nat)
    requires lo <= mid <= hi <= |l|
    requires forall i :: lo <= i < mid ==> l[i] != FreeSpace
    ensures Pending(l, lo, hi) == Pending(l, mid, hi)
    decreases mid - lo
  {
    if lo < mid {
      var w := l[lo..hi];
      assert w[0] == l[lo] && w[1..] == l[lo + 1..hi];
      assert l[..lo] + [l[lo]] == l[..lo + 1];
      SkipFiles(l, lo + 1, mid, hi);
    }
  }

  /** Free units at the right edge of the window are settled. */
  lemma {:induction false} SkipFrees(l: seq<DiskContent>, lo: nat, mid: nat, hi: nat)
    requires lo <= mid <= hi <= |l|
    requires forall i :: mid <= i < hi ==> l[i] == FreeSpace
    ensures Pending(l, lo, hi) == Pending(l, lo, mid)
    decreases hi - mid
  {
    if mid < hi {
      var w := l[lo..hi];
      CompactLastFree(w);
      assert w[..|w| - 1] == l[lo..hi - 1];
      assert [FreeSpace] + l[hi..] == l[hi - 1..];
      SkipFrees(l, lo, mid, hi - 1);
    }
  }

  /**
   * Swapping the free unit at the left edge of the window with the file unit
   * at its right edge settles both.
   */
  lemma SwapSettles(l: seq<DiskContent>, lo: nat, fi: nat)
    requires lo < fi < |l|
    requires l[lo] == FreeSpace && l[fi] != FreeSpace
    ensures Pending(l, lo, fi + 1) == Pending(Swap(l, lo, fi), lo + 1, fi)
  {
    var m, x := l[lo + 1..fi], l[fi];
    SwapParts(l, lo, fi);
    CompactWrapped(m, x);
  }

  /**
   * One round of `defrag` on the window: after the swap, the units the two
   * scans pass over are settled as well.
   */
  lemma StepSettles(l: seq<DiskContent>, lo: nat, fi: nat, nextFree: nat, nextFile: nat)
    requires lo < fi < |l|
    requires l[lo] == FreeSpace && l[fi] != FreeSpace
    requires lo < nextFree <= |l| && nextFile < fi
    requires forall i :: lo + 1 <= i < nextFree ==> Swap(l, lo, fi)[i] != FreeSpace
    requires nextFile == fi - 1 || nextFree <= nextFile
    requires forall i :: nextFile < i <= fi - 1 ==> Swap(l, lo, fi)[i] == FreeSpace
    ensures nextFree <= fi && nextFree <= nextFile + 1
    ensures Pending(Swap(l, lo, fi), nextFree, nextFile + 1) == Pending(l, lo, fi + 1)
  {
    var l' := Swap(l, lo, fi);
    SwapSettles(l, lo, fi);
    assert l'[fi] == FreeSpace;
    SkipFiles(l', lo + 1, nextFree, fi);
    SkipFrees(l', nextFree, nextFile + 1, fi);
  }

  /**
   * The leading file units and the trailing free units of a layout are
   * settled before `defrag`'s first swap.
   */
  lemma EndsSettled(l: seq<DiskContent>, freeIndex: nat, fileIndex: nat)
    requires freeIndex <= |l| && fileIndex < |l|
    requires forall i :: 0 <= i < freeIndex ==> l[i] != FreeSpace
    requires fileIndex == |l| - 1 || freeIndex <= fileIndex
    requires forall i :: fileIndex < i < |l| ==> l[i] == FreeSpace
    ensures freeIndex <= fileIndex + 1
    ensures Pending(l, freeIndex, fileIndex + 1) == Compact(l)
  {
    var hi := fileIndex + 1;
    assert freeIndex <= hi <= |l|;
    FrontSettled(l, freeIndex);
    SkipFrees(l, freeIndex, hi, |l|);
  }

  /** The leading file units of a layout are settled. */
  lemma FrontSettled(l: seq<DiskContent>, freeIndex: nat)
    requires freeIndex <= |l|
    requires forall i :: 0 <= i < freeIndex ==> l[i] != FreeSpace
    ensures Pending(l, freeIndex, |l|) == Compact(l)
  {
    WholeWindow(l);
    SkipFiles(l, 0, freeIndex, |l|);
  }

  /** Before anything is settled, the window is the whole layout. */
  lemma WholeWindow(l: seq<DiskContent>)
    ensures Pending(l, 0, |l|) == Compact(l)
  {
    assert l[..0] == [] && l[0..|l|] == l && l[|l|..] == [];
  }

  /** A window that starts free and ends on a file unit `x` compacts to `x` first and a free unit last. */
  lemma CompactWrapped(m: seq<DiskContent>, x: DiskContent)
    requires x != FreeSpace
    ensures Compact([FreeSpace] + m + [x]) == [x] + Compact(m) + [FreeSpace]
  {
    var w := [FreeSpace] + m + [x];
    assert w[1..|w| - 1] == m;
  }

  /** The pieces of a layout around a window, before and after its end units are swapped. */
  lemma SwapParts(l: seq<DiskContent>, lo: nat, fi: nat)
    requires lo < fi < |l|
    requires l[lo] == FreeSpace
    ensures l[lo..fi + 1] == [FreeSpace] + l[lo + 1..fi] + [l[fi]]
    ensures Swap(l, lo, fi)[..lo + 1] == l[..lo] + [l[fi]]
    ensures Swap(l, lo, fi)[lo + 1..fi] == l[lo + 1..fi]
    ensures Swap(l, lo, fi)[fi..] == [FreeSpace] + l[fi + 1..]
  {
    var l' := Swap(l, lo, fi);
    assert l'[lo + 1..fi] == l[lo + 1..fi] by {
      forall k | lo + 1 <= k < fi
        ensures l'[k] == l[k]
      {
      }
    }
  }

  /** The file entries of `files` whose ids are in `ids`, largest id first. */
  function Descending(files: map<nat, RunIndex.Run>, ids: set<nat>): (r: seq<(nat, nat, nat)>)
    requires ids <= files.Keys
    ensures |r| == |ids|
    decreases ids
  {
    if ids == {} then []
    else
      var id := OrderedMaps.MaxOf(ids);
      [(id, files[id].0, files[id].1)] + Descending(files, ids - {id})
  }

  /**
   * The forward scan of `defrag`: from `from`, the first free unit, or the
   * length of the layout when there is none.
   */
  method NextFree(layout: seq<DiskContent>, from: nat) returns (k: nat)
    requires from <= |layout|
    ensures from <= k <= |layout|
    ensures forall i :: from <= i < k ==> layout[i] != FreeSpace
    ensures k < |layout| ==> layout[k] == FreeSpace
  {
    k := from;
    while k < |layout| && layout[k] != FreeSpace
      invariant from <= k <= |layout|
      invariant forall i :: from <= i < k ==> layout[i] != FreeSpace
    {
      k := k + 1;
    }
  }

  /**
   * The backward scan of `defrag`: from `from` down past free units, but not
   * below `floor`; it stops above `floor` only on a file unit.
   */
  method PrevFile(layout: seq<DiskContent>, from: nat, floor: nat) returns (k: nat)
    requires from < |layout|
    ensures k == from || floor <= k < from
    ensures forall i :: k < i <= from ==> layout[i] == FreeSpace
    ensures k > floor ==> layout[k] != FreeSpace
  {
    k := from;
    while k > floor && layout[k] == FreeSpace
      invariant k == from || floor <= k < from
      invariant forall i :: k < i <= from ==> layout[i] == FreeSpace
    {
      k := k - 1;
    }
  }

  /**
   * The list `defrag_contiguous` collects before its loop: every file entry
   * as (id, start, length), largest id first.
   */
  method ListDescending(files: map<nat, RunIndex.Run>) returns (toProcess: seq<(nat, nat, nat)>)
    ensures toProcess == Descending(files, files.Keys)
  {
    toProcess := [];
    var pending := files.Keys;
    while pending != {}
      invariant pending <= files.Keys
      invariant toProcess + Descending(files, pending) == Descending(files, files.Keys)
      decreases pending
    {
      var id := OrderedMaps.MaxOf(pending);
      toProcess := toProcess + [(id, files[id].0, files[id].1)];
      pending := pending - {id};
    }
  }

  /**
   * The cursors `defrag` starts from: the first free unit from the left and,
   * not below it, the last file unit from the right. What lies outside them
   * is already where `Compact` puts it.
   */
  method Cursors(layout: seq<DiskContent>) returns (freeIndex: nat, fileIndex: nat)
    ensures freeIndex <= |layout| && (fileIndex < |layout| || fileIndex == 0 == |layout|)
    ensures forall i :: 0 <= i < freeIndex ==> layout[i] != FreeSpace
    ensures freeIndex < |layout| ==> layout[freeIndex] == FreeSpace
    ensures forall i :: fileIndex < i < |layout| ==> layout[i] == FreeSpace
    ensures freeIndex < fileIndex ==> layout[fileIndex] != FreeSpace
    ensures |layout| > 0 ==> freeIndex <= fileIndex + 1 && Pending(layout, freeIndex, fileIndex + 1) == Compact(layout)
  {
    freeIndex := NextFree(layout, 0);
    fileIndex := 0;
    if |layout| > 0 {
      fileIndex := PrevFile(layout, |layout| - 1, freeIndex);
      EndsSettled(layout, freeIndex, fileIndex);
    }
  }

  class DiskMap {
    var layout: seq<DiskContent>
    var files: map<nat, RunIndex.Run>
    var free: map<nat, nat>

    /**
     * `DiskMap::new`: one pass over the characters builds the layout and both
     * maps exactly as the parse fold does; the resulting runs are disjoint and
     * the two checksums agree.
     */
    constructor(contents: string)
      ensures layout == Parse(contents).layout
      ensures files == Parse(contents).files
      ensures free == Parse(contents).free
      ensures RunIndex.Disjoint(files, free)
      ensures Checksum(layout) == ChecksumContiguous(files)
    {
      var diskLayout: seq<DiskContent> := [];
      var contiguousFiles: map<nat, RunIndex.Run> := map[];
      var contiguousFree: map<nat, nat> := map[];
      var isFile := true;
      var fileId: nat := 0;
      var index: nat := 0;
      var k := 0;
      while k < |contents|
        invariant k <= |contents|
        invariant Parser(diskLayout, contiguousFiles, contiguousFree, isFile, fileId, index) == Parse(contents[..k])
      {
        var c := contents[k];
        assert contents[..k + 1][..k] == contents[..k];
        match DigitValue(c) {
          case Some(count) =>
            if isFile {
              diskLayout := diskLayout + Repeat(File(fileId), count);
              contiguousFiles := contiguousFiles[fileId := (index, count)];
              fileId := fileId + 1;
            } else {
              diskLayout := diskLayout + Repeat(FreeSpace, count);
              contiguousFree := contiguousFree[index := count];
            }
            isFile := !isFile;
            index := index + count;
          case None =>
        }
        k := k + 1;
      }
      assert contents[..k] == contents;
      layout := diskLayout;
      files := contiguousFiles;
      free := contiguousFree;
      ParsedRunsDisjoint(contents);
      ParsedChecksumsAgree(contents);
    }

    /**
     * `defrag`: a cursor from the left finds free units, a cursor from the right
     * finds file units, and the two are swapped until the cursors meet. The
     * result is `Compact` of the old layout: a rearrangement of the same units
     * in which no free unit comes before a file unit, the file units already
     * in the file part stay put, and each free unit there, from the left,
     * receives the next file unit from the right.
     */
    method Defrag()
      modifies this`layout
      ensures layout == Compact(old(layout))
      ensures |layout| == |old(layout)|
      ensures multiset(layout) == multiset(old(layout))
      ensures Packed(layout)
      ensures forall i :: 0 <= i < FirstFree(old(layout)) ==> layout[i] == old(layout)[i]
    {
      ghost var start := layout;
      var freeIndex: nat, fileIndex: nat := Cursors(layout);
      while freeIndex < fileIndex
        invariant |layout| == |start|
        invariant freeIndex <= |layout| && (fileIndex < |layout| || fileIndex == 0 == |layout|)
        invariant forall i :: 0 <= i < freeIndex ==> layout[i] != FreeSpace
        invariant freeIndex < |layout| ==> layout[freeIndex] == FreeSpace
        invariant forall i :: fileIndex < i < |layout| ==> layout[i] == FreeSpace
        invariant freeIndex < fileIndex ==> layout[fileIndex] != FreeSpace
        invariant |layout| > 0 ==> freeIndex <= fileIndex + 1 && Pending(layout, freeIndex, fileIndex + 1) == Compact(start)
        decreases fileIndex - freeIndex
      {
        freeIndex, fileIndex := SwapStep(freeIndex, fileIndex);
      }
      if |layout| > 0 {
        SettledWindow(layout, freeIndex, fileIndex + 1);
      }
      CompactFacts(start);
    }

    /**
     * One round of the `defrag` loop: the free unit at `freeIndex` and the
     * file unit at `fileIndex` are swapped, then both cursors move on to the
     * next free unit from the left and the next file unit from the right.
     */
    method SwapStep(freeIndex: nat, fileIndex: nat) returns (nextFree: nat, nextFile: nat)
      requires freeIndex < fileIndex < |layout|
      requires forall i :: 0 <= i < freeIndex ==> layout[i] != FreeSpace
      requires layout[freeIndex] == FreeSpace && layout[fileIndex] != FreeSpace
      requires forall i :: fileIndex < i < |layout| ==> layout[i] == FreeSpace
      modifies this`layout
      ensures layout == Swap(old(layout), freeIndex, fileIndex)
      ensures freeIndex < nextFree <= |layout| && nextFile < fileIndex
      ensures forall i :: 0 <= i < nextFree ==> layout[i] != FreeSpace
      ensures nextFree < |layout| ==> layout[nextFree] == FreeSpace
      ensures forall i :: nextFile < i < |layout| ==> layout[i] == FreeSpace
      ensures nextFree < nextFile ==> layout[nextFile] != FreeSpace
      ensures nextFree <= nextFile + 1
      ensures Pending(layout, nextFree, nextFile + 1) == Pending(old(layout), freeIndex, fileIndex + 1)
    {
      ghost var before := layout;
      layout := Swap(layout, freeIndex, fileIndex);
      nextFree := NextFree(layout, freeIndex + 1);
      nextFile := PrevFile(layout, fileIndex - 1, nextFree);
      StepSettles(before, freeIndex, fileIndex, nextFree, nextFile);
    }

    /**
     * `add_free_space(pos, len)`: the span is merged with the run before it when
     * that run ends at `pos`, and with the run that starts at `pos + len`.
     */
    method AddFreeSpace(pos: nat, len: nat)
      modifies this`free
      ensures free == RunIndex.AddedFree(old(free), pos, len)
    {
      var mergedStart := pos;
      var mergedLen := len;
      var prev := OrderedMaps.KeyBefore(free, pos);
      if prev.Some? && prev.value + free[prev.value] == pos {
        mergedStart := prev.value;
        mergedLen := mergedLen + free[prev.value];
        free := free - {prev.value};
      }
      if pos + len in free {
        mergedLen := mergedLen + free[pos + len];
        free := free - {pos + len};
      }
      free := free[mergedStart := mergedLen];
    }

    /**
     * `move_file`: the free run at `newPos` gives up `len` units from its
     * front, the file is re-pointed at `newPos`, and its old span is freed.
     */
    method MoveFile(id: nat, oldPos: nat, len: nat, newPos: nat)
      modifies this`files, this`free
      ensures files == old(files)[id := (newPos, len)]
      ensures free == RunIndex.AddedFree(RunIndex.TakeFree(old(free), newPos, len), oldPos, len)
    {
      if newPos in free {
        var freeLen := free[newPos];
        free := free - {newPos};
        free := free - {newPos};
        if freeLen > len {
          free := free[newPos + len := freeLen - len];
        }
      }
      assert free == RunIndex.TakeFree(old(free), newPos, len);
      files := files[id := (newPos, len)];
      AddFreeSpace(oldPos, len);
    }

    /**
     * `defrag_contiguous`: the file entries are listed largest id first, then
     * each listed file moves to the lowest-start free run before it that is
     * long enough. Every file keeps its length and only moves towards offset
     * 0; when the runs were disjoint they stay so and the free total is kept.
     */
    method DefragContiguous()
      modifies this`files, this`free
      ensures (files, free) == RunIndex.ContiguousCompaction(old(files), old(free))
      ensures files.Keys == old(files).Keys
      ensures forall id :: id in files ==> files[id].1 == old(files)[id].1 && files[id].0 <= old(files)[id].0
      ensures RunIndex.Disjoint(old(files), old(free)) ==>
        RunIndex.Disjoint(files, free) && RunIndex.TotalFree(free) == RunIndex.TotalFree(old(free))
    {
      ghost var snapshot := files;
      var toProcess := ListDescending(files);

      ghost var remaining := snapshot.Keys;
      var i := 0;
      while i < |toProcess|
        invariant i <= |toProcess|
        invariant remaining <= snapshot.Keys
        invariant toProcess[i..] == Descending(snapshot, remaining)
        invariant RunIndex.CompactFrom(snapshot, remaining, files, free) == RunIndex.ContiguousCompaction(snapshot, old(free))
      {
        var (id, pos, len) := toProcess[i];
        assert toProcess[i..] == [toProcess[i]] + toProcess[i + 1..];
        assert id == OrderedMaps.MaxOf(remaining) && (pos, len) == snapshot[id];
        ghost var next := RunIndex.ProcessFile(files, free, id, pos, len);
        var fit := RunIndex.FirstFit(free, pos, len);
        if fit.Some? {
          MoveFile(id, pos, len, fit.value);
        }
        assert (files, free) == next;
        remaining := remaining - {id};
        i := i + 1;
      }
      RunIndex.CompactionKeepsFiles(snapshot, old(free));
      if RunIndex.Disjoint(snapshot, old(free)) {
        RunIndex.CompactionKeepsRuns(snapshot, old(free));
      }
    }
  }
}
