/**
 * The run index of 2024/day_9: the file map (id -> (start, len)) and the free
 * map (start -> len), and the whole-file compaction that works on them
 * (`defrag_contiguous`, `move_file`, `add_free_space`), as functions of the
 * two maps. The class `DiskMap.DiskMap` runs the same steps in place.
 */
module RunIndex {
  import opened Wrappers
  import OrderedMaps

  /** A run of units: (start offset, length). */
  type Run = (nat, nat)

  function FreeLength(start: nat, len: nat): nat { len }

  /** The total length of the free map. */
  function TotalFree(free: map<nat, nat>): nat
  {
    OrderedMaps.Sum(free, FreeLength)
  }

  function FileLength(id: nat, run: Run): nat { run.1 }

  /** The total length of the file map. */
  function TotalFileLength(files: map<nat, Run>): nat
  {
    OrderedMaps.Sum(files, FileLength)
  }

  // ---------------------------------------------------------------------------
  // First fit: `contiguous_free_space.range(..file_pos).find(|(_, &len)| len >= file_len)`
  // ---------------------------------------------------------------------------

  function FirstFitFrom(free: map<nat, nat>, from: nat, limit: nat, need: nat): (r: Option<nat>)
    ensures r.Some? ==> from <= r.value < limit && r.value in free && free[r.value] >= need
    ensures r.Some? ==> forall k :: from <= k < r.value && k in free ==> free[k] < need
    ensures r.None? ==> forall k :: from <= k < limit && k in free ==> free[k] < need
    decreases limit - from
  {
    if from >= limit then None
    else if from in free && free[from] >= need then Some(from)
    else FirstFitFrom(free, from + 1, limit, need)
  }

  /**
   * The free run a file of length `need` starting at `limit` moves to: the
   * lowest-start free run that starts strictly before `limit` and is at least
   * `need` long, if there is one.
   */
  function FirstFit(free: map<nat, nat>, limit: nat, need: nat): (r: Option<nat>)
    ensures r.Some? ==> r.value < limit && r.value in free && free[r.value] >= need
    ensures r.Some? ==> forall k :: k < r.value && k in free ==> free[k] < need
    ensures r.None? ==> forall k :: k < limit && k in free ==> free[k] < need
  {
    FirstFitFrom(free, 0, limit, need)
  }

  // ---------------------------------------------------------------------------
  // `move_file`, first half: remove the chosen free run, re-insert what is left of it
  // ---------------------------------------------------------------------------

  /**
   * The free map after `move_file` has taken `len` units from the start of the
   * run at `start`: the run is removed (the second `remove` finds nothing), and
   * when it was longer than `len` its remainder is inserted at `start + len`.
   */
  function TakeFree(free: map<nat, nat>, start: nat, len: nat): map<nat, nat>
  {
    if start in free then
      var rest := free - {start};
      if free[start] > len then rest[start + len := free[start] - len] else rest
    else free
  }

  // ---------------------------------------------------------------------------
  // `add_free_space`
  // ---------------------------------------------------------------------------

  /** Whether the greatest-start run below `pos` ends exactly at `pos`. */
  predicate MergesBefore(free: map<nat, nat>, pos: nat)
  {
    var prev := OrderedMaps.KeyBefore(free, pos);
    prev.Some? && prev.value + free[prev.value] == pos
  }

  /** Where the run that receives the freed span starts. */
  function MergedStart(free: map<nat, nat>, pos: nat): (s: nat)
    ensures s <= pos
  {
    if MergesBefore(free, pos) then OrderedMaps.KeyBefore(free, pos).value else pos
  }

  /**
   * The free map after `add_free_space(pos, len)`: the span [pos, pos+len) is
   * merged with the run ending at `pos` (when the greatest start below `pos`
   * ends there) and with the run starting at `pos + len`, and the merged run
   * is inserted at its start.
   */
  function AddedFree(free: map<nat, nat>, pos: nat, len: nat): (r: map<nat, nat>)
    ensures MergedStart(free, pos) in r
    ensures pos + len <= MergedStart(free, pos) + r[MergedStart(free, pos)]
    ensures MergesBefore(free, pos) ==>
      var s := MergedStart(free, pos); s < pos && s in free && s + free[s] == pos
    ensures !MergesBefore(free, pos) ==> MergedStart(free, pos) == pos
    ensures pos + len in free && pos + len != MergedStart(free, pos) ==>
      MergedStart(free, pos) + r[MergedStart(free, pos)] == pos + len + free[pos + len]
    ensures pos + len != MergedStart(free, pos) ==> pos + len !in r
    ensures forall k :: k in free && k != MergedStart(free, pos) && k != pos + len ==> k in r && r[k] == free[k]
    ensures forall k :: k in r && k != MergedStart(free, pos) ==> k in free && r[k] == free[k]
  {
    var mergePrev := MergesBefore(free, pos);
    var start := MergedStart(free, pos);
    var prevLen := if mergePrev then free[start] else 0;
    var withoutPrev := if mergePrev then free - {start} else free;
    var nextLen := if pos + len in withoutPrev then withoutPrev[pos + len] else 0;
    (withoutPrev - {pos + len})[start := prevLen + len + nextLen]
  }

  // ---------------------------------------------------------------------------
  // `defrag_contiguous`
  // ---------------------------------------------------------------------------

  /**
   * One iteration of the loop of `defrag_contiguous` for file `id` taken from
   * the snapshot as (pos, len): when a first fit exists, `move_file` re-points
   * the file and updates the free map; otherwise nothing changes.
   */
  function ProcessFile(files: map<nat, Run>, free: map<nat, nat>, id: nat, pos: nat, len: nat): (map<nat, Run>, map<nat, nat>)
  {
    match FirstFit(free, pos, len)
    case None => (files, free)
    case Some(start) => (files[id := (start, len)], AddedFree(TakeFree(free, start, len), pos, len))
  }

  /**
   * The rest of the loop of `defrag_contiguous`: the ids in `remaining` are
   * processed from the largest down, each with the (pos, len) it had in
   * `snapshot`, the list collected before the loop.
   */
  function CompactFrom(snapshot: map<nat, Run>, remaining: set<nat>, files: map<nat, Run>, free: map<nat, nat>): (map<nat, Run>, map<nat, nat>)
    requires remaining <= snapshot.Keys
    decreases remaining
  {
    if remaining == {} then (files, free)
    else
      var id := OrderedMaps.MaxOf(remaining);
      var next := ProcessFile(files, free, id, snapshot[id].0, snapshot[id].1);
      CompactFrom(snapshot, remaining - {id}, next.0, next.1)
  }

  /** `defrag_contiguous` as a function of the two maps. */
  function ContiguousCompaction(files: map<nat, Run>, free: map<nat, nat>): (map<nat, Run>, map<nat, nat>)
  {
    CompactFrom(files, files.Keys, files, free)
  }

  // ---------------------------------------------------------------------------
  // Properties of the steps
  // ---------------------------------------------------------------------------

  /**
   * Taking `len` units from a run at least that long lowers the free total by
   * exactly `len`, provided the remainder does not land on a key that holds a
   * non-empty run.
   */
  lemma TakeFreeTotal(free: map<nat, nat>, start: nat, len: nat)
    requires start in free && free[start] >= len
    requires free[start] > len && len > 0 && start + len in free ==> free[start + len] == 0
    ensures TotalFree(TakeFree(free, start, len)) + len == TotalFree(free)
  {
    var rest := free - {start};
    OrderedMaps.SumRemove(free, FreeLength, start);
    if free[start] > len {
      if start + len in rest {
        OrderedMaps.SumUpdate<nat>(rest, FreeLength, start + len, free[start] - len);
      } else {
        OrderedMaps.SumInsert<nat>(rest, FreeLength, start + len, free[start] - len);
      }
    }
  }

  /** Dropping the run at `k` takes its length off the total, if there is one. */
  lemma TotalFreeRemove(m: map<nat, nat>, k: nat)
    ensures TotalFree(m) == TotalFree(m - {k}) + (if k in m then m[k] else 0)
  {
    if k in m {
      OrderedMaps.SumRemove<nat>(m, FreeLength, k);
    } else {
      assert m - {k} == m;
    }
  }

  /**
   * `add_free_space(pos, len)` raises the free total by exactly `len`, unless
   * its final insert overwrites a non-empty run that already starts at `pos`.
   */
  lemma AddedFreeTotal(free: map<nat, nat>, pos: nat, len: nat)
    requires len > 0 && pos in free ==> free[pos] == 0
    ensures TotalFree(AddedFree(free, pos, len)) == TotalFree(free) + len
  {
    var mergePrev := MergesBefore(free, pos);
    var start := MergedStart(free, pos);
    var prevLen: nat := if mergePrev then free[start] else 0;
    var withoutPrev: map<nat, nat> := if mergePrev then free - {start} else free;
    var nextLen: nat := if pos + len in withoutPrev then withoutPrev[pos + len] else 0;
    var rest: map<nat, nat> := withoutPrev - {pos + len};
    var merged := prevLen + len + nextLen;
    assert AddedFree(free, pos, len) == rest[start := merged];
    assert TotalFree(free) == TotalFree(withoutPrev) + prevLen by {
      if mergePrev {
        OrderedMaps.SumRemove<nat>(free, FreeLength, start);
      }
    }
    TotalFreeRemove(withoutPrev, pos + len);
    assert TotalFree(rest[start := merged]) == TotalFree(rest) + merged by {
      if start in rest {
        assert !mergePrev && start == pos && len > 0;
        OrderedMaps.SumUpdate<nat>(rest, FreeLength, start, merged);
      } else {
        OrderedMaps.SumInsert<nat>(rest, FreeLength, start, merged);
      }
    }
  }

  /**
   * Whole-file compaction keeps every file and its length, and a file only
   * ever moves towards offset 0; files already processed are left alone.
   */
  lemma {:induction false} CompactKeepsFiles(snapshot: map<nat, Run>, remaining: set<nat>, files: map<nat, Run>, free: map<nat, nat>)
    requires remaining <= snapshot.Keys && files.Keys == snapshot.Keys
    requires forall id :: id in files ==> files[id].1 == snapshot[id].1 && files[id].0 <= snapshot[id].0
    requires forall id :: id in remaining ==> files[id] == snapshot[id]
    ensures var r := CompactFrom(snapshot, remaining, files, free).0;
      && r.Keys == snapshot.Keys
      && (forall id :: id in r ==> r[id].1 == snapshot[id].1 && r[id].0 <= snapshot[id].0)
      && (forall id :: id in r && id !in remaining ==> r[id] == files[id])
    decreases remaining
  {
    if remaining != {} {
      var id := OrderedMaps.MaxOf(remaining);
      var next := ProcessFile(files, free, id, snapshot[id].0, snapshot[id].1);
      CompactKeepsFiles(snapshot, remaining - {id}, next.0, next.1);
    }
  }

  /** `defrag_contiguous` keeps every file id and every file length, and moves files only towards offset 0. */
  lemma CompactionKeepsFiles(files: map<nat, Run>, free: map<nat, nat>)
    ensures var r := ContiguousCompaction(files, free).0;
      && r.Keys == files.Keys
      && (forall id :: id in r ==> r[id].1 == files[id].1 && r[id].0 <= files[id].0)
      && TotalFileLength(r) == TotalFileLength(files)
  {
    CompactKeepsFiles(files, files.Keys, files, free);
    SameLengthsSameTotal(files, ContiguousCompaction(files, free).0);
  }

  lemma {:induction false} SameLengthsSameTotal(a: map<nat, Run>, b: map<nat, Run>)
    requires a.Keys == b.Keys
    requires forall id :: id in a ==> a[id].1 == b[id].1
    ensures TotalFileLength(a) == TotalFileLength(b)
    decreases |a.Keys|
  {
    if a.Keys != {} {
      var k := OrderedMaps.MaxOf(a.Keys);
      OrderedMaps.SumRemove(a, FileLength, k);
      OrderedMaps.SumRemove(b, FileLength, k);
      assert (a - {k}).Keys < a.Keys;
      SameLengthsSameTotal(a - {k}, b - {k});
    }
  }

  // ---------------------------------------------------------------------------
  // Runs never overlap
  // ---------------------------------------------------------------------------

  /** Two runs share at least one unit. */
  predicate Overlap(a: Run, b: Run)
  {
    a.1 > 0 && b.1 > 0 && a.0 < b.0 + b.1 && b.0 < a.0 + a.1
  }

  /**
   * No two non-empty runs of the index share a unit: file with file, free run
   * with free run, file with free run.
   */
  ghost predicate Disjoint(files: map<nat, Run>, free: map<nat, nat>)
  {
    && (forall i, j :: i in files && j in files && i != j ==> !Overlap(files[i], files[j]))
    && (forall s, t :: s in free && t in free && s != t ==> !Overlap((s, free[s]), (t, free[t])))
    && (forall i, s :: i in files && s in free ==> !Overlap(files[i], (s, free[s])))
  }

  /** A run lying inside `outer` overlaps nothing that `outer` does not. */
  lemma InsideNoOverlap(inner: Run, outer: Run, other: Run)
    requires outer.0 <= inner.0 && inner.0 + inner.1 <= outer.0 + outer.1
    requires !Overlap(outer, other)
    ensures !Overlap(inner, other) && !Overlap(other, inner)
  {
  }

  /** A run made of three adjacent pieces overlaps nothing that none of the pieces does. */
  lemma PiecesNoOverlap(a: nat, b: nat, c: nat, d: nat, other: Run)
    requires a <= b <= c <= d
    requires !Overlap((a, b - a), other) && !Overlap((b, c - b), other) && !Overlap((c, d - c), other)
    ensures !Overlap((a, d - a), other) && !Overlap(other, (a, d - a))
  {
  }

  /**
   * `move_file` taking `len` units from the free run at `n`, which starts before
   * the file's old position `pos`, keeps the runs apart, and leaves the old span
   * of the file clear of every run.
   */
  lemma TakeFreeDisjoint(files: map<nat, Run>, free: map<nat, nat>, id: nat, n: nat)
    requires Disjoint(files, free)
    requires id in files && n in free && free[n] >= files[id].1 && n < files[id].0
    ensures var files1 := files[id := (n, files[id].1)];
      var free1 := TakeFree(free, n, files[id].1);
      && Disjoint(files1, free1)
      && (forall i :: i in files1 ==> !Overlap(files1[i], files[id]))
      && (forall s :: s in free1 ==> !Overlap((s, free1[s]), files[id]))
  {
    var len := files[id].1;
    var files1 := files[id := (n, len)];
    var free1 := TakeFree(free, n, len);
    assert len > 0 ==> n + len <= files[id].0 by {
      if len > 0 {
        assert !Overlap(files[id], (n, free[n]));
      }
    }
    TakeFreeShape(free, n, len);
    TakeFreeFilesApart(files, free, id, n);
    TakeFreeRunsApart(files, free, n, len);
    TakeFreeCrossApart(files, free, id, n);
    forall i | i in files1
      ensures !Overlap(files1[i], files[id])
    {
      if i != id {
        assert !Overlap(files[i], files[id]);
      }
    }
    forall s | s in free1
      ensures !Overlap((s, free1[s]), files[id])
    {
      if s == n + len && free1[s] == free[n] - len {
        InsideNoOverlap((s, free1[s]), (n, free[n]), files[id]);
      } else {
        assert !Overlap(files[id], (s, free[s]));
      }
    }
  }

  /** Every run left by `TakeFree` is an untouched run of `free` or the tail of the run at `n`. */
  ghost predicate FromFree(free1: map<nat, nat>, free: map<nat, nat>, n: nat, len: nat)
    requires n in free
  {
    forall s :: s in free1 ==>
      (s in free && s != n && free1[s] == free[s]) || (s == n + len && free1[s] == free[n] - len)
  }

  lemma TakeFreeShape(free: map<nat, nat>, n: nat, len: nat)
    requires n in free && free[n] >= len
    ensures FromFree(TakeFree(free, n, len), free, n, len)
  {
  }

  /** The moved file, at the front of the run at `n`, overlaps no other file. */
  lemma TakeFreeFilesApart(files: map<nat, Run>, free: map<nat, nat>, id: nat, n: nat)
    requires Disjoint(files, free)
    requires id in files && n in free && free[n] >= files[id].1
    ensures var files1 := files[id := (n, files[id].1)];
      forall i, j :: i in files1 && j in files1 && i != j ==> !Overlap(files1[i], files1[j])
  {
    var files1 := files[id := (n, files[id].1)];
    forall i, j | i in files1 && j in files1 && i != j
      ensures !Overlap(files1[i], files1[j])
    {
      if i == id {
        InsideNoOverlap((n, files[id].1), (n, free[n]), files[j]);
      } else if j == id {
        InsideNoOverlap((n, files[id].1), (n, free[n]), files[i]);
      }
    }
  }

  /** The free runs left by `TakeFree` overlap one another no more than before. */
  lemma TakeFreeRunsApart(files: map<nat, Run>, free: map<nat, nat>, n: nat, len: nat)
    requires Disjoint(files, free)
    requires n in free && free[n] >= len && FromFree(TakeFree(free, n, len), free, n, len)
    ensures var free1 := TakeFree(free, n, len);
      forall s, t :: s in free1 && t in free1 && s != t ==> !Overlap((s, free1[s]), (t, free1[t]))
  {
    var free1 := TakeFree(free, n, len);
    var f := free[n];
    forall s, t | s in free1 && t in free1 && s != t
      ensures !Overlap((s, free1[s]), (t, free1[t]))
    {
      if s == n + len && free1[s] == f - len {
        InsideNoOverlap((s, free1[s]), (n, f), (t, free1[t]));
      } else if t == n + len && free1[t] == f - len {
        InsideNoOverlap((t, free1[t]), (n, f), (s, free1[s]));
      }
    }
  }

  /** After the move no file overlaps a free run left by `TakeFree`. */
  lemma TakeFreeCrossApart(files: map<nat, Run>, free: map<nat, nat>, id: nat, n: nat)
    requires Disjoint(files, free)
    requires id in files && n in free && free[n] >= files[id].1
    requires files[id].1 > 0 ==> n + files[id].1 <= files[id].0
    requires FromFree(TakeFree(free, n, files[id].1), free, n, files[id].1)
    ensures var files1 := files[id := (n, files[id].1)];
      var free1 := TakeFree(free, n, files[id].1);
      forall i, s :: i in files1 && s in free1 ==> !Overlap(files1[i], (s, free1[s]))
  {
    var len := files[id].1;
    var f := free[n];
    var files1 := files[id := (n, len)];
    var free1 := TakeFree(free, n, len);
    forall i, s | i in files1 && s in free1
      ensures !Overlap(files1[i], (s, free1[s]))
    {
      if s == n + len && free1[s] == f - len {
        if i != id {
          InsideNoOverlap((s, free1[s]), (n, f), files1[i]);
        }
      } else if i == id {
        InsideNoOverlap((n, len), (n, f), (s, free1[s]));
      }
    }
  }

  /**
   * The run `add_free_space(pos, len)` inserts overlaps nothing that the span,
   * the run it merges with before and the run it absorbs after all avoid.
   */
  lemma MergedRunClear(free: map<nat, nat>, pos: nat, len: nat, other: Run)
    requires !Overlap(other, (pos, len))
    requires MergesBefore(free, pos) ==> !Overlap(other, (MergedStart(free, pos), free[MergedStart(free, pos)]))
    requires pos + len in free ==> !Overlap(other, (pos + len, free[pos + len]))
    ensures var st := MergedStart(free, pos);
      var r := AddedFree(free, pos, len);
      !Overlap((st, r[st]), other) && !Overlap(other, (st, r[st]))
  {
    var r := AddedFree(free, pos, len);
    var st := MergedStart(free, pos);
    var prevLen := if MergesBefore(free, pos) then free[st] else 0;
    var q := pos + len;
    var withoutPrev := if MergesBefore(free, pos) then free - {st} else free;
    var nextLen := if q in withoutPrev then withoutPrev[q] else 0;
    assert r == (withoutPrev - {q})[st := prevLen + len + nextLen];
    assert st + prevLen == pos;
    assert nextLen > 0 ==> q in free && nextLen == free[q];
    PiecesNoOverlap(st, pos, q, q + nextLen, other);
  }

  /**
   * `add_free_space(pos, len)` keeps the runs apart when the span it frees is
   * clear of every run.
   */
  lemma AddedFreeDisjoint(files: map<nat, Run>, free: map<nat, nat>, pos: nat, len: nat)
    requires Disjoint(files, free)
    requires forall i :: i in files ==> !Overlap(files[i], (pos, len))
    requires forall s :: s in free ==> !Overlap((s, free[s]), (pos, len))
    ensures Disjoint(files, AddedFree(free, pos, len))
  {
    var r := AddedFree(free, pos, len);
    var st := MergedStart(free, pos);
    forall s, t | s in r && t in r && s != t
      ensures !Overlap((s, r[s]), (t, r[t]))
    {
      if s == st {
        assert !Overlap((t, free[t]), (pos, len));
        MergedRunClear(free, pos, len, (t, r[t]));
      } else if t == st {
        assert !Overlap((s, free[s]), (pos, len));
        MergedRunClear(free, pos, len, (s, r[s]));
      } else {
        assert !Overlap((s, free[s]), (t, free[t]));
      }
    }
    forall i, s | i in files && s in r
      ensures !Overlap(files[i], (s, r[s]))
    {
      if s == st {
        if MergesBefore(free, pos) {
          assert !Overlap(files[i], (st, free[st]));
        }
        if pos + len in free {
          assert !Overlap(files[i], (pos + len, free[pos + len]));
        }
        MergedRunClear(free, pos, len, files[i]);
      } else {
        assert !Overlap(files[i], (s, free[s]));
      }
    }
  }

  /**
   * One step of `defrag_contiguous` on a file whose (pos, len) is current keeps
   * the runs apart and keeps the free total: the units taken from the chosen
   * free run are given back at the file's old span.
   */
  lemma ProcessFileKeeps(files: map<nat, Run>, free: map<nat, nat>, id: nat)
    requires Disjoint(files, free) && id in files
    ensures var next := ProcessFile(files, free, id, files[id].0, files[id].1);
      Disjoint(next.0, next.1) && TotalFree(next.1) == TotalFree(free)
  {
    var pos := files[id].0;
    var len := files[id].1;
    var fit := FirstFit(free, pos, len);
    if fit.Some? {
      var n := fit.value;
      var files1 := files[id := (n, len)];
      var free1 := TakeFree(free, n, len);
      TakeFreeDisjoint(files, free, id, n);
      if free[n] > len && len > 0 && n + len in free {
        assert !Overlap((n, free[n]), (n + len, free[n + len]));
      }
      TakeFreeTotal(free, n, len);
      if len > 0 && pos in free1 {
        assert !Overlap((pos, free1[pos]), files[id]);
      }
      AddedFreeTotal(free1, pos, len);
      AddedFreeDisjoint(files1, free1, pos, len);
    }
  }

  lemma {:induction false} CompactKeepsRuns(snapshot: map<nat, Run>, remaining: set<nat>, files: map<nat, Run>, free: map<nat, nat>)
    requires remaining <= snapshot.Keys && remaining <= files.Keys
    requires forall id :: id in remaining ==> files[id] == snapshot[id]
    requires Disjoint(files, free)
    ensures var r := CompactFrom(snapshot, remaining, files, free);
      Disjoint(r.0, r.1) && TotalFree(r.1) == TotalFree(free)
    decreases remaining
  {
    if remaining != {} {
      var id := OrderedMaps.MaxOf(remaining);
      var next := ProcessFile(files, free, id, snapshot[id].0, snapshot[id].1);
      ProcessFileKeeps(files, free, id);
      assert next.0.Keys == files.Keys;
      CompactKeepsRuns(snapshot, remaining - {id}, next.0, next.1);
    }
  }

  /**
   * `defrag_contiguous` on an index whose runs do not overlap keeps them apart
   * and keeps the total free length.
   */
  lemma CompactionKeepsRuns(files: map<nat, Run>, free: map<nat, nat>)
    requires Disjoint(files, free)
    ensures var r := ContiguousCompaction(files, free);
      Disjoint(r.0, r.1) && TotalFree(r.1) == TotalFree(free)
  {
    CompactKeepsRuns(files, files.Keys, files, free);
  }
}
