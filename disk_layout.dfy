/**
 * The disk of 2024/day_9: the flat unit-by-unit layout (`Vec<DiskContent>`),
 * the file and free-run maps built beside it, the parse of the run-length
 * digit string that produces all three, and the two checksums.
 */
module DiskLayout {
  import opened Wrappers
  import OrderedMaps
  import RunIndex

  /** One unit of the disk: a block of file `id`, or a free block. */
  datatype DiskContent = File(id: nat) | FreeSpace

  /** `DiskContent::to_digit`: the file id, 0 for free space. */
  function ToDigit(c: DiskContent): nat
  {
    match c
    case File(id) => id
    case FreeSpace => 0
  }

  function Repeat(c: DiskContent, n: nat): (r: seq<DiskContent>)
    ensures |r| == n && forall i :: 0 <= i < n ==> r[i] == c
  {
    seq(n, _ => c)
  }

  /** Σ (offset + i) × to_digit(units[i]): the checksum of `units` placed at `offset`. */
  function WeightedSum(units: seq<DiskContent>, offset: nat): nat
    decreases |units|
  {
    if units == [] then 0
    else offset * ToDigit(units[0]) + WeightedSum(units[1..], offset + 1)
  }

  /** `calculate_checksum`: Σ i × to_digit(layout[i]). */
  function Checksum(layout: seq<DiskContent>): nat
  {
    WeightedSum(layout, 0)
  }

  /** Σ i for i in [start, start + len). */
  function RangeSum(start: nat, len: nat): nat
    decreases len
  {
    if len == 0 then 0 else RangeSum(start, len - 1) + start + len - 1
  }

  lemma {:induction false} RangeSumClosedForm(start: nat, len: nat)
    ensures 2 * RangeSum(start, len) == len * (2 * start + len - 1)
    decreases len
  {
    if len > 0 {
      RangeSumClosedForm(start, len - 1);
    }
  }

  /** The weight of one file entry `id -> (start, len)`: id × Σ_{i ∈ [start, start+len)} i. */
  function FileWeight(id: nat, run: (nat, nat)): nat
  {
    id * RangeSum(run.0, run.1)
  }

  /** `calculate_checksum_contiguous`: the file weights summed over the file map. */
  function ChecksumContiguous(files: map<nat, (nat, nat)>): nat
  {
    OrderedMaps.Sum(files, FileWeight)
  }

  lemma {:induction false} WeightedSumAppend(a: seq<DiskContent>, b: seq<DiskContent>, offset: nat)
    ensures WeightedSum(a + b, offset) == WeightedSum(a, offset) + WeightedSum(b, offset + |a|)
    decreases |a|
  {
    if a != [] {
      assert (a + b)[1..] == a[1..] + b;
      WeightedSumAppend(a[1..], b, offset + 1);
    } else {
      assert a + b == b;
    }
  }

  /** A run of free units adds nothing to the checksum, wherever it sits. */
  lemma {:induction false} FreeRunWeight(n: nat, offset: nat)
    ensures WeightedSum(Repeat(FreeSpace, n), offset) == 0
    decreases n
  {
    if n > 0 {
      assert Repeat(FreeSpace, n)[1..] == Repeat(FreeSpace, n - 1);
      FreeRunWeight(n - 1, offset + 1);
    }
  }

  /** A run of `n` units of file `id` at `offset` adds id × Σ_{i ∈ [offset, offset+n)} i. */
  lemma {:induction false} FileRunWeight(id: nat, n: nat, offset: nat)
    ensures WeightedSum(Repeat(File(id), n), offset) == FileWeight(id, (offset, n))
    decreases n
  {
    if n > 0 {
      var init := Repeat(File(id), n - 1);
      assert Repeat(File(id), n) == init + [File(id)];
      WeightedSumAppend(init, [File(id)], offset);
      FileRunWeight(id, n - 1, offset);
      assert [File(id)][1..] == [];
      Distribute(id, RangeSum(offset, n - 1), offset + n - 1);
    }
  }

  lemma Distribute(a: nat, b: nat, c: nat)
    ensures a * (b + c) == a * b + c * a
  {
  }

  /** Units and checksum of a swap: exchanging two units keeps the multiset of units. */
  function Swap(layout: seq<DiskContent>, i: nat, j: nat): (r: seq<DiskContent>)
    requires i < |layout| && j < |layout|
    ensures |r| == |layout| && r[i] == layout[j] && r[j] == layout[i]
    ensures forall k :: 0 <= k < |layout| && k != i && k != j ==> r[k] == layout[k]
    ensures multiset(r) == multiset(layout)
  {
    layout[i := layout[j]][j := layout[i]]
  }

  // ---------------------------------------------------------------------------
  // Parsing (`DiskMap::new`)
  // ---------------------------------------------------------------------------

  /** `char::to_digit(10)`: the value of an ASCII decimal digit. */
  function DigitValue(c: char): (r: Option<nat>)
    ensures r.Some? <==> '0' <= c <= '9'
    ensures r.Some? ==> r.value <= 9 && r.value == c as int - '0' as int
  {
    if '0' <= c <= '9' then Some(c as int - '0' as int) else None
  }

  /** The local variables of the loop in `DiskMap::new` together with the three collections it builds. */
  datatype Parser = Parser(
    layout: seq<DiskContent>,
    files: map<nat, (nat, nat)>,
    free: map<nat, nat>,
    isFile: bool,
    fileId: nat,
    index: nat)

  const Start := Parser([], map[], map[], true, 0, 0)

  /** One iteration of the parse loop: a digit appends a file run or a free run; anything else is skipped. */
  function Step(p: Parser, c: char): Parser
  {
    match DigitValue(c)
    case None => p
    case Some(count) =>
      if p.isFile then
        p.(layout := p.layout + Repeat(File(p.fileId), count),
           files := p.files[p.fileId := (p.index, count)],
           fileId := p.fileId + 1,
           isFile := false,
           index := p.index + count)
      else
        p.(layout := p.layout + Repeat(FreeSpace, count),
           free := p.free[p.index := count],
           isFile := true,
           index := p.index + count)
  }

  /** The state after the parse loop has consumed all of `s`. */
  function Parse(s: string): Parser
    decreases |s|
  {
    if s == [] then Start else Step(Parse(s[..|s| - 1]), s[|s| - 1])
  }

  /** The digit tokens of `s`, in order, non-digits dropped. */
  function Digits(s: string): (d: seq<nat>)
    ensures |d| <= |s|
    decreases |s|
  {
    if s == [] then []
    else
      var init := Digits(s[..|s| - 1]);
      match DigitValue(s[|s| - 1])
      case Some(v) => init + [v]
      case None => init
  }

  /** `s` with every non-digit character removed. */
  function DigitsOnly(s: string): (r: string)
    ensures forall i :: 0 <= i < |r| ==> '0' <= r[i] <= '9'
    decreases |s|
  {
    if s == [] then []
    else DigitsOnly(s[..|s| - 1]) + (if '0' <= s[|s| - 1] <= '9' then [s[|s| - 1]] else [])
  }

  function SumSeq(d: seq<nat>): nat
    decreases |d|
  {
    if d == [] then 0 else SumSeq(d[..|d| - 1]) + d[|d| - 1]
  }

  /** Each file entry covers exactly units of that file. */
  ghost predicate FilesMatchLayout(layout: seq<DiskContent>, files: map<nat, (nat, nat)>)
  {
    forall id :: id in files ==>
      files[id].0 + files[id].1 <= |layout| &&
      forall i :: files[id].0 <= i < files[id].0 + files[id].1 ==> layout[i] == File(id)
  }

  /** Every file unit lies inside the entry of its file. */
  ghost predicate UnitsInFiles(layout: seq<DiskContent>, files: map<nat, (nat, nat)>)
  {
    forall i :: 0 <= i < |layout| && layout[i].File? ==>
      layout[i].id in files &&
      files[layout[i].id].0 <= i < files[layout[i].id].0 + files[layout[i].id].1
  }

  /** Each free entry covers only free units. */
  ghost predicate FreeMatchesLayout(layout: seq<DiskContent>, free: map<nat, nat>)
  {
    forall start :: start in free ==>
      start + free[start] <= |layout| &&
      forall i :: start <= i < start + free[start] ==> layout[i] == FreeSpace
  }

  /** What the parse loop keeps true of its state. */
  ghost predicate Consistent(p: Parser)
  {
    && |p.layout| == p.index
    && (forall id: nat :: id in p.files <==> id < p.fileId)
    && FilesMatchLayout(p.layout, p.files)
    && UnitsInFiles(p.layout, p.files)
    && FreeMatchesLayout(p.layout, p.free)
    && Checksum(p.layout) == ChecksumContiguous(p.files)
  }

  lemma FileRunAppended(layout: seq<DiskContent>, files: map<nat, (nat, nat)>, id: nat, count: nat)
    requires id !in files
    requires FilesMatchLayout(layout, files) && UnitsInFiles(layout, files)
    ensures var layout', files' := layout + Repeat(File(id), count), files[id := (|layout|, count)];
      FilesMatchLayout(layout', files') && UnitsInFiles(layout', files')
  {
    var run := Repeat(File(id), count);
    var layout', files' := layout + run, files[id := (|layout|, count)];
    forall i | 0 <= i < |layout| ensures layout'[i] == layout[i] {}
    forall i | |layout| <= i < |layout'| ensures layout'[i] == File(id) {
      assert layout'[i] == run[i - |layout|];
    }
    forall f | f in files'
      ensures files'[f].0 + files'[f].1 <= |layout'|
      ensures forall i :: files'[f].0 <= i < files'[f].0 + files'[f].1 ==> layout'[i] == File(f)
    {
      if f != id {
        assert files'[f] == files[f];
      }
    }
    forall i | 0 <= i < |layout'| && layout'[i].File?
      ensures layout'[i].id in files'
      ensures files'[layout'[i].id].0 <= i < files'[layout'[i].id].0 + files'[layout'[i].id].1
    {
      if i < |layout| {
        assert layout[i].id in files;
      }
    }
  }

  lemma FileStepConsistent(p: Parser, count: nat)
    requires Consistent(p) && p.isFile
    ensures Consistent(p.(layout := p.layout + Repeat(File(p.fileId), count),
                          files := p.files[p.fileId := (p.index, count)],
                          fileId := p.fileId + 1,
                          isFile := false,
                          index := p.index + count))
  {
    var q := p.(layout := p.layout + Repeat(File(p.fileId), count),
                files := p.files[p.fileId := (p.index, count)],
                fileId := p.fileId + 1,
                isFile := false,
                index := p.index + count);
    assert p.fileId !in p.files;
    FileRunAppended(p.layout, p.files, p.fileId, count);
    assert FreeMatchesLayout(q.layout, q.free) by {
      forall i | 0 <= i < |p.layout| ensures q.layout[i] == p.layout[i] {}
    }
    FileStepChecksum(p.layout, p.files, p.fileId, count);
    assert forall id: nat :: id in q.files <==> id < q.fileId;
  }

  /** Appending the run of a new file adds its weight to both checksums. */
  lemma FileStepChecksum(layout: seq<DiskContent>, files: map<nat, (nat, nat)>, id: nat, count: nat)
    requires id !in files && Checksum(layout) == ChecksumContiguous(files)
    ensures Checksum(layout + Repeat(File(id), count)) == ChecksumContiguous(files[id := (|layout|, count)])
  {
    WeightedSumAppend(layout, Repeat(File(id), count), 0);
    FileRunWeight(id, count, |layout|);
    OrderedMaps.SumInsert(files, FileWeight, id, (|layout|, count));
  }

  lemma FreeStepConsistent(p: Parser, count: nat)
    requires Consistent(p) && !p.isFile
    ensures Consistent(p.(layout := p.layout + Repeat(FreeSpace, count),
                          free := p.free[p.index := count],
                          isFile := true,
                          index := p.index + count))
  {
    var run := Repeat(FreeSpace, count);
    var layout := p.layout + run;
    var free := p.free[p.index := count];
    forall i | 0 <= i < |p.layout| ensures layout[i] == p.layout[i] {}
    forall i | |p.layout| <= i < |layout| ensures layout[i] == FreeSpace {
      assert layout[i] == run[i - |p.layout|];
    }
    assert FreeMatchesLayout(layout, free) by {
      forall start | start in free
        ensures start + free[start] <= |layout|
        ensures forall i :: start <= i < start + free[start] ==> layout[i] == FreeSpace
      {
        if start != p.index {
          assert free[start] == p.free[start];
        }
      }
    }
    WeightedSumAppend(p.layout, run, 0);
    FreeRunWeight(count, p.index);
  }

  lemma StepConsistent(p: Parser, c: char)
    requires Consistent(p)
    ensures Consistent(Step(p, c))
  {
    match DigitValue(c)
    case None =>
    case Some(count) =>
      if p.isFile {
        FileStepConsistent(p, count);
      } else {
        FreeStepConsistent(p, count);
      }
  }

  /**
   * Right after parsing, the layout and the two maps describe the same disk:
   * file `id` occupies exactly `layout[start..start+len]` and no other unit,
   * every free entry (zero-length ones included) covers only free units,
   * the ids are exactly 0 .. fileId - 1, and the two checksums agree.
   */
  lemma {:induction false} ParseConsistent(s: string)
    ensures Consistent(Parse(s))
    decreases |s|
  {
    if s != [] {
      ParseConsistent(s[..|s| - 1]);
      StepConsistent(Parse(s[..|s| - 1]), s[|s| - 1]);
    } else {
      assert Parse(s).files == map[];
      assert WeightedSum([], 0) == 0;
    }
  }

  /** The two checksums of a freshly parsed disk are equal. */
  lemma ParsedChecksumsAgree(s: string)
    ensures Checksum(Parse(s).layout) == ChecksumContiguous(Parse(s).files)
  {
    ParseConsistent(s);
  }

  /**
   * The parse state follows the digit tokens `d`: the layout is as long as
   * their sum; tokens alternate file, free, file, … starting with a file;
   * file `id` is token 2·id (zero-length files included) starting at the sum
   * of the tokens before it; every free token, zero-length ones included, has
   * an entry at its start offset, and a free token of positive length owns
   * that entry (a zero-length one may be overwritten by a later free token at
   * the same offset).
   */
  ghost predicate FollowsTokens(p: Parser, d: seq<nat>)
  {
    && |p.layout| == p.index == SumSeq(d)
    && p.isFile == (|d| % 2 == 0)
    && p.fileId == (|d| + 1) / 2
    && (forall id :: id in p.files ==> 2 * id < |d| && p.files[id] == (SumSeq(d[..2 * id]), d[2 * id]))
    && (forall j :: 0 <= j < |d| && j % 2 == 1 ==> SumSeq(d[..j]) in p.free)
    && (forall j :: 0 <= j < |d| && j % 2 == 1 && d[j] > 0 ==> p.free[SumSeq(d[..j])] == d[j])
  }

  /** A token ends no later than the sum of all tokens. */
  lemma {:induction false} TokenEnds(d: seq<nat>, j: nat)
    requires j < |d|
    ensures SumSeq(d[..j]) + d[j] <= SumSeq(d)
    decreases |d|
  {
    var init := d[..|d| - 1];
    assert init[..j] == d[..j];
    if j < |d| - 1 {
      TokenEnds(init, j);
    }
  }

  /** The parse of `s` follows the digit tokens of `s`. */
  lemma {:induction false} ParseFollowsTokens(s: string)
    ensures FollowsTokens(Parse(s), Digits(s))
    decreases |s|
  {
    if s != [] {
      var init := s[..|s| - 1];
      ParseFollowsTokens(init);
      match DigitValue(s[|s| - 1])
      case None =>
      case Some(v) =>
        assert Digits(s) == Digits(init) + [v];
        TokenStep(Parse(init), Digits(init), s[|s| - 1], v);
    }
  }

  /** One digit token moves the parse state along with the token list. */
  lemma TokenStep(p: Parser, d: seq<nat>, c: char, v: nat)
    requires FollowsTokens(p, d) && DigitValue(c) == Some(v)
    ensures FollowsTokens(Step(p, c), d + [v])
  {
    var q, d' := Step(p, c), d + [v];
    assert d'[..|d|] == d;
    assert SumSeq(d') == SumSeq(d) + v;
    forall j | 0 <= j <= |d| ensures d'[..j] == d[..j] {}
    if p.isFile {
      assert 2 * p.fileId == |d|;
      forall id | id in q.files
        ensures 2 * id < |d'| && q.files[id] == (SumSeq(d'[..2 * id]), d'[2 * id])
      {
        if id != p.fileId {
          assert q.files[id] == p.files[id];
        }
      }
    } else {
      forall j | 0 <= j < |d'| && j % 2 == 1
        ensures SumSeq(d'[..j]) in q.free
        ensures d'[j] > 0 ==> q.free[SumSeq(d'[..j])] == d'[j]
      {
        if j < |d| {
          assert SumSeq(d[..j]) in p.free;
          if d[j] > 0 {
            TokenEnds(d, j);
          }
        }
      }
    }
  }

  /** Non-digit characters are skipped: they neither add units nor advance the id, the offset or the file/free alternation. */
  lemma {:induction false} ParseIgnoresNonDigits(s: string)
    ensures Parse(s) == Parse(DigitsOnly(s))
    decreases |s|
  {
    if s != [] {
      var init := s[..|s| - 1];
      ParseIgnoresNonDigits(init);
      var c := s[|s| - 1];
      if '0' <= c <= '9' {
        var t := DigitsOnly(init) + [c];
        assert DigitsOnly(s) == t;
        assert t[..|t| - 1] == DigitsOnly(init);
      } else {
        assert DigitsOnly(s) == DigitsOnly(init);
      }
    }
  }

  /** Free entries end no later than the end of the layout and never share a unit. */
  ghost predicate FreeRunsApart(p: Parser)
  {
    && (forall start :: start in p.free ==> start + p.free[start] <= p.index)
    && (forall s, t :: s in p.free && t in p.free && s != t ==> !RunIndex.Overlap((s, p.free[s]), (t, p.free[t])))
  }

  lemma {:induction false} ParseFreeApart(s: string)
    ensures FreeRunsApart(Parse(s))
    decreases |s|
  {
    if s != [] {
      var p := Parse(s[..|s| - 1]);
      ParseFreeApart(s[..|s| - 1]);
      var q := Step(p, s[|s| - 1]);
      if q.free != p.free {
        forall a, b | a in q.free && b in q.free && a != b
          ensures !RunIndex.Overlap((a, q.free[a]), (b, q.free[b]))
        {
          if a != p.index && b != p.index {
            assert !RunIndex.Overlap((a, p.free[a]), (b, p.free[b]));
          }
        }
      }
    }
  }

  /**
   * Right after parsing no two non-empty runs of the index share a unit:
   * the file map and the free map describe disjoint parts of the disk.
   */
  lemma ParsedRunsDisjoint(s: string)
    ensures RunIndex.Disjoint(Parse(s).files, Parse(s).free)
  {
    var p := Parse(s);
    ParseConsistent(s);
    ParseFreeApart(s);
    forall i, j | i in p.files && j in p.files && i != j
      ensures !RunIndex.Overlap(p.files[i], p.files[j])
    {
      var u := if p.files[i].0 < p.files[j].0 then p.files[j].0 else p.files[i].0;
      assert p.files[j].0 <= u < p.files[j].0 + p.files[j].1 ==> p.layout[u] == File(j);
    }
    forall i, t | i in p.files && t in p.free
      ensures !RunIndex.Overlap(p.files[i], (t, p.free[t]))
    {
      var u := if p.files[i].0 < t then t else p.files[i].0;
      assert t <= u < t + p.free[t] ==> p.layout[u] == FreeSpace;
    }
  }
}
