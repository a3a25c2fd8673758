/** Random I/O over a block map: a uniform draw is moved on to the next free block, the
    block and as much of the requested run as is free are marked, and the file is done when
    no free block is left. The block size, minimum size and alignment are one unit. */
module RandomMap {
  import opened Options
  import opened Bits
  import opened AxMap

  /** The block a draw leads to: the drawn one if it is free, else the next free one after it,
      cyclically. */
  ghost predicate Chosen(taken: set<nat>, draw: nat, b: nat, n: nat) {
    b !in taken && if draw !in taken then b == draw else NextAfter(taken, draw, b, n)
  }

  /** A run of blocks issued by one io_u. */
  datatype Run = Run(start: nat, count: nat)

  ghost predicate Covers(r: Run, b: nat) {
    Within(b, r.start, r.count)
  }

  ghost predicate Covered(issued: seq<Run>, b: nat) {
    exists i :: 0 <= i < |issued| && Covers(issued[i], b)
  }

  ghost predicate Disjoint(issued: seq<Run>) {
    forall i, j, b: nat :: 0 <= i < j < |issued| && Covers(issued[i], b) ==> !Covers(issued[j], b)
  }

  /** Every block below `n` lies in exactly one issued run, and no run reaches further. */
  ghost predicate ExactCover(issued: seq<Run>, n: nat) {
    && Disjoint(issued)
    && (forall b: nat :: Covered(issued, b) <==> b < n)
  }

  function Blocks(issued: seq<Run>): nat {
    if issued == [] then 0 else issued[0].count + Blocks(issued[1..])
  }

  ghost function BlockSet(issued: seq<Run>): set<nat> {
    if issued == [] then {} else Mask(issued[0].start, issued[0].count) + BlockSet(issued[1..])
  }

  lemma {:induction false} MaskSize(from: nat, n: nat)
    ensures |Mask(from, n)| == n
  {
    if n > 0 {
      MaskSize(from, n - 1);
      assert Mask(from, n) == Mask(from, n - 1) + {from + n - 1};
      assert from + n - 1 !in Mask(from, n - 1);
    } else {
      assert Mask(from, 0) == {};
    }
  }

  lemma {:induction false} BlockSetIsCovered(issued: seq<Run>)
    ensures forall b: nat :: b in BlockSet(issued) <==> Covered(issued, b)
  {
    if issued != [] {
      BlockSetIsCovered(issued[1..]);
      forall b: nat ensures b in BlockSet(issued) <==> Covered(issued, b) {
        if Covers(issued[0], b) {
          assert Covered(issued, b);
        }
        if Covered(issued[1..], b) {
          var i :| 0 <= i < |issued| - 1 && Covers(issued[1..][i], b);
          assert Covers(issued[i + 1], b);
        }
        if Covered(issued, b) {
          var i :| 0 <= i < |issued| && Covers(issued[i], b);
          if i > 0 {
            assert Covers(issued[1..][i - 1], b);
          }
        }
      }
    }
  }

  /** Disjoint runs hold as many blocks as their lengths add up to. */
  lemma {:induction false} BlockSetSize(issued: seq<Run>)
    requires Disjoint(issued)
    ensures |BlockSet(issued)| == Blocks(issued)
  {
    if issued != [] {
      var r, rest := issued[0], issued[1..];
      forall i, j, b: nat | 0 <= i < j < |rest| && Covers(rest[i], b) ensures !Covers(rest[j], b) {
        assert Covers(issued[i + 1], b);
        assert !Covers(issued[j + 1], b);
      }
      BlockSetSize(rest);
      MaskSize(r.start, r.count);
      BlockSetIsCovered(rest);
      forall b: nat | b in Mask(r.start, r.count) ensures b !in BlockSet(rest) {
        assert Covers(issued[0], b);
        forall i | 0 <= i < |rest| ensures !Covers(rest[i], b) {
          assert rest[i] == issued[i + 1];
        }
      }
      assert Mask(r.start, r.count) !! BlockSet(rest);
    }
  }

  /** An exact cover of `n` blocks issues `n` blocks in all. */
  lemma CoverIsWhole(issued: seq<Run>, n: nat)
    requires ExactCover(issued, n)
    ensures Blocks(issued) == n
  {
    BlockSetIsCovered(issued);
    BlockSetSize(issued);
    MaskSize(0, n);
    assert BlockSet(issued) == Mask(0, n);
  }

  /** Adding a run of blocks nobody covered keeps the runs disjoint. */
  lemma AddRun(issued: seq<Run>, r: Run)
    requires Disjoint(issued) && forall b: nat :: Covers(r, b) ==> !Covered(issued, b)
    ensures Disjoint(issued + [r])
    ensures forall b: nat :: Covered(issued + [r], b) <==> Covered(issued, b) || Covers(r, b)
  {
    var all := issued + [r];
    forall i, j, b: nat | 0 <= i < j < |all| && Covers(all[i], b) ensures !Covers(all[j], b) {
      if j == |issued| {
        assert Covers(issued[i], b);
      }
    }
    forall b: nat ensures Covered(all, b) <==> Covered(issued, b) || Covers(r, b) {
      if Covered(issued, b) {
        var i :| 0 <= i < |issued| && Covers(issued[i], b);
        assert Covers(all[i], b);
      }
      if Covers(r, b) {
        assert Covers(all[|issued|], b);
      }
    }
  }

  /** A byte count of `k` blocks, divided and divided rounding up. */
  lemma BlocksOf(x: nat, k: nat, bs: nat)
    requires bs > 0 && x == k * bs
    ensures Quot(x, bs) == k && Quot(x + bs - 1, bs) == k
  {
    DivModUnique(x, bs, k);
    DivModUnique(x + bs - 1, bs, k);
  }

  method InBlocks(x: nat, buflen: nat, bs: nat, ghost block: nat, ghost want: nat) returns (at: nat, nr: nat)
    requires bs > 0 && x == block * bs && buflen == want * bs
    ensures at == block && nr == want
  {
    BlocksOf(x, block, bs);
    BlocksOf(buflen, want, bs);
    at, nr := Quot(x, bs), Quot(buflen + bs - 1, bs);
  }

  method Trim(n: nat, buflen: nat, bs: nat, ghost want: nat) returns (trimmed: nat)
    requires n <= want && buflen == want * bs
    ensures trimmed == n * bs
  {
    MulMono(n, want, bs);
    trimmed := buflen;
    if n * bs < buflen {
      trimmed := n * bs;
    }
  }

  lemma FitsInBlocks(n: nat, bs: nat, size: nat)
    requires bs > 0 && n * bs <= size
    ensures n <= Quot(size, bs)
  {
    var q := Quot(size, bs);
    assert (q + 1) * bs == q * bs + bs;
    if n > q {
      MulMono(q + 1, n, bs);
    }
  }

  /** One draw for `fill_io_u`: a position, and the sizes drawn until one fits. */
  datatype Draw = Draw(position: nat, sizes: seq<nat>)

  /** `Issued` carries the byte range; `Done` is the failure that marks the file done;
      `Redraw` means the drawn sizes ran out before one fitted. */
  datatype Outcome = Issued(offset: nat, buflen: nat) | Done | Redraw

  lemma AtLeastOneBlock(extra: nat, bs: nat)
    requires bs > 0
    ensures Quot(bs + extra, bs) >= 1
  {
    FitsInBlocks(1, bs, bs + extra);
  }

  lemma OneBlockDrawn(extra: nat, bs: nat)
    requires bs > 0
    ensures extra < bs ==> Quot(bs + extra, bs) == 1
  {
    if extra < bs {
      DivModUnique(bs + extra, bs, 1);
    }
  }

  /** A run fits the byte size exactly when it fits the blocks. */
  lemma RoomAfter(b: nat, n: nat, bs: nat, size: nat)
    requires bs > 0
    ensures b * bs + n * bs <= size <==> b + n <= Quot(size, bs)
  {
    assert (b + n) * bs == b * bs + n * bs;
    if b + n <= Quot(size, bs) {
      MulMono(b + n, Quot(size, bs), bs);
    } else {
      MulMono(Quot(size, bs) + 1, b + n, bs);
    }
  }

  lemma BlockInFile(b: nat, bs: nat, size: nat)
    requires bs > 0 && b < Quot(size, bs)
    ensures (b + 1) * bs <= size && b * bs < size
  {
    MulMono(b + 1, Quot(size, bs), bs);
    assert (b + 1) * bs == b * bs + bs;
  }

  lemma RunInFile(b: nat, n: nat, bs: nat, size: nat)
    requires bs > 0 && b + n <= Quot(size, bs)
    ensures b * bs + n * bs <= size
  {
    MulMono(b + n, Quot(size, bs), bs);
    assert (b + n) * bs == b * bs + n * bs;
  }

  lemma RunFits(b: nat, n: nat, bs: nat, size: nat)
    requires bs > 0 && b * bs + n * bs <= size
    ensures b + n <= Quot(size, bs)
  {
    assert (b + n) * bs == b * bs + n * bs;
    FitsInBlocks(b + n, bs, size);
  }

  lemma {:induction false} OneBlockEach(issued: seq<Run>)
    requires forall i :: 0 <= i < |issued| ==> issued[i].count > 0
    ensures |issued| <= Blocks(issued)
  {
    if issued != [] {
      OneBlockEach(issued[1..]);
    }
  }

  /** Disjoint non-empty runs inside `n` blocks are at most `n`. */
  lemma IssuesBounded(issued: seq<Run>, n: nat)
    requires Disjoint(issued) && (forall i :: 0 <= i < |issued| ==> issued[i].count > 0)
    requires forall b: nat :: Covered(issued, b) ==> b < n
    ensures |issued| <= n
  {
    OneBlockEach(issued);
    BlockSetSize(issued);
    BlockSetIsCovered(issued);
    MaskSize(0, n);
    SubsetSize(BlockSet(issued), Mask(0, n));
  }

  /** Runs without a common block are byte ranges without a common byte. */
  lemma BytesDisjoint(r: Run, r': Run, bs: nat)
    requires r.count > 0 && r'.count > 0 && forall b: nat :: Covers(r, b) ==> !Covers(r', b)
    ensures (r.start + r.count) * bs <= r'.start * bs || (r'.start + r'.count) * bs <= r.start * bs
  {
    assert Covers(r, r.start) && Covers(r', r'.start);
    if r.start <= r'.start {
      MulMono(r.start + r.count, r'.start, bs);
    } else {
      MulMono(r'.start + r'.count, r.start, bs);
    }
  }

  class RandomFile {
    const bs: nat
    const maxBlocks: nat
    const fileOffset: nat
    const ioSize: nat
    const realSize: nat
    const axmap: AxMap
    ghost var issued: seq<Run>

    /** Blocks of the file: `last_block`, and the size of the map. */
    function LastBlock(): nat
      requires bs > 0
    {
      Quot(if ioSize > realSize then realSize else ioSize, bs)
    }

    ghost predicate Valid()
      reads this, axmap
    {
      && bs > 0 && maxBlocks > 0 && fileOffset + ioSize <= realSize
      && axmap.nrBits == LastBlock() && axmap.Valid()
      && Disjoint(issued)
      && (forall b: nat :: b in axmap.Contents() <==> Covered(issued, b))
      && (forall i :: 0 <= i < |issued| ==> issued[i].count > 0)
    }

    constructor (bs: nat, maxBlocks: nat, fileOffset: nat, ioSize: nat, realSize: nat)
      requires bs > 0 && maxBlocks > 0 && fileOffset + ioSize <= realSize
      ensures Valid() && issued == [] && fresh(axmap)
      ensures this.bs == bs && this.ioSize == ioSize && this.fileOffset == fileOffset
    {
      var m := new AxMap(Quot(ioSize, bs));
      this.bs, this.maxBlocks, this.fileOffset := bs, maxBlocks, fileOffset;
      this.ioSize, this.realSize := ioSize, realSize;
      axmap := m;
      issued := [];
    }

    /** `__get_next_rand_offset`: the drawn block, or the next free one after it. */
    method NextBlock(draw: nat) returns (b: Option<nat>)
      requires Valid() && draw < LastBlock()
      ensures b.None? <==> forall x: nat :: x < LastBlock() ==> x in axmap.Contents()
      ensures b.Some? ==> b.value < LastBlock() && Chosen(axmap.Contents(), draw, b.value, LastBlock())
    {
      var taken := axmap.Isset(draw);
      if !taken {
        return Some(draw);
      }
      b := axmap.NextFree(draw);
    }

    function DrawnBlocks(extra: nat): (n: nat)
      requires bs > 0 && maxBlocks > 0
      ensures 1 <= n <= maxBlocks
    {
      AtLeastOneBlock(extra, bs);
      var n := Quot(bs + extra, bs);
      if n > maxBlocks then maxBlocks else n
    }

    /** As many whole blocks as the minimum size and the draw hold, up to the maximum. */
    lemma DrawnBlocksFit(extra: nat)
      requires bs > 0 && maxBlocks > 0
      ensures var n := DrawnBlocks(extra);
              n * bs <= bs + extra && (n < maxBlocks ==> bs + extra < n * bs + bs)
    {
      var n := Quot(bs + extra, bs);
      if n > maxBlocks {
        MulMono(maxBlocks, n, bs);
      }
    }

    /** The blocks of the first drawn size that ends inside the file. */
    ghost function FirstFit(block: nat, sizes: seq<nat>): Option<nat>
      requires bs > 0 && maxBlocks > 0
    {
      if sizes == [] then None
      else if block + DrawnBlocks(sizes[0]) <= LastBlock() then Some(DrawnBlocks(sizes[0]))
      else FirstFit(block, sizes[1..])
    }

    /** `get_next_buflen`: minimum size plus a draw, cut to whole blocks and to the maximum,
        drawn again until it fits the file. */
    method NextBuflen(block: nat, sizes: seq<nat>) returns (blocks: Option<nat>)
      requires Valid() && block < LastBlock()
      ensures blocks.Some? ==> 1 <= blocks.value <= maxBlocks && block + blocks.value <= LastBlock()
      ensures maxBlocks == 1 ==> blocks == Some(1)
      ensures blocks.None? ==> forall i :: 0 <= i < |sizes| ==> sizes[i] >= bs
      ensures maxBlocks > 1 ==> blocks == FirstFit(block, sizes)
    {
      if maxBlocks == 1 {
        return Some(1);
      }
      // The minimum size always fits, so the code's early failure does not happen here.
      BlockInFile(block, bs, ioSize);
      assert fileOffset + block * bs + bs <= ioSize + fileOffset;
      var i := 0;
      while i < |sizes|
        invariant 0 <= i <= |sizes| && forall j :: 0 <= j < i ==> sizes[j] >= bs
        invariant FirstFit(block, sizes[i..]) == FirstFit(block, sizes)
      {
        OneBlockDrawn(sizes[i], bs);
        RoomAfter(block, DrawnBlocks(sizes[i]), bs, ioSize);
        assert sizes[i..][1..] == sizes[i + 1..];
        var n := DrawnBlocks(sizes[i]);
        if fileOffset + block * bs + n * bs <= ioSize + fileOffset {
          RunFits(block, n, bs, ioSize);
          return Some(n);
        }
        i := i + 1;
      }
      return None;
    }

    /** Sets the clear run from `block` on, at most `want` long, and records it. */
    method MarkRun(block: nat, want: nat) returns (n: nat)
      requires Valid() && 1 <= want && block + want <= LastBlock() && block !in axmap.Contents()
      modifies this, axmap
      ensures Valid() && 1 <= n <= want && issued == old(issued) + [Run(block, n)]
      ensures IsClearRun(old(axmap.Contents()), block, want, n)
    {
      n := axmap.SetNr(block, want);
      AddRun(issued, Run(block, n));
      issued := issued + [Run(block, n)];
    }

    /** `mark_random_map`: marks the free part of the run and trims the length to it. */
    method Mark(offset: nat, buflen: nat, ghost block: nat, ghost want: nat) returns (trimmed: nat)
      requires Valid() && offset == fileOffset + block * bs && buflen == want * bs
      requires 1 <= want && block + want <= LastBlock() && block !in axmap.Contents()
      modifies this, axmap
      ensures Valid() && Extends(old(issued), fileOffset, bs, offset, trimmed)
      ensures issued[|old(issued)|].start == block
      ensures IsClearRun(old(axmap.Contents()), block, want, issued[|old(issued)|].count)
    {
      var at, nr := InBlocks(offset - fileOffset, buflen, bs, block, want);
      var n := MarkRun(at, nr);
      trimmed := Trim(n, buflen, bs, want);
    }

    /** One more run has been issued, inside the file, for the given byte range. */
    ghost predicate Extends(before: seq<Run>, base: nat, unit: nat, offset: nat, buflen: nat)
      requires bs > 0
      reads this
    {
      && |issued| == |before| + 1 && issued[..|before|] == before
      && var run := issued[|before|];
         run.count > 0 && run.start + run.count <= LastBlock()
         && offset == base + run.start * unit && buflen == run.count * unit
    }

    /** The length asked for from `block` on. */
    ghost function Wanted(block: nat, sizes: seq<nat>): Option<nat>
      requires bs > 0 && maxBlocks > 0
    {
      if maxBlocks == 1 then Some(1) else FirstFit(block, sizes)
    }

    /** The run starts where the draw leads, and is as long as its first fitting size and the
        blocks taken before let it be. */
    ghost predicate Follows(taken: set<nat>, draw: Draw, run: Run)
      requires bs > 0 && maxBlocks > 0
    {
      && Chosen(taken, draw.position, run.start, LastBlock())
      && var want := Wanted(run.start, draw.sizes);
         want.Some? && IsClearRun(taken, run.start, want.value, run.count)
    }

    /** The draw has a size that fits everywhere: there is but one, or one block is drawn. */
    ghost predicate Suffices(draw: Draw) {
      maxBlocks == 1 || exists i :: 0 <= i < |draw.sizes| && draw.sizes[i] < bs
    }

    /** The offset, the length and the checks of `fill_io_u`. */
    method NextRange(draw: Draw) returns (r: Outcome, ghost run: Run)
      requires Valid() && (LastBlock() > 0 ==> draw.position < LastBlock())
      ensures r.Issued? ==> r.offset == fileOffset + run.start * bs && r.buflen == run.count * bs
      ensures r.Issued? ==> 1 <= run.count && run.start + run.count <= LastBlock()
      ensures r.Issued? ==> Chosen(axmap.Contents(), draw.position, run.start, LastBlock())
      ensures r.Issued? ==> Some(run.count) == Wanted(run.start, draw.sizes)
      ensures r.Done? ==> forall x: nat :: x < LastBlock() ==> x in axmap.Contents()
      ensures r.Redraw? ==> !Suffices(draw)
    {
      run := Run(0, 0);
      if LastBlock() == 0 {
        return Done, run;
      }
      var b := NextBlock(draw.position);
      if b.None? {
        return Done, run;
      }
      var block := b.value;
      BlockInFile(block, bs, ioSize);
      var offset := block * bs;
      if offset >= ioSize {
        return Done, run;
      }
      offset := offset + fileOffset;
      if offset >= realSize {
        return Done, run;
      }
      var want := NextBuflen(block, draw.sizes);
      if want.None? {
        return Redraw, run;
      }
      RunInFile(block, want.value, bs, ioSize);
      var buflen := want.value * bs;
      if offset + buflen > realSize {
        return Done, run;
      }
      return Issued(offset, buflen), Run(block, want.value);
    }

    /** `fill_io_u` with its marking: issues a range nobody issued before, or reports the
        file done when every block has been issued. */
    method Fill(draw: Draw) returns (r: Outcome)
      requires Valid() && (LastBlock() > 0 ==> draw.position < LastBlock())
      modifies this, axmap
      ensures Valid()
      ensures r.Issued? ==> Extends(old(issued), fileOffset, bs, r.offset, r.buflen)
      ensures r.Issued? ==> Follows(old(axmap.Contents()), draw, issued[|old(issued)|])
      ensures !r.Issued? ==> issued == old(issued)
      ensures r.Done? ==> ExactCover(issued, LastBlock())
      ensures r.Redraw? ==> !Suffices(draw)
    {
      ghost var run;
      r, run := NextRange(draw);
      if r.Issued? {
        var buflen := Mark(r.offset, r.buflen, run.start, run.count);
        r := Issued(r.offset, buflen);
      }
    }

    /** Servicing the file with one draw after another, as `set_io_u_file` does, up to the
        failure that marks it done: by then every block has been issued exactly once. With
        a fitting size in each, one draw more than there are blocks is enough for that. */
    method Service(draws: seq<Draw>) returns (done: bool)
      requires Valid() && issued == []
      requires forall k :: 0 <= k < |draws| && LastBlock() > 0 ==> draws[k].position < LastBlock()
      modifies this, axmap
      ensures Valid() && |issued| <= LastBlock()
      ensures done ==> ExactCover(issued, LastBlock()) && Blocks(issued) == LastBlock()
      ensures |draws| > LastBlock() && (forall k :: 0 <= k < |draws| ==> Suffices(draws[k])) ==> done
    {
      done := false;
      var k := 0;
      while k < |draws| && !done
        invariant 0 <= k <= |draws| && Valid()
        invariant done ==> ExactCover(issued, LastBlock())
        invariant (forall j :: 0 <= j < |draws| ==> Suffices(draws[j])) && !done ==> |issued| == k
      {
        var r := Fill(draws[k]);
        done := r.Done?;
        k := k + 1;
      }
      if done {
        CoverIsWhole(issued, LastBlock());
      }
      IssuesBounded(issued, LastBlock());
    }

    /** `fio_file_reset`. */
    method Reset()
      requires Valid()
      modifies this, axmap
      ensures Valid() && issued == []
    {
      axmap.Reset();
      issued := [];
    }
  }
}
