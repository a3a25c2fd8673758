/** fio's axmap: a set of block numbers kept as a bitmap of bitmaps. A bit at level `n + 1`
    is set exactly when the word it stands for at level `n` is full, so lookups and
    searches can start at the top. A machine word is the set of its one bits. */
module AxMap {
  import opened Bits
  import opened Options

  const UNIT: nat := 64

  type Word = set<nat>
  type Level = seq<Word>

  predicate Within(b: nat, from: nat, n: nat) {
    from <= b < from + n
  }

  /** The bits `from .. from + n` of a word. */
  function Mask(from: nat, n: nat): (w: Word)
    ensures forall b: nat :: b in w <==> Within(b, from, n)
  {
    set b: nat | from <= b < from + n && Within(b, from, n)
  }

  function Full(): Word {
    Mask(0, UNIT)
  }

  function Words(bits: nat): nat {
    (bits + UNIT - 1) / UNIT
  }

  predicate IsSet(level: Level, b: nat) {
    b / UNIT < |level| && b % UNIT in level[b / UNIT]
  }

  /** Words hold only bits that exist. */
  ghost predicate WordsOk(level: Level) {
    forall j :: 0 <= j < |level| ==> level[j] <= Full()
  }

  predicate WordFull(level: Level, j: nat) {
    j < |level| && level[j] == Full()
  }

  /** `hi` summarises `lo`. */
  ghost predicate Linked(lo: Level, hi: Level) {
    |hi| == Words(|lo|) && forall j: nat :: IsSet(hi, j) <==> j < |lo| && WordFull(lo, j)
  }

  /** A stack of levels, lowest first, each summarised by the next. */
  ghost predicate Chain(levels: seq<Level>) {
    levels != [] && WordsOk(levels[0]) && (|levels| > 1 ==> Linked(levels[0], levels[1]) && Chain(levels[1..]))
  }

  lemma {:induction false} ChainAt(levels: seq<Level>, i: nat)
    requires Chain(levels) && i < |levels|
    ensures WordsOk(levels[i])
    ensures i + 1 < |levels| ==> Linked(levels[i], levels[i + 1])
  {
    if i > 0 {
      ChainAt(levels[1..], i - 1);
    }
  }

  /** Index of block `b` at level `i`: `b >> (6 * i)`. */
  function Up(b: nat, i: nat): nat {
    if i == 0 then b else Up(b, i - 1) / UNIT
  }

  /** The lowest bit of `w` at or above `k`; `ffz` of the complement. */
  function LowestFrom(w: Word, k: nat): (r: nat)
    requires exists b :: b in w && k <= b < UNIT
    ensures r in w && k <= r < UNIT && forall b :: b in w && k <= b ==> r <= b
    decreases UNIT - k
  {
    if k in w then k
    else
      assert forall b :: b in w && k <= b < UNIT ==> k + 1 <= b;
      LowestFrom(w, k + 1)
  }

  function SetInLevel(level: Level, index: nat, n: nat): Level
    requires index / UNIT < |level|
  {
    level[index / UNIT := level[index / UNIT] + Mask(index % UNIT, n)]
  }

  lemma SetInLevelBits(level: Level, index: nat, n: nat)
    requires index / UNIT < |level| && WordsOk(level) && index % UNIT + n <= UNIT
    ensures WordsOk(SetInLevel(level, index, n)) && |SetInLevel(level, index, n)| == |level|
    ensures forall b: nat :: IsSet(SetInLevel(level, index, n), b) <==> IsSet(level, b) || index <= b < index + n
  {
    var l' := SetInLevel(level, index, n);
    forall b: nat ensures IsSet(l', b) <==> IsSet(level, b) || index <= b < index + n {
      if b / UNIT == index / UNIT {
        assert index <= b < index + n <==> index % UNIT <= b % UNIT < index % UNIT + n;
      }
    }
  }

  /** What the bottom-up walk of `axmap_set_fn` makes of the levels: set the bits, and as
      long as the word just became full, set its bit one level up. */
  ghost function SetFrom(levels: seq<Level>, index: nat, n: nat): seq<Level>
    requires levels != [] && index / UNIT < |levels[0]|
    requires Chain(levels)
    decreases |levels|
  {
    var l0 := SetInLevel(levels[0], index, n);
    if l0[index / UNIT] == Full() && |levels| > 1 then
      assert (index / UNIT) / UNIT < |levels[1]|;
      [l0] + SetFrom(levels[1..], index / UNIT, 1)
    else [l0] + levels[1..]
  }

  lemma LinkedAfterFill(lo: Level, lo': Level, hi: Level, hi': Level, j: nat)
    requires Linked(lo, hi) && j < |lo| == |lo'| && lo' == lo[j := lo'[j]] && lo'[j] == Full() && |hi'| == |hi|
    requires forall b: nat :: IsSet(hi', b) <==> IsSet(hi, b) || j <= b < j + 1
    ensures Linked(lo', hi')
  {
  }

  lemma LinkedAfterSet(lo: Level, lo': Level, hi: Level, j: nat)
    requires Linked(lo, hi) && j < |lo| == |lo'| && lo' == lo[j := lo'[j]] && lo'[j] != Full() && lo[j] != Full()
    ensures Linked(lo', hi)
  {
  }

  /** Setting clear bits keeps every level a summary of the one below and adds exactly
      those bits to the lowest level. */
  lemma {:induction false} SetFromOk(levels: seq<Level>, index: nat, n: nat)
    requires Chain(levels) && index / UNIT < |levels[0]| && 1 <= n && index % UNIT + n <= UNIT
    requires forall b :: index <= b < index + n ==> !IsSet(levels[0], b)
    ensures var r := SetFrom(levels, index, n);
            && Chain(r) && |r| == |levels| && |r[0]| == |levels[0]|
            && (forall b: nat :: IsSet(r[0], b) <==> IsSet(levels[0], b) || index <= b < index + n)
    decreases |levels|
  {
    var r := SetFrom(levels, index, n);
    var j := index / UNIT;
    SetInLevelBits(levels[0], index, n);
    assert !IsSet(levels[0], index);
    assert index % UNIT in Full();
    assert levels[0][j] != Full();
    if |levels| > 1 {
      assert !IsSet(levels[1], j);
      if r[0][j] == Full() {
        SetFromOk(levels[1..], j, 1);
        LinkedAfterFill(levels[0], r[0], levels[1], r[1], j);
        assert r[1..] == SetFrom(levels[1..], j, 1);
      } else {
        LinkedAfterSet(levels[0], r[0], levels[1], j);
        assert r[1..] == levels[1..];
      }
    }
  }

  /** A full word one level up means a set bit here. */
  lemma {:induction false} SetAbove(levels: seq<Level>, b: nat, i: nat)
    requires Chain(levels) && i < |levels| && IsSet(levels[i], Up(b, i))
    ensures IsSet(levels[0], b)
  {
    if i > 0 {
      ChainAt(levels, i - 1);
      var x := Up(b, i - 1);
      assert x % UNIT in Full();
      assert IsSet(levels[i - 1], x);
      SetAbove(levels, b, i - 1);
    }
  }

  /** A block inside the map has a word at every level. */
  lemma {:induction false} UpInRange(levels: seq<Level>, b: nat, i: nat)
    requires Chain(levels) && i < |levels| && b / UNIT < |levels[0]|
    ensures Up(b, i) / UNIT < |levels[i]|
  {
    if i > 0 {
      UpInRange(levels, b, i - 1);
      ChainAt(levels, i - 1);
    }
  }

  /** Every index from `Up(from, i)` on is set at level `i`. */
  ghost predicate NoneFreeAt(levels: seq<Level>, from: nat, i: nat)
    requires i < |levels|
  {
    forall x: nat :: Up(from, i) <= x && x / UNIT < |levels[i]| ==> IsSet(levels[i], x)
  }

  lemma {:induction false} NoneFreeBelow(levels: seq<Level>, from: nat, i: nat)
    requires Chain(levels) && i < |levels| && NoneFreeAt(levels, from, i)
    ensures NoneFreeAt(levels, from, 0)
  {
    if i > 0 {
      ChainAt(levels, i - 1);
      forall x: nat | Up(from, i - 1) <= x && x / UNIT < |levels[i - 1]| ensures IsSet(levels[i - 1], x) {
        var y := x / UNIT;
        assert IsSet(levels[i], y);
        assert x % UNIT in Full();
      }
      NoneFreeBelow(levels, from, i - 1);
    }
  }

  /** If every bit before `index` is set one level up, every bit before the first one of
      word `index` is set here. */
  lemma SetBelow(lo: Level, hi: Level, from: nat, index: nat)
    requires Linked(lo, hi)
    requires forall x :: from / UNIT <= x < index ==> IsSet(hi, x)
    ensures forall x :: from <= x < index * UNIT ==> IsSet(lo, x)
  {
    forall x | from <= x < index * UNIT ensures IsSet(lo, x) {
      assert IsSet(hi, x / UNIT);
      assert x % UNIT in Full();
    }
  }

  /** The free bits of word `offset` at or above bit `k`. */
  function FreeIn(level: Level, offset: nat, k: nat): Word
    requires offset < |level| && k <= UNIT
  {
    Mask(k, UNIT - k) - level[offset]
  }

  lemma FirstInWord(level: Level, index: nat, offset: nat, bit: nat, low: nat)
    requires offset < |level| && bit <= UNIT && index <= offset * UNIT + bit
    requires forall x :: index <= x < offset * UNIT + bit ==> IsSet(level, x)
    requires low in FreeIn(level, offset, bit) && forall b :: b in FreeIn(level, offset, bit) ==> low <= b
    ensures var x := offset * UNIT + low; index <= x && x / UNIT == offset && !IsSet(level, x)
    ensures forall x :: index <= x < offset * UNIT + low ==> IsSet(level, x)
  {
    forall x | index <= x < offset * UNIT + low ensures IsSet(level, x) {
      if x >= offset * UNIT + bit {
        assert x / UNIT == offset && x % UNIT == x - offset * UNIT;
        assert x % UNIT !in FreeIn(level, offset, bit);
      }
    }
  }

  lemma WordDone(level: Level, index: nat, offset: nat, bit: nat)
    requires offset < |level| && bit <= UNIT && FreeIn(level, offset, bit) == {}
    requires forall x :: index <= x < offset * UNIT + bit ==> IsSet(level, x)
    ensures forall x :: index <= x < (offset + 1) * UNIT ==> IsSet(level, x)
  {
    forall x | index <= x < (offset + 1) * UNIT ensures IsSet(level, x) {
      if x >= offset * UNIT + bit {
        assert x / UNIT == offset && x % UNIT == x - offset * UNIT;
        assert x % UNIT !in FreeIn(level, offset, bit);
      }
    }
  }

  /** The scan at one level: the first free bit at or after `index`. */
  method ScanLevel(level: Level, index: nat) returns (r: Option<nat>)
    requires index / UNIT < |level| && WordsOk(level)
    ensures r.None? ==> forall x: nat :: index <= x && x / UNIT < |level| ==> IsSet(level, x)
    ensures r.Some? ==> index <= r.value && r.value / UNIT < |level| && !IsSet(level, r.value)
    ensures r.Some? ==> forall x :: index <= x < r.value ==> IsSet(level, x)
  {
    var offset := index / UNIT;
    var bit := index % UNIT;
    var temp := FreeIn(level, offset, bit);
    if temp != {} {
      ghost var w :| w in temp;
      var low := LowestFrom(temp, bit);
      FirstInWord(level, index, offset, bit, low);
      return Some(offset * UNIT + low);
    }
    WordDone(level, index, offset, bit);
    offset := offset + 1;
    while offset < |level|
      invariant index / UNIT < offset <= |level|
      invariant forall x :: index <= x < offset * UNIT ==> IsSet(level, x)
    {
      temp := FreeIn(level, offset, 0);
      if temp != {} {
        ghost var w :| w in temp;
        var low := LowestFrom(temp, 0);
        FirstInWord(level, index, offset, 0, low);
        return Some(offset * UNIT + low);
      }
      WordDone(level, index, offset, 0);
      offset := offset + 1;
    }
    return None;
  }

  /** The length of the clear run from `bit` on, at most `nr`. */
  ghost predicate IsClearRun(contents: set<nat>, bit: nat, nr: nat, n: nat) {
    && n <= nr
    && (forall b: nat :: Within(b, bit, n) ==> b !in contents)
    && (n < nr ==> bit + n in contents)
  }

  /** `r` is the first free number after `bit` in the cyclic order of `0 .. n`. */
  ghost predicate NextAfter(contents: set<nat>, bit: nat, r: nat, n: nat) {
    if bit < r then forall b: nat :: bit < b < r ==> b in contents
    else forall b: nat :: bit < b < n || b < r ==> b in contents
  }

  lemma RunExtends(bit: nat, n: nat, m: nat)
    ensures forall b: nat :: Within(b, bit, n + m) <==> Within(b, bit, n) || Within(b, bit + n, m)
  {
  }

  function Zeros(n: nat): (level: Level)
    ensures |level| == n && forall b: nat :: !IsSet(level, b)
  {
    seq(n, _ => {})
  }

  lemma ZerosLinked(n: nat)
    ensures Linked(Zeros(n), Zeros(Words(n)))
  {
    assert 0 in Full();
  }

  lemma {:induction false} ZeroedChain(before: seq<Level>, after: seq<Level>)
    requires Chain(before) && |after| == |before|
    requires forall j :: 0 <= j < |after| ==> after[j] == Zeros(|before[j]|)
    ensures Chain(after)
  {
    if |before| > 1 {
      ZeroedChain(before[1..], after[1..]);
      ZerosLinked(|before[0]|);
    }
  }

  /** The 32-bit form of `Words` in the loop that counts levels. */
  function Words32(words: nat): (n: nat)
    ensures words > 1 ==> n < words
    ensures words + UNIT <= U32 ==> n == Words(words)
  {
    ((words + UNIT - 1) % U32) / UNIT
  }

  /** Levels above the first until one word is left. */
  function LevelsNeeded(words: nat): nat {
    if words <= 1 then 1 else 1 + LevelsNeeded(Words(words))
  }

  ghost function ZeroLevels(n: nat, k: nat): (ls: seq<Level>)
    ensures |ls| == k
  {
    if k == 0 then [] else [Zeros(Words(n))] + ZeroLevels(Words(n), k - 1)
  }

  lemma {:induction false} ZeroLevelsChain(n: nat, k: nat)
    requires k > 0
    ensures Chain(ZeroLevels(n, k))
    decreases k
  {
    var ls := ZeroLevels(n, k);
    if k > 1 {
      ZeroLevelsChain(Words(n), k - 1);
      ZerosLinked(Words(n));
      assert ls[1..] == ZeroLevels(Words(n), k - 1);
    }
  }

  /** The walk of `axmap_handler` over the levels, lowest first, until a word stays short
      of full. */
  method Climb(before: seq<Level>, bit: nat, n: nat) returns (levels: seq<Level>)
    requires Chain(before) && bit / UNIT < |before[0]|
    ensures levels == SetFrom(before, bit, n)
  {
    levels := before;
    var i: nat, index: nat, bits: nat := 0, bit, n;
    ghost var done, rest: seq<Level> := [], before;
    while i < |levels|
      invariant i == |done| && levels == done + rest && Chain(rest) && index / UNIT < |rest[0]|
      invariant SetFrom(before, bit, n) == done + SetFrom(rest, index, bits)
    {
      var level := SetInLevel(levels[i], index, bits);
      levels := levels[i := level];
      assert levels == done + ([level] + rest[1..]);
      if level[index / UNIT] != Full() || i + 1 == |levels| {
        return;
      }
      ghost var after := SetFrom(rest[1..], index / UNIT, 1);
      assert done + ([level] + after) == (done + [level]) + after;
      assert done + ([level] + rest[1..]) == (done + [level]) + rest[1..];
      done, rest := done + [level], rest[1..];
      i, index, bits := i + 1, index / UNIT, 1;
    }
  }

  /** The level-counting loop of `axmap_new`. */
  method CountLevels(nrBits: nat) returns (count: nat)
    ensures count >= 1
    ensures Words(nrBits) + UNIT <= U32 ==> count == LevelsNeeded(Words(nrBits))
  {
    count := 1;
    var i: nat := Words(nrBits) % U32;
    while i > 1
      invariant count >= 1
      invariant Words(nrBits) + UNIT <= U32 ==> i <= Words(nrBits)
      invariant Words(nrBits) + UNIT <= U32 ==> count + LevelsNeeded(i) == 1 + LevelsNeeded(Words(nrBits))
      decreases i
    {
      i := Words32(i);
      count := count + 1;
    }
  }

  /** Its allocation loop. */
  method MakeLevels(nrBits: nat, count: nat) returns (ls: seq<Level>)
    ensures ls == ZeroLevels(nrBits, count)
  {
    ls := [];
    var n: nat := nrBits;
    while |ls| < count
      invariant |ls| <= count
      invariant ls + ZeroLevels(n, count - |ls|) == ZeroLevels(nrBits, count)
      decreases count - |ls|
    {
      n := Words(n);
      ghost var rest := ZeroLevels(n, count - |ls| - 1);
      assert ls + ([Zeros(n)] + rest) == (ls + [Zeros(n)]) + rest;
      ls := ls + [Zeros(n)];
    }
  }

  class AxMap {
    const nrBits: nat
    var levels: seq<Level>

    ghost predicate Valid()
      reads this
    {
      Chain(levels) && |levels[0]| == Words(nrBits) && forall b: nat :: IsSet(levels[0], b) ==> b < nrBits
    }

    /** The set this map stores. */
    ghost function Contents(): set<nat>
      reads this
      requires Valid()
    {
      set b: nat | b < nrBits && IsSet(levels[0], b)
    }

    /** `axmap_isset`, from the top level down. At `nr_bits` itself the source reads the
        map too; that is in bounds only if the last word has room for it. */
    method Isset(bit: nat) returns (r: bool)
      requires Valid() && (bit == nrBits ==> nrBits % UNIT != 0)
      ensures r <==> bit in Contents()
    {
      if bit > nrBits {
        return false;
      }
      var i := |levels|;
      while i > 0
        invariant 0 <= i <= |levels|
        invariant i < |levels| ==> !IsSet(levels[i], Up(bit, i))
      {
        i := i - 1;
        var index := Up(bit, i);
        UpInRange(levels, bit, i);
        if index % UNIT in levels[i][index / UNIT] {
          SetAbove(levels, bit, i);
          return true;
        }
      }
      return false;
    }

    /** `axmap_find_first_free`: the first free block at or after `bit`. */
    method FindFirstFree(bit: nat) returns (r: Option<nat>)
      requires Valid()
      ensures r.None? ==> forall x :: bit <= x < nrBits ==> x in Contents()
      ensures r.Some? ==> bit <= r.value < nrBits && r.value !in Contents()
      ensures r.Some? ==> forall x :: bit <= x < r.value ==> x in Contents()
    {
      var index := 0;
      var i := |levels|;
      while i > 0
        invariant 0 <= i <= |levels|
        invariant i == |levels| ==> index == 0
        invariant i < |levels| ==> Up(bit, i) <= index && !IsSet(levels[i], index)
        invariant i < |levels| ==> forall x :: Up(bit, i) <= x < index ==> IsSet(levels[i], x)
      {
        i := i - 1;
        ChainAt(levels, i);
        var al := levels[i];
        if i + 1 < |levels| {
          SetBelow(al, levels[i + 1], Up(bit, i), index);
        }
        index := index * UNIT;
        var base := Up(bit, i);
        if index < base {
          index := base;
        }
        assert forall x :: base <= x < index ==> IsSet(al, x);
        if index / UNIT >= |al| {
          NoneFreeBelow(levels, bit, i);
          return None;
        }
        var found := ScanLevel(al, index);
        if found.None? {
          NoneFreeBelow(levels, bit, i);
          return None;
        }
        index := found.value;
      }
      if index >= nrBits {
        return None;
      }
      return Some(index);
    }

    /** `axmap_set_fn` on one word of one level: how many bits to set, zero if the first is
        taken. */
    method BitsToSet(level: Level, index: nat, nr: nat) returns (n: nat)
      requires index / UNIT < |level| && 1 <= nr && index % UNIT + nr <= UNIT
      ensures n <= nr && (forall b: nat :: Within(b, index, n) ==> !IsSet(level, b))
      ensures n < nr ==> IsSet(level, index + n)
    {
      var offset, bit := index / UNIT, index % UNIT;
      var overlap := level[offset] * Mask(bit, nr);
      n := nr;
      if overlap == Mask(bit, nr) {
        assert bit in Mask(bit, nr);
        n := 0;
      } else if overlap != {} {
        ghost var w :| w in overlap;
        n := LowestFrom(overlap, bit) - bit;
      }
      forall b: nat | Within(b, index, n) ensures !IsSet(level, b) {
        assert b / UNIT == offset && b % UNIT == bit + (b - index);
        assert b % UNIT !in overlap;
      }
      if n < nr {
        assert (index + n) / UNIT == offset && (index + n) % UNIT == bit + n;
      }
    }

    /** `__axmap_set`: sets a run inside one word, then climbs while words fill up. */
    method SetWord(bit: nat, nr: nat) returns (n: nat)
      requires Valid() && 1 <= nr && bit % UNIT + nr <= UNIT && bit + nr <= nrBits
      modifies this
      ensures Valid()
      ensures IsClearRun(old(Contents()), bit, nr, n)
      ensures forall b: nat :: b in Contents() <==> b in old(Contents()) || Within(b, bit, n)
    {
      n := BitsToSet(levels[0], bit, nr);
      if n != 0 {
        SetFromOk(levels, bit, n);
        levels := Climb(levels, bit, n);
      }
    }

    /** `axmap_set_nr`: sets the clear run that starts at `bit`, at most `nr` long. */
    method SetNr(bit: nat, nr: nat) returns (setBits: nat)
      requires Valid() && 1 <= nr && bit + nr <= nrBits
      modifies this
      ensures Valid()
      ensures IsClearRun(old(Contents()), bit, nr, setBits)
      ensures forall b: nat :: b in Contents() <==> b in old(Contents()) || Within(b, bit, setBits)
    {
      setBits := 0;
      while setBits < nr
        invariant setBits <= nr && Valid()
        invariant forall b: nat :: Within(b, bit, setBits) ==> b !in old(Contents())
        invariant forall b: nat :: b in Contents() <==> b in old(Contents()) || Within(b, bit, setBits)
      {
        var cur, left := bit + setBits, nr - setBits;
        var max := UNIT - cur % UNIT;
        var want := if left > max then max else left;
        var got := SetWord(cur, want);
        RunExtends(bit, setBits, got);
        setBits := setBits + got;
        if got != want {
          break;
        }
      }
    }

    /** `axmap_next_free`: the first free block after `bit`, cyclically. */
    method NextFree(bit: nat) returns (r: Option<nat>)
      requires Valid()
      ensures bit >= nrBits ==> r.None?
      ensures bit in Contents() ==> (r.None? <==> forall b: nat :: b < nrBits ==> b in Contents())
      ensures r.Some? ==> r.value < nrBits && r.value !in Contents() && NextAfter(Contents(), bit, r.value, nrBits)
    {
      if bit >= nrBits {
        return None;
      }
      var next := if bit + 1 == nrBits then 0 else bit + 1;
      r := FirstFrom(next);
      if r.None? && next != 0 {
        r := FindFirstFree(0);
      }
    }

    /** The quick look at the word of `next` before the search from the top. */
    method FirstFrom(next: nat) returns (r: Option<nat>)
      requires Valid() && next < nrBits
      ensures r.None? ==> forall x :: next <= x < nrBits ==> x in Contents()
      ensures r.Some? ==> next <= r.value < nrBits && r.value !in Contents()
      ensures r.Some? ==> forall x :: next <= x < r.value ==> x in Contents()
    {
      var offset, k := next / UNIT, next % UNIT;
      var temp := FreeIn(levels[0], offset, k);
      if temp != {} {
        ghost var w :| w in temp;
        var low := LowestFrom(temp, k);
        FirstInWord(levels[0], next, offset, k, low);
        r := if offset * UNIT + low >= nrBits then None else Some(offset * UNIT + low);
      } else {
        r := FindFirstFree(next);
      }
    }

    /** `axmap_reset`. */
    method Reset()
      requires Valid()
      modifies this
      ensures Valid() && Contents() == {}
    {
      var i := 0;
      ghost var before := levels;
      while i < |levels|
        invariant 0 <= i <= |levels| == |before|
        invariant forall j :: 0 <= j < i ==> levels[j] == Zeros(|before[j]|)
        invariant forall j :: i <= j < |levels| ==> levels[j] == before[j]
      {
        levels := levels[i := Zeros(|levels[i]|)];
        i := i + 1;
      }
      ZeroedChain(before, levels);
    }

    /** `axmap_new`. */
    /** The code counts the levels in 32 bits. A map so large that the count of words does
        not fit has fewer levels than one word at the top takes, and is right all the same. */
    constructor (nrBits: nat)
      ensures this.nrBits == nrBits && Valid() && Contents() == {}
      ensures Words(nrBits) + UNIT <= U32 ==> |levels| == LevelsNeeded(Words(nrBits))
    {
      var count := CountLevels(nrBits);
      var ls := MakeLevels(nrBits, count);
      ZeroLevelsChain(nrBits, count);
      this.nrBits := nrBits;
      levels := ls;
    }
  }
}
