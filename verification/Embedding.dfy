/** The embedding offload: the host lays a table out in device pages and asks the device,
    one request a row, to add rows into a result page; the device program recomputes the
    row's place inside its page. Words are 32-bit and wrap. */
module Embedding {
  import opened Bits

  const PAGE_WORDS: nat := 1024
  const PAGE_BYTES: nat := 4096
  const SLBA: nat := 1024
  const TABLE_STRIDE: nat := 250000

  type Page = p: seq<nat> | |p| == PAGE_WORDS witness seq(PAGE_WORDS, _ => 0)
  type Flash = map<nat, Page>

  function Blank(): Page {
    seq(PAGE_WORDS, _ => 0)
  }

  /** Plain page read. */
  function PageAt(flash: Flash, lba: nat): Page {
    if lba in flash then flash[lba] else Blank()
  }

  /** w * n by repeated addition: products of two variables stay out of the proofs. */
  function Times(w: nat, n: nat): nat {
    if n == 0 then 0 else Times(w, n - 1) + w
  }

  lemma TimesIsProduct(w: nat, n: nat)
    ensures Times(w, n) == w * n
  {
  }

  lemma {:induction false} TimesAdd(w: nat, m: nat, n: nat)
    ensures Times(w, m + n) == Times(w, m) + Times(w, n)
  {
    if n > 0 {
      TimesAdd(w, m, n - 1);
    }
  }

  /** Vector length and rows per page. */
  datatype Shape = Shape(width: nat, rows: nat) {
    ghost predicate Ok() {
      width > 0 && rows > 0 && Times(width, rows) == PAGE_WORDS
    }
  }

  /** Page of row `idx` within its table. */
  function RowPage(s: Shape, idx: nat): nat
    requires s.rows > 0
  {
    DivMod(idx, s.rows).0
  }

  /** The page the host computes for row `idx` of table `id`. */
  function RowLba(s: Shape, id: nat, idx: nat): nat {
    SLBA + id * TABLE_STRIDE + (4 * Times(s.width, idx)) / PAGE_BYTES
  }

  lemma RowEndsInPage(s: Shape, r: nat)
    requires s.Ok() && r < s.rows
    ensures Times(s.width, r) + s.width <= PAGE_WORDS
  {
    TimesAdd(s.width, r + 1, s.rows - (r + 1));
  }

  /** First word of row `idx` inside its page, as the device and the host reader compute it. */
  function RowOffset(s: Shape, idx: nat): (o: nat)
    requires s.Ok()
    ensures o + s.width <= PAGE_WORDS
  {
    RowEndsInPage(s, DivMod(idx, s.rows).1);
    Times(s.width, DivMod(idx, s.rows).1)
  }

  /** Host page split and in-page offset together name exactly the row's words. */
  lemma {:induction false} RowPlace(s: Shape, idx: nat)
    requires s.Ok()
    ensures Times(s.width, idx) == PAGE_WORDS * RowPage(s, idx) + RowOffset(s, idx)
    ensures (4 * Times(s.width, idx)) / PAGE_BYTES == RowPage(s, idx)
    decreases idx
  {
    if idx >= s.rows {
      RowPlace(s, idx - s.rows);
      TimesAdd(s.width, idx - s.rows, s.rows);
    }
  }

  const INT_END: nat := 0x8000_0000

  /** The products and sums of the address fit the host's 32-bit `int`. */
  predicate HostFits(s: Shape, id: nat, idx: nat) {
    4 * Times(s.width, idx) < INT_END && id * TABLE_STRIDE < INT_END && RowLba(s, id, idx) < INT_END
  }

  lemma {:induction false} FirstOfPage(s: Shape, p: nat)
    requires s.rows > 0
    ensures RowPage(s, Times(s.rows, p)) == p
  {
    if p > 0 {
      FirstOfPage(s, p - 1);
    }
  }

  /** Every row of a table can be addressed exactly for table ids up to 8588. */
  lemma TableAddressableIff(s: Shape, id: nat)
    requires s.Ok()
    ensures (forall idx: nat :: RowPage(s, idx) < TABLE_STRIDE ==> HostFits(s, id, idx)) <==> id <= 8588
  {
    if id <= 8588 {
      forall idx: nat | RowPage(s, idx) < TABLE_STRIDE
        ensures HostFits(s, id, idx)
      {
        RowPlace(s, idx);
      }
    } else {
      var idx := Times(s.rows, TABLE_STRIDE - 1);
      FirstOfPage(s, TABLE_STRIDE - 1);
      RowPlace(s, idx);
      assert RowPage(s, idx) < TABLE_STRIDE && !HostFits(s, id, idx);
    }
  }

  /** `unvme_read_embedding` stores the elapsed time in the word after the row. That word is
      part of the page buffer exactly when the row is not the last of its page. */
  lemma ElapsedInPageIff(s: Shape, idx: nat)
    requires s.Ok()
    ensures RowOffset(s, idx) + s.width < PAGE_WORDS <==> DivMod(idx, s.rows).1 != s.rows - 1
  {
    var r := DivMod(idx, s.rows).1;
    TimesAdd(s.width, r + 1, s.rows - (r + 1));
    if r + 1 < s.rows {
      TimesAdd(s.width, s.rows - (r + 1) - 1, 1);
    }
  }

  /** The row a plain read returns. */
  function RowOf(flash: Flash, s: Shape, id: nat, idx: nat): (row: seq<nat>)
    requires s.Ok()
    ensures |row| == s.width
  {
    PageAt(flash, RowLba(s, id, idx))[RowOffset(s, idx)..RowOffset(s, idx) + s.width]
  }

  /** Row `idx` of a table in memory. */
  function TableRow(table: seq<nat>, s: Shape, idx: nat): seq<nat>
    requires Times(s.width, idx) + s.width <= |table|
  {
    table[Times(s.width, idx)..Times(s.width, idx) + s.width]
  }

  datatype Write = Write(table: seq<nat>, id: nat)

  /** A request: add table row `row` into result row `result`. */
  datatype Req = Req(result: nat, row: nat)

  /** The whole page of row `idx` is part of the table. */
  ghost predicate Fills(table: seq<nat>, s: Shape, idx: nat)
    requires s.Ok()
    ensures Fills(table, s, idx) ==> Times(s.width, idx) + s.width <= |table|
  {
    RowPlace(s, idx);
    RowPage(s, idx) < |table| / PAGE_WORDS
  }

  /** What row `idx` of table `id` holds after the writes: the row from the last write that
      filled its page, or a blank row. */
  ghost function LastWritten(writes: seq<Write>, s: Shape, id: nat, idx: nat): (row: seq<nat>)
    requires s.Ok()
    ensures |row| == s.width
  {
    if writes == [] then seq(s.width, _ => 0)
    else
      var w := writes[|writes| - 1];
      if w.id == id && Fills(w.table, s, idx) then TableRow(w.table, s, idx)
      else LastWritten(writes[..|writes| - 1], s, id, idx)
  }

  ghost predicate RowIsLast(flash: Flash, writes: seq<Write>, s: Shape, id: nat, idx: nat)
    requires s.Ok()
  {
    RowPage(s, idx) < TABLE_STRIDE ==> RowOf(flash, s, id, idx) == LastWritten(writes, s, id, idx)
  }

  /** Contents of page `lba` after `table` has been written as table `id`: a page of the
      table if the table fills it, otherwise what was there. */
  function PageAfter(flash: Flash, table: seq<nat>, id: nat, lba: nat): Page {
    var base := SLBA + id * TABLE_STRIDE;
    if base <= lba < base + |table| / PAGE_WORDS
    then table[(lba - base) * PAGE_WORDS..(lba - base + 1) * PAGE_WORDS]
    else PageAt(flash, lba)
  }

  lemma PartAfterWrite(flash: Flash, flash': Flash, w: Write, id: nat, p: nat, o: nat, n: nat)
    requires p < TABLE_STRIDE && o + n <= PAGE_WORDS && |w.table| <= TABLE_STRIDE * PAGE_WORDS
    requires forall lba: nat :: PageAt(flash', lba) == PageAfter(flash, w.table, w.id, lba)
    ensures PageAt(flash', SLBA + id * TABLE_STRIDE + p)[o..o + n] ==
            if w.id == id && p < |w.table| / PAGE_WORDS
            then w.table[PAGE_WORDS * p + o..PAGE_WORDS * p + o + n]
            else PageAt(flash, SLBA + id * TABLE_STRIDE + p)[o..o + n]
  {
    var lba, pages := SLBA + id * TABLE_STRIDE + p, |w.table| / PAGE_WORDS;
    assert PageAt(flash', lba) == PageAfter(flash, w.table, w.id, lba);
    SamePage(w.id, id, p, pages);
    if w.id == id && p < pages {
      SliceOfPage(w.table, p, o, n);
    }
  }

  /** Page `p` of table `id` is among the first pages of table `id'` only if it is the same table. */
  lemma SamePage(id': nat, id: nat, p: nat, pages: nat)
    requires p < TABLE_STRIDE && pages <= TABLE_STRIDE
    ensures var base := SLBA + id' * TABLE_STRIDE;
            base <= SLBA + id * TABLE_STRIDE + p < base + pages <==> id' == id && p < pages
  {
  }

  lemma SliceOfPage(table: seq<nat>, p: nat, o: nat, n: nat)
    requires p < |table| / PAGE_WORDS && o + n <= PAGE_WORDS
    ensures table[p * PAGE_WORDS..(p + 1) * PAGE_WORDS][o..o + n] == table[PAGE_WORDS * p + o..PAGE_WORDS * p + o + n]
  {
    SliceOfSlice(table, p * PAGE_WORDS, (p + 1) * PAGE_WORDS, o, n);
  }

  lemma SliceOfSlice(xs: seq<nat>, from: nat, to: nat, o: nat, n: nat)
    requires from + o + n <= to <= |xs|
    ensures xs[from..to][o..o + n] == xs[from + o..from + o + n]
  {
    var part, whole := xs[from..to][o..o + n], xs[from + o..from + o + n];
    forall i | 0 <= i < n
      ensures part[i] == whole[i]
    {
      assert part[i] == xs[from..to][o + i] == xs[from + o + i];
    }
    assert part == whole;
  }

  /** A table write changes exactly the rows in the pages it fills and no other table. */
  lemma RowAfterWrite(flash: Flash, flash': Flash, w: Write, s: Shape, id: nat, idx: nat)
    requires s.Ok() && RowPage(s, idx) < TABLE_STRIDE && |w.table| <= TABLE_STRIDE * PAGE_WORDS
    requires forall lba: nat :: PageAt(flash', lba) == PageAfter(flash, w.table, w.id, lba)
    ensures RowOf(flash', s, id, idx) ==
            if w.id == id && Fills(w.table, s, idx) then TableRow(w.table, s, idx) else RowOf(flash, s, id, idx)
  {
    var p, o := RowPage(s, idx), RowOffset(s, idx);
    RowPlace(s, idx);
    assert RowLba(s, id, idx) == SLBA + id * TABLE_STRIDE + p;
    PartAfterWrite(flash, flash', w, id, p, o, s.width);
  }

  lemma LastAppend(writes: seq<Write>, w: Write, s: Shape, id: nat, idx: nat)
    requires s.Ok()
    ensures LastWritten(writes + [w], s, id, idx) ==
            if w.id == id && Fills(w.table, s, idx) then TableRow(w.table, s, idx) else LastWritten(writes, s, id, idx)
  {
    assert (writes + [w])[..|writes + [w]| - 1] == writes;
  }

  lemma LastAfterWrite(flash: Flash, flash': Flash, writes: seq<Write>, w: Write, s: Shape, id: nat, idx: nat)
    requires s.Ok() && |w.table| <= TABLE_STRIDE * PAGE_WORDS && RowIsLast(flash, writes, s, id, idx)
    requires forall lba: nat :: PageAt(flash', lba) == PageAfter(flash, w.table, w.id, lba)
    ensures RowIsLast(flash', writes + [w], s, id, idx)
  {
    LastAppend(writes, w, s, id, idx);
    if RowPage(s, idx) < TABLE_STRIDE {
      RowAfterWrite(flash, flash', w, s, id, idx);
    }
  }

  /** Cell `k` of result row `r`. */
  ghost function CellAt(s: Shape, page: seq<nat>, r: nat, k: nat): nat
    requires s.Ok() && |page| == PAGE_WORDS && r < s.rows && k < s.width
  {
    RowEndsInPage(s, r);
    page[Times(s.width, r) + k]
  }

  /** What one request adds to cell `k` of result row `r`. */
  ghost function Term(flash: Flash, s: Shape, id: nat, r: nat, k: nat): Req -> nat
    requires s.Ok() && k < s.width
  {
    (req: Req) => if req.result == r then RowOf(flash, s, id, req.row)[k] else 0
  }

  ghost function Sum(reqs: seq<Req>, f: Req -> nat): nat {
    if reqs == [] then 0 else Sum(reqs[..|reqs| - 1], f) + f(reqs[|reqs| - 1])
  }

  /** Every cell of `page` is its start plus the sum of what was requested for it, in 32 bits. */
  ghost predicate Summed(flash: Flash, s: Shape, id: nat, reqs: seq<Req>, start: seq<nat>, page: seq<nat>)
    requires s.Ok() && |start| == |page| == PAGE_WORDS
  {
    forall r: nat, k: nat :: r < s.rows && k < s.width ==>
      CellAt(s, page, r, k) == (CellAt(s, start, r, k) + Sum(reqs, Term(flash, s, id, r, k))) % U32
  }

  lemma SummedStart(flash: Flash, s: Shape, id: nat, page: seq<nat>)
    requires s.Ok() && |page| == PAGE_WORDS && forall i :: 0 <= i < PAGE_WORDS ==> page[i] < U32
    ensures Summed(flash, s, id, [], page, page)
  {
    forall r: nat, k: nat | r < s.rows && k < s.width
      ensures CellAt(s, page, r, k) == (CellAt(s, page, r, k) + Sum([], Term(flash, s, id, r, k))) % U32
    {
      RowEndsInPage(s, r);
    }
  }

  lemma SumAppend(reqs: seq<Req>, req: Req, f: Req -> nat)
    ensures Sum(reqs + [req], f) == Sum(reqs, f) + f(req)
  {
    assert (reqs + [req])[..|reqs + [req]| - 1] == reqs;
  }

  lemma ModAdd(a: nat, b: nat)
    ensures (a % U32 + b) % U32 == (a + b) % U32
  {
  }

  lemma RowsApart(w: nat, r: nat, q: nat)
    requires r != q
    ensures Times(w, r) + w <= Times(w, q) || Times(w, q) + w <= Times(w, r)
  {
    if r < q {
      TimesAdd(w, r + 1, q - (r + 1));
    } else {
      TimesAdd(w, q + 1, r - (q + 1));
    }
  }

  /** The map page with `row` added into result row `result`. */
  function Added(s: Shape, page: seq<nat>, result: nat, row: seq<nat>): seq<nat>
    requires s.Ok() && |page| == PAGE_WORDS && |row| == s.width && result < s.rows
  {
    RowEndsInPage(s, result);
    var at := Times(s.width, result);
    seq(PAGE_WORDS, j requires 0 <= j < PAGE_WORDS =>
          if at <= j < at + s.width then (page[j] + row[j - at]) % U32 else page[j])
  }

  lemma AddedCell(s: Shape, page: seq<nat>, result: nat, row: seq<nat>, r: nat, k: nat)
    requires s.Ok() && |page| == PAGE_WORDS && |row| == s.width && result < s.rows && r < s.rows && k < s.width
    ensures CellAt(s, Added(s, page, result, row), r, k)
            == if r == result then (CellAt(s, page, r, k) + row[k]) % U32 else CellAt(s, page, r, k)
  {
    RowEndsInPage(s, r);
    if r != result {
      RowsApart(s.width, r, result);
    }
  }

  lemma SummedStep(flash: Flash, s: Shape, id: nat, reqs: seq<Req>, req: Req, start: seq<nat>, page: seq<nat>)
    requires s.Ok() && |start| == |page| == PAGE_WORDS && req.result < s.rows
    requires Summed(flash, s, id, reqs, start, page)
    ensures Summed(flash, s, id, reqs + [req], start, Added(s, page, req.result, RowOf(flash, s, id, req.row)))
  {
    var row := RowOf(flash, s, id, req.row);
    forall r: nat, k: nat | r < s.rows && k < s.width
      ensures CellAt(s, Added(s, page, req.result, row), r, k)
              == (CellAt(s, start, r, k) + Sum(reqs + [req], Term(flash, s, id, r, k))) % U32
    {
      var f := Term(flash, s, id, r, k);
      assert f(req) == if req.result == r then row[k] else 0;
      SummedCell(s, reqs, req, start, page, row, f, r, k);
    }
  }

  lemma SummedCell(s: Shape, reqs: seq<Req>, req: Req, start: seq<nat>, page: seq<nat>, row: seq<nat>,
                   f: Req -> nat, r: nat, k: nat)
    requires s.Ok() && |start| == |page| == PAGE_WORDS && req.result < s.rows && |row| == s.width
    requires r < s.rows && k < s.width && f(req) == if req.result == r then row[k] else 0
    requires CellAt(s, page, r, k) == (CellAt(s, start, r, k) + Sum(reqs, f)) % U32
    ensures CellAt(s, Added(s, page, req.result, row), r, k) == (CellAt(s, start, r, k) + Sum(reqs + [req], f)) % U32
  {
    SumAppend(reqs, req, f);
    AddedCell(s, page, req.result, row, r, k);
    ModAdd(CellAt(s, start, r, k) + Sum(reqs, f), row[k]);
  }

  lemma {:induction false} SumSplit(a: seq<Req>, b: seq<Req>, f: Req -> nat)
    ensures Sum(a + b, f) == Sum(a, f) + Sum(b, f)
    decreases |b|
  {
    if b == [] {
      assert a + b == a;
    } else {
      assert (a + b)[..|a + b| - 1] == a + b[..|b| - 1];
      SumSplit(a, b[..|b| - 1], f);
    }
  }

  /** The order of the requests does not matter. */
  lemma {:induction false} OrderIrrelevant(reqs: seq<Req>, reqs': seq<Req>, f: Req -> nat)
    requires multiset(reqs) == multiset(reqs')
    ensures Sum(reqs, f) == Sum(reqs', f)
    decreases |reqs|
  {
    if reqs == [] {
      assert |multiset(reqs')| == |multiset(reqs)| == 0;
    } else {
      var n, last := |reqs| - 1, reqs[|reqs| - 1];
      assert reqs == reqs[..n] + [last];
      assert last in multiset(reqs');
      var j :| 0 <= j < |reqs'| && reqs'[j] == last;
      var rest := reqs'[..j] + reqs'[j + 1..];
      assert reqs' == reqs'[..j] + [last] + reqs'[j + 1..];
      assert multiset(reqs[..n]) == multiset(reqs) - multiset{last} == multiset(rest);
      OrderIrrelevant(reqs[..n], rest, f);
      SumSplit(reqs'[..j] + [last], reqs'[j + 1..], f);
      SumSplit(reqs'[..j], reqs'[j + 1..], f);
      SumAppend(reqs'[..j], last, f);
    }
  }

  /** What one request adds to cell `k` of result row `r`, going by the tables that were written. */
  ghost function WrittenTerm(writes: seq<Write>, s: Shape, id: nat, r: nat, k: nat): Req -> nat
    requires s.Ok() && k < s.width
  {
    (req: Req) => if req.result == r then LastWritten(writes, s, id, req.row)[k] else 0
  }

  lemma {:induction false} SumSame(reqs: seq<Req>, f: Req -> nat, g: Req -> nat)
    requires forall i :: 0 <= i < |reqs| ==> f(reqs[i]) == g(reqs[i])
    ensures Sum(reqs, f) == Sum(reqs, g)
  {
    if reqs != [] {
      SumSame(reqs[..|reqs| - 1], f, g);
    }
  }

  lemma TermsAgree(flash: Flash, writes: seq<Write>, s: Shape, id: nat, req: Req, r: nat, k: nat)
    requires s.Ok() && k < s.width && RowPage(s, req.row) < TABLE_STRIDE && RowIsLast(flash, writes, s, id, req.row)
    ensures Term(flash, s, id, r, k)(req) == WrittenTerm(writes, s, id, r, k)(req)
  {
  }

  lemma BlankCell(s: Shape, r: nat, k: nat)
    requires s.Ok() && r < s.rows && k < s.width
    ensures CellAt(s, Blank(), r, k) == 0
  {
    RowEndsInPage(s, r);
  }

  /** Writes, requests and fetch together: from a cleared map page the fetched page is the
      plain sparse-length sum of the tables last written. */
  lemma OffloadIsPlainSum(flash: Flash, writes: seq<Write>, s: Shape, id: nat, reqs: seq<Req>, page: Page,
                          r: nat, k: nat)
    requires s.Ok() && r < s.rows && k < s.width
    requires forall idx: nat :: RowIsLast(flash, writes, s, id, idx)
    requires forall i :: 0 <= i < |reqs| ==> RowPage(s, reqs[i].row) < TABLE_STRIDE
    requires Summed(flash, s, id, reqs, Blank(), page)
    ensures CellAt(s, page, r, k) == Sum(reqs, WrittenTerm(writes, s, id, r, k)) % U32
  {
    var f, g := Term(flash, s, id, r, k), WrittenTerm(writes, s, id, r, k);
    forall i | 0 <= i < |reqs|
      ensures f(reqs[i]) == g(reqs[i])
    {
      TermsAgree(flash, writes, s, id, reqs[i], r, k);
    }
    SumSame(reqs, f, g);
    BlankCell(s, r, k);
  }

  /** The two device programs: rows of 32 and of 64 words. */
  lemma DeviceShapes()
    ensures Shape(32, 32).Ok() && Shape(64, 16).Ok()
  {
    TimesIsProduct(32, 32);
    TimesIsProduct(64, 16);
  }

  class Ssd {
    const shape: Shape
    var flash: Flash
    const mapPage: array<nat>

    ghost predicate Valid()
      reads this, mapPage
    {
      shape.Ok() && mapPage.Length == PAGE_WORDS && forall i :: 0 <= i < PAGE_WORDS ==> mapPage[i] < U32
    }

    constructor (shape: Shape)
      requires shape.Ok()
      ensures Valid() && this.shape == shape && fresh(mapPage) && flash == map[]
      ensures forall i :: 0 <= i < PAGE_WORDS ==> mapPage[i] == 0
    {
      this.shape := shape;
      flash := map[];
      mapPage := new nat[PAGE_WORDS](_ => 0);
    }

    /** `unvme_write_table`: whole pages of the table, one write a page. */
    method WriteTable(table: seq<nat>, id: nat)
      requires Valid()
      modifies this`flash
      ensures forall lba: nat :: PageAt(flash, lba) == PageAfter(old(flash), table, id, lba)
    {
      var i := 0;
      while i < (4 * |table|) / PAGE_BYTES
        invariant 0 <= i <= |table| / PAGE_WORDS
        invariant forall lba: nat ::
          PageAt(flash, lba) == if SLBA + id * TABLE_STRIDE <= lba < SLBA + id * TABLE_STRIDE + i
                                then PageAfter(old(flash), table, id, lba) else PageAt(old(flash), lba)
      {
        var page: Page := table[i * PAGE_WORDS..(i + 1) * PAGE_WORDS];
        flash := flash[SLBA + id * TABLE_STRIDE + i := page];
        i := i + 1;
      }
    }

    /** The device program: adds one row of `data` into row `result` of the map page. */
    method Accumulate(result: nat, id: nat, data: Page)
      requires Valid() && result < shape.rows
      modifies mapPage
      ensures Valid()
      ensures var o := RowOffset(shape, id);
              mapPage[..] == Added(shape, old(mapPage[..]), result, data[o..o + shape.width])
    {
      var target := RowOffset(shape, id);
      RowEndsInPage(shape, result);
      var at := Times(shape.width, result);
      var i := 0;
      while i < shape.width
        invariant 0 <= i <= shape.width && Valid()
        invariant forall j :: 0 <= j < PAGE_WORDS ==>
                    mapPage[j] == if at <= j < at + i then (old(mapPage[j]) + data[target + (j - at)]) % U32
                                  else old(mapPage[j])
      {
        mapPage[at + i] := (mapPage[at + i] + data[target + i]) % U32;
        i := i + 1;
      }
    }

    /** Table writes one after another. */
    method WriteTables(writes: seq<Write>)
      requires Valid() && flash == map[]
      requires forall k :: 0 <= k < |writes| ==> |writes[k].table| <= TABLE_STRIDE * PAGE_WORDS
      modifies this`flash
      ensures forall id: nat, idx: nat :: RowPage(shape, idx) < TABLE_STRIDE ==>
                RowOf(flash, shape, id, idx) == LastWritten(writes, shape, id, idx)
    {
      var k := 0;
      while k < |writes|
        invariant 0 <= k <= |writes|
        invariant forall id: nat, idx: nat :: RowIsLast(flash, writes[..k], shape, id, idx)
      {
        ghost var before, now := flash, writes[..k] + [writes[k]];
        WriteTable(writes[k].table, writes[k].id);
        assert writes[..k + 1] == now;
        forall id: nat, idx: nat
          ensures RowIsLast(flash, now, shape, id, idx)
        {
          LastAfterWrite(before, flash, writes[..k], writes[k], shape, id, idx);
        }
        k := k + 1;
      }
      assert writes[..k] == writes;
      forall id: nat, idx: nat | RowPage(shape, idx) < TABLE_STRIDE
        ensures RowOf(flash, shape, id, idx) == LastWritten(writes, shape, id, idx)
      {
        assert RowIsLast(flash, writes, shape, id, idx);
      }
    }

    /** `unvme_sparse_length_sum`: one run request per (result, row) pair, then the map page
        is fetched and cleared. */
    method SparseLengthSum(reqs: seq<Req>, id: nat) returns (page: Page)
      requires Valid() && forall i :: 0 <= i < |reqs| ==> reqs[i].result < shape.rows
      modifies mapPage
      ensures Valid() && forall i :: 0 <= i < PAGE_WORDS ==> mapPage[i] == 0
      ensures Summed(flash, shape, id, reqs, old(mapPage[..]), page)
    {
      SummedStart(flash, shape, id, mapPage[..]);
      assert reqs[..0] == [];
      var i := 0;
      while i < |reqs|
        invariant 0 <= i <= |reqs| && Valid()
        invariant Summed(flash, shape, id, reqs[..i], old(mapPage[..]), mapPage[..])
      {
        ghost var before := mapPage[..];
        var req := reqs[i];
        Accumulate(req.result, req.row, PageAt(flash, RowLba(shape, id, req.row)));
        assert reqs[..i + 1] == reqs[..i] + [req];
        SummedStep(flash, shape, id, reqs[..i], req, old(mapPage[..]), before);
        i := i + 1;
      }
      assert reqs[..i] == reqs;
      page := mapPage[..];
      forall j | 0 <= j < PAGE_WORDS {
        mapPage[j] := 0;
      }
    }
  }

  /** A host that writes tables to a fresh device and then asks for sums gets the plain
      sparse-length sums of what it wrote. */
  method Offload(shape: Shape, writes: seq<Write>, reqs: seq<Req>, id: nat) returns (page: Page)
    requires shape.Ok() && (forall k :: 0 <= k < |writes| ==> |writes[k].table| <= TABLE_STRIDE * PAGE_WORDS)
    requires forall i :: 0 <= i < |reqs| ==> reqs[i].result < shape.rows && RowPage(shape, reqs[i].row) < TABLE_STRIDE
    ensures forall r: nat, k: nat :: r < shape.rows && k < shape.width ==>
              CellAt(shape, page, r, k) == Sum(reqs, WrittenTerm(writes, shape, id, r, k)) % U32
  {
    var ssd := new Ssd(shape);
    ssd.WriteTables(writes);
    assert ssd.mapPage[..] == Blank();
    page := ssd.SparseLengthSum(reqs, id);
    forall r: nat, k: nat | r < shape.rows && k < shape.width
      ensures CellAt(shape, page, r, k) == Sum(reqs, WrittenTerm(writes, shape, id, r, k)) % U32
    {
      OffloadIsPlainSum(ssd.flash, writes, shape, id, reqs, page, r, k);
    }
  }
}
