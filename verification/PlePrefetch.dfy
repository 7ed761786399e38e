/** From token ids to the table pages their prefill reads: `kv_rosetta/ple_prefetch.py`. */
module PlePrefetch {
  import opened Wrappers
  import opened Bytes
  import opened Sequences

  const PAGE := 4096

  datatype Constants = Constants(
    ngram: nat, headsPerNgram: nat, multipliers: seq<int>, offsets: seq<int>, vocabs: seq<int>, eos: int)
  {
    function Heads(): int { Times(ngram - 1, headsPerNgram) }

    /** What `load_constants` checks. */
    predicate Valid() {
      ngram >= 1 && |offsets| == Heads() && |vocabs| == Heads() && |multipliers| >= ngram
    }

    /** No remainder by zero anywhere. */
    predicate Divides() {
      forall h :: 0 <= h < |vocabs| ==> vocabs[h] != 0
    }
  }

  /** n * k, for the number of heads of n groups. */
  function Times(n: int, k: nat): nat {
    if n <= 0 then 0 else Times(n - 1, k) + k
  }

  lemma {:induction false} TimesIsProduct(n: nat, k: nat)
    ensures Times(n, k) == n * k
  {
    if n > 0 {
      TimesIsProduct(n - 1, k);
    }
  }

  lemma {:induction false} TimesMonotone(m: nat, n: nat, k: nat)
    requires m <= n
    ensures Times(m, k) <= Times(n, k)
  {
    if m < n {
      TimesMonotone(m, n - 1, k);
    }
  }

  // The hash

  /** Exclusive or of two 64-bit words. */
  function Xor(a: nat, b: nat): (x: nat)
    requires a < TWO_TO_THE_64 && b < TWO_TO_THE_64
    ensures x < TWO_TO_THE_64
  {
    SixtyFourBits();
    XorLow(a, b, 64)
  }

  function Pow2(n: nat): nat {
    if n == 0 then 1 else 2 * Pow2(n - 1)
  }

  lemma SixtyFourBits()
    ensures Pow2(64) == TWO_TO_THE_64
  {
    assert Pow2(8) == 0x100;
    assert Pow2(16) == 0x1_0000;
    assert Pow2(24) == 0x100_0000;
    assert Pow2(32) == 0x1_0000_0000;
    assert Pow2(40) == 0x100_0000_0000;
    assert Pow2(48) == 0x1_0000_0000_0000;
    assert Pow2(56) == 0x100_0000_0000_0000;
  }

  /** The lowest bits of the exclusive or. */
  function XorLow(a: nat, b: nat, width: nat): (x: nat)
    ensures x < Pow2(width)
  {
    if width == 0 then 0 else (a % 2 + b % 2) % 2 + 2 * XorLow(a / 2, b / 2, width - 1)
  }

  /** Python's `a % m`, which takes the sign of m. */
  function PyMod(a: int, m: int): (r: int)
    requires m != 0
    ensures if m > 0 then 0 <= r < m else m < r <= 0
  {
    if m > 0 then a % m else -((-a) % (-m))
  }

  /** `(a * b) & M64` */
  function Product64(a: int, b: int): (x: nat)
    ensures x < TWO_TO_THE_64
  {
    (a * b) % TWO_TO_THE_64
  }

  /** The s-th predecessor, or one younger than it, is missing, negative or the end of a sequence. */
  predicate Cut(prev: seq<int>, s: nat, eos: int) {
    s > 0 && (Cut(prev, s - 1, eos) || |prev| < s || prev[|prev| - s] < 0 || prev[|prev| - s] == eos)
  }

  /** The token and its predecessors as the hash sees them, newest first. */
  function Context(tok: int, prev: seq<int>, size: nat, eos: int): (ctx: seq<int>)
    ensures |ctx| == size
  {
    seq(size, s requires 0 <= s < size => ContextAt(tok, prev, s, eos))
  }

  function ContextAt(tok: int, prev: seq<int>, s: nat, eos: int): int {
    if s == 0 then tok else if Cut(prev, s, eos) then eos else prev[|prev| - s]
  }

  /** The hash of the first n context entries. */
  function Mixed(ctx: seq<int>, n: nat, multipliers: seq<int>): (x: nat)
    requires 1 <= n <= |ctx| && n <= |multipliers|
    ensures x < TWO_TO_THE_64
  {
    var last := Product64(ctx[n - 1], multipliers[n - 1]);
    if n == 1 then last else Xor(Mixed(ctx, n - 1, multipliers), last)
  }

  /** The first `groups` n-gram sizes' rows, one per head. */
  function RowsOfContext(ctx: seq<int>, c: Constants, groups: nat): (rows: seq<int>)
    requires c.Valid() && c.Divides() && |ctx| == c.ngram && groups <= c.ngram - 1
    ensures |rows| == Times(groups, c.headsPerNgram)
  {
    if groups == 0 then [] else
    TimesMonotone(groups, c.ngram - 1, c.headsPerNgram);
    RowsOfContext(ctx, c, groups - 1)
    + HeadRows(Mixed(ctx, groups + 1, c.multipliers), Times(groups - 1, c.headsPerNgram), c, c.headsPerNgram)
  }

  predicate InHead(row: int, h: nat, c: Constants)
    requires c.Valid() && h < c.Heads()
  {
    if c.vocabs[h] > 0 then c.offsets[h] <= row < c.offsets[h] + c.vocabs[h]
    else c.offsets[h] + c.vocabs[h] < row <= c.offsets[h]
  }

  /** The h-th row of a token lies in the part of the table that belongs to head h; a negative size reaches down from its offset. */
  lemma {:induction false} RowsInHeads(ctx: seq<int>, c: Constants, groups: nat, h: nat)
    requires c.Valid() && c.Divides() && |ctx| == c.ngram && groups <= c.ngram - 1
    requires h < Times(groups, c.headsPerNgram) <= c.Heads()
    ensures InHead(RowsOfContext(ctx, c, groups)[h], h, c)
  {
    var base := Times(groups - 1, c.headsPerNgram);
    TimesMonotone(groups, c.ngram - 1, c.headsPerNgram);
    if h < base {
      RowsInHeads(ctx, c, groups - 1, h);
    } else {
      var mixed := Mixed(ctx, groups + 1, c.multipliers);
      assert RowsOfContext(ctx, c, groups)[h] == HeadRows(mixed, base, c, c.headsPerNgram)[h - base];
    }
  }

  function HeadRows(mixed: nat, base: nat, c: Constants, count: nat): (rows: seq<int>)
    requires c.Valid() && c.Divides() && base + count <= c.Heads()
    ensures |rows| == count
    ensures forall g :: 0 <= g < count ==> rows[g] == PyMod(mixed, c.vocabs[base + g]) + c.offsets[base + g]
  {
    seq(count, g requires 0 <= g < count => PyMod(mixed, c.vocabs[base + g]) + c.offsets[base + g])
  }

  /** The rows one token reads. */
  function TokenRows(tok: int, prev: seq<int>, c: Constants): (rows: seq<int>)
    requires c.Valid() && c.Divides()
    ensures |rows| == c.Heads()
  {
    RowsOfContext(Context(tok, prev, c.ngram, c.eos), c, c.ngram - 1)
  }

  /** `rows_for_token`; None where a table of size 0 makes it raise. */
  method RowsForToken(tok: int, prev: seq<int>, c: Constants) returns (r: Option<seq<int>>)
    requires c.Valid()
    ensures r.Some? <==> c.Divides()
    ensures r.Some? ==> r.value == TokenRows(tok, prev, c)
  {
    hide Mixed, Context;
    var ctx := BuildContext(tok, prev, c.ngram, c.eos);
    var rows: seq<int> := [];
    var n: nat := 2;
    while n < c.ngram + 1
      invariant 2 <= n && (n <= c.ngram + 1 || c.ngram == 1)
      invariant c.ngram > 1 ==> forall h :: 0 <= h < Times(n - 2, c.headsPerNgram) <= |c.vocabs| ==> c.vocabs[h] != 0
      invariant c.ngram > 1 && c.Divides() ==> rows == RowsOfContext(ctx, c, n - 2)
      invariant c.ngram == 1 ==> rows == [] && n == 2
    {
      var mixed := Mix(ctx, n, c.multipliers);
      var base := (n - 2) * c.headsPerNgram;
      TimesIsProduct(n - 2, c.headsPerNgram);
      TimesMonotone(n - 1, c.ngram - 1, c.headsPerNgram);
      var group := RowsOfGroup(mixed, base, c);
      if group.None? {
        return None;
      }
      rows := rows + group.value;
      n := n + 1;
    }
    return Some(rows);
  }

  method RowsOfGroup(mixed: nat, base: nat, c: Constants) returns (r: Option<seq<int>>)
    requires c.Valid() && base + c.headsPerNgram <= c.Heads()
    ensures r.Some? <==> forall h :: base <= h < base + c.headsPerNgram ==> c.vocabs[h] != 0
    ensures r.Some? && c.Divides() ==> r.value == HeadRows(mixed, base, c, c.headsPerNgram)
  {
    var rows: seq<int> := [];
    for g := 0 to c.headsPerNgram
      invariant forall h :: base <= h < base + g ==> c.vocabs[h] != 0
      invariant c.Divides() ==> rows == HeadRows(mixed, base, c, g)
    {
      var h := base + g;
      if c.vocabs[h] == 0 {
        return None;
      }
      rows := rows + [PyMod(mixed, c.vocabs[h]) + c.offsets[h]];
    }
    return Some(rows);
  }

  method BuildContext(tok: int, prev: seq<int>, size: nat, eos: int) returns (ctx: seq<int>)
    requires size >= 1
    ensures ctx == Context(tok, prev, size, eos)
  {
    ctx := [tok];
    var cut := false;
    for s := 1 to size
      invariant ctx == Context(tok, prev, s, eos)
      invariant cut == Cut(prev, s - 1, eos)
    {
      var t := if cut || |prev| < s then eos else prev[|prev| - s];
      cut := cut || t < 0 || t == eos;
      ctx := ctx + [if cut then eos else t];
    }
  }

  method Mix(ctx: seq<int>, n: nat, multipliers: seq<int>) returns (mixed: nat)
    requires 1 <= n <= |ctx| && n <= |multipliers|
    ensures mixed == Mixed(ctx, n, multipliers)
  {
    mixed := Product64(ctx[0], multipliers[0]);
    for j := 1 to n
      invariant mixed == Mixed(ctx, j, multipliers)
    {
      mixed := Xor(mixed, Product64(ctx[j], multipliers[j]));
    }
  }

  /** The rows of a whole sequence, when every token sees all its predecessors. */
  function SequenceRows(tokens: seq<int>, c: Constants): seq<int>
    requires c.Valid() && c.Divides()
  {
    if tokens == [] then [] else
    var front, last := tokens[..|tokens| - 1], tokens[|tokens| - 1];
    SequenceRows(front, c) + TokenRows(last, front, c)
  }

  /** `rows_for_sequence`: a sliding window of predecessors gives the rows of the full prefix. */
  method RowsForSequence(tokens: seq<int>, c: Constants) returns (r: Option<seq<int>>)
    requires c.Valid()
    ensures r.Some? <==> tokens == [] || c.Divides()
    ensures r.Some? && c.Divides() ==> r.value == SequenceRows(tokens, c)
    ensures r.Some? && tokens == [] ==> r.value == []
  {
    hide TokenRows;
    var nPrev := c.ngram - 1;
    var out: seq<int> := [];
    for i := 0 to |tokens|
      invariant i > 0 ==> c.Divides()
      invariant c.Divides() ==> out == SequenceRows(tokens[..i], c)
      invariant i == 0 ==> out == []
    {
      var prev := tokens[Max(0, i - nPrev)..i];
      var rows := RowsForToken(tokens[i], prev, c);
      if rows.None? {
        return None;
      }
      WindowIsEnough(tokens[i], tokens[..i], c);
      assert prev == tokens[..i][Max(0, i - nPrev)..];
      assert tokens[..i + 1][..i] == tokens[..i];
      out := out + rows.value;
    }
    assert tokens[..|tokens|] == tokens;
    return Some(out);
  }

  // What the hash depends on

  lemma {:induction false} CutByWindow(prev: seq<int>, window: seq<int>, s: nat, eos: int)
    requires |window| <= |prev| && window == prev[|prev| - |window|..]
    requires s <= |window|
    ensures Cut(window, s, eos) == Cut(prev, s, eos)
  {
    if s > 0 {
      CutByWindow(prev, window, s - 1, eos);
      assert window[|window| - s] == prev[|prev| - s];
    }
  }

  /** Only the last ngram - 1 predecessors matter. */
  lemma {:induction false} WindowIsEnough(tok: int, prev: seq<int>, c: Constants)
    requires c.Valid() && c.Divides()
    ensures TokenRows(tok, prev[Max(0, |prev| - (c.ngram - 1))..], c) == TokenRows(tok, prev, c)
  {
    var window := prev[Max(0, |prev| - (c.ngram - 1))..];
    if |prev| > c.ngram - 1 {
      forall s | 0 <= s < c.ngram
        ensures ContextAt(tok, window, s, c.eos) == ContextAt(tok, prev, s, c.eos)
      {
        CutByWindow(prev, window, s, c.eos);
      }
      assert Context(tok, window, c.ngram, c.eos) == Context(tok, prev, c.ngram, c.eos);
    } else {
      assert window == prev;
    }
  }

  lemma {:induction false} CutAtEos(a: seq<int>, b: seq<int>, s: nat, eos: int)
    ensures Cut(a + [eos] + b, s, eos) == Cut(b, s, eos)
  {
    if s > 0 {
      CutAtEos(a, b, s - 1, eos);
      var prev := a + [eos] + b;
      if s <= |b| {
        assert prev[|prev| - s] == b[|b| - s];
      } else if s == |b| + 1 {
        assert prev[|prev| - s] == eos;
      } else {
        CutOlder(b, s - 1, eos);
      }
    }
  }

  lemma {:induction false} CutOlder(prev: seq<int>, s: nat, eos: int)
    requires s > |prev|
    ensures Cut(prev, s, eos)
  {
  }

  /** What came before an end of sequence is as if it had never been there. */
  lemma {:induction false} EosHidesThePast(tok: int, a: seq<int>, b: seq<int>, c: Constants)
    requires c.Valid() && c.Divides()
    ensures TokenRows(tok, a + [c.eos] + b, c) == TokenRows(tok, b, c)
  {
    var prev := a + [c.eos] + b;
    forall s | 0 <= s < c.ngram
      ensures ContextAt(tok, prev, s, c.eos) == ContextAt(tok, b, s, c.eos)
    {
      CutAtEos(a, b, s, c.eos);
      if s > |b| {
        CutOlder(b, s, c.eos);
      } else if s > 0 {
        assert prev[|prev| - s] == b[|b| - s];
      }
    }
    assert Context(tok, prev, c.ngram, c.eos) == Context(tok, b, c.ngram, c.eos);
  }

  /** The rows of a sequence split at an end of sequence. */
  lemma {:induction false} RowsSplitAtEos(a: seq<int>, b: seq<int>, c: Constants)
    requires c.Valid() && c.Divides()
    ensures SequenceRows(a + [c.eos] + b, c) == SequenceRows(a + [c.eos], c) + SequenceRows(b, c)
    decreases |b|
  {
    hide TokenRows;
    if b == [] {
      assert a + [c.eos] + b == a + [c.eos];
    } else {
      var front, last := b[..|b| - 1], b[|b| - 1];
      var all := a + [c.eos] + b;
      assert all[..|all| - 1] == a + [c.eos] + front;
      RowsSplitAtEos(a, front, c);
      EosHidesThePast(last, a, front, c);
    }
  }

  /** The table has a place for every head. */
  predicate TableHolds(c: Constants, rows: int)
    requires c.Valid()
  {
    forall h :: 0 <= h < c.Heads() ==> c.vocabs[h] > 0 && 0 <= c.offsets[h] && c.offsets[h] + c.vocabs[h] <= rows
  }

  lemma {:induction false} TokenRowsInTable(tok: int, prev: seq<int>, c: Constants, rows: int)
    requires c.Valid() && c.Divides() && TableHolds(c, rows)
    ensures forall h :: 0 <= h < c.Heads() ==> 0 <= TokenRows(tok, prev, c)[h] < rows
  {
    hide Context, RowsOfContext;
    forall h | 0 <= h < c.Heads()
      ensures 0 <= TokenRows(tok, prev, c)[h] < rows
    {
      RowsInHeads(Context(tok, prev, c.ngram, c.eos), c, c.ngram - 1, h);
    }
  }

  /** A sequence reads one row per token and head, and all of them lie in the table. */
  lemma {:induction false} RowsInTable(tokens: seq<int>, c: Constants, rows: int)
    requires c.Valid() && c.Divides() && TableHolds(c, rows)
    ensures |SequenceRows(tokens, c)| == Times(|tokens|, c.Heads())
    ensures forall r :: r in SequenceRows(tokens, c) ==> 0 <= r < rows
  {
    hide TokenRows, TableHolds;
    if tokens != [] {
      var front, last := tokens[..|tokens| - 1], tokens[|tokens| - 1];
      RowsInTable(front, c, rows);
      TokenRowsInTable(last, front, c, rows);
    }
  }

  // Pages

  datatype Table = Table(offset: nat, rows: nat, bytesPerRow: nat)

  function PageOf(b: int): int {
    b / PAGE * PAGE
  }

  function RowStart(table: Table, r: nat): nat {
    table.offset + r * table.bytesPerRow
  }

  /** The pages of a row's first and last byte. */
  function RowPages(table: Table, r: nat): set<int> {
    var start := RowStart(table, r);
    {PageOf(start), PageOf(start + table.bytesPerRow - 1)}
  }

  /** `sorted(pages)` for a set: each element once, in increasing order. */
  method SortedSet(pages: set<int>) returns (s: seq<int>)
    ensures Increasing(s)
    ensures forall p :: p in s <==> p in pages
  {
    s := [];
    var rest: set<int> := pages;
    while rest != {}
      invariant rest <= pages && Increasing(s)
      invariant forall p :: p in s <==> p in pages - rest
      decreases |rest|
    {
      assert exists p :: p in rest by {
        if forall p :: p !in rest {
          assert false;
        }
      }
      var p :| p in rest;
      s := InsertInOrder(s, p);
      rest := rest - {p};
    }
  }

  method InsertInOrder(s: seq<int>, p: int) returns (t: seq<int>)
    requires Increasing(s) && p !in s
    ensures Increasing(t) && forall q :: q in t <==> q == p || q in s
  {
    var i: nat := 0;
    while i < |s| && s[i] < p
      invariant i <= |s| && forall k :: 0 <= k < i ==> s[k] < p
    {
      i := i + 1;
    }
    t := s[..i] + [p] + s[i..];
    forall k | i <= k < |s|
      ensures p < s[k]
    {
      assert s[k] in s;
      assert s[i] != p by { assert s[i] in s; }
    }
    assert forall q :: q in s <==> q in s[..i] || q in s[i..];
  }

  /** The list holds the pages of these rows and no other. */
  ghost predicate PagesOf(pages: seq<int>, rows: seq<int>, table: Table) {
    forall p :: p in pages <==> exists k :: 0 <= k < |rows| && rows[k] >= 0 && p in RowPages(table, rows[k])
  }

  /** `pages_for_rows`; None where a row lies outside the table. */
  method PagesForRows(rows: seq<int>, table: Table) returns (r: Option<seq<int>>)
    ensures r.Some? <==> forall k :: 0 <= k < |rows| ==> 0 <= rows[k] < table.rows
    ensures r.Some? ==> Increasing(r.value)
    ensures r.Some? ==> PagesOf(r.value, rows, table)
  {
    hide PageOf, RowStart;
    var pages: set<int> := {};
    for k := 0 to |rows|
      invariant forall j :: 0 <= j < k ==> 0 <= rows[j] < table.rows
      invariant forall p :: p in pages <==> exists j :: 0 <= j < k && rows[j] >= 0 && p in RowPages(table, rows[j])
    {
      if !(0 <= rows[k] < table.rows) {
        return None;
      }
      var start := RowStart(table, rows[k]);
      var end := start + table.bytesPerRow - 1;
      ghost var before := pages;
      pages := pages + {PageOf(start)};
      pages := pages + {PageOf(end)};
      assert pages == before + RowPages(table, rows[k]);
    }
    var s := SortedSet(pages);
    return Some(s);
  }

  predicate InPage(b: int, p: int) {
    p <= b < p + PAGE
  }

  /**
   * The two pages of a row hold all of its bytes exactly when its first and last byte lie in the
   * same page or in neighbouring ones; no row of up to 4097 bytes can do otherwise.
   */
  lemma RowPagesCover(table: Table, r: nat)
    requires table.bytesPerRow >= 1
    ensures CoversRow(table, r) <==>
      (RowStart(table, r) + table.bytesPerRow - 1) / PAGE - RowStart(table, r) / PAGE <= 1
    ensures table.bytesPerRow <= PAGE + 1 ==> CoversRow(table, r)
  {
    hide RowStart;
    var first := RowStart(table, r);
    var last := first + table.bytesPerRow - 1;
    if last / PAGE - first / PAGE <= 1 {
      forall b: int | first <= b <= last
        ensures InPage(b, PageOf(first)) || InPage(b, PageOf(last))
      {
      }
    } else {
      var b := (first / PAGE + 1) * PAGE;
      assert first <= b <= last;
      assert !InPage(b, PageOf(first)) && !InPage(b, PageOf(last));
    }
  }

  ghost predicate CoversRow(table: Table, r: nat) {
    forall b: int :: RowStart(table, r) <= b < RowStart(table, r) + table.bytesPerRow ==>
      InPage(b, PageOf(RowStart(table, r))) || InPage(b, PageOf(RowStart(table, r) + table.bytesPerRow - 1))
  }

  /**
   * Longer rows leave a page out wherever they begin too late in theirs: a row is covered exactly when
   * what precedes it in its first page and its own bytes fit in two pages, so rows of more than two
   * pages never are.
   */
  lemma LongRowsAreNotCovered(table: Table, r: nat)
    requires table.bytesPerRow > PAGE + 1
    ensures CoversRow(table, r) <==> RowStart(table, r) % PAGE + table.bytesPerRow <= 2 * PAGE
    ensures table.bytesPerRow > 2 * PAGE ==> !CoversRow(table, r)
  {
    hide RowStart, CoversRow;
    RowPagesCover(table, r);
    var first := RowStart(table, r);
    assert first == first / PAGE * PAGE + first % PAGE;
  }

  // Runs

  type Run = (int, int)

  /** The pages of a run, one after the other. */
  function PagesOfRun(offset: int, count: nat): (s: seq<int>)
    ensures |s| == count && forall i :: 0 <= i < count ==> s[i] == offset + i * PAGE
  {
    seq(count, i => offset + i * PAGE)
  }

  predicate SoundRun(run: Run) {
    run.1 > 0 && run.1 % PAGE == 0
  }

  function Unfold(runs: seq<Run>): seq<int> {
    if runs == [] then [] else
    var last := runs[|runs| - 1];
    Unfold(runs[..|runs| - 1]) + PagesOfRun(last.0, if last.1 >= 0 then last.1 / PAGE else 0)
  }

  /** No run ends where the next one begins. */
  predicate Apart(runs: seq<Run>) {
    forall i {:trigger runs[i]} :: 0 <= i < |runs| - 1 ==> runs[i].0 + runs[i].1 != runs[i + 1].0
  }

  predicate SoundRuns(runs: seq<Run>) {
    Apart(runs) && forall i :: 0 <= i < |runs| ==> SoundRun(runs[i])
  }

  /** `coalesce`: whole pages merged as long as each begins where the last run ends. */
  method Coalesce(pages: seq<int>) returns (runs: seq<Run>)
    ensures Unfold(runs) == pages && SoundRuns(runs)
  {
    hide SoundRuns;
    runs := [];
    NoRuns();
    for k := 0 to |pages|
      invariant Unfold(runs) == pages[..k] && SoundRuns(runs)
    {
      var p := pages[k];
      if |runs| > 0 && runs[|runs| - 1].0 + runs[|runs| - 1].1 == p {
        var last := runs[|runs| - 1];
        GrowRun(runs);
        runs := runs[..|runs| - 1] + [(last.0, last.1 + PAGE)];
      } else {
        NewRun(runs, p);
        runs := runs + [(p, PAGE)];
      }
      assert pages[..k + 1] == pages[..k] + [p];
    }
    assert pages[..|pages|] == pages;
  }

  lemma NoRuns()
    ensures SoundRuns([]) && Unfold([]) == []
  {
  }

  lemma GrowRun(runs: seq<Run>)
    requires runs != [] && SoundRuns(runs)
    ensures var last := runs[|runs| - 1];
      var grown := runs[..|runs| - 1] + [(last.0, last.1 + PAGE)];
      Unfold(grown) == Unfold(runs) + [last.0 + last.1] && SoundRuns(grown)
  {
    hide Unfold, PagesOfRun;
    var front, last := runs[..|runs| - 1], runs[|runs| - 1];
    var grown := front + [(last.0, last.1 + PAGE)];
    assert runs == front + [last];
    assert SoundRun(last);
    UnfoldSnoc(front, last);
    UnfoldSnoc(front, (last.0, last.1 + PAGE));
    OneMorePage(last);
    forall i | 0 <= i < |grown| - 1
      ensures grown[i].0 + grown[i].1 != grown[i + 1].0
    {
      assert runs[i].0 + runs[i].1 != runs[i + 1].0;
    }
  }

  lemma OneMorePage(run: Run)
    requires SoundRun(run)
    ensures PagesOfRun(run.0, (run.1 + PAGE) / PAGE) == PagesOfRun(run.0, run.1 / PAGE) + [run.0 + run.1]
  {
  }

  lemma {:induction false} UnfoldSnoc(runs: seq<Run>, last: Run)
    ensures Unfold(runs + [last]) == Unfold(runs) + PagesOfRun(last.0, if last.1 >= 0 then last.1 / PAGE else 0)
  {
    assert (runs + [last])[..|runs|] == runs;
  }

  lemma {:induction false} NewRun(runs: seq<Run>, p: int)
    requires SoundRuns(runs) && (runs == [] || runs[|runs| - 1].0 + runs[|runs| - 1].1 != p)
    ensures Unfold(runs + [(p, PAGE)]) == Unfold(runs) + [p] && SoundRuns(runs + [(p, PAGE)])
  {
    hide PagesOfRun, Unfold;
    var grown := runs + [(p, PAGE)];
    UnfoldSnoc(runs, (p, PAGE));
    OnePage(p);
    assert grown[|grown| - 1] == (p, PAGE);
    forall i | 0 <= i < |grown| - 1
      ensures grown[i].0 + grown[i].1 != grown[i + 1].0
    {
      if i + 1 < |runs| {
        assert runs[i].0 + runs[i].1 != runs[i + 1].0;
      }
    }
  }

  lemma OnePage(p: int)
    ensures PagesOfRun(p, 1) == [p] && PAGE / PAGE == 1
  {
  }

  /** A byte the kernel is asked for: some run holds it. */
  ghost predicate Advised(runs: seq<Run>, b: int) {
    exists i :: 0 <= i < |runs| && runs[i].0 <= b < runs[i].0 + runs[i].1
  }

  ghost predicate InSomePage(pages: seq<int>, b: int) {
    exists k :: 0 <= k < |pages| && InPage(b, pages[k])
  }

  /** For any pages at all, the runs hold exactly the bytes of the pages. */
  lemma {:induction false} RunsHoldThePages(runs: seq<Run>, b: int)
    requires SoundRuns(runs)
    ensures Advised(runs, b) <==> InSomePage(Unfold(runs), b)
  {
    if runs == [] {
    } else {
      var front, last := runs[..|runs| - 1], runs[|runs| - 1];
      FrontSound(runs);
      RunsHoldThePages(front, b);
      assert runs == front + [last];
      assert SoundRun(last);
      var tail := PagesOfRun(last.0, last.1 / PAGE);
      RunHoldsItsPages(last, b);
      SomePageOfBoth(Unfold(front), tail, b);
      AdvisedSnoc(front, last, b);
    }
  }

  lemma FrontSound(runs: seq<Run>)
    requires runs != [] && SoundRuns(runs)
    ensures SoundRuns(runs[..|runs| - 1])
  {
    var front := runs[..|runs| - 1];
    forall i | 0 <= i < |front| - 1
      ensures front[i].0 + front[i].1 != front[i + 1].0
    {
      assert runs[i].0 + runs[i].1 != runs[i + 1].0;
    }
  }

  lemma AdvisedSnoc(front: seq<Run>, last: Run, b: int)
    ensures Advised(front + [last], b) <==> Advised(front, b) || last.0 <= b < last.0 + last.1
  {
    var runs := front + [last];
    assert runs[|front|] == last;
    assert forall i :: 0 <= i < |front| ==> runs[i] == front[i];
  }

  lemma SomePageOfBoth(a: seq<int>, c: seq<int>, b: int)
    ensures InSomePage(a + c, b) <==> InSomePage(a, b) || InSomePage(c, b)
  {
    assert forall k :: 0 <= k < |a| ==> (a + c)[k] == a[k];
    assert forall k :: 0 <= k < |c| ==> (a + c)[|a| + k] == c[k];
  }

  lemma RunHoldsItsPages(run: Run, b: int)
    requires SoundRun(run)
    ensures run.0 <= b < run.0 + run.1 <==> InSomePage(PagesOfRun(run.0, run.1 / PAGE), b)
  {
    var pages := PagesOfRun(run.0, run.1 / PAGE);
    if run.0 <= b < run.0 + run.1 {
      var k := (b - run.0) / PAGE;
      assert InPage(b, pages[k]);
    }
    if InSomePage(pages, b) {
      var k :| 0 <= k < |pages| && InPage(b, pages[k]);
      assert pages[k] == run.0 + k * PAGE;
    }
  }

  /** Page offsets as `pages_for_rows` gives them. */
  predicate OrderedPages(pages: seq<int>) {
    Increasing(pages) && forall p :: p in pages ==> p % PAGE == 0
  }

  /** Whole pages in increasing order give runs that are in order, disjoint and with a gap between them. */
  lemma {:induction false} RunsOfOrderedPages(runs: seq<Run>)
    requires SoundRuns(runs) && OrderedPages(Unfold(runs))
    ensures forall i, j :: 0 <= i < j < |runs| ==> runs[i].0 + runs[i].1 < runs[j].0
  {
    hide Unfold, OrderedPages, PagesOfRun;
    if |runs| >= 2 {
      var front, last := runs[..|runs| - 1], runs[|runs| - 1];
      FrontSound(runs);
      FrontIncreasing(runs);
      RunsOfOrderedPages(front);
      assert runs == front + [last];
      GapBefore(front, last);
      assert SoundRun(front[|front| - 1]);
      forall i, j | 0 <= i < j < |runs|
        ensures runs[i].0 + runs[i].1 < runs[j].0
      {
        if j < |front| {
          assert front[i].0 + front[i].1 < front[j].0;
        } else if i < |front| - 1 {
          assert front[i].0 + front[i].1 < front[|front| - 1].0;
        }
      }
    }
  }

  lemma {:induction false} FrontIncreasing(runs: seq<Run>)
    requires runs != [] && OrderedPages(Unfold(runs))
    ensures OrderedPages(Unfold(runs[..|runs| - 1]))
  {
    hide PagesOfRun;
    var last := runs[|runs| - 1];
    IncreasingFront(Unfold(runs[..|runs| - 1]), PagesOfRun(last.0, if last.1 >= 0 then last.1 / PAGE else 0));
  }

  lemma {:induction false} GapBefore(front: seq<Run>, last: Run)
    requires front != [] && SoundRuns(front + [last]) && OrderedPages(Unfold(front + [last]))
    ensures front[|front| - 1].0 + front[|front| - 1].1 < last.0
  {
    hide Unfold, OrderedPages, PagesOfRun, SoundRuns;
    LastTwo(front, last);
    UnfoldSnoc(front, last);
    LastPage(front);
    var before, tail := Unfold(front), PagesOfRun(last.0, last.1 / PAGE);
    FirstPage(last);
    OrderedAt(before + tail, |before| - 1);
  }

  lemma LastTwo(front: seq<Run>, last: Run)
    requires front != [] && SoundRuns(front + [last])
    ensures SoundRun(last) && SoundRun(front[|front| - 1])
    ensures front[|front| - 1].0 + front[|front| - 1].1 != last.0
  {
    var runs := front + [last];
    assert runs[|front|] == last && runs[|front| - 1] == front[|front| - 1];
    assert SoundRun(runs[|front|]) && SoundRun(runs[|front| - 1]);
    assert runs[|front| - 1].0 + runs[|front| - 1].1 != runs[|front| - 1 + 1].0;
  }

  lemma FirstPage(run: Run)
    requires SoundRun(run)
    ensures |PagesOfRun(run.0, run.1 / PAGE)| > 0 && PagesOfRun(run.0, run.1 / PAGE)[0] == run.0
  {
  }

  lemma OrderedAt(pages: seq<int>, i: nat)
    requires i + 1 < |pages| && OrderedPages(pages)
    ensures pages[i] + PAGE <= pages[i + 1]
  {
    assert pages[i] in pages && pages[i + 1] in pages;
    NextMultiple(pages[i], pages[i + 1]);
  }

  lemma NextMultiple(x: int, y: int)
    requires x < y && x % PAGE == 0 && y % PAGE == 0
    ensures x + PAGE <= y
  {
  }

  lemma {:induction false} LastPage(runs: seq<Run>)
    requires runs != [] && SoundRun(runs[|runs| - 1])
    ensures Unfold(runs) != [] && Unfold(runs)[|Unfold(runs)| - 1] == runs[|runs| - 1].0 + runs[|runs| - 1].1 - PAGE
  {
    var last := runs[|runs| - 1];
    var tail := PagesOfRun(last.0, last.1 / PAGE);
    assert tail[|tail| - 1] == last.0 + (last.1 / PAGE - 1) * PAGE;
  }

  lemma IncreasingFront(a: seq<int>, b: seq<int>)
    requires Increasing(a + b)
    ensures Increasing(a) && forall p :: p in a ==> p in a + b
  {
    assert forall i :: 0 <= i < |a| ==> (a + b)[i] == a[i];
  }

  /**
   * From rows to advice: with rows of 1 to 4097 bytes, every byte of every row is asked for, and
   * nothing outside the first and last pages of the rows is.
   */
  lemma {:induction false} EveryRowIsAdvised(rows: seq<int>, table: Table, pages: seq<int>, runs: seq<Run>, k: nat, b: int)
    requires k < |rows| && rows[k] >= 0 && 1 <= table.bytesPerRow <= PAGE + 1
    requires PagesOf(pages, rows, table) && Unfold(runs) == pages && SoundRuns(runs)
    requires table.offset + rows[k] * table.bytesPerRow <= b < table.offset + (rows[k] + 1) * table.bytesPerRow
    ensures Advised(runs, b)
  {
    RowIs(table, rows[k]);
    hide RowStart, Unfold, SoundRuns, PageOf, InPage;
    RowPagesCover(table, rows[k]);
    RunsHoldThePages(runs, b);
    var first := PageOf(RowStart(table, rows[k]));
    var last := PageOf(RowStart(table, rows[k]) + table.bytesPerRow - 1);
    assert first in RowPages(table, rows[k]) && last in RowPages(table, rows[k]);
    assert first in pages && last in pages;
    var p := if InPage(b, first) then first else last;
    var j :| 0 <= j < |pages| && pages[j] == p;
    assert InPage(b, pages[j]);
  }

  lemma {:induction false} NothingElseIsAdvised(rows: seq<int>, table: Table, pages: seq<int>, runs: seq<Run>, b: int) returns (k: nat)
    requires PagesOf(pages, rows, table) && Unfold(runs) == pages && SoundRuns(runs) && Advised(runs, b)
    ensures k < |rows| && rows[k] >= 0
    ensures
      var first := table.offset + rows[k] * table.bytesPerRow;
      b / PAGE == first / PAGE || b / PAGE == (first + table.bytesPerRow - 1) / PAGE
  {
    hide RowStart, Unfold, SoundRuns, PageOf, InPage;
    RunsHoldThePages(runs, b);
    var j :| 0 <= j < |pages| && InPage(b, pages[j]);
    assert pages[j] in pages;
    k :| 0 <= k < |rows| && rows[k] >= 0 && pages[j] in RowPages(table, rows[k]);
    RowIs(table, rows[k]);
    SamePage(b, RowStart(table, rows[k]));
    SamePage(b, RowStart(table, rows[k]) + table.bytesPerRow - 1);
  }

  lemma SamePage(b: int, other: int)
    ensures InPage(b, PageOf(other)) ==> b / PAGE == other / PAGE
  {
  }

  lemma RowIs(table: Table, r: nat)
    ensures RowStart(table, r) == table.offset + r * table.bytesPerRow
    ensures RowStart(table, r) + table.bytesPerRow == table.offset + (r + 1) * table.bytesPerRow
  {
  }
}
