/**
 The viewer's output buffer: what reaches the file, and exactly when the buffer
 is overrun.
 */
module ViewerBuffer {
  import opened UtlText
  import opened SyslogViewer

  /** Between two tests the pending text may fill the buffer, and flushes are of whole buffers. */
  ghost predicate Sound(b: Buf, size: nat) {
    size > 0 && (b.Buf? ==> |b.pending| <= size && |b.written| % size == 0)
  }

  /** No unguarded write falls on a multiple of the buffer size, with `n` characters written before. */
  ghost predicate WritesFit(n: nat, items: seq<Item>, size: nat)
    requires size > 0
  {
    forall i :: 0 <= i < |items| && !items[i].guarded ==> (n + i) % size != 0
  }

  lemma AtLeastOnce(k: nat, size: nat)
    requires k >= 1
    ensures k * size >= size
  {
  }

  lemma SameQuotient(a: nat, r: nat, b: nat, q: nat, size: nat)
    requires a * size + r == b * size + q && r < size && q < size
    ensures a == b
  {
    assert (a - b) * size == a * size - b * size;
    assert (b - a) * size == b * size - a * size;
    if a > b {
      AtLeastOnce(a - b, size);
    } else if b > a {
      AtLeastOnce(b - a, size);
    }
  }

  lemma ModIs(x: nat, q: nat, size: nat, r: nat)
    requires size > 0 && x == q * size + r && r < size
    ensures x % size == r
  {
    var k := x / size;
    assert x == k * size + x % size;
    SameQuotient(q, r, k, x % size, size);
  }

  lemma MultipleTimes(w: nat, size: nat) returns (k: nat)
    requires size > 0 && w % size == 0
    ensures w == k * size
  {
    k := w / size;
  }

  /** A buffer is full exactly when what was written is a multiple of its size. */
  lemma FullIffMultiple(w: nat, q: nat, size: nat)
    requires size > 0 && w % size == 0 && 0 < q <= size
    ensures (w + q) % size == 0 <==> q == size
  {
    var k := MultipleTimes(w, size);
    if q == size {
      ModIs(w + q, k + 1, size, 0);
    } else {
      ModIs(w + q, k, size, q);
    }
  }

  lemma FlushKeepsSound(b: Buf, size: nat)
    requires Sound(b, size)
    ensures Sound(FlushedIfFull(b, size), size)
    ensures FlushedIfFull(b, size).Buf? ==> |FlushedIfFull(b, size).pending| < size
  {
    if b.Buf? && |b.pending| == size { FullIffMultiple(|b.written|, size, size); }
  }

  lemma WritesFitTail(n: nat, items: seq<Item>, size: nat)
    requires size > 0 && items != []
    ensures WritesFit(n, items, size)
       <==> (items[0].guarded || n % size != 0) && WritesFit(n + 1, items[1..], size)
  {
    var tail := items[1..];
    if WritesFit(n, items, size) {
      forall i | 0 <= i < |tail| && !tail[i].guarded
        ensures (n + 1 + i) % size != 0
      {
        assert tail[i] == items[i + 1];
        assert (n + (i + 1)) % size != 0;
      }
    }
    if (items[0].guarded || n % size != 0) && WritesFit(n + 1, tail, size) {
      forall i | 0 <= i < |items| && !items[i].guarded
        ensures (n + i) % size != 0
      {
        if i > 0 { assert items[i] == tail[i - 1]; assert (n + 1 + (i - 1)) % size != 0; }
      }
    }
  }

  function StoredItem(b: Buf, item: Item, size: nat): Buf {
    if item.guarded then Guarded(b, item.c, size) else Stored(b, item.c, size)
  }

  /** One write: it fails exactly when it is unguarded and comes just after the buffer got full. */
  lemma StoreFitsIff(b: Buf, item: Item, size: nat)
    requires Sound(b, size) && b.Buf? && (b.pending != "" || item.guarded)
    ensures var r := StoredItem(b, item, size);
      && (r.Buf? <==> item.guarded || (|b.written| + |b.pending|) % size != 0)
      && (r.Buf? ==> Sound(r, size) && r.pending != "" && r.written + r.pending == b.written + b.pending + [item.c])
  {
    FlushKeepsSound(b, size);
    if b.pending != "" { FullIffMultiple(|b.written|, |b.pending|, size); }
  }

  /** A run of writes overruns the buffer exactly when one of them does not fit; otherwise nothing is lost. */
  lemma {:induction false} StoresFitIff(b: Buf, items: seq<Item>, size: nat)
    requires Sound(b, size) && b.Buf?
    requires b.pending != "" || items == [] || items[0].guarded
    ensures var r := StoredAll(b, items, size);
      && Sound(r, size)
      && (r.Buf? <==> WritesFit(|b.written| + |b.pending|, items, size))
      && (r.Buf? ==> r.written + r.pending == b.written + b.pending + Chars(items))
    decreases |items|
  {
    hide Stored;
    hide Guarded;
    hide WritesFit;
    if items == [] {
      NothingFits(|b.written| + |b.pending|, size);
      assert b.written + b.pending + Chars(items) == b.written + b.pending;
    } else {
      WritesFitTail(|b.written| + |b.pending|, items, size);
      StoreFitsIff(b, items[0], size);
      var b1 := StoredItem(b, items[0], size);
      if b1.Buf? {
        StoresFitIff(b1, items[1..], size);
        ItemChars(b.written + b.pending, items);
        assert |b1.written| + |b1.pending| == |b1.written + b1.pending| == |b.written| + |b.pending| + 1;
      } else {
        OverrunStays(items[1..], size);
      }
    }
  }

  lemma NothingFits(n: nat, size: nat)
    requires size > 0
    ensures WritesFit(n, [], size)
  {
  }

  lemma ItemChars(s: string, items: seq<Item>)
    requires items != []
    ensures s + [items[0].c] + Chars(items[1..]) == s + Chars(items)
  {
  }

  lemma {:induction false} OverrunStays(items: seq<Item>, size: nat)
    ensures StoredAll(Overrun, items, size) == Overrun
    decreases |items|
  {
    if items != [] { OverrunStays(items[1..], size); }
  }

  /** Every character's writes start with a guarded one. */
  lemma StepStartsGuarded(cfg: Config, m: Mode, ch: char)
    ensures var items := Step(cfg, m, ch).1;
      items == [] || items[0].guarded
  {
  }

  lemma {:induction false} RunStartsGuarded(cfg: Config, m: Mode, input: string)
    ensures var items := Run(cfg, m, input).1;
      items == [] || items[0].guarded
    decreases |input|
  {
    hide Step;
    if input != "" {
      StepStartsGuarded(cfg, m, input[0]);
      RunStartsGuarded(cfg, Step(cfg, m, input[0]).0, input[1..]);
    }
  }

  lemma FlushThenGuarded(b: Buf, items: seq<Item>, size: nat)
    requires size > 0 && (items == [] || items[0].guarded)
    ensures items != [] ==> StoredAll(FlushedIfFull(b, size), items, size) == StoredAll(b, items, size)
    ensures FlushedIfFull(StoredAll(FlushedIfFull(b, size), items, size), size)
         == FlushedIfFull(StoredAll(b, items, size), size)
  {
  }

  /** The test at the end of each character makes no difference to the whole. */
  lemma {:induction false} RunBufferIsOneStore(b: Buf, cfg: Config, m: Mode, input: string, size: nat)
    requires size > 0
    ensures FlushedIfFull(RunBuffer(b, cfg, m, input, size), size)
         == FlushedIfFull(StoredAll(b, Run(cfg, m, input).1, size), size)
    decreases |input|
  {
    hide Step;
    hide StoredAll;
    if input == "" {
      StoredNothing(b, size);
    } else {
      var (m1, now) := Step(cfg, m, input[0]);
      var (m2, later) := Run(cfg, m1, input[1..]);
      var b1 := StoredAll(b, now, size);
      RunBufferIsOneStore(FlushedIfFull(b1, size), cfg, m1, input[1..], size);
      RunStartsGuarded(cfg, m1, input[1..]);
      FlushThenGuarded(b1, later, size);
      StoredAppends(b, now, later, size);
    }
  }

  /** With room at the start of each character there is room at the end. */
  lemma {:induction false} RunBufferHasRoom(b: Buf, cfg: Config, m: Mode, input: string, size: nat)
    requires size > 0 && (b.Buf? ==> |b.pending| < size)
    ensures RunBuffer(b, cfg, m, input, size) == FlushedIfFull(RunBuffer(b, cfg, m, input, size), size)
    ensures var r := RunBuffer(b, cfg, m, input, size);
      r.Buf? ==> |r.pending| < size || |r.pending| > size
    decreases |input|
  {
    hide Step;
    hide StoredAll;
    if input != "" {
      var (m1, now) := Step(cfg, m, input[0]);
      var b1 := FlushedIfFull(StoredAll(b, now, size), size);
      PendingBounded(b, now, size);
      RunBufferHasRoom(b1, cfg, m1, input[1..], size);
    }
  }

  lemma {:induction false} PendingBounded(b: Buf, items: seq<Item>, size: nat)
    requires b.Buf? ==> |b.pending| <= size
    ensures StoredAll(b, items, size).Buf? ==> |StoredAll(b, items, size).pending| <= size
    decreases |items|
  {
    if items != [] {
      var b' := if items[0].guarded then FlushedIfFull(b, size) else b;
      PendingBounded(Stored(b', items[0].c, size), items[1..], size);
    }
  }

  // ---------------------------------------------------------------- the missing tests

  /** The tab that opens a message, and the character of a message directly behind a break. */
  predicate Untested(items: seq<Item>, i: nat)
    requires i < |items|
  {
    items[i].tag.OpenTab? || (items[i].tag.Text? && i > 0 && items[i - 1].tag.Fold?)
  }

  ghost predicate TestsMissing(items: seq<Item>) {
    && (forall i :: 0 <= i < |items| ==> (items[i].guarded <==> !Untested(items, i)))
    && (items != [] ==> !items[|items| - 1].tag.Fold?)
  }

  lemma TestsMissingAppends(a: seq<Item>, b: seq<Item>)
    requires TestsMissing(a) && TestsMissing(b)
    ensures TestsMissing(a + b)
  {
    var s := a + b;
    forall i | 0 <= i < |s|
      ensures s[i].guarded <==> !Untested(s, i)
    {
      if i < |a| {
        assert Untested(s, i) == Untested(a, i);
      } else {
        assert Untested(s, i) == Untested(b, i - |a|);
      }
    }
  }

  lemma PutTests(cfg: Config, m: Mode, c: char)
    ensures TestsMissing(Put(cfg, m, c).1)
  {
  }

  lemma StepTests(cfg: Config, m: Mode, ch: char)
    ensures TestsMissing(Step(cfg, m, ch).1)
  {
    hide Put;
    PutTests(cfg, m, ch);
    var n := m.(phase := InMessage);
    PutTests(cfg, n, '\\');
    var (n1, first) := Put(cfg, n, '\\');
    PutTests(cfg, n1, ch);
    TestsMissingAppends(first, Put(cfg, n1, ch).1);
  }

  /** Of all the writes of a run exactly two sorts have no test for a full buffer in front of them. */
  lemma {:induction false} MissingTests(cfg: Config, m: Mode, input: string)
    ensures TestsMissing(Run(cfg, m, input).1)
    decreases |input|
  {
    hide Step;
    hide TestsMissing;
    if input == "" {
      NoTests();
    } else {
      var (m1, now) := Step(cfg, m, input[0]);
      StepTests(cfg, m, input[0]);
      MissingTests(cfg, m1, input[1..]);
      TestsMissingAppends(now, Run(cfg, m1, input[1..]).1);
    }
  }

  lemma NoTests()
    ensures TestsMissing([])
  {
  }

  // ---------------------------------------------------------------- the results

  /**
   For every configuration, buffer size and input: the program stays within
   its buffer exactly when no unguarded write falls on a multiple of the buffer
   size, and then the file and the buffer together hold the transducer's
   output, with room left in the buffer between characters.
   */
  lemma OutputFaithfulIff(cfg: Config, input: string, size: nat)
    requires size > 0
    ensures var items := Run(cfg, Initial(cfg), input).1;
      var r := RunBuffer(Buf("", ""), cfg, Initial(cfg), input, size);
      && (r.Buf? <==> WritesFit(0, items, size))
      && (r.Buf? ==> r.written + r.pending == Chars(items) && |r.pending| < size && |r.written| % size == 0)
      && (r.Buf? ==> Flushed(r) == Buf(Chars(items), ""))
  {
    hide Step;
    hide StoredAll;
    hide RunBuffer;
    hide Run;
    hide WritesFit;
    var b, m := Buf("", ""), Initial(cfg);
    var items := Run(cfg, m, input).1;
    RunStartsGuarded(cfg, m, input);
    ModIs(0, 0, size, 0);
    StoresFitIff(b, items, size);
    RunBufferIsOneStore(b, cfg, m, input, size);
    RunBufferHasRoom(b, cfg, m, input, size);
    FlushKeepsSound(StoredAll(b, items, size), size);
    assert "" + "" + Chars(items) == Chars(items);
  }

  ghost predicate AllGuarded(items: seq<Item>) {
    forall i :: 0 <= i < |items| ==> items[i].guarded
  }

  lemma {:induction false} PlainRunIsGuarded(cfg: Config, m: Mode, input: string)
    requires !cfg.indent && !cfg.fold && (m.phase.InMessage? || m.phase.Backslash?)
    ensures AllGuarded(Run(cfg, m, input).1)
    decreases |input|
  {
    if input != "" {
      PlainRunIsGuarded(cfg, Step(cfg, m, input[0]).0, input[1..]);
    }
  }

  /** In default mode the buffer is never overrun, whatever its size. */
  lemma DefaultModeIsFaithful(cfg: Config, input: string, size: nat)
    requires !cfg.indent && !cfg.fold && size > 0
    ensures var r := RunBuffer(Buf("", ""), cfg, Initial(cfg), input, size);
      r.Buf? && r.written + r.pending == Chars(Run(cfg, Initial(cfg), input).1)
  {
    hide Run;
    hide RunBuffer;
    PlainRunIsGuarded(cfg, Initial(cfg), input);
    OutputFaithfulIff(cfg, input, size);
  }

  /** `n` field characters in the header: copied, one by one. */
  lemma {:induction false} HeaderChars(cfg: Config, m: Mode, n: nat)
    requires m.phase.InFields?
    ensures Run(cfg, m, Repeated('x', n)).0 == m.(position := m.position + n)
    ensures |Run(cfg, m, Repeated('x', n)).1| == n
    decreases n
  {
    if n > 0 {
      assert Repeated('x', n)[1..] == Repeated('x', n - 1);
      HeaderChars(cfg, m.(position := m.position + 1), n - 1);
    }
  }

  /** A header line with `n` field characters, up to the quote that opens its message. */
  function Opening(n: nat): string {
    "\"\"" + (Repeated('x', n) + "\"")
  }

  /** Where the line starts does not matter: `n` + 2 characters come out before the unguarded tab. */
  lemma OpeningItems(cfg: Config, m: Mode, n: nat)
    requires m.phase.StartLine? && (cfg.fold ==> m.position + n + 1 != cfg.width)
    ensures var (m', items) := Run(cfg, m, Opening(n));
      && m' == Mode(InMessage, 0, true)
      && |items| == n + 3 && !items[n + 2].guarded
  {
    hide Run;
    hide Step;
    var fields := Repeated('x', n);
    RunAppends(cfg, m, "\"\"", fields + "\"");
    OpenQuotes(cfg, m);
    var m1 := Mode(InFields, m.position + 1, m.tabbed);
    RunAppends(cfg, m1, fields, "\"");
    HeaderChars(cfg, m1, n);
    ClosingQuote(cfg, m1.(position := m1.position + n));
  }

  /** A line that overruns: its message opens when the buffer has one place left. */
  function LateOpening(cfg: Config, size: nat): string
    requires size >= 5
  {
    // Where the late opening would itself be folded, an empty message goes in front of it.
    if cfg.fold && cfg.width == size - 1 then Opening(0) + ("\"" + Opening(size - 5))
    else Opening(size - 2)
  }

  /** With --indent that line is written past the end of the buffer, whatever its size. */
  lemma IndentModeOverruns(cfg: Config, size: nat)
    requires cfg.indent && size >= 5
    ensures RunBuffer(Buf("", ""), cfg, Initial(cfg), LateOpening(cfg, size), size).Overrun?
  {
    hide Run;
    hide RunBuffer;
    hide Opening;
    var m0, input := Initial(cfg), LateOpening(cfg, size);
    if cfg.fold && cfg.width == size - 1 {
      var m1, m2 := Mode(InMessage, 0, true), Mode(StartLine, 0, false);
      OpeningItems(cfg, m0, 0);
      RunAppends(cfg, m0, Opening(0), "\"" + Opening(size - 5));
      RunOne(cfg, m1, '"');
      assert "\"" == ['"'];
      RunAppends(cfg, m1, "\"", Opening(size - 5));
      OpeningItems(cfg, m2, size - 5);
    } else {
      OpeningItems(cfg, m0, size - 2);
    }
    var items := Run(cfg, m0, input).1;
    assert |items| == size + 1 && !items[size].guarded;
    ModIs(size, 1, size, 0);
    assert (0 + size) % size == 0;
    OutputFaithfulIff(cfg, input, size);
  }

  lemma OpenQuotes(cfg: Config, m: Mode)
    requires m.phase.StartLine?
    ensures Run(cfg, m, "\"\"")
         == (Mode(InFields, m.position + 1, m.tabbed), [Item('"', Header, true)])
  {
    var m1 := m.(phase := InTime);
    RunCons(cfg, m, '"', ['"']);
    RunOne(cfg, m1, '"');
    assert "\"\"" == ['"'] + ['"'];
    assert [] + [Item('"', Header, true)] == [Item('"', Header, true)];
  }

  lemma ClosingQuote(cfg: Config, m: Mode)
    requires m.phase.InFields? && !MustFold(cfg, m)
    ensures Run(cfg, m, "\"") == (Mode(InMessage, 0, true), [Item('\n', OpenBreak, true), Item('\t', OpenTab, false)])
  {
    RunOne(cfg, m, '"');
    assert "\"" == ['"'];
    assert [Item('\n', OpenBreak, true)] + [] + [Item('\t', OpenTab, false)]
        == [Item('\n', OpenBreak, true), Item('\t', OpenTab, false)];
  }

  /** A configuration is safe for every input exactly when it does not indent (-f implies --indent). */
  lemma SafeIffNoIndent(cfg: Config, size: nat)
    requires (cfg.fold ==> cfg.indent) && size >= 5
    ensures (forall input :: RunBuffer(Buf("", ""), cfg, Initial(cfg), input, size).Buf?) <==> !cfg.indent
  {
    hide RunBuffer;
    if cfg.indent {
      IndentModeOverruns(cfg, size);
    } else {
      forall input
        ensures RunBuffer(Buf("", ""), cfg, Initial(cfg), input, size).Buf?
      {
        DefaultModeIsFaithful(cfg, input, size);
      }
    }
  }
}
