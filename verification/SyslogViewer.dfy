/**
 syslogviewer: a character transducer that lays out log lines, folds long ones,
 and writes through a fixed buffer.  The buffer tests are modelled exactly where
 the source has them; a store behind the end of the buffer is an overrun, after
 which nothing is claimed.
 */
module SyslogViewer {
  import opened UtlText

  datatype Config = Config(indent: bool, fold: bool, width: int)

  datatype Phase = StartLine | InTime | InFields | InMessage | Backslash

  /** The processing state between two characters. */
  datatype Mode = Mode(phase: Phase, position: int, tabbed: bool)

  /** Why a character is written. */
  datatype Tag =
    | Header      // copied from in front of the message
    | OpenBreak   // the newline that opens a message
    | OpenTab     // and the tab behind it
    | Text        // a character of the message
    | Break       // a newline of the message
    | Indent      // the tab behind it
    | Fold        // inserted by check_position

  /** `guarded`: the code asks whether the buffer is full since its previous write. */
  datatype Item = Item(c: char, tag: Tag, guarded: bool)

  // ---------------------------------------------------------------- the transducer

  function Initial(cfg: Config): Mode {
    Mode(if cfg.indent then StartLine else InMessage, 0, false)
  }

  function FoldItems(tabbed: bool): seq<Item> {
    var spaces := [Item(' ', Fold, true), Item(' ', Fold, true), Item(' ', Fold, true), Item(' ', Fold, true)];
    if tabbed then [Item('\n', Fold, true), Item('\t', Fold, true)] + spaces
    else [Item('\n', Fold, true)] + spaces
  }

  predicate MustFold(cfg: Config, m: Mode) {
    cfg.fold && m.position == cfg.width
  }

  /** What check_position inserts. */
  function FoldOf(cfg: Config, m: Mode): seq<Item> {
    if MustFold(cfg, m) then FoldItems(m.tabbed) else []
  }

  /** The position after check_position. */
  function Refold(cfg: Config, m: Mode): Mode {
    if MustFold(cfg, m) then m.(position := if m.tabbed then 12 else 4) else m
  }

  /** A graphic character, behind a break if there is no room. */
  function Put(cfg: Config, m: Mode, c: char): (Mode, seq<Item>) {
    var m' := Refold(cfg, m);
    (m'.(position := m'.position + 1),
     FoldOf(cfg, m) + [Item(c, Text, !MustFold(cfg, m))])
  }

  function Step(cfg: Config, m: Mode, ch: char): (Mode, seq<Item>) {
    match m.phase
    case StartLine =>
      if ch == '"' then (m.(phase := InTime), [])
      else (m.(position := m.position + 1), [Item(ch, Header, true)])
    case InTime =>
      (m.(phase := if ch == '"' then InFields else InTime, position := m.position + 1), [Item(ch, Header, true)])
    case InFields =>
      if ch == '"' then
        (Mode(InMessage, 0, true),
         [Item('\n', OpenBreak, true)] + FoldOf(cfg, m) + [Item('\t', OpenTab, false)])
      else (m.(position := m.position + 1), [Item(ch, Header, true)])
    case InMessage =>
      if ch == '\\' then (m.(phase := Backslash), [])
      else if ch == '\n' then (Mode(InMessage, 0, false), [Item('\n', Break, true)])
      else if ch == '"' then (Mode(if cfg.indent then StartLine else InMessage, 0, false), [])
      else Put(cfg, m, ch)
    case Backslash =>
      var m := m.(phase := InMessage);
      if ch == '\\' then Put(cfg, m, '\\')
      else if ch == 'n' then
        if cfg.indent then
          (Mode(InMessage, 8, true), [Item('\n', Break, true), Item('\t', Indent, true)])
        else (m.(position := 0), [Item('\n', Break, true)])
      else if ch == 'r' then (m, [])
      else
        var (m1, first) := Put(cfg, m, '\\');
        var (m2, second) := Put(cfg, m1, ch);
        (m2, first + second)
  }

  function Run(cfg: Config, m: Mode, input: string): (Mode, seq<Item>)
    decreases |input|
  {
    if input == "" then (m, []) else
    var (m1, now) := Step(cfg, m, input[0]);
    var (m2, later) := Run(cfg, m1, input[1..]);
    (m2, now + later)
  }

  lemma RunEmpty(cfg: Config, m: Mode)
    ensures Run(cfg, m, "") == (m, [])
  {
  }

  lemma RunCons(cfg: Config, m: Mode, c: char, rest: string)
    ensures var (m1, now) := Step(cfg, m, c);
      var (m2, later) := Run(cfg, m1, rest);
      Run(cfg, m, [c] + rest) == (m2, now + later)
  {
    hide Step;
    assert ([c] + rest)[1..] == rest;
  }

  lemma RunOne(cfg: Config, m: Mode, c: char)
    ensures Run(cfg, m, [c]) == Step(cfg, m, c)
  {
    hide Step;
    hide Run;
    RunEmpty(cfg, Step(cfg, m, c).0);
    RunCons(cfg, m, c, "");
    assert [c] + "" == [c];
    assert Step(cfg, m, c).1 + [] == Step(cfg, m, c).1;
  }

  lemma {:induction false} RunAppends(cfg: Config, m: Mode, a: string, b: string)
    ensures var (m1, first) := Run(cfg, m, a);
      var (m2, second) := Run(cfg, m1, b);
      Run(cfg, m, a + b) == (m2, first + second)
    decreases |a|
  {
    hide Step;
    hide Run;
    if a == "" {
      assert a + b == b;
      RunEmpty(cfg, m);
      assert [] + Run(cfg, m, b).1 == Run(cfg, m, b).1;
    } else {
      var (m1, now) := Step(cfg, m, a[0]);
      var (m2, later) := Run(cfg, m1, a[1..]);
      assert a == [a[0]] + a[1..];
      assert a + b == [a[0]] + (a[1..] + b);
      RunCons(cfg, m, a[0], a[1..]);
      RunCons(cfg, m, a[0], a[1..] + b);
      RunAppends(cfg, m1, a[1..], b);
      assert (now + later) + Run(cfg, m2, b).1 == now + (later + Run(cfg, m2, b).1);
    }
  }

  function Chars(items: seq<Item>): (s: string)
    ensures |s| == |items| && forall i :: 0 <= i < |items| ==> s[i] == items[i].c
  {
    seq(|items|, i requires 0 <= i < |items| => items[i].c)
  }

  // ---------------------------------------------------------------- the buffer

  datatype Buf = Buf(written: string, pending: string) | Overrun

  function Flushed(b: Buf): Buf {
    if b.Overrun? then b else Buf(b.written + b.pending, "")
  }

  function FlushedIfFull(b: Buf, size: nat): Buf {
    if b.Buf? && |b.pending| == size then Flushed(b) else b
  }

  function Stored(b: Buf, c: char, size: nat): Buf {
    if b.Overrun? || |b.pending| >= size then Overrun else Buf(b.written, b.pending + [c])
  }

  /** A store with the test in front of it. */
  function Guarded(b: Buf, c: char, size: nat): Buf {
    Stored(FlushedIfFull(b, size), c, size)
  }

  /** The writes of `items`, with the tests that stand in front of them. */
  function StoredAll(b: Buf, items: seq<Item>, size: nat): Buf
    decreases |items|
  {
    if items == [] then b
    else if items[0].guarded then StoredAll(Guarded(b, items[0].c, size), items[1..], size)
    else StoredAll(Stored(b, items[0].c, size), items[1..], size)
  }

  /** Reading `input` one character at a time, with the test at the end of each. */
  function RunBuffer(b: Buf, cfg: Config, m: Mode, input: string, size: nat): Buf
    decreases |input|
  {
    if input == "" then b else
    var (m1, now) := Step(cfg, m, input[0]);
    RunBuffer(FlushedIfFull(StoredAll(b, now, size), size), cfg, m1, input[1..], size)
  }

  // ---------------------------------------------------------------- the program

  /** The static variables of the program; `written` is what reached the output file. */
  class Viewer {
    const cfg: Config
    const buffer: array<char>
    var bufferFull: nat
    var state: Phase
    var position: int
    var lineTabbed: bool
    var written: string
    var overrun: bool

    ghost predicate Valid()
      reads this
    {
      0 < buffer.Length && bufferFull <= buffer.Length
    }

    function CurrentMode(): Mode
      reads this
    {
      Mode(state, position, lineTabbed)
    }

    ghost function Output(): Buf
      reads this, buffer
      requires Valid()
    {
      if overrun then Overrun else Buf(written, buffer[..bufferFull])
    }

    constructor (cfg: Config, size: nat)
      requires size > 0
      ensures Valid() && this.cfg == cfg && buffer.Length == size && fresh(buffer)
      ensures CurrentMode() == Initial(cfg) && Output() == Buf("", "")
    {
      this.cfg := cfg;
      buffer := new char[size];
      bufferFull, written, overrun := 0, "", false;
      state := if cfg.indent then StartLine else InMessage;
      position, lineTabbed := 0, false;
    }

    method FlushBuffer()
      requires Valid()
      modifies this`written, this`bufferFull
      ensures Valid() && bufferFull == 0 && Output() == Flushed(old(Output()))
    {
      written := written + buffer[..bufferFull];
      bufferFull := 0;
    }

    method FlushIfFull()
      requires Valid()
      modifies this`written, this`bufferFull
      ensures Valid() && bufferFull < buffer.Length
      ensures Output() == FlushedIfFull(old(Output()), buffer.Length)
    {
      if bufferFull == buffer.Length {
        FlushBuffer();
      }
    }

    /** The store of `buffer[buffer_full++] = c`. */
    method Store(c: char)
      requires Valid()
      modifies this`bufferFull, this`overrun, buffer
      ensures Valid() && Output() == Stored(old(Output()), c, buffer.Length)
    {
      if bufferFull < buffer.Length {
        buffer[bufferFull] := c;
        bufferFull := bufferFull + 1;
      } else {
        overrun := true;
      }
    }

    /** A store with the test in front of it. */
    method FlushAndStore(c: char)
      requires Valid()
      modifies this`bufferFull, this`overrun, this`written, buffer
      ensures Valid() && Output() == Guarded(old(Output()), c, buffer.Length)
    {
      FlushIfFull();
      Store(c);
    }

    method CheckPosition()
      requires Valid()
      modifies this`bufferFull, this`overrun, this`written, this`position, buffer
      ensures Valid() && CurrentMode() == Refold(cfg, old(CurrentMode()))
      ensures Output() == StoredAll(old(Output()), FoldOf(cfg, old(CurrentMode())), buffer.Length)
      ensures var fold := cfg.fold && old(position) == cfg.width;
        var text := if !fold then "" else if lineTabbed then "\n\t    " else "\n    ";
        && position == (if !fold then old(position) else if lineTabbed then 12 else 4)
        && (!old(overrun) ==> !overrun && written + buffer[..bufferFull] == old(written + buffer[..bufferFull]) + text)
    {
      hide Guarded;
      hide StoredAll;
      hide FoldItems;
      if !overrun { FoldGoesThrough(Output(), lineTabbed, buffer.Length); }
      StoredFold(Output(), lineTabbed, buffer.Length);
      StoredNothing(Output(), buffer.Length);
      if cfg.fold && position == cfg.width {
        FlushAndStore('\n');
        position := 0;
        if lineTabbed {
          FlushAndStore('\t');
          position := 8;
        }
        FlushAndStore(' ');
        FlushAndStore(' ');
        FlushAndStore(' ');
        FlushAndStore(' ');
        position := position + 4;
      }
    }

    /** check_position, the character, and its position. */
    method PutChar(ch: char)
      requires Valid() && (!overrun ==> bufferFull < buffer.Length)
      modifies this`bufferFull, this`overrun, this`written, this`position, buffer
      ensures Valid()
      ensures CurrentMode() == Put(cfg, old(CurrentMode()), ch).0
      ensures Output() == StoredAll(old(Output()), Put(cfg, old(CurrentMode()), ch).1, buffer.Length)
    {
      hide StoredAll;
      hide FoldItems;
      ghost var b, m := Output(), CurrentMode();
      CheckPosition();
      StoredPut(b, FoldOf(cfg, m), Item(ch, Text, !MustFold(cfg, m)), buffer.Length);
      StoredNothing(b, buffer.Length);
      Store(ch);
      position := position + 1;
    }

    method ProcessChar(ch: char)
      requires Valid() && (!overrun ==> bufferFull < buffer.Length)
      modifies this`bufferFull, this`overrun, this`written, this`position, this`state, this`lineTabbed, buffer
      ensures Valid() && (!overrun ==> bufferFull < buffer.Length)
      ensures CurrentMode() == Step(cfg, old(CurrentMode()), ch).0
      ensures Output()
           == FlushedIfFull(StoredAll(old(Output()), Step(cfg, old(CurrentMode()), ch).1, buffer.Length), buffer.Length)
    {
      hide StoredAll;
      hide FoldItems;
      hide Put;
      hide Refold;
      ghost var b, m, size := Output(), CurrentMode(), buffer.Length;
      StoredNothing(b, size);
      match state {
        case StartLine =>
          if ch == '"' {
            state := InTime;
          } else {
            StoredFirst(b, ch, Header, size);
            Store(ch);
            position := position + 1;
          }
        case InTime =>
          if ch == '"' {
            state := InFields;
          }
          StoredFirst(b, ch, Header, size);
          Store(ch);
          position := position + 1;
        case InFields =>
          if ch == '"' {
            StoredOpening(b, FoldOf(cfg, m), size);
            Store('\n');
            CheckPosition();
            state := InMessage;
            Store('\t');
            position := 0;
            lineTabbed := true;
          } else {
            StoredFirst(b, ch, Header, size);
            Store(ch);
            position := position + 1;
          }
        case InMessage =>
          if ch == '\\' {
            state := Backslash;
          } else if ch == '\n' {
            StoredFirst(b, ch, Break, size);
            Store('\n');
            position := 0;
            lineTabbed := false;
          } else if ch == '"' {
            state := if cfg.indent then StartLine else InMessage;
            position := 0;
            lineTabbed := false;
          } else {
            PutChar(ch);
          }
        case Backslash =>
          state := InMessage;
          if ch == '\\' {
            PutChar('\\');
          } else if ch == 'n' {
            StoredFirst(b, '\n', Break, size);
            Store('\n');
            if cfg.indent {
              StoredPair(b, size);
              FlushIfFull();
              Store('\t');
              position := 8;
              lineTabbed := true;
            } else {
              position := 0;
            }
          } else if ch != 'r' {
            ghost var first := Put(cfg, CurrentMode(), '\\');
            ghost var second := Put(cfg, first.0, ch);
            PutChar('\\');
            PutStarts(cfg, first.0, ch);
            StoredTwice(b, first.1, second.1, size);
            FlushIfFull();
            PutChar(ch);
          }
      }
      FlushIfFull();
    }

    /** The reads until end of file, and the final flush. */
    method View(chunks: seq<string>)
      requires Valid() && CurrentMode() == Initial(cfg) && Output() == Buf("", "")
      modifies this`bufferFull, this`overrun, this`written, this`position, this`state, this`lineTabbed, buffer
      ensures Valid() && CurrentMode() == Run(cfg, Initial(cfg), Concat(chunks)).0
      ensures Output() == Flushed(RunBuffer(Buf("", ""), cfg, Initial(cfg), Concat(chunks), buffer.Length))
    {
      hide StoredAll;
      hide Step;
      hide FlushedIfFull;
      ghost var m, b, size := CurrentMode(), Output(), buffer.Length;
      assert |buffer[..bufferFull]| == 0;
      var i := 0;
      while i < |chunks|
        invariant 0 <= i <= |chunks|
        invariant Valid() && (!overrun ==> bufferFull < size)
        invariant RunBuffer(Output(), cfg, CurrentMode(), Concat(chunks[i..]), size)
               == RunBuffer(b, cfg, m, Concat(chunks), size)
        invariant Run(cfg, CurrentMode(), Concat(chunks[i..])).0 == Run(cfg, m, Concat(chunks)).0
      {
        var input := chunks[i];
        assert chunks[i..][1..] == chunks[i + 1..];
        ghost var later := Concat(chunks[i + 1..]);
        var j := 0;
        assert input[0..] == input;
        while j != |input|
          invariant 0 <= j <= |input|
          invariant Valid() && (!overrun ==> bufferFull < size)
          invariant RunBuffer(Output(), cfg, CurrentMode(), input[j..] + later, size)
                 == RunBuffer(b, cfg, m, Concat(chunks), size)
          invariant Run(cfg, CurrentMode(), input[j..] + later).0 == Run(cfg, m, Concat(chunks)).0
        {
          assert (input[j..] + later)[1..] == input[j + 1..] + later;
          ProcessChar(input[j]);
          j := j + 1;
        }
        assert input[|input|..] + later == later;
        i := i + 1;
      }
      FlushBuffer();
    }
  }

  // ---------------------------------------------------------------- stores, one after the other

  lemma PutStarts(cfg: Config, m: Mode, c: char)
    ensures Put(cfg, m, c).1 != [] && Put(cfg, m, c).1[0].guarded
  {
  }

  lemma StoredNothing(b: Buf, size: nat)
    ensures StoredAll(b, [], size) == b
  {
  }

  lemma StoredOne(b: Buf, item: Item, size: nat)
    ensures StoredAll(b, [item], size)
         == if item.guarded then Guarded(b, item.c, size) else Stored(b, item.c, size)
  {
    assert [item][1..] == [];
  }

  lemma {:induction false} StoredAppends(b: Buf, first: seq<Item>, second: seq<Item>, size: nat)
    ensures StoredAll(b, first + second, size) == StoredAll(StoredAll(b, first, size), second, size)
    decreases |first|
  {
    hide Stored;
    hide Guarded;
    if first == [] {
      assert first + second == second;
    } else {
      assert (first + second)[1..] == first[1..] + second;
      StoredAppends(if first[0].guarded then Guarded(b, first[0].c, size) else Stored(b, first[0].c, size),
                    first[1..], second, size);
    }
  }

  /** The buffer has room at the start of a character, so a test would change nothing. */
  lemma StoredFirst(b: Buf, c: char, tag: Tag, size: nat)
    requires b.Buf? ==> |b.pending| < size
    ensures StoredAll(b, [Item(c, tag, true)], size) == Stored(b, c, size)
  {
    hide StoredAll;
    StoredOne(b, Item(c, tag, true), size);
  }

  lemma StoredFold(b: Buf, tabbed: bool, size: nat)
    ensures var b1 := Guarded(b, '\n', size);
      var b2 := if tabbed then Guarded(b1, '\t', size) else b1;
      StoredAll(b, FoldItems(tabbed), size)
      == Guarded(Guarded(Guarded(Guarded(b2, ' ', size), ' ', size), ' ', size), ' ', size)
  {
    hide Guarded;
    hide StoredAll;
    var n, t, s := Item('\n', Fold, true), Item('\t', Fold, true), Item(' ', Fold, true);
    var b1 := Guarded(b, '\n', size);
    var b2 := if tabbed then Guarded(b1, '\t', size) else b1;
    StoredOne(b, n, size);
    StoredOne(b1, t, size);
    StoredFour(b2, s, size);
    if tabbed {
      assert FoldItems(tabbed) == [n] + ([t] + [s, s, s, s]);
      StoredAppends(b, [n], [t] + [s, s, s, s], size);
      StoredAppends(b1, [t], [s, s, s, s], size);
    } else {
      assert FoldItems(tabbed) == [n] + [s, s, s, s];
      StoredAppends(b, [n], [s, s, s, s], size);
    }
  }

  /** None of these stores fails, so a break comes out whole. */
  lemma FoldGoesThrough(b: Buf, tabbed: bool, size: nat)
    requires b.Buf? && |b.pending| <= size && size > 0
    ensures var r := StoredAll(b, FoldItems(tabbed), size);
      r.Buf? && r.written + r.pending == b.written + b.pending + if tabbed then "\n\t    " else "\n    "
  {
    hide StoredAll;
    hide FoldItems;
    hide Guarded;
    StoredFold(b, tabbed, size);
    var b1 := Guarded(b, '\n', size);
    GuardedGoesThrough(b, '\n', size);
    var b2 := if tabbed then Guarded(b1, '\t', size) else b1;
    GuardedGoesThrough(b1, '\t', size);
    var b3 := Guarded(b2, ' ', size);
    GuardedGoesThrough(b2, ' ', size);
    var b4 := Guarded(b3, ' ', size);
    GuardedGoesThrough(b3, ' ', size);
    var b5 := Guarded(b4, ' ', size);
    GuardedGoesThrough(b4, ' ', size);
    GuardedGoesThrough(b5, ' ', size);
  }

  lemma GuardedGoesThrough(b: Buf, c: char, size: nat)
    requires b.Buf? && |b.pending| <= size && size > 0
    ensures var r := Guarded(b, c, size);
      r.Buf? && |r.pending| <= size && r.written + r.pending == b.written + b.pending + [c]
  {
  }

  lemma StoredFour(b: Buf, s: Item, size: nat)
    requires s.guarded
    ensures StoredAll(b, [s, s, s, s], size)
         == Guarded(Guarded(Guarded(Guarded(b, s.c, size), s.c, size), s.c, size), s.c, size)
  {
    hide Guarded;
    assert [s, s, s, s][1..] == [s, s, s] && [s, s, s][1..] == [s, s] && [s, s][1..] == [s];
    var b1 := Guarded(b, s.c, size);
    var b2 := Guarded(b1, s.c, size);
    StoredOne(Guarded(b2, s.c, size), s, size);
    assert StoredAll(b2, [s, s], size) == StoredAll(Guarded(b2, s.c, size), [s], size);
    assert StoredAll(b1, [s, s, s], size) == StoredAll(b2, [s, s], size);
  }

  /** A character behind a possible break; without a break there is room for it. */
  lemma StoredPut(b: Buf, fold: seq<Item>, item: Item, size: nat)
    requires b.Buf? ==> |b.pending| < size
    requires item.guarded ==> fold == []
    ensures StoredAll(b, fold + [item], size) == Stored(StoredAll(b, fold, size), item.c, size)
  {
    hide StoredAll;
    StoredAppends(b, fold, [item], size);
    StoredNothing(b, size);
    StoredOne(StoredAll(b, fold, size), item, size);
  }

  lemma StoredOpening(b: Buf, fold: seq<Item>, size: nat)
    requires b.Buf? ==> |b.pending| < size
    ensures StoredAll(b, [Item('\n', OpenBreak, true)] + fold + [Item('\t', OpenTab, false)], size)
         == Stored(StoredAll(Stored(b, '\n', size), fold, size), '\t', size)
  {
    hide StoredAll;
    hide Stored;
    var open := [Item('\n', OpenBreak, true)];
    StoredAppends(b, open + fold, [Item('\t', OpenTab, false)], size);
    StoredAppends(b, open, fold, size);
    StoredFirst(b, '\n', OpenBreak, size);
    StoredOne(StoredAll(b, open + fold, size), Item('\t', OpenTab, false), size);
  }

  lemma StoredPair(b: Buf, size: nat)
    requires b.Buf? ==> |b.pending| < size
    ensures StoredAll(b, [Item('\n', Break, true), Item('\t', Indent, true)], size)
         == Guarded(Stored(b, '\n', size), '\t', size)
  {
    hide StoredAll;
    hide Stored;
    hide Guarded;
    var n, t := Item('\n', Break, true), Item('\t', Indent, true);
    assert [n, t] == [n] + [t];
    StoredAppends(b, [n], [t], size);
    StoredFirst(b, '\n', Break, size);
    StoredOne(Stored(b, '\n', size), t, size);
  }

  /** A test between two groups of writes, the second of which starts with a test. */
  lemma StoredTwice(b: Buf, first: seq<Item>, second: seq<Item>, size: nat)
    requires second != [] && second[0].guarded && size > 0
    ensures StoredAll(b, first + second, size)
         == StoredAll(FlushedIfFull(StoredAll(b, first, size), size), second, size)
  {
    StoredAppends(b, first, second, size);
  }
}
