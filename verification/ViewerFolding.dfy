/**
 Folding in the viewer: it only inserts, and how wide the lines it makes are on
 a terminal whose tabs, where the viewer writes them, are eight columns.
 */
module ViewerFolding {
  import opened UtlText
  import opened SyslogViewer

  // ---------------------------------------------------------------- folding only inserts

  /** The items that check_position did not insert. */
  function Unfolded(items: seq<Item>): seq<Item> {
    if items == [] then []
    else if items[0].tag.Fold? then Unfolded(items[1..])
    else [items[0]] + Unfolded(items[1..])
  }

  lemma {:induction false} UnfoldedAppends(a: seq<Item>, b: seq<Item>)
    ensures Unfolded(a + b) == Unfolded(a) + Unfolded(b)
  {
    if a == [] {
      assert a + b == b;
    } else {
      assert (a + b)[1..] == a[1..] + b;
      UnfoldedAppends(a[1..], b);
    }
  }

  lemma CharsAppend(a: seq<Item>, b: seq<Item>)
    ensures Chars(a + b) == Chars(a) + Chars(b)
  {
  }

  lemma UnfoldedFold(cfg: Config, m: Mode)
    ensures Unfolded(FoldOf(cfg, m)) == []
  {
    if MustFold(cfg, m) {
      var s := Item(' ', Fold, true);
      FoldTagged([s, s, s, s]);
      FoldTagged(FoldItems(m.tabbed));
    }
  }

  lemma {:induction false} FoldTagged(items: seq<Item>)
    requires forall i :: 0 <= i < |items| ==> items[i].tag.Fold?
    ensures Unfolded(items) == []
  {
    if items != [] { FoldTagged(items[1..]); }
  }

  lemma UnfoldedOne(item: Item)
    requires !item.tag.Fold?
    ensures Unfolded([item]) == [item]
  {
    assert [item][1..] == [];
  }

  /** Two states that differ only in the position. */
  ghost predicate SameButPosition(m: Mode, m': Mode) {
    m.phase == m'.phase && m.tabbed == m'.tabbed
  }

  lemma PutUnfolds(cfg: Config, m: Mode, m': Mode, c: char)
    requires SameButPosition(m, m')
    ensures var (r, items) := Put(cfg, m, c);
      var (r', items') := Put(cfg.(fold := false), m', c);
      && SameButPosition(r, r')
      && Chars(Unfolded(items)) == Chars(items') == [c]
  {
    var item := Item(c, Text, !MustFold(cfg, m));
    UnfoldedFold(cfg, m);
    UnfoldedAppends(FoldOf(cfg, m), [item]);
    UnfoldedOne(item);
    assert [] + [item] == [item];
    assert Put(cfg.(fold := false), m', c).1 == [] + [Item(c, Text, true)];
  }

  lemma OpeningUnfolds(cfg: Config, m: Mode)
    ensures Unfolded([Item('\n', OpenBreak, true)] + FoldOf(cfg, m) + [Item('\t', OpenTab, false)])
         == [Item('\n', OpenBreak, true), Item('\t', OpenTab, false)]
  {
    var n, t := Item('\n', OpenBreak, true), Item('\t', OpenTab, false);
    UnfoldedFold(cfg, m);
    UnfoldedAppends([n] + FoldOf(cfg, m), [t]);
    UnfoldedAppends([n], FoldOf(cfg, m));
    UnfoldedOne(n);
    UnfoldedOne(t);
  }

  lemma PairUnfolds(a: Item, b: Item)
    requires !a.tag.Fold? && !b.tag.Fold?
    ensures Unfolded([a]) == [a] && Unfolded([a, b]) == [a, b]
  {
    UnfoldedOne(a);
    UnfoldedOne(b);
    assert [a, b][1..] == [b];
  }

  lemma StepUnfolds(cfg: Config, m: Mode, m': Mode, ch: char)
    requires SameButPosition(m, m')
    ensures var (r, items) := Step(cfg, m, ch);
      var (r', items') := Step(cfg.(fold := false), m', ch);
      && SameButPosition(r, r')
      && Chars(Unfolded(items)) == Chars(items')
  {
    hide Put;
    hide FoldOf;
    var plain := cfg.(fold := false);
    if m.phase.InFields? && ch == '"' {
      OpeningUnfolds(cfg, m);
      OpeningUnfolds(plain, m');
      assert FoldOf(plain, m') == [] by { NoFold(plain, m'); }
      assert [Item('\n', OpenBreak, true)] + [] + [Item('\t', OpenTab, false)]
          == [Item('\n', OpenBreak, true), Item('\t', OpenTab, false)];
    } else if m.phase.InMessage? {
      PutUnfolds(cfg, m, m', ch);
      PairUnfolds(Item('\n', Break, true), Item('\n', Break, true));
    } else if m.phase.Backslash? {
      var n, n' := m.(phase := InMessage), m'.(phase := InMessage);
      PutUnfolds(cfg, n, n', '\\');
      var (n1, first) := Put(cfg, n, '\\');
      var (n1', first') := Put(plain, n', '\\');
      PutUnfolds(cfg, n1, n1', ch);
      UnfoldedAppends(first, Put(cfg, n1, ch).1);
      CharsAppend(Unfolded(first), Unfolded(Put(cfg, n1, ch).1));
      CharsAppend(first', Put(plain, n1', ch).1);
      PairUnfolds(Item('\n', Break, true), Item('\t', Indent, true));
    } else {
      PairUnfolds(Item(ch, Header, true), Item(ch, Header, true));
    }
  }

  lemma NoFold(cfg: Config, m: Mode)
    requires !cfg.fold
    ensures FoldOf(cfg, m) == []
  {
  }

  lemma {:induction false} RunUnfolds(cfg: Config, m: Mode, m': Mode, input: string)
    requires SameButPosition(m, m')
    ensures Chars(Unfolded(Run(cfg, m, input).1)) == Chars(Run(cfg.(fold := false), m', input).1)
    decreases |input|
  {
    hide Step;
    if input != "" {
      var plain := cfg.(fold := false);
      var (m1, now) := Step(cfg, m, input[0]);
      var (m1', now') := Step(plain, m', input[0]);
      StepUnfolds(cfg, m, m', input[0]);
      RunUnfolds(cfg, m1, m1', input[1..]);
      var later, later' := Run(cfg, m1, input[1..]).1, Run(plain, m1', input[1..]).1;
      UnfoldedAppends(now, later);
      CharsAppend(Unfolded(now), Unfolded(later));
      CharsAppend(now', later');
    }
  }

  /** Deleting what check_position inserted gives the output of the same run without folding. */
  lemma FoldingOnlyInserts(cfg: Config, input: string)
    ensures Chars(Unfolded(Run(cfg, Initial(cfg), input).1))
         == Chars(Run(cfg.(fold := false), Initial(cfg.(fold := false)), input).1)
  {
    RunUnfolds(cfg, Initial(cfg), Initial(cfg.(fold := false)), input);
  }

  // ---------------------------------------------------------------- columns

  /**
   How the current output line began: with the tab that opens a message, with a
   newline that an escape other than \n let through, or in any other way.
   */
  datatype Origin = Regular | Opening | Ragged

  /** `tabbed`: it starts with a tab that the viewer wrote. */
  datatype Line = Line(column: nat, origin: Origin, tabbed: bool)

  /** The terminal: tabs written by the viewer take eight columns, any other character one. */
  function Advance(l: Line, item: Item): Line {
    if item.c == '\n' then Line(0, if item.tag.Text? then Ragged else Regular, false)
    else if item.tag.OpenTab? then Line(l.column + 8, Opening, true)
    else if item.c == '\t' && (item.tag.Indent? || item.tag.Fold?) then Line(l.column + 8, l.origin, true)
    else Line(l.column + 1, l.origin, l.tabbed)
  }

  function Track(l: Line, items: seq<Item>): Line
    decreases |items|
  {
    if items == [] then l else Track(Advance(l, items[0]), items[1..])
  }

  lemma {:induction false} TrackAppends(l: Line, a: seq<Item>, b: seq<Item>)
    ensures Track(l, a + b) == Track(Track(l, a), b)
    decreases |a|
  {
    if a == [] {
      assert a + b == b;
    } else {
      assert (a + b)[1..] == a[1..] + b;
      TrackAppends(Advance(l, a[0]), a[1..], b);
    }
  }

  /** A line is no wider than `width`; the opening line of a message may be up to 12 columns wider. */
  predicate Narrow(width: int, l: Line) {
    l.column <= if l.origin.Opening? then width + 12 else width
  }

  /** All the way along `items`, the lines of messages are narrow; header text is never folded. */
  predicate AllNarrow(width: int, l: Line, items: seq<Item>)
    decreases |items|
  {
    items == [] ||
    ((items[0].tag.Header? || Narrow(width, Advance(l, items[0])))
      && AllNarrow(width, Advance(l, items[0]), items[1..]))
  }

  lemma {:induction false} AllNarrowAppends(width: int, l: Line, a: seq<Item>, b: seq<Item>)
    ensures AllNarrow(width, l, a + b) <==> AllNarrow(width, l, a) && AllNarrow(width, Track(l, a), b)
    decreases |a|
  {
    hide Narrow;
    hide Advance;
    if a == [] {
      assert a + b == b;
    } else {
      assert (a + b)[1..] == a[1..] + b;
      AllNarrowAppends(width, Advance(l, a[0]), a[1..], b);
    }
  }

  predicate WithinMessage(m: Mode) {
    m.phase.InMessage? || m.phase.Backslash?
  }

  /** What `position` means on each sort of line. */
  predicate PositionFits(l: Line, position: int) {
    match l.origin
    case Regular => l.column == position
    case Opening => l.column == position + 8 || l.column == position + 12
    case Ragged => l.column < position
  }

  predicate Aligned(cfg: Config, m: Mode, l: Line) {
    if WithinMessage(m) then
      && 0 <= m.position <= cfg.width && PositionFits(l, m.position)
      && (l.origin.Ragged? || m.tabbed == l.tabbed)
    else !m.tabbed
  }

  /** The terminal after check_position has broken a line. */
  lemma TrackFold(width: int, l: Line, tabbed: bool)
    requires width >= 13
    ensures Track(l, FoldItems(tabbed)) == Line(if tabbed then 12 else 4, Regular, tabbed)
    ensures AllNarrow(width, l, FoldItems(tabbed))
  {
    var n, t, s := Item('\n', Fold, true), Item('\t', Fold, true), Item(' ', Fold, true);
    var spaces := [s, s, s, s];
    if tabbed {
      assert FoldItems(tabbed) == [n, t] + spaces;
      assert [n, t][1..] == [t] && [t][1..] == [];
      assert Track(Line(0, Regular, false), [t]) == Line(8, Regular, true);
      assert Track(l, [n, t]) == Line(8, Regular, true);
      assert AllNarrow(width, Line(0, Regular, false), [t]);
      assert AllNarrow(width, l, [n, t]);
      TrackSpaces(width, 8, true);
      TrackAppends(l, [n, t], spaces);
      AllNarrowAppends(width, l, [n, t], spaces);
    } else {
      assert FoldItems(tabbed) == [n] + spaces;
      assert [n][1..] == [];
      assert Track(l, [n]) == Line(0, Regular, false);
      TrackSpaces(width, 0, false);
      TrackAppends(l, [n], spaces);
      AllNarrowAppends(width, l, [n], spaces);
    }
  }

  lemma TrackSpaces(width: int, column: nat, tabbed: bool)
    requires column + 4 <= width
    ensures var s := Item(' ', Fold, true);
      Track(Line(column, Regular, tabbed), [s, s, s, s]) == Line(column + 4, Regular, tabbed)
      && AllNarrow(width, Line(column, Regular, tabbed), [s, s, s, s])
  {
    var s := Item(' ', Fold, true);
    assert [s, s, s, s][1..] == [s, s, s] && [s, s, s][1..] == [s, s] && [s, s][1..] == [s] && [s][1..] == [];
    assert Track(Line(column + 3, Regular, tabbed), [s]) == Line(column + 4, Regular, tabbed);
    assert Track(Line(column + 2, Regular, tabbed), [s, s]) == Line(column + 4, Regular, tabbed);
    assert Track(Line(column + 1, Regular, tabbed), [s, s, s]) == Line(column + 4, Regular, tabbed);
    assert AllNarrow(width, Line(column + 3, Regular, tabbed), [s]);
    assert AllNarrow(width, Line(column + 2, Regular, tabbed), [s, s]);
    assert AllNarrow(width, Line(column + 1, Regular, tabbed), [s, s, s]);
  }

  lemma TrackOne(width: int, l: Line, item: Item)
    ensures Track(l, [item]) == Advance(l, item)
    ensures item.tag.Header? || Narrow(width, Advance(l, item)) ==> AllNarrow(width, l, [item])
  {
    assert [item][1..] == [];
    assert Track(Advance(l, item), []) == Advance(l, item);
  }

  lemma PutAligned(cfg: Config, m: Mode, l: Line, c: char)
    requires cfg.fold && cfg.width >= 13
    requires m.phase.InMessage? && Aligned(cfg, m, l)
    ensures var (m', items) := Put(cfg, m, c);
      && m'.phase.InMessage? && Aligned(cfg, m', Track(l, items))
      && AllNarrow(cfg.width, l, items)
  {
    hide AllNarrow;
    hide Track;
    hide FoldItems;
    var item := Item(c, Text, !MustFold(cfg, m));
    var l1 := Track(l, FoldOf(cfg, m));
    if MustFold(cfg, m) {
      TrackFold(cfg.width, l, m.tabbed);
    } else {
      TrackNothing(cfg.width, l);
    }
    TrackAppends(l, FoldOf(cfg, m), [item]);
    AllNarrowAppends(cfg.width, l, FoldOf(cfg, m), [item]);
    TrackOne(cfg.width, l1, item);
  }

  lemma TrackNothing(width: int, l: Line)
    ensures Track(l, []) == l && AllNarrow(width, l, [])
  {
  }

  lemma OpeningAligned(cfg: Config, m: Mode, l: Line)
    requires cfg.fold && cfg.width >= 13 && !m.tabbed
    ensures var items := [Item('\n', OpenBreak, true)] + FoldOf(cfg, m) + [Item('\t', OpenTab, false)];
      && Track(l, items).origin.Opening? && Track(l, items).tabbed
      && (Track(l, items).column == 8 || Track(l, items).column == 12)
      && AllNarrow(cfg.width, l, items)
  {
    hide AllNarrow;
    hide Track;
    hide FoldItems;
    var n, t := Item('\n', OpenBreak, true), Item('\t', OpenTab, false);
    var l0 := Line(0, Regular, false);
    TrackOne(cfg.width, l, n);
    if MustFold(cfg, m) {
      TrackFold(cfg.width, l0, m.tabbed);
    } else {
      TrackNothing(cfg.width, l0);
    }
    TrackAppends(l, [n], FoldOf(cfg, m));
    AllNarrowAppends(cfg.width, l, [n], FoldOf(cfg, m));
    TrackAppends(l, [n] + FoldOf(cfg, m), [t]);
    AllNarrowAppends(cfg.width, l, [n] + FoldOf(cfg, m), [t]);
    TrackOne(cfg.width, Track(l0, FoldOf(cfg, m)), t);
  }

  lemma BreakAligned(width: int, l: Line)
    requires width >= 13
    ensures var n, t := Item('\n', Break, true), Item('\t', Indent, true);
      && Track(l, [n]) == Line(0, Regular, false) && AllNarrow(width, l, [n])
      && Track(l, [n, t]) == Line(8, Regular, true) && AllNarrow(width, l, [n, t])
  {
    hide AllNarrow;
    hide Track;
    var n, t := Item('\n', Break, true), Item('\t', Indent, true);
    TrackOne(width, l, n);
    TrackOne(width, Line(0, Regular, false), t);
    assert [n, t] == [n] + [t];
    TrackAppends(l, [n], [t]);
    AllNarrowAppends(width, l, [n], [t]);
  }

  lemma StepAligned(cfg: Config, m: Mode, l: Line, ch: char)
    requires cfg.indent && cfg.fold && cfg.width >= 13 && Aligned(cfg, m, l)
    ensures var (m', items) := Step(cfg, m, ch);
      Aligned(cfg, m', Track(l, items)) && AllNarrow(cfg.width, l, items)
  {
    hide Put;
    hide Track;
    hide AllNarrow;
    hide FoldOf;
    hide Advance;
    TrackNothing(cfg.width, l);
    if m.phase.InFields? && ch == '"' {
      OpeningAligned(cfg, m, l);
    } else if m.phase.InMessage? {
      PutAligned(cfg, m, l, ch);
      BreakAligned(cfg.width, l);
    } else if m.phase.Backslash? {
      var n := m.(phase := InMessage);
      BreakAligned(cfg.width, l);
      PutAligned(cfg, n, l, '\\');
      var (n1, first) := Put(cfg, n, '\\');
      PutAligned(cfg, n1, Track(l, first), ch);
      TrackAppends(l, first, Put(cfg, n1, ch).1);
      AllNarrowAppends(cfg.width, l, first, Put(cfg, n1, ch).1);
    } else {
      TrackOne(cfg.width, l, Item(ch, Header, true));
    }
  }

  lemma {:induction false} RunAligned(cfg: Config, m: Mode, l: Line, input: string)
    requires cfg.indent && cfg.fold && cfg.width >= 13 && Aligned(cfg, m, l)
    ensures var (m', items) := Run(cfg, m, input);
      Aligned(cfg, m', Track(l, items)) && AllNarrow(cfg.width, l, items)
    decreases |input|
  {
    hide Step;
    hide Aligned;
    hide AllNarrow;
    hide Track;
    if input == "" {
      TrackNothing(cfg.width, l);
    } else {
      var (m1, now) := Step(cfg, m, input[0]);
      StepAligned(cfg, m, l, input[0]);
      RunAligned(cfg, m1, Track(l, now), input[1..]);
      var later := Run(cfg, m1, input[1..]).1;
      TrackAppends(l, now, later);
      AllNarrowAppends(cfg.width, l, now, later);
    }
  }

  // ---------------------------------------------------------------- the results

  const TOP := Line(0, Regular, false)

  /**
   With -f and a width of at least 13, no message line ever gets wider than
   the width, except the line that opens a message, whose tab the program does
   not count: it may be up to 12 columns wider.
   */
  lemma FoldedLinesAreNarrow(cfg: Config, input: string)
    requires cfg.indent && cfg.fold && cfg.width >= 13
    ensures AllNarrow(cfg.width, TOP, Run(cfg, Initial(cfg), input).1)
  {
    RunAligned(cfg, Initial(cfg), TOP, input);
  }

  /**
   In a message, `position` is the column on the terminal exactly when the
   line began neither as the opening line of a message nor with a newline that
   followed a backslash.  Except on such a ragged line, a break will be tabbed
   exactly when the line it breaks is.
   */
  lemma PositionIsColumnIff(cfg: Config, input: string)
    requires cfg.indent && cfg.fold && cfg.width >= 13
    requires WithinMessage(Run(cfg, Initial(cfg), input).0)
    ensures var (m, items) := Run(cfg, Initial(cfg), input);
      var l := Track(TOP, items);
      && 0 <= m.position <= cfg.width
      && (m.position == l.column <==> l.origin.Regular?)
      && (!l.origin.Ragged? ==> m.tabbed == l.tabbed)
  {
    hide Run;
    RunAligned(cfg, Initial(cfg), TOP, input);
  }

  /** `n` letters in a message, with room for them. */
  lemma {:induction false} MessageChars(cfg: Config, m: Mode, l: Line, n: nat)
    requires m.phase.InMessage? && m.position + n <= cfg.width
    ensures Run(cfg, m, Repeated('x', n)).0 == m.(position := m.position + n)
    ensures Track(l, Run(cfg, m, Repeated('x', n)).1) == l.(column := l.column + n)
    decreases n
  {
    hide Run;
    hide Track;
    if n == 0 {
      RunEmpty(cfg, m);
      TrackNothing(cfg.width, l);
    } else {
      var m1 := m.(position := m.position + 1);
      var item := Item('x', Text, true);
      assert Repeated('x', n) == ['x'] + Repeated('x', n - 1);
      RunCons(cfg, m, 'x', Repeated('x', n - 1));
      assert [] + [item] == [item];
      TrackOne(cfg.width, l, item);
      MessageChars(cfg, m1, l.(column := l.column + 1), n - 1);
      TrackAppends(l, [item], Run(cfg, m1, Repeated('x', n - 1)).1);
    }
  }

  /** A header, and a message whose first line is as long as the width. */
  function LongLine(width: nat): string {
    "\"\"\"" + Repeated('x', width)
  }

  lemma OpenMessage(cfg: Config)
    requires cfg.indent && cfg.width >= 9
    ensures var (m, items) := Run(cfg, Initial(cfg), "\"\"\"");
      m == Mode(InMessage, 0, true) && Track(TOP, items) == Line(8, Opening, true)
  {
    var m := Initial(cfg);
    var m1, m2 := m.(phase := InTime), Mode(InFields, 1, false);
    var q, n, t := Item('"', Header, true), Item('\n', OpenBreak, true), Item('\t', OpenTab, false);
    assert "\"\"\"" == ['"'] + (['"'] + ['"']);
    assert Step(cfg, m, '"') == (m1, []) && Step(cfg, m1, '"') == (m2, [q]);
    assert Step(cfg, m2, '"') == (Mode(InMessage, 0, true), [n] + [] + [t]);
    hide Step;
    hide Run;
    RunOne(cfg, m2, '"');
    RunCons(cfg, m1, '"', ['"']);
    RunCons(cfg, m, '"', ['"'] + ['"']);
    var items := Run(cfg, m, "\"\"\"").1;
    assert items == [q, n, t];
    OpenLine(q, n, t);
  }

  lemma OpenLine(q: Item, n: Item, t: Item)
    requires n.c == '\n' && n.tag.OpenBreak? && t.c == '\t' && t.tag.OpenTab?
    ensures Track(TOP, [q, n, t]) == Line(8, Opening, true)
  {
    assert [q, n, t][1..] == [n, t] && [n, t][1..] == [t];
    TrackOne(0, Line(0, Regular, false), t);
    assert Track(Advance(TOP, q), [n, t]) == Track(Line(0, Regular, false), [t]);
  }

  lemma RunLongLine(cfg: Config)
    requires cfg.indent && cfg.width >= 9
    ensures var (m, items) := Run(cfg, Initial(cfg), LongLine(cfg.width));
      m == Mode(InMessage, cfg.width, true) && Track(TOP, items) == Line(cfg.width + 8, Opening, true)
  {
    hide Run;
    hide Track;
    OpenMessage(cfg);
    RunAppends(cfg, Initial(cfg), "\"\"\"", Repeated('x', cfg.width));
    var m := Mode(InMessage, 0, true);
    MessageChars(cfg, m, Line(8, Opening, true), cfg.width);
    TrackAppends(TOP, Run(cfg, Initial(cfg), "\"\"\"").1, Run(cfg, m, Repeated('x', cfg.width)).1);
  }

  /** The opening line really does get wider: at every width some input fills width + 8 columns. */
  lemma OpeningLineIsWider(cfg: Config)
    requires cfg.indent && cfg.fold && cfg.width >= 9
    ensures exists input :: Track(TOP, Run(cfg, Initial(cfg), input).1).column > cfg.width
  {
    hide Run;
    hide Track;
    RunLongLine(cfg);
    assert Track(TOP, Run(cfg, Initial(cfg), LongLine(cfg.width)).1).column > cfg.width;
  }

  /** A message that begins with an escape of a newline itself: the line behind it starts at position 2. */
  lemma RaggedLine(cfg: Config)
    requires cfg.indent && cfg.fold && cfg.width >= 13
    ensures var (m, items) := Run(cfg, Initial(cfg), "\"\"\"" + ['\\', '\n']);
      m == Mode(InMessage, 2, true) && Track(TOP, items) == Line(0, Ragged, false)
  {
    var m, b := Mode(InMessage, 0, true), Mode(Backslash, 0, true);
    var t, n := Item('\\', Text, true), Item('\n', Text, true);
    assert Step(cfg, m, '\\') == (b, []);
    assert Step(cfg, b, '\n') == (Mode(InMessage, 2, true), ([] + [t]) + ([] + [n]));
    hide Step;
    hide Run;
    hide Track;
    OpenMessage(cfg);
    var first := Run(cfg, Initial(cfg), "\"\"\"").1;
    RunAppends(cfg, Initial(cfg), "\"\"\"", ['\\', '\n']);
    assert ['\\', '\n'] == ['\\'] + ['\n'];
    RunCons(cfg, m, '\\', ['\n']);
    RunOne(cfg, b, '\n');
    var second := Run(cfg, m, ['\\', '\n']).1;
    assert second == [t] + [n];
    TrackAppends(TOP, first, second);
    var l := Line(8, Opening, true);
    TrackAppends(l, [t], [n]);
    TrackOne(cfg.width, l, t);
    TrackOne(cfg.width, Line(9, Opening, true), n);
  }

  /** Throughout every message the position stays within the width. */
  ghost predicate PositionBounded(cfg: Config) {
    forall input :: WithinMessage(Run(cfg, Initial(cfg), input).0) ==>
      Run(cfg, Initial(cfg), input).0.position <= cfg.width
  }

  /**
   The widths that the program accepts start at 9, but a broken line that was
   tabbed goes on at column 12: folding is bounded exactly from width 13 on.
   */
  lemma PositionBoundedIff(cfg: Config)
    requires cfg.indent && cfg.fold && cfg.width >= 9
    ensures PositionBounded(cfg) <==> cfg.width >= 13
  {
    hide Run;
    if cfg.width >= 13 {
      forall input | WithinMessage(Run(cfg, Initial(cfg), input).0)
        ensures Run(cfg, Initial(cfg), input).0.position <= cfg.width
      {
        PositionIsColumnIff(cfg, input);
      }
    } else {
      RunLongLine(cfg);
      var m := Mode(InMessage, cfg.width, true);
      RunOne(cfg, m, 'x');
      RunAppends(cfg, Initial(cfg), LongLine(cfg.width), ['x']);
      var r := Run(cfg, Initial(cfg), LongLine(cfg.width) + ['x']).0;
      assert r == Mode(InMessage, 13, true);
    }
  }
}
