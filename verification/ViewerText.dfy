/**
 The viewer on any text: what it shows of every sort of character, of headers
 that are folded, and, in default mode, of whole logs.
 */
module ViewerText {
  import opened UtlText
  import opened SyslogViewer
  import opened SysLogEscape
  import opened ViewerBuffer
  import opened ViewerFolding
  import opened ViewerRecords

  // ---------------------------------------------------------------- any message text

  /** Raw quotes and escaped carriage returns disappear; other unknown escapes keep their backslash. */
  function PieceShown(indent: bool, p: Piece): string {
    if p.Bare? then (if p.c == '"' then "" else [p.c])
    else if p.c == 'n' then (if indent then "\n\t" else "\n")
    else if p.c == 'r' then ""
    else if p.c == '\\' then "\\"
    else ['\\', p.c]
  }

  function TextShown(indent: bool, ps: seq<Piece>): string {
    if ps == [] then "" else PieceShown(indent, ps[0]) + TextShown(indent, ps[1..])
  }

  lemma RunPiece(cfg: Config, m: Mode, p: Piece)
    requires !cfg.fold && m.phase.InMessage? && Proper(p) && (cfg.indent ==> p != Bare('"'))
    ensures Shows(cfg, m, Source([p]), InMessage, PieceShown(cfg.indent, p))
  {
    hide Run;
    SourceOne(p);
    if p.Bare? {
      RunOne(cfg, m, p.c);
      assert [] + [Item(p.c, Text, true)] == [Item(p.c, Text, true)];
    } else {
      var b := m.(phase := Backslash);
      RunCons(cfg, m, '\\', [p.c]);
      RunOne(cfg, b, p.c);
      assert ['\\'] + [p.c] == ['\\', p.c];
      assert [] + Step(cfg, b, p.c).1 == Step(cfg, b, p.c).1;
      StepBackslash(cfg, b, p.c);
    }
  }

  lemma StepBackslash(cfg: Config, b: Mode, c: char)
    requires !cfg.fold && b.phase.Backslash?
    ensures var (m', items) := Step(cfg, b, c);
      m'.phase.InMessage? && Chars(items) == PieceShown(cfg.indent, Escaping(c))
  {
    var items := Step(cfg, b, c).1;
    if c == '\\' {
      assert items == [] + [Item('\\', Text, true)];
    } else if c != 'n' && c != 'r' {
      assert items == ([] + [Item('\\', Text, true)]) + ([] + [Item(c, Text, true)]);
    }
  }

  /** Message text is shown piece by piece; with --indent a raw quote would end the message. */
  lemma {:induction false} MessageTextShown(cfg: Config, m: Mode, ps: seq<Piece>)
    requires !cfg.fold && m.phase.InMessage?
    requires forall p :: p in ps ==> Proper(p) && (cfg.indent ==> p != Bare('"'))
    ensures Shows(cfg, m, Source(ps), InMessage, TextShown(cfg.indent, ps))
    decreases |ps|
  {
    hide Run;
    hide PieceShown;
    if ps == [] {
      RunEmpty(cfg, m);
    } else {
      var first := Source([ps[0]]);
      SourceOne(ps[0]);
      RunPiece(cfg, m, ps[0]);
      var m1 := Run(cfg, m, first).0;
      assert Shows(cfg, m, first, InMessage, PieceShown(cfg.indent, ps[0]));
      assert forall p :: p in ps[1..] ==> p in ps;
      MessageTextShown(cfg, m1, ps[1..]);
      ShowsThen(cfg, m, first, InMessage, PieceShown(cfg.indent, ps[0]),
                Source(ps[1..]), InMessage, TextShown(cfg.indent, ps[1..]));
    }
  }

  // ---------------------------------------------------------------- headers

  lemma RunThen(cfg: Config, m: Mode, a: string, b: string)
    ensures var m1 := Run(cfg, m, a).0;
      && Run(cfg, m, a + b).0 == Run(cfg, m1, b).0
      && Chars(Run(cfg, m, a + b).1) == Chars(Run(cfg, m, a).1) + Chars(Run(cfg, m1, b).1)
  {
    hide Run;
    RunAppends(cfg, m, a, b);
    CharsAppend(Run(cfg, m, a).1, Run(cfg, Run(cfg, m, a).0, b).1);
  }

  /** The quotes around time and fields; the last one opens the message. */
  lemma HeaderQuote(cfg: Config, m: Mode)
    ensures m.phase.StartLine? ==> Run(cfg, m, "\"") == (m.(phase := InTime), [])
    ensures m.phase.InTime? ==>
      Run(cfg, m, "\"").0 == m.(phase := InFields, position := m.position + 1) && Chars(Run(cfg, m, "\"").1) == "\""
    ensures m.phase.InFields? ==>
      var fold := if !cfg.fold || m.position != cfg.width then "" else if m.tabbed then "\n\t    " else "\n    ";
      Run(cfg, m, "\"").0 == Mode(InMessage, 0, true) && Chars(Run(cfg, m, "\"").1) == "\n" + fold + "\t"
  {
    hide Run;
    assert "\"" == ['"'];
    RunOne(cfg, m, '"');
    var n, t := Item('\n', OpenBreak, true), Item('\t', OpenTab, false);
    CharsOne(n);
    CharsOne(t);
    CharsAppend([n], FoldOf(cfg, m));
    CharsAppend([n] + FoldOf(cfg, m), [t]);
  }

  /**
   A header is copied without its first and last quote.  The message starts
   on a new line behind a tab, and behind a break as well if the header fills
   the width exactly, counted from the position at which its line began.
   */
  lemma HeaderShown(cfg: Config, m: Mode, time: string, fields: string)
    requires m.phase.StartLine? && '"' !in time && '"' !in fields
    ensures var text := "\"" + (time + ("\"" + (fields + "\"")));
      var fold := if !cfg.fold || m.position + |time| + 1 + |fields| != cfg.width then ""
                  else if m.tabbed then "\n\t    " else "\n    ";
      && Run(cfg, m, text).0 == Mode(InMessage, 0, true)
      && Chars(Run(cfg, m, text).1) == time + ("\"" + (fields + ("\n" + fold + "\t")))
  {
    hide Run;
    var m1 := m.(phase := InTime);
    var m2 := m1.(position := m.position + |time|);
    var m3 := Mode(InFields, m.position + |time| + 1, m.tabbed);
    var m4 := m3.(position := m.position + |time| + 1 + |fields|);
    HeaderQuote(cfg, m);
    HeaderCopied(cfg, m1, time);
    HeaderQuote(cfg, m2);
    HeaderCopied(cfg, m3, fields);
    HeaderQuote(cfg, m4);
    RunThen(cfg, m3, fields, "\"");
    RunThen(cfg, m2, "\"", fields + "\"");
    RunThen(cfg, m1, time, "\"" + (fields + "\""));
    RunThen(cfg, m, "\"", time + ("\"" + (fields + "\"")));
  }

  /** Behind a message the next line begins, with the newline counted in its position if it may be a header. */
  lemma MessageEnds(cfg: Config, m: Mode)
    requires m.phase.InMessage?
    ensures Chars(Run(cfg, m, "\"\n").1) == "\n"
    ensures Run(cfg, m, "\"\n").0 == if cfg.indent then Mode(StartLine, 1, false) else Mode(InMessage, 0, false)
  {
    hide Run;
    assert "\"\n" == "\"" + "\n" && "\"" == ['"'] && "\n" == ['\n'];
    RunOne(cfg, m, '"');
    RunOne(cfg, Step(cfg, m, '"').0, '\n');
    RunThen(cfg, m, "\"", "\n");
  }

  // ---------------------------------------------------------------- whole logs in default mode

  /** Time, fields and message on one line, without their quotes. */
  function Row(r: LogRecord): string {
    r.time + (r.fields + (Display(false, r.message) + "\n"))
  }

  function Rows(rs: seq<LogRecord>): string {
    if rs == [] then "" else Row(rs[0]) + Rows(rs[1..])
  }

  /** Text that default mode copies: newlines and all, but no quotes and no escapes. */
  ghost predicate Copied(s: string) {
    '"' !in s && '\\' !in s
  }

  ghost predicate AllCopied(rs: seq<LogRecord>) {
    forall r :: r in rs ==> Copied(r.time) && Copied(r.fields)
  }

  lemma {:induction false} TextCopied(cfg: Config, m: Mode, text: string)
    requires !cfg.fold && m.phase.InMessage? && Copied(text)
    ensures Shows(cfg, m, text, InMessage, text)
    decreases |text|
  {
    hide Run;
    if text == "" {
      RunEmpty(cfg, m);
    } else {
      var c, more := text[0], text[1..];
      assert c in text && text == [c] + more;
      RunPiece(cfg, m, Bare(c));
      SourceOne(Bare(c));
      TextCopied(cfg, Run(cfg, m, [c]).0, more);
      ShowsThen(cfg, m, [c], InMessage, [c], more, InMessage, more);
    }
  }

  lemma RowShown(cfg: Config, m: Mode, r: LogRecord)
    requires !cfg.indent && !cfg.fold && m.phase.InMessage? && Copied(r.time) && Copied(r.fields)
    ensures Shows(cfg, m, LogLine(r), InMessage, Row(r))
  {
    hide Run;
    hide EscapeAll;
    hide Display;
    hide Copied;
    var m1 := QuoteDropped(cfg, m);
    TextCopied(cfg, m1, r.time);
    var m2 := Run(cfg, m1, r.time).0;
    var m3 := QuoteDropped(cfg, m2);
    TextCopied(cfg, m3, r.fields);
    var m4 := Run(cfg, m3, r.fields).0;
    var m5 := QuoteDropped(cfg, m4);
    ViewMessage(cfg, m5, r.message);
    var message, shown := EscapeAll(r.message), Display(false, r.message);
    MessageEnds(cfg, Run(cfg, m5, message).0);
    ShowsThen(cfg, m5, message, InMessage, shown, "\"\n", InMessage, "\n");
    ShowsThen(cfg, m4, "\"", InMessage, "", message + "\"\n", InMessage, shown + "\n");
    var t4, s4 := "\"" + (message + "\"\n"), "" + (shown + "\n");
    ShowsThen(cfg, m3, r.fields, InMessage, r.fields, t4, InMessage, s4);
    ShowsThen(cfg, m2, "\"", InMessage, "", r.fields + t4, InMessage, r.fields + s4);
    var t2, s2 := "\"" + (r.fields + t4), "" + (r.fields + s4);
    ShowsThen(cfg, m1, r.time, InMessage, r.time, t2, InMessage, s2);
    ShowsThen(cfg, m, "\"", InMessage, "", r.time + t2, InMessage, r.time + s2);
    assert s4 == shown + "\n" && s2 == r.fields + s4 && "" + (r.time + s2) == r.time + s2;
  }

  lemma QuoteDropped(cfg: Config, m: Mode) returns (m1: Mode)
    requires !cfg.indent && !cfg.fold && m.phase.InMessage?
    ensures m1 == Run(cfg, m, "\"").0 && m1.phase.InMessage? && Shows(cfg, m, "\"", InMessage, "")
  {
    hide Run;
    RunPiece(cfg, m, Bare('"'));
    SourceOne(Bare('"'));
    assert "\"" == ['"'];
    m1 := Run(cfg, m, "\"").0;
  }

  lemma {:induction false} RowsShown(cfg: Config, m: Mode, rs: seq<LogRecord>)
    requires !cfg.indent && !cfg.fold && m.phase.InMessage?
    requires AllCopied(rs)
    ensures Shows(cfg, m, Log(rs), InMessage, Rows(rs))
    decreases |rs|
  {
    hide Run;
    hide LogLine;
    hide Row;
    hide Copied;
    if rs == [] {
      RunEmpty(cfg, m);
    } else {
      RowShown(cfg, m, rs[0]);
      assert Shows(cfg, m, LogLine(rs[0]), InMessage, Row(rs[0]));
      RowsShown(cfg, Run(cfg, m, LogLine(rs[0])).0, rs[1..]);
      ShowsThen(cfg, m, LogLine(rs[0]), InMessage, Row(rs[0]), Log(rs[1..]), InMessage, Rows(rs[1..]));
    }
  }

  /** In default mode a log keeps its lines, and every line loses its quotes and its escapes. */
  lemma LogInDefaultMode(cfg: Config, rs: seq<LogRecord>)
    requires !cfg.indent && !cfg.fold
    requires AllCopied(rs)
    ensures Chars(Run(cfg, Initial(cfg), Log(rs)).1) == Rows(rs)
  {
    hide Run;
    hide Log;
    hide Rows;
    hide Copied;
    RowsShown(cfg, Initial(cfg), rs);
  }

  /** The whole program in default mode, on any text and on a log, however they are read. */
  method ViewPlain(chunks: seq<string>, size: nat) returns (output: string)
    requires size > 0
    ensures forall ps: seq<Piece> | Concat(chunks) == Source(ps) && (forall p :: p in ps ==> Proper(p)) ::
      output == TextShown(false, ps)
    ensures forall rs: seq<LogRecord> | Concat(chunks) == Log(rs) && AllCopied(rs) :: output == Rows(rs)
  {
    hide Run;
    hide RunBuffer;
    hide Source;
    hide TextShown;
    hide Log;
    hide Rows;
    var cfg := Config(false, false, 0);
    var viewer := new Viewer(cfg, size);
    viewer.View(chunks);
    output := viewer.written;
    DefaultModeIsFaithful(cfg, Concat(chunks), size);
    forall ps: seq<Piece> | Concat(chunks) == Source(ps) && (forall p :: p in ps ==> Proper(p))
      ensures output == TextShown(false, ps)
    {
      MessageTextShown(cfg, Initial(cfg), ps);
    }
    forall rs: seq<LogRecord> | Concat(chunks) == Log(rs) && AllCopied(rs)
      ensures output == Rows(rs)
    {
      LogInDefaultMode(cfg, rs);
    }
  }
}
