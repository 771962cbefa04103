/**
 What the viewer makes of the lines that OsSysLog writes: the message comes back
 from its escaped form, and in --indent mode a whole log is laid out record by
 record.
 */
module ViewerRecords {
  import opened SyslogViewer
  import opened SysLogEscape
  import opened ViewerFolding

  /** A carriage return disappears, a quote keeps its backslash, a newline may get a tab. */
  function DisplayChar(indent: bool, c: char): string {
    if c == '\n' then (if indent then "\n\t" else "\n")
    else if c == '\r' then ""
    else if c == '"' then "\\\""
    else [c]
  }

  function Display(indent: bool, message: string): string {
    if message == "" then "" else DisplayChar(indent, message[0]) + Display(indent, message[1..])
  }

  lemma CharsOne(item: Item)
    ensures Chars([item]) == [item.c]
  {
  }

  /** One character of the message, escaped and viewed. */
  lemma ViewChar(cfg: Config, m: Mode, c: char)
    requires !cfg.fold && m.phase.InMessage?
    ensures var (m', items) := Run(cfg, m, EscapeAll([c]));
      m'.phase.InMessage? && Chars(items) == DisplayChar(cfg.indent, c)
  {
    hide EscapeAll;
    hide Run;
    EscapeOne(c);
    if Special(c) {
      var b := m.(phase := Backslash);
      assert Step(cfg, m, '\\') == (b, []);
      RunCons(cfg, m, '\\', [Letter(c)]);
      RunOne(cfg, b, Letter(c));
      assert ['\\', Letter(c)] == ['\\'] + [Letter(c)];
      assert [] + Step(cfg, b, Letter(c)).1 == Step(cfg, b, Letter(c)).1;
      ViewEscaped(cfg, b, c);
    } else {
      RunOne(cfg, m, c);
      assert [] + [Item(c, Text, true)] == [Item(c, Text, true)];
    }
  }

  lemma ViewEscaped(cfg: Config, b: Mode, c: char)
    requires !cfg.fold && b.phase.Backslash? && Special(c)
    ensures var (m', items) := Step(cfg, b, Letter(c));
      m'.phase.InMessage? && Chars(items) == DisplayChar(cfg.indent, c)
  {
    var items := Step(cfg, b, Letter(c)).1;
    if c == '"' {
      assert items == ([] + [Item('\\', Text, true)]) + ([] + [Item('"', Text, true)]);
    } else if c == '\\' {
      assert items == [] + [Item('\\', Text, true)];
    }
  }

  /** The message of a log line, viewed. */
  lemma {:induction false} ViewMessage(cfg: Config, m: Mode, message: string)
    requires !cfg.fold && m.phase.InMessage?
    ensures var (m', items) := Run(cfg, m, EscapeAll(message));
      m'.phase.InMessage? && Chars(items) == Display(cfg.indent, message)
    decreases |message|
  {
    hide EscapeAll;
    hide Run;
    hide DisplayChar;
    if message == "" {
      EscapePlain("");
      RunEmpty(cfg, m);
    } else {
      var c, rest := [message[0]], message[1..];
      assert message == c + rest;
      EscapeAppends(c, rest);
      ViewChar(cfg, m, message[0]);
      var (m1, now) := Run(cfg, m, EscapeAll(c));
      RunAppends(cfg, m, EscapeAll(c), EscapeAll(rest));
      ViewMessage(cfg, m1, rest);
      CharsAppend(now, Run(cfg, m1, EscapeAll(rest)).1);
    }
  }

  lemma {:induction false} DisplayIsIdentityIff(message: string)
    ensures Display(false, message) == message <==> '"' !in message && '\r' !in message
    ensures '\r' !in Display(false, message)
    ensures '\r' !in message ==> |Display(false, message)| >= |message|
    ensures '\r' !in message && '"' in message ==> |Display(false, message)| > |message|
  {
    if message != "" {
      DisplayIsIdentityIff(message[1..]);
      assert forall c :: c in message <==> c == message[0] || c in message[1..];
      var c := message[0];
      if c != '\r' && c != '"' {
        assert DisplayChar(false, c) == [c];
        assert Display(false, message)[1..] == Display(false, message[1..]);
      }
      if Display(false, message) == message { assert '\r' !in message; }
    }
  }

  /**
   In default mode the viewer shows a message that was escaped throughout, as
   escape does where there is no NUL, as it was: exactly when it has no quote
   and no CR.
   */
  lemma ViewUndoesEscapeIff(cfg: Config, message: string)
    requires !cfg.indent && !cfg.fold
    ensures '\0' !in message ==> Escaped(message) == EscapeAll(message)
    ensures var out := Chars(Run(cfg, Initial(cfg), EscapeAll(message)).1);
      && out == Display(false, message)
      && (out == message <==> '"' !in message && '\r' !in message)
  {
    if '\0' !in message && Plain(message) { EscapePlain(message); }
    ViewMessage(cfg, Initial(cfg), message);
    DisplayIsIdentityIff(message);
  }

  // ---------------------------------------------------------------- records

  /** A log record; its time and its fields hold no quotes. */
  datatype LogRecord = LogRecord(time: string, fields: string, message: string)

  ghost predicate Quotable(r: LogRecord) {
    '"' !in r.time && '"' !in r.fields
  }

  function LogLine(r: LogRecord): string {
    "\"" + (r.time + ("\"" + (r.fields + ("\"" + (EscapeAll(r.message) + "\"\n")))))
  }

  function Log(rs: seq<LogRecord>): string {
    if rs == [] then "" else LogLine(rs[0]) + Log(rs[1..])
  }

  /** Time and fields on one line, then the message, every line of it behind a tab. */
  function Layout(r: LogRecord): string {
    r.time + ("\"" + (r.fields + ("\n\t" + (Display(true, r.message) + "\n"))))
  }

  function Layouts(rs: seq<LogRecord>): string {
    if rs == [] then "" else Layout(rs[0]) + Layouts(rs[1..])
  }

  /** `text`, read in mode `m`, is shown as `shown` and leads to the phase `next`. */
  ghost predicate Shows(cfg: Config, m: Mode, text: string, next: Phase, shown: string) {
    var (m', items) := Run(cfg, m, text);
    m'.phase == next && Chars(items) == shown
  }

  lemma ShowsThen(cfg: Config, m: Mode, a: string, p: Phase, shownA: string, b: string, q: Phase, shownB: string)
    requires Shows(cfg, m, a, p, shownA)
    requires Shows(cfg, Run(cfg, m, a).0, b, q, shownB)
    ensures Shows(cfg, m, a + b, q, shownA + shownB)
  {
    hide Run;
    RunAppends(cfg, m, a, b);
    CharsAppend(Run(cfg, m, a).1, Run(cfg, Run(cfg, m, a).0, b).1);
  }

  /** Text without quotes in front of the message is copied, and moves the position. */
  lemma {:induction false} HeaderCopied(cfg: Config, m: Mode, text: string)
    requires m.phase.StartLine? || m.phase.InTime? || m.phase.InFields?
    requires '"' !in text
    ensures Shows(cfg, m, text, m.phase, text)
    ensures Run(cfg, m, text).0 == m.(position := m.position + |text|)
    decreases |text|
  {
    if text != "" {
      var m1 := m.(position := m.position + 1);
      var item := Item(text[0], Header, true);
      assert text[0] in text;
      assert Step(cfg, m, text[0]) == (m1, [item]);
      HeaderCopied(cfg, m1, text[1..]);
      CharsAppend([item], Run(cfg, m1, text[1..]).1);
      CharsOne(item);
    }
  }

  /** A quote, or the newline behind a record. */
  lemma DelimiterShown(cfg: Config, m: Mode)
    requires cfg.indent && !cfg.fold
    ensures m.phase.StartLine? ==> Shows(cfg, m, "\"", InTime, "") && Shows(cfg, m, "\n", StartLine, "\n")
    ensures m.phase.InTime? ==> Shows(cfg, m, "\"", InFields, "\"")
    ensures m.phase.InFields? ==> Shows(cfg, m, "\"", InMessage, "\n\t")
    ensures m.phase.InMessage? ==> Shows(cfg, m, "\"", StartLine, "")
  {
    hide Run;
    RunOne(cfg, m, '"');
    RunOne(cfg, m, '\n');
    assert "\"" == ['"'] && "\n" == ['\n'];
    var n, t := Item('\n', OpenBreak, true), Item('\t', OpenTab, false);
    assert [n] + [] + [t] == [n, t];
    assert Chars([n, t]) == "\n\t";
  }

  /** One record, from the start of a line to the start of the next. */
  lemma RecordShown(cfg: Config, m: Mode, r: LogRecord)
    requires cfg.indent && !cfg.fold && m.phase.StartLine? && Quotable(r)
    ensures Shows(cfg, m, LogLine(r), StartLine, Layout(r))
  {
    hide Run;
    hide EscapeAll;
    hide Display;
    var message := EscapeAll(r.message);
    DelimiterShown(cfg, m);
    var m1 := Run(cfg, m, "\"").0;
    HeaderCopied(cfg, m1, r.time);
    var m2 := Run(cfg, m1, r.time).0;
    DelimiterShown(cfg, m2);
    var m3 := Run(cfg, m2, "\"").0;
    HeaderCopied(cfg, m3, r.fields);
    var m4 := Run(cfg, m3, r.fields).0;
    MessageShown(cfg, m4, r.message);
    var t4, s4 := "\"" + (message + "\"\n"), "\n\t" + (Display(true, r.message) + "\n");
    ShowsThen(cfg, m3, r.fields, InFields, r.fields, t4, StartLine, s4);
    ShowsThen(cfg, m2, "\"", InFields, "\"", r.fields + t4, StartLine, r.fields + s4);
    var t2, s2 := "\"" + (r.fields + t4), "\"" + (r.fields + s4);
    ShowsThen(cfg, m1, r.time, InTime, r.time, t2, StartLine, s2);
    ShowsThen(cfg, m, "\"", InTime, "", r.time + t2, StartLine, r.time + s2);
    assert "" + (r.time + s2) == Layout(r);
  }

  /** The last part of a record: from the quote that opens the message. */
  lemma MessageShown(cfg: Config, m: Mode, message: string)
    requires cfg.indent && !cfg.fold && m.phase.InFields?
    ensures Shows(cfg, m, "\"" + (EscapeAll(message) + "\"\n"), StartLine, "\n\t" + (Display(true, message) + "\n"))
  {
    hide Run;
    hide EscapeAll;
    hide Display;
    var text, shown := EscapeAll(message), Display(true, message);
    DelimiterShown(cfg, m);
    var m1 := Run(cfg, m, "\"").0;
    ViewMessage(cfg, m1, message);
    var m2 := Run(cfg, m1, text).0;
    DelimiterShown(cfg, m2);
    DelimiterShown(cfg, Run(cfg, m2, "\"").0);
    ShowsThen(cfg, m2, "\"", StartLine, "", "\n", StartLine, "\n");
    assert "\"" + "\n" == "\"\n" && "" + "\n" == "\n";
    ShowsThen(cfg, m1, text, InMessage, shown, "\"\n", StartLine, "\n");
    ShowsThen(cfg, m, "\"", InMessage, "\n\t", text + "\"\n", StartLine, shown + "\n");
  }

  lemma {:induction false} LogShown(cfg: Config, m: Mode, rs: seq<LogRecord>)
    requires cfg.indent && !cfg.fold && m.phase.StartLine? && forall r :: r in rs ==> Quotable(r)
    ensures Shows(cfg, m, Log(rs), StartLine, Layouts(rs))
    decreases |rs|
  {
    hide Run;
    hide LogLine;
    hide Layout;
    if rs == [] {
      RunEmpty(cfg, m);
    } else {
      RecordShown(cfg, m, rs[0]);
      LogShown(cfg, Run(cfg, m, LogLine(rs[0])).0, rs[1..]);
      ShowsThen(cfg, m, LogLine(rs[0]), StartLine, Layout(rs[0]), Log(rs[1..]), StartLine, Layouts(rs[1..]));
    }
  }

  /** In --indent mode a whole log comes out laid out record by record; with folding, up to what folding inserts. */
  lemma LogIsLaidOut(cfg: Config, rs: seq<LogRecord>)
    requires cfg.indent && forall r :: r in rs ==> Quotable(r)
    ensures Chars(Unfolded(Run(cfg, Initial(cfg), Log(rs)).1)) == Layouts(rs)
    ensures !cfg.fold ==> Chars(Run(cfg, Initial(cfg), Log(rs)).1) == Layouts(rs)
  {
    hide Run;
    var plain := cfg.(fold := false);
    LogShown(plain, Initial(plain), rs);
    FoldingOnlyInserts(cfg, Log(rs));
    if !cfg.fold { assert plain == cfg; }
  }
}
