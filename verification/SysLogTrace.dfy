/**
 syslog2siptrace: the fields taken out of one log message, the lines taken out
 of the reads, and the window of times that decides which lines are converted.
 */
module SysLogTrace {
  import opened UtlText
  import opened SipLogFramer

  // ---------------------------------------------------------------- getMessageData

  datatype MessageData =
    | NoHeader
    | Overrun                             // a field of negative length: the append cannot succeed
    | MessageData(host: string, port: string, message: string)

  /** The host and port of a record whose header is at `header`, and where its message starts. */
  datatype Address = NoAddress | Address(host: string, port: string, messageIndex: nat)

  function AddressOf(s: string, header: nat): Address {
    var hostIndex := header + |HEADER|;
    var hostEnd := Index(s, DELIMITER, hostIndex);
    var portIndex := hostEnd + |PORT_LABEL|;
    if hostEnd < hostIndex then NoAddress else
    var portEnd := Index(s, DELIMITER, portIndex);
    if portEnd < portIndex then NoAddress
    else Address(s[hostIndex..hostEnd], s[portIndex..portEnd], portEnd + |PORT_END|)
  }

  function DirectionMarker(outgoing: bool): string {
    if outgoing then Marker(Outgoing) else Marker(Incoming)
  }

  function MessageDataOf(s: string, outgoing: bool): MessageData {
    var header := Index(s, HEADER, 0);
    if header <= 0 then NoHeader else
    var a := AddressOf(s, header);
    if a.NoAddress? then Overrun else
    var found := Index(s, DirectionMarker(outgoing), a.messageIndex);
    var messageEnd := if found < 0 then |s| else found;
    if messageEnd < a.messageIndex then Overrun
    else MessageData(a.host, a.port, s[a.messageIndex..messageEnd])
  }

  /** The field extraction of getMessageData, with the strings it appends to. */
  method GetMessageData(content: string, isOutgoing: bool)
    returns (ok: bool, remoteAddress: string, remoteHost: string, remotePort: string, message: string)
    ensures ok <==> MessageDataOf(content, isOutgoing).MessageData?
    ensures ok ==> MessageDataOf(content, isOutgoing) == MessageData(remoteAddress, remotePort, message)
    ensures ok ==> remoteHost == remoteAddress + ":" + remotePort
  {
    hide Index;
    hide MatchesAt;
    hide HEADER;
    hide PORT_LABEL;
    hide PORT_END;
    hide DELIMITER;
    hide Marker;
    LabelLengths();
    ok, remoteAddress, remoteHost, remotePort, message := false, "", "", "", "";
    var hostIndex := Index(content, HEADER, 0);
    if hostIndex > 0 {
      hostIndex := hostIndex + 16;
      var hostEnd := Index(content, DELIMITER, hostIndex);
      IndexInside(content, DELIMITER, hostIndex);
      if hostEnd - hostIndex < 0 { return; }
      remoteHost := remoteHost + content[hostIndex..hostEnd];
      assert remoteHost == content[hostIndex..hostEnd];
      remoteAddress := remoteHost;
      remoteHost := remoteHost + ":";

      var portIndex := hostEnd + 11;
      var portEnd := Index(content, DELIMITER, portIndex);
      IndexInside(content, DELIMITER, portIndex);
      if portEnd - portIndex < 0 { return; }
      remotePort := remotePort + content[portIndex..portEnd];
      assert remotePort == content[portIndex..portEnd];
      remoteHost := remoteHost + remotePort;

      var messageIndex := portEnd + 5;
      var messageEnd;
      if isOutgoing {
        messageEnd := Index(content, Marker(Outgoing), messageIndex);
        IndexInside(content, Marker(Outgoing), messageIndex);
      } else {
        messageEnd := Index(content, Marker(Incoming), messageIndex);
        IndexInside(content, Marker(Incoming), messageIndex);
      }
      if messageEnd == -1 {
        messageEnd := |content|;
      }
      if messageEnd - messageIndex < 0 { return; }
      message := message + content[messageIndex..messageEnd];
      assert message == content[messageIndex..messageEnd];
      ok := true;
    }
  }

  lemma AddressAndFields(s: string, header: nat, end: nat)
    requires end <= |s|
    ensures var a, f := AddressOf(s, header), FieldsOf(s, header, end);
      f.Fields? ==>
        a.Address? && a.messageIndex <= end && f == Fields(a.host, a.port, s[a.messageIndex..end])
  {
    hide Index;
    hide HEADER;
    hide PORT_LABEL;
    hide PORT_END;
    hide DELIMITER;
  }

  /** Where the search for one direction's marker stops, seen from the first marker of any kind. */
  lemma DirectionEnd(s: string, from: nat, messageIndex: nat, outgoing: bool)
    requires var e := FirstEnd(s, from); e.EndAt? && !e.kind.Parsed? && from <= messageIndex <= e.pos
    ensures var e := FirstEnd(s, from);
      var found := Index(s, DirectionMarker(outgoing), messageIndex);
      if e.kind.Outgoing? == outgoing then found == e.pos else found < 0 || found > e.pos
  {
    hide Marker;
    hide FirstEnd;
    hide Index;
    hide MatchesAt;
    var e := FirstEnd(s, from);
    var k := if outgoing then Outgoing else Incoming;
    var found := Index(s, Marker(k), messageIndex);
    if e.kind == k {
      assert MatchesAt(s, Marker(k), e.pos);
    } else if found == e.pos {
      MarkersDiffer(s, e.kind, k, e.pos);
    }
  }

  lemma EndInside(s: string, from: nat)
    requires FirstEnd(s, from).EndAt?
    ensures FirstEnd(s, from).pos + MARKER_LENGTH <= |s|
  {
    hide Marker;
  }

  /**
   The two parsers agree.  On any content from which findNextMessage delivers
   a message, getMessageData takes out the same host, port and message exactly
   when it is asked for the direction that findNextMessage reports.
   */
  lemma ParsersAgreeIff(s: string, outgoing: bool)
    requires FindNext(s).Delivered?
    ensures var e := FindNext(s).event;
      MessageDataOf(s, outgoing) == MessageData(e.host, e.port, e.message) <==> outgoing == e.outgoing
  {
    hide Marker;
    hide FirstEnd;
    hide Index;
    hide FieldsOf;
    hide AddressOf;
    hide HEADER;
    hide DirectionMarker;
    var header := Index(s, HEADER, 0);
    var end := FirstEnd(s, header);
    EndInside(s, header);
    AddressAndFields(s, header, end.pos);
    var a := AddressOf(s, header);
    AddressAfterHeader(s, header);
    DirectionEnd(s, header, a.messageIndex, outgoing);
  }

  lemma AddressAfterHeader(s: string, header: nat)
    requires AddressOf(s, header).Address?
    ensures header <= AddressOf(s, header).messageIndex
  {
    hide Index;
    hide HEADER;
    hide PORT_LABEL;
    hide PORT_END;
    hide DELIMITER;
  }

  // ---------------------------------------------------------------- lines

  predicate IsTerminator(c: char) {
    c == '\n' || c == '\r'
  }

  predicate CrLfAt(s: string, i: nat)
    requires i < |s|
  {
    i + 1 < |s| && s[i] == '\r' && s[i + 1] == '\n'
  }

  /** The first line, and where the next one starts: CR, LF or CR LF ends a line. */
  datatype Cut = NoLine | Line(length: nat, next: nat)

  function FirstLine(s: string, i: nat): (r: Cut)
    requires i <= |s|
    ensures r.NoLine? ==> forall k :: i <= k < |s| ==> !IsTerminator(s[k])
    ensures r.Line? ==> i <= r.length < |s| && IsTerminator(s[r.length])
    ensures r.Line? ==> forall k :: i <= k < r.length ==> !IsTerminator(s[k])
    ensures r.Line? ==> r.next <= |s|
    ensures r.Line? ==> r.next == if CrLfAt(s, r.length) then r.length + 2 else r.length + 1
    decreases |s| - i
  {
    if i == |s| then NoLine
    else if IsTerminator(s[i]) then
      Line(i, if CrLfAt(s, i) then i + 2 else i + 1)
    else FirstLine(s, i + 1)
  }

  /** UtlNameValueTokenizer::findNextLineTerminator. */
  method FindNextLineTerminator(text: string) returns (terminatorIndex: int, nextLineIndex: int)
    ensures var f := FirstLine(text, 0);
      if f.Line? then terminatorIndex == f.length && nextLineIndex == f.next
      else terminatorIndex == -1 && nextLineIndex == -1
  {
    var byteIndex := 0;
    terminatorIndex, nextLineIndex := -1, -1;
    while byteIndex < |text|
      invariant 0 <= byteIndex <= |text|
      invariant FirstLine(text, 0) == FirstLine(text, byteIndex)
      invariant terminatorIndex == -1 && nextLineIndex == -1
    {
      if text[byteIndex] == '\n' || text[byteIndex] == '\r' {
        terminatorIndex := byteIndex;
        if byteIndex < |text| - 1 && text[byteIndex + 1] == '\n' && text[byteIndex] == '\r' {
          nextLineIndex := terminatorIndex + 2;
        } else {
          nextLineIndex := terminatorIndex + 1;
        }
        break;
      }
      byteIndex := byteIndex + 1;
    }
  }

  /** Complete lines, and the text behind the last of them. */
  datatype Split = Split(lines: seq<string>, rest: string)

  function Before(lines: seq<string>, s: Split): Split {
    Split(lines + s.lines, s.rest)
  }

  function Lines(s: string): Split
    decreases |s|
  {
    match FirstLine(s, 0)
    case NoLine => Split([], s)
    case Line(length, next) => Before([s[..length]], Lines(s[next..]))
  }

  /** The lines taken out while reading. */
  function FeedLines(buffer: string, chunks: seq<string>): Split
    decreases |chunks|
  {
    if chunks == [] then Split([], buffer) else
    var now := Lines(buffer + CStr(chunks[0]));
    Before(now.lines, FeedLines(now.rest, chunks[1..]))
  }

  function NonEmpty(lines: seq<string>): seq<string> {
    if lines == [] then []
    else if lines[0] == "" then NonEmpty(lines[1..])
    else [lines[0]] + NonEmpty(lines[1..])
  }

  predicate SplitsCrLf(s: string, t: string) {
    s != "" && s[|s| - 1] == '\r' && t != "" && t[0] == '\n'
  }

  /** How many reads end between a CR and the LF that belongs to it. */
  function CrLfSplits(before: string, chunks: seq<string>): nat
    decreases |chunks|
  {
    if chunks == [] then 0 else
    var c := CStr(chunks[0]);
    var later := CrLfSplits(before + c, chunks[1..]);
    if SplitsCrLf(before, c) then later + 1 else later
  }

  lemma NonEmptyCons(line: string, rest: seq<string>)
    ensures NonEmpty([line] + rest) == if line == "" then NonEmpty(rest) else [line] + NonEmpty(rest)
    ensures NonEmpty([]) == []
  {
    assert ([line] + rest)[1..] == rest;
  }

  lemma {:induction false} NonEmptyAppends(a: seq<string>, b: seq<string>)
    ensures NonEmpty(a + b) == NonEmpty(a) + NonEmpty(b)
  {
    hide NonEmpty;
    if a == [] {
      NonEmptyCons("", []);
      assert a + b == b;
    } else {
      var line, more := a[0], a[1..];
      NonEmptyAppends(more, b);
      NonEmptyCons(line, more);
      NonEmptyCons(line, more + b);
      ConsAppends(line, more, b);
      ConsAppends(line, NonEmpty(more), NonEmpty(b));
      assert a == [line] + more;
    }
  }

  lemma ConsAppends(line: string, a: seq<string>, b: seq<string>)
    ensures ([line] + a) + b == [line] + (a + b)
  {
  }

  lemma {:induction false} FirstLineExtends(s: string, t: string, i: nat)
    requires i <= |s| && FirstLine(s, i).Line?
    ensures var a, b := FirstLine(s, i), FirstLine(s + t, i);
      && b.Line? && b.length == a.length
      && b.next == if a.next == |s| && SplitsCrLf(s, t) then a.next + 1 else a.next
    decreases |s| - i
  {
    if !IsTerminator(s[i]) {
      FirstLineExtends(s, t, i + 1);
    }
  }

  /** More text after `s`: the lines of `s` stand, and the rest is cut together with the new text. */
  ghost predicate Extends(s: string, t: string) {
    var a := Lines(s);
    if SplitsCrLf(s, t) then
      && a.rest == ""
      && Lines(t) == Before([""], Lines(t[1..]))
      && Lines(s + t) == Before(a.lines, Lines(t[1..]))
    else
      Lines(s + t) == Before(a.lines, Lines(a.rest + t))
  }

  lemma {:induction false} LinesExtend(s: string, t: string)
    ensures Extends(s, t)
    decreases |s|
  {
    hide Extends;
    var f := FirstLine(s, 0);
    if f.NoLine? {
      NoLineExtends(s, t);
    } else if f.next == |s| && SplitsCrLf(s, t) {
      CrLfExtends(s, t);
    } else {
      LinesExtend(s[f.next..], t);
      LineExtends(s, t);
    }
  }

  lemma LinesCons(s: string)
    requires FirstLine(s, 0).Line?
    ensures var f := FirstLine(s, 0);
      Lines(s) == Before([s[..f.length]], Lines(s[f.next..]))
  {
    hide FirstLine;
  }

  lemma LinesNone(s: string)
    requires FirstLine(s, 0).NoLine?
    ensures Lines(s) == Split([], s)
  {
    hide FirstLine;
  }

  lemma NoLineExtends(s: string, t: string)
    requires FirstLine(s, 0).NoLine?
    ensures Extends(s, t)
  {
    hide FirstLine;
    hide Lines;
    LinesNone(s);
    BeforeNone(Lines(s + t));
  }

  lemma CrLfExtends(s: string, t: string)
    requires var f := FirstLine(s, 0);
      f.Line? && f.next == |s| && SplitsCrLf(s, t)
    ensures Extends(s, t)
  {
    hide FirstLine;
    hide Lines;
    FirstLineExtends(s, t, 0);
    LineFeedFirst(t);
    var f := FirstLine(s, 0);
    LinesCons(s);
    LinesCons(s + t);
    EmptyHasNoLine();
    LinesNone("");
    assert s[f.next..] == "";
    assert (s + t)[f.next + 1..] == t[1..];
    assert (s + t)[..f.length] == s[..f.length];
  }

  lemma EmptyHasNoLine()
    ensures FirstLine("", 0).NoLine?
  {
  }

  lemma LineExtends(s: string, t: string)
    requires var f := FirstLine(s, 0);
      f.Line? && !(f.next == |s| && SplitsCrLf(s, t)) && Extends(s[f.next..], t)
    ensures Extends(s, t)
  {
    hide FirstLine;
    hide Lines;
    hide Before;
    FirstLineExtends(s, t, 0);
    var f := FirstLine(s, 0);
    var line, more := s[..f.length], s[f.next..];
    LinesCons(s);
    LinesCons(s + t);
    assert (s + t)[..f.length] == line;
    assert (s + t)[f.next..] == more + t;
    if more != "" { assert more[|more| - 1] == s[|s| - 1]; }
    assert SplitsCrLf(more, t) == SplitsCrLf(s, t);
    BeforeParts([line], Lines(more));
    BeforeTwice([line], Lines(more).lines,
                if SplitsCrLf(s, t) then Lines(t[1..]) else Lines(Lines(more).rest + t));
  }

  lemma BeforeParts(a: seq<string>, s: Split)
    ensures Before(a, s).lines == a + s.lines && Before(a, s).rest == s.rest
  {
  }

  lemma LineFeedFirst(t: string)
    requires t != "" && t[0] == '\n'
    ensures Lines(t) == Before([""], Lines(t[1..]))
  {
    assert FirstLine(t, 0) == Line(0, 1);
    assert t[..0] == "";
  }

  lemma BeforeTwice(a: seq<string>, b: seq<string>, s: Split)
    ensures Before(a, Before(b, s)) == Before(a + b, s)
  {
  }

  lemma BeforeNone(s: Split)
    ensures Before([], s) == s
  {
  }

  /** What was taken while reading, against the lines of the whole text. */
  ghost predicate SameLines(fed: Split, whole: Split, splits: nat) {
    && fed.rest == whole.rest
    && NonEmpty(fed.lines) == NonEmpty(whole.lines)
    && |fed.lines| == |whole.lines| + splits
    && (splits == 0 ==> fed == whole)
  }

  /** The general step, with `before` already read and its complete lines already taken. */
  lemma {:induction false} FeedLinesFrom(before: string, chunks: seq<string>)
    ensures SameLines(Before(Lines(before).lines, FeedLines(Lines(before).rest, chunks)),
                      Lines(before + Received(chunks)), CrLfSplits(before, chunks))
    decreases |chunks|
  {
    hide Lines;
    hide NonEmpty;
    hide SplitsCrLf;
    hide CStr;
    if chunks == [] {
      assert before + Received(chunks) == before;
      BeforeRest(Lines(before));
    } else {
      var c, later := CStr(chunks[0]), chunks[1..];
      FeedLinesFrom(before + c, later);
      LinesExtend(before, c);
      assert before + Received(chunks) == (before + c) + Received(later);
      OneMoreRead(before, c, FeedLines(Lines(Lines(before).rest + c).rest, later),
                  FeedLines(Lines(before + c).rest, later), Lines(before + Received(chunks)),
                  CrLfSplits(before + c, later));
    }
  }

  lemma BeforeRest(s: Split)
    ensures Before(s.lines, Split([], s.rest)) == s
  {
  }

  lemma OneMoreRead(before: string, c: string, tail: Split, tail': Split, whole: Split, splits: nat)
    requires Extends(before, c)
    requires Lines(before + c).rest == Lines(Lines(before).rest + c).rest ==> tail == tail'
    requires SameLines(Before(Lines(before + c).lines, tail'), whole, splits)
    ensures SameLines(Before(Lines(before).lines, Before(Lines(Lines(before).rest + c).lines, tail)), whole,
                      if SplitsCrLf(before, c) then splits + 1 else splits)
  {
    hide Lines;
    hide NonEmpty;
    var done := Lines(before);
    var now := Lines(done.rest + c);
    if SplitsCrLf(before, c) {
      assert done.rest + c == c;
      NonEmptyJoins(done.lines, Lines(c[1..]).lines, tail.lines);
    } else {
      BeforeTwice(done.lines, now.lines, tail);
    }
  }

  lemma NonEmptyJoins(a: seq<string>, b: seq<string>, c: seq<string>)
    ensures NonEmpty(a + (([""] + b) + c)) == NonEmpty((a + b) + c)
    ensures |a + (([""] + b) + c)| == |(a + b) + c| + 1
  {
    NonEmptyAppends(a, ([""] + b) + c);
    NonEmptyAppends(a, b + c);
    assert ([""] + b) + c == [""] + (b + c);
    assert ([""] + (b + c))[1..] == b + c;
    assert (a + b) + c == a + (b + c);
  }

  /**
   However the log is read, the non-empty lines and the unfinished line are
   those of the whole text; all lines are the same exactly when no read ends
   between a CR and its LF, and every such read adds one empty line.
   */
  lemma LinesOfReads(chunks: seq<string>)
    ensures var fed, whole := FeedLines("", chunks), Lines(Received(chunks));
      && fed.rest == whole.rest
      && NonEmpty(fed.lines) == NonEmpty(whole.lines)
      && |fed.lines| == |whole.lines| + CrLfSplits("", chunks)
      && (fed.lines == whole.lines <==> CrLfSplits("", chunks) == 0)
  {
    FeedLinesFrom("", chunks);
    assert Lines("") == Split([], "");
    BeforeNone(FeedLines("", chunks));
    assert "" + Received(chunks) == Received(chunks);
  }

  /** A CR LF read in one piece is one empty line; read in two pieces it is two. */
  lemma CrLfReadInTwo()
    ensures |Lines("\r\n").lines| == 1
    ensures |FeedLines("", ["\r", "\n"]).lines| == 2
  {
    var parts := ["\r", "\n"];
    assert parts[1..] == ["\n"] && ["\n"][1..] == [];
    assert CStr("\r") == "\r" && CStr("\n") == "\n";
    assert Received(["\n"]) == "\n" + Received([]);
    assert Received(parts) == "\r\n";
    assert FirstLine("\r\n", 0) == Line(0, 2);
    assert Lines("\r\n") == Before([""], Lines(""));
    assert CrLfSplits("" + "\r", ["\n"]) == 1;
    hide FeedLines;
    hide Lines;
    LinesOfReads(parts);
    EmptyHasNoLine();
    LinesNone("");
  }

  /** A line as it stands in a file. */
  datatype Ended = Ended(line: string, terminator: string)

  function TextOf(ls: seq<Ended>): string {
    if ls == [] then "" else ls[0].line + (ls[0].terminator + TextOf(ls[1..]))
  }

  function LinesIn(ls: seq<Ended>): seq<string> {
    if ls == [] then [] else [ls[0].line] + LinesIn(ls[1..])
  }

  ghost predicate OnOneLine(s: string) {
    '\n' !in s && '\r' !in s
  }

  /** Every line ends in LF, CR or CR LF, and no CR is followed by the LF of an empty line. */
  ghost predicate WellEnded(ls: seq<Ended>) {
    ls != [] ==>
      var e := ls[0];
      && OnOneLine(e.line) && (e.terminator == "\n" || e.terminator == "\r" || e.terminator == "\r\n")
      && (e.terminator == "\r" && |ls| > 1 ==> ls[1].line != "" || ls[1].terminator != "\n")
      && WellEnded(ls[1..])
  }

  lemma OneLineEnds(line: string, terminator: string, more: string)
    requires OnOneLine(line)
    requires terminator == "\n" || terminator == "\r" || terminator == "\r\n"
    requires terminator == "\r" && more != "" ==> more[0] != '\n'
    ensures FirstLine(line + (terminator + more), 0) == Line(|line|, |line| + |terminator|)
  {
    var s := line + (terminator + more);
    assert s[|line|] == terminator[0] && IsTerminator(s[|line|]);
    assert forall k :: 0 <= k < |line| ==> s[k] == line[k] && s[k] in line;
    if |terminator + more| > 1 { assert s[|line| + 1] == (terminator + more)[1]; }
  }

  /** Cutting a text into lines undoes putting it together from lines and any of the three terminators. */
  lemma {:induction false} LinesOfText(ls: seq<Ended>, rest: string)
    requires WellEnded(ls) && OnOneLine(rest)
    ensures Lines(TextOf(ls) + rest) == Split(LinesIn(ls), rest)
    decreases |ls|
  {
    hide Lines;
    hide FirstLine;
    hide OnOneLine;
    if ls == [] {
      assert "" + rest == rest;
      NoTerminator(rest);
      LinesNone(rest);
    } else {
      var e, more := ls[0], TextOf(ls[1..]) + rest;
      NextStarts(ls[1..], rest);
      OneLineEnds(e.line, e.terminator, more);
      LinesOfText(ls[1..], rest);
      LinesCons(e.line + (e.terminator + more));
      Regrouped(e.line, e.terminator, TextOf(ls[1..]), rest);
    }
  }

  lemma Regrouped(line: string, terminator: string, text: string, rest: string)
    ensures (line + (terminator + text)) + rest == line + (terminator + (text + rest))
    ensures var s := line + (terminator + (text + rest));
      s[..|line|] == line && s[|line| + |terminator|..] == text + rest
  {
  }

  lemma NoTerminator(rest: string)
    requires OnOneLine(rest)
    ensures FirstLine(rest, 0).NoLine?
  {
    forall k | 0 <= k < |rest|
      ensures !IsTerminator(rest[k])
    {
      assert rest[k] in rest;
    }
  }

  /** Only an empty line that ends in LF starts with LF. */
  lemma NextStarts(ls: seq<Ended>, rest: string)
    requires WellEnded(ls) && OnOneLine(rest)
    ensures var t := TextOf(ls) + rest;
      t != "" && t[0] == '\n' ==> ls != [] && ls[0].line == "" && ls[0].terminator == "\n"
  {
    var t := TextOf(ls) + rest;
    if ls == [] {
      assert t == rest;
      if rest != "" { assert rest[0] in rest; }
    } else if ls[0].line != "" {
      assert t[0] == ls[0].line[0] && ls[0].line[0] in ls[0].line;
    } else {
      assert t[0] == ls[0].terminator[0];
    }
  }

  // ---------------------------------------------------------------- the time window

  /** strcmp, as -1, 0 or 1. */
  function Compare(s: string, t: string): int {
    if s == "" && t == "" then 0
    else if s == "" then -1
    else if t == "" then 1
    else if s[0] < t[0] then -1
    else if s[0] > t[0] then 1
    else Compare(s[1..], t[1..])
  }

  /** `s` comes first: the strings agree up to `k`, where `s` ends or has the smaller character. */
  predicate PrecedesAt(s: string, t: string, k: nat) {
    k <= |s| && k < |t| && s[..k] == t[..k] && (k == |s| || s[k] < t[k])
  }

  /** Compare is the lexicographic order. */
  lemma {:induction false} CompareIsLexicographic(s: string, t: string)
    ensures Compare(s, t) < 0 <==> exists k: nat :: PrecedesAt(s, t, k)
    ensures Compare(s, t) == 0 <==> s == t
  {
    if s == "" || t == "" || s[0] != t[0] {
      if Compare(s, t) < 0 { assert PrecedesAt(s, t, 0); }
      forall k: nat | PrecedesAt(s, t, k) ensures Compare(s, t) < 0 {
        if k > 0 { assert s[..k][0] == t[..k][0]; }
      }
    } else {
      CompareIsLexicographic(s[1..], t[1..]);
      assert s == [s[0]] + s[1..] && t == [t[0]] + t[1..];
      forall k: nat | PrecedesAt(s[1..], t[1..], k) ensures PrecedesAt(s, t, k + 1) {
        assert s[..k + 1] == [s[0]] + s[1..][..k] && t[..k + 1] == [t[0]] + t[1..][..k];
      }
      forall k: nat | PrecedesAt(s, t, k) ensures k > 0 && PrecedesAt(s[1..], t[1..], k - 1) {
        assert s[1..][..k - 1] == s[..k][1..] && t[1..][..k - 1] == t[..k][1..];
      }
    }
  }

  lemma {:induction false} CompareMirror(s: string, t: string)
    ensures Compare(s, t) == -Compare(t, s)
  {
    if s != "" && t != "" { CompareMirror(s[1..], t[1..]); }
  }

  lemma {:induction false} CompareTransitive(s: string, t: string, u: string)
    requires Compare(s, t) <= 0 && Compare(t, u) <= 0
    ensures Compare(s, u) <= 0
  {
    if s != "" && t != "" && u != "" && s[0] == t[0] == u[0] {
      CompareTransitive(s[1..], t[1..], u[1..]);
    }
  }

  /** A --before= or --after= argument; the quote is what starts the time in a log line. */
  datatype Argument = BeforeTime(time: string) | AfterTime(time: string)

  function LimitOf(a: Argument): string {
    "\"" + a.time
  }

  /** Both tests are inclusive. */
  predicate Meets(line: string, a: Argument) {
    match a
    case BeforeTime(_) => Compare(line, LimitOf(a)) <= 0
    case AfterTime(_) => Compare(line, LimitOf(a)) >= 0
  }

  /** The lexicographic order of two texts. */
  ghost predicate NotAfter(s: string, t: string) {
    s == t || exists k: nat :: k <= |s| && k < |t| && s[..k] == t[..k] && (k == |s| || s[k] < t[k])
  }

  lemma CompareNotAfter(s: string, t: string)
    ensures Compare(s, t) <= 0 <==> NotAfter(s, t)
    ensures Compare(s, t) >= 0 <==> NotAfter(t, s)
  {
    CompareIsLexicographic(s, t);
    CompareIsLexicographic(t, s);
    CompareMirror(s, t);
    if NotAfter(s, t) && s != t {
      var k: nat :| k <= |s| && k < |t| && s[..k] == t[..k] && (k == |s| || s[k] < t[k]);
      assert PrecedesAt(s, t, k);
    }
    if NotAfter(t, s) && s != t {
      var k: nat :| k <= |t| && k < |s| && t[..k] == s[..k] && (k == |t| || t[k] < s[k]);
      assert PrecedesAt(t, s, k);
    }
  }

  /** What an option asks of a line, and of the text behind the quote that opens it. */
  lemma WhatMeets(line: string, time: string)
    ensures Meets(line, BeforeTime(time)) <==> NotAfter(line, "\"" + time)
    ensures Meets(line, AfterTime(time)) <==> NotAfter("\"" + time, line)
    ensures line != "" && line[0] == '"' ==>
      && (Meets(line, BeforeTime(time)) <==> NotAfter(line[1..], time))
      && (Meets(line, AfterTime(time)) <==> NotAfter(time, line[1..]))
  {
    hide NotAfter;
    CompareNotAfter(line, "\"" + time);
    if line != "" && line[0] == '"' {
      assert ("\"" + time)[1..] == time;
      CompareNotAfter(line[1..], time);
    }
  }

  /** At or before every --before time, and at or after every --after time. */
  ghost predicate WithinTimes(time: string, args: seq<Argument>) {
    && (forall t :: BeforeTime(t) in args ==> NotAfter(time, t))
    && (forall t :: AfterTime(t) in args ==> NotAfter(t, time))
  }

  /** A line that meets every option given. */
  predicate MeetsAll(line: string, args: seq<Argument>) {
    forall a :: a in args ==> Meets(line, a)
  }

  /** Of the lines that open with a quote, the options select those whose time they name. */
  lemma WhatMeetsAll(line: string, args: seq<Argument>)
    requires line != "" && line[0] == '"'
    ensures MeetsAll(line, args) <==> WithinTimes(line[1..], args)
  {
    hide NotAfter;
    hide Meets;
    forall t
      ensures Meets(line, BeforeTime(t)) <==> NotAfter(line[1..], t)
      ensures Meets(line, AfterTime(t)) <==> NotAfter(t, line[1..])
    {
      WhatMeets(line, t);
    }
    if WithinTimes(line[1..], args) {
      forall a | a in args
        ensures Meets(line, a)
      {
        assert a == BeforeTime(a.time) || a == AfterTime(a.time);
      }
    }
  }

  /** A line of the year 2009, with 2008 as either limit. */
  lemma WindowSample()
    ensures !Meets("\"2009-01-01", BeforeTime("2008")) && Meets("\"2009-01-01", AfterTime("2008"))
  {
    var line, time := "2009-01-01", "2008";
    assert line[..3] == time[..3];
    assert NotAfter(time, line);
    assert ("\"" + line)[1..] == line;
    assert "\"2009-01-01" == "\"" + line;
    hide NotAfter;
    WhatMeets("\"" + line, time);
    CompareNotAfter(line, time);
    CompareMirror(line, time);
    CompareIsLexicographic(line, time);
  }

  datatype Limit = NoLimit | Limit(text: string)

  predicate InWindow(line: string, before: Limit, after: Limit) {
    && (before.NoLimit? || Compare(line, before.text) <= 0)
    && (after.NoLimit? || Compare(line, after.text) >= 0)
  }

  /** The argument loop: only the tightest limit of each sort is kept. */
  method ParseLimits(args: seq<Argument>) returns (before: Limit, after: Limit)
    ensures forall line :: InWindow(line, before, after) <==> MeetsAll(line, args)
    ensures forall line :: line != "" && line[0] == '"' ==>
      (InWindow(line, before, after) <==> WithinTimes(line[1..], args))
  {
    hide WithinTimes;
    before, after := NoLimit, NoLimit;
    var i := 0;
    while i < |args|
      invariant 0 <= i <= |args|
      invariant forall line ::
        InWindow(line, before, after) <==> MeetsAll(line, args[..i])
    {
      ghost var before0, after0 := before, after;
      var t := LimitOf(args[i]);
      if args[i].BeforeTime? {
        if before.NoLimit? || Compare(t, before.text) < 0 {
          before := Limit(t);
        }
      } else {
        if after.NoLimit? || Compare(t, after.text) > 0 {
          after := Limit(t);
        }
      }
      forall line
        ensures InWindow(line, before, after) <==> MeetsAll(line, args[..i + 1])
      {
        TightestLimit(line, t, before0);
        TightestLimit(line, t, after0);
        assert InWindow(line, before, after) <==> InWindow(line, before0, after0) && Meets(line, args[i]);
        assert args[..i + 1] == args[..i] + [args[i]];
      }
      i := i + 1;
    }
    assert args[..|args|] == args;
    forall line | line != "" && line[0] == '"'
      ensures MeetsAll(line, args) <==> WithinTimes(line[1..], args)
    {
      WhatMeetsAll(line, args);
    }
  }

  /** A line that passes the tighter of two limits passes both. */
  lemma TightestLimit(line: string, t: string, kept: Limit)
    ensures kept.Limit? ==>
      && (Compare(t, kept.text) < 0 && Compare(line, t) <= 0 ==> Compare(line, kept.text) <= 0)
      && (Compare(t, kept.text) >= 0 && Compare(line, kept.text) <= 0 ==> Compare(line, t) <= 0)
      && (Compare(t, kept.text) > 0 && Compare(line, t) >= 0 ==> Compare(line, kept.text) >= 0)
      && (Compare(t, kept.text) <= 0 && Compare(line, kept.text) >= 0 ==> Compare(line, t) >= 0)
  {
    if kept.Limit? {
      CompareMirror(t, kept.text);
      CompareMirror(line, t);
      CompareMirror(line, kept.text);
      if Compare(line, t) <= 0 && Compare(t, kept.text) <= 0 { CompareTransitive(line, t, kept.text); }
      if Compare(line, kept.text) <= 0 && Compare(kept.text, t) <= 0 { CompareTransitive(line, kept.text, t); }
      if Compare(t, line) <= 0 && Compare(kept.text, t) <= 0 { CompareTransitive(kept.text, t, line); }
      if Compare(kept.text, line) <= 0 && Compare(t, kept.text) <= 0 { CompareTransitive(t, kept.text, line); }
    }
  }

  function Selected(lines: seq<string>, before: Limit, after: Limit): seq<string> {
    if lines == [] then []
    else if InWindow(lines[0], before, after) then [lines[0]] + Selected(lines[1..], before, after)
    else Selected(lines[1..], before, after)
  }

  lemma {:induction false} SelectedAppends(a: seq<string>, b: seq<string>, before: Limit, after: Limit)
    ensures Selected(a + b, before, after) == Selected(a, before, after) + Selected(b, before, after)
  {
    hide InWindow;
    if a == [] {
      assert a + b == b;
    } else {
      SelectedAppends(a[1..], b, before, after);
      assert (a + b)[1..] == a[1..] + b;
    }
  }

  // ---------------------------------------------------------------- the program

  /** The buffer of `main`, its limits, and the lines handed to convertToXml. */
  class TraceConverter {
    var bufferString: string
    const before: Limit
    const after: Limit
    var converted: seq<string>

    constructor (before: Limit, after: Limit)
      ensures this.before == before && this.after == after
      ensures bufferString == "" && converted == []
    {
      this.before, this.after := before, after;
      bufferString, converted := "", [];
    }

    /** The inner do-while: hand over every complete line that is in the window. */
    method TakeLines()
      modifies this`bufferString, this`converted
      ensures bufferString == Lines(old(bufferString)).rest
      ensures converted == old(converted) + Selected(Lines(old(bufferString)).lines, before, after)
    {
      hide FirstLine;
      hide Lines;
      hide Before;
      hide Selected;
      hide InWindow;
      ghost var all := Lines(bufferString);
      ghost var taken: seq<string> := [];
      BeforeNone(all);
      SelectedNone(before, after);
      var nextLineStart := 1;
      while nextLineStart > 0
        invariant all == if nextLineStart > 0 then Before(taken, Lines(bufferString)) else Split(taken, bufferString)
        invariant converted == old(converted) + Selected(taken, before, after)
        decreases nextLineStart > 0, |bufferString|
      {
        TakeStep(taken, bufferString);
        var lineLen;
        lineLen, nextLineStart := FindNextLineTerminator(bufferString);
        if nextLineStart > 0 {
          var line := bufferString[..lineLen];
          bufferString := RemoveFront(bufferString, nextLineStart);
          SelectedAppends(taken, [line], before, after);
          SelectedOne(line, before, after);
          taken := taken + [line];
          if InWindow(line, before, after) {
            converted := converted + [line];
          }
        }
      }
    }

    /** The reads until end of file, then the last line without a newline. */
    method Convert(chunks: seq<string>)
      modifies this`bufferString, this`converted
      ensures var fed := FeedLines(old(bufferString), chunks + [""]);
        converted == old(converted) + Selected(fed.lines + [fed.rest], before, after)
    {
      hide Lines;
      hide Before;
      hide Selected;
      hide InWindow;
      ghost var all := chunks + [""];
      ghost var fed := FeedLines(bufferString, all);
      ghost var taken: seq<string> := [];
      BeforeNone(fed);
      SelectedNone(before, after);
      var i := 0;
      while i <= |chunks|
        invariant 0 <= i <= |all|
        invariant fed == Before(taken, FeedLines(bufferString, all[i..]))
        invariant converted == old(converted) + Selected(taken, before, after)
      {
        ghost var arrived := bufferString + CStr(all[i]);
        FeedLinesStep(taken, bufferString, all, i);
        SelectedAppends(taken, Lines(arrived).lines, before, after);
        taken := taken + Lines(arrived).lines;
        if i < |chunks| {
          bufferString := bufferString + CStr(chunks[i]);
        }
        assert bufferString == arrived;
        TakeLines();
        i := i + 1;
      }
      BeforeLast(taken, bufferString);
      SelectedAppends(taken, [bufferString], before, after);
      SelectedOne(bufferString, before, after);
      if InWindow(bufferString, before, after) {
        converted := converted + [bufferString];
      }
    }
  }

  /** One iteration of the line loop, with `taken` already handed over. */
  lemma TakeStep(taken: seq<string>, buffer: string)
    ensures var f := FirstLine(buffer, 0);
      Before(taken, Lines(buffer))
      == if f.Line? then Before(taken + [buffer[..f.length]], Lines(buffer[f.next..])) else Split(taken, buffer)
  {
    hide FirstLine;
    hide Lines;
    var f := FirstLine(buffer, 0);
    if f.Line? {
      LinesCons(buffer);
      BeforeTwice(taken, [buffer[..f.length]], Lines(buffer[f.next..]));
    } else {
      LinesNone(buffer);
    }
  }

  lemma FeedLinesStep(taken: seq<string>, buffer: string, chunks: seq<string>, i: nat)
    requires i < |chunks|
    ensures var now := Lines(buffer + CStr(chunks[i]));
      Before(taken, FeedLines(buffer, chunks[i..]))
      == Before(taken + now.lines, FeedLines(now.rest, chunks[i + 1..]))
  {
    hide Lines;
    assert chunks[i..][1..] == chunks[i + 1..];
    var now := Lines(buffer + CStr(chunks[i]));
    BeforeTwice(taken, now.lines, FeedLines(now.rest, chunks[i + 1..]));
  }

  lemma BeforeLast(taken: seq<string>, buffer: string)
    ensures Before(taken, FeedLines(buffer, [])) == Split(taken, buffer)
  {
  }

  lemma SelectedNone(before: Limit, after: Limit)
    ensures Selected([], before, after) == []
  {
  }

  lemma SelectedOne(line: string, before: Limit, after: Limit)
    ensures Selected([line], before, after) == if InWindow(line, before, after) then [line] else []
  {
    assert [line][1..] == [];
  }

  // ---------------------------------------------------------------- options, reads and lines together

  /** The non-empty lines of `lines` that meet every option. */
  function Wanted(lines: seq<string>, args: seq<Argument>): seq<string> {
    if lines == [] then []
    else if lines[0] != "" && MeetsAll(lines[0], args) then [lines[0]] + Wanted(lines[1..], args)
    else Wanted(lines[1..], args)
  }

  lemma {:induction false} WantedOfNonEmpty(lines: seq<string>, args: seq<Argument>)
    ensures Wanted(NonEmpty(lines), args) == Wanted(lines, args)
  {
    hide MeetsAll;
    if lines != [] {
      WantedOfNonEmpty(lines[1..], args);
      var rest := NonEmpty(lines[1..]);
      assert ([lines[0]] + rest)[1..] == rest;
    }
  }

  lemma {:induction false} WantedOfSelected(lines: seq<string>, args: seq<Argument>, before: Limit, after: Limit)
    requires forall line :: InWindow(line, before, after) <==> MeetsAll(line, args)
    ensures NonEmpty(Selected(lines, before, after)) == Wanted(lines, args)
  {
    hide MeetsAll;
    hide InWindow;
    if lines != [] {
      WantedOfSelected(lines[1..], args, before, after);
      assert InWindow(lines[0], before, after) <==> MeetsAll(lines[0], args);
      var rest := Selected(lines[1..], before, after);
      assert ([lines[0]] + rest)[1..] == rest;
    }
  }

  lemma {:induction false} InWanted(line: string, lines: seq<string>, args: seq<Argument>)
    requires line != ""
    ensures line in NonEmpty(lines) <==> line in lines
    ensures line in Wanted(lines, args) <==> line in lines && MeetsAll(line, args)
  {
    hide MeetsAll;
    if lines != [] { InWanted(line, lines[1..], args); }
  }

  /** Whatever the limits and the reads, the lines converted are those of the whole text. */
  lemma ConvertedLines(args: seq<Argument>, before: Limit, after: Limit, chunks: seq<string>)
    requires forall line :: InWindow(line, before, after) <==> MeetsAll(line, args)
    ensures var fed, whole := FeedLines("", chunks + [""]), Lines(Received(chunks));
      NonEmpty(Selected(fed.lines + [fed.rest], before, after)) == Wanted(whole.lines + [whole.rest], args)
  {
    hide Lines;
    hide FeedLines;
    hide InWindow;
    hide MeetsAll;
    hide Selected;
    hide Wanted;
    hide NonEmpty;
    var fed, whole := FeedLines("", chunks + [""]), Lines(Received(chunks));
    LinesOfReads(chunks + [""]);
    ReceivedIsConcat(chunks);
    NonEmptyAppends(fed.lines, [fed.rest]);
    NonEmptyAppends(whole.lines, [whole.rest]);
    WantedOfSelected(fed.lines + [fed.rest], args, before, after);
    WantedOfNonEmpty(fed.lines + [fed.rest], args);
    WantedOfNonEmpty(whole.lines + [whole.rest], args);
  }

  /**
   The whole program.  However the log is read, the non-empty lines that it
   converts are, in order, those lines of the log that meet every option.
   */
  method ConvertLog(args: seq<Argument>, chunks: seq<string>) returns (converted: seq<string>)
    ensures var whole := Lines(Received(chunks));
      NonEmpty(converted) == Wanted(whole.lines + [whole.rest], args)
    ensures var whole := Lines(Received(chunks));
      forall line :: line != "" && line[0] == '"' ==>
        (line in converted <==> line in whole.lines + [whole.rest] && WithinTimes(line[1..], args))
  {
    hide WithinTimes;
    hide MeetsAll;
    hide Lines;
    hide FeedLines;
    hide InWindow;
    hide Selected;
    hide Wanted;
    hide NonEmpty;
    var before, after := ParseLimits(args);
    var program := new TraceConverter(before, after);
    program.Convert(chunks);
    converted := program.converted;
    ghost var fed := FeedLines("", chunks + [""]);
    assert [] + Selected(fed.lines + [fed.rest], before, after) == Selected(fed.lines + [fed.rest], before, after);
    ConvertedLines(args, before, after, chunks);
    ghost var whole := Lines(Received(chunks));
    forall line | line != "" && line[0] == '"'
      ensures line in converted <==> line in whole.lines + [whole.rest] && WithinTimes(line[1..], args)
    {
      InWanted(line, converted, args);
      InWanted(line, whole.lines + [whole.rest], args);
      WhatMeetsAll(line, args);
    }
  }
}
