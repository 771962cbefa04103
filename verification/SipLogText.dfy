/**
 The two log parsers on log text as it is written, character for character:
 what siplog2siptrace and syslog2siptrace take out of one record.
 */
module SipLogText {
  import opened UtlText
  import opened SipLogFramer
  import opened SipLogStreams
  import opened SysLogTrace

  // ---------------------------------------------------------------- searching for what is not there

  lemma AbsentBehind(a: string, s: string, p: string)
    requires p != "" && Index(s, p, 0) == -1
    ensures Index(a + s, p, |a|) == -1
  {
    var r := Index(a + s, p, |a|);
    if r >= 0 { MatchInSuffix(a, s, p, r); }
  }

  lemma HeaderInText()
    ensures HEADER == "----Remote Host:" && PORT_LABEL == "---- Port: " && PORT_END == "----\n"
    ensures DELIMITER == "----"
  {
  }

  /** Behind the field, and not earlier, come four dashes. */
  ghost predicate EndsAtDashes(field: string) {
    Index(field + "----", "----", 0) == |field|
  }

  lemma DelimitedInText(field: string)
    requires EndsAtDashes(field)
    ensures Delimited(field)
  {
    hide Index;
    hide MatchesAt;
  }

  lemma MarkersInText()
    ensures Marker(Outgoing) == "--------------------END"
    ensures Marker(Incoming) == "====================END"
    ensures Marker(Parsed) == "++++++++++++++++++++END"
  {
  }

  lemma FootersInText()
    ensures Marker(Outgoing) + FooterFill(Outgoing) == "--------------------END--------------------"
    ensures Marker(Incoming) + FooterFill(Incoming) == "====================END===================="
    ensures Marker(Parsed) + FooterFill(Parsed) == "++++++++++++++++++++END++++++++++++++++++++"
  {
  }

  /** None of the three end markers occurs in `s`. */
  ghost predicate NoEndIn(s: string) {
    && Index(s, "--------------------END", 0) == -1
    && Index(s, "====================END", 0) == -1
    && Index(s, "++++++++++++++++++++END", 0) == -1
  }

  lemma NoEndMeansNone(s: string)
    requires NoEndIn(s)
    ensures FirstEnd(s, 0).NoEnd?
  {
    hide FirstEnd;
    hide Marker;
    MarkersInText();
    forall k, i
      ensures !MatchesAt(s, Marker(k), i)
    {
      if k == Outgoing {} else if k == Incoming {} else {}
    }
  }

  // ---------------------------------------------------------------- findNextMessage

  lemma FindPrinted(r: Record, rest: string)
    requires r.gap != "" && Index(r.gap, HEADER, 0) == -1
    requires Delimited(r.host) && Delimited(r.port)
    requires NoEndIn(HEADER + r.host + PORT_LABEL + r.port + PORT_END + r.message)
    ensures var text := r.gap + HEADER + r.host + PORT_LABEL + r.port + PORT_END + r.message;
      FindNext(text + (Marker(r.kind) + FooterFill(r.kind)) + rest)
      == if r.kind.Parsed? then Dropped(rest) else Delivered(EventOf(r), rest)
  {
    hide FindNext;
    hide HEADER;
    hide PORT_LABEL;
    hide PORT_END;
    hide Marker;
    hide FooterFill;
    hide FirstEnd;
    hide Index;
    hide MatchesAt;
    hide NoEndIn;
    hide Delimited;
    NoEndMeansNone(Head(r));
    FindWhole(r, rest);
    var text := r.gap + HEADER + r.host + PORT_LABEL + r.port + PORT_END + r.message;
    assert r.gap + Head(r) == text;
    assert Print(r) == text + (Marker(r.kind) + FooterFill(r.kind));
  }

  /** One record in front of any other text: a sent or received message is delivered, a parsed one dropped. */
  lemma OneRecord(gap: string, host: string, port: string, message: string, rest: string)
    requires gap != "" && Index(gap, "----Remote Host:", 0) == -1
    requires EndsAtDashes(host) && EndsAtDashes(port)
    requires NoEndIn("----Remote Host:" + host + "---- Port: " + port + "----\n" + message)
    ensures var text := gap + "----Remote Host:" + host + "---- Port: " + port + "----\n" + message;
      && FindNext(text + "--------------------END--------------------" + rest)
         == Delivered(Event(true, host, port, message), rest)
      && FindNext(text + "====================END====================" + rest)
         == Delivered(Event(false, host, port, message), rest)
      && FindNext(text + "++++++++++++++++++++END++++++++++++++++++++" + rest)
         == Dropped(rest)
  {
    hide FindNext;
    hide HEADER;
    hide PORT_LABEL;
    hide PORT_END;
    hide DELIMITER;
    hide Marker;
    hide FooterFill;
    hide Index;
    hide MatchesAt;
    hide NoEndIn;
    hide EndsAtDashes;
    hide Delimited;
    DelimitedInText(host);
    DelimitedInText(port);
    HeaderInText();
    FootersInText();
    FindPrinted(Record(gap, Outgoing, host, port, message), rest);
    FindPrinted(Record(gap, Incoming, host, port, message), rest);
    FindPrinted(Record(gap, Parsed, host, port, message), rest);
  }

  // ---------------------------------------------------------------- getMessageData

  lemma AddressOfPrinted(r: Record, x: string)
    requires Delimited(r.host) && Delimited(r.port) && r.message == ""
    ensures AddressOf(r.gap + (Head(r) + x), |r.gap|) == Address(r.host, r.port, |r.gap| + |Head(r)|)
  {
    hide AddressOf;
    hide FieldsOf;
    hide Head;
    hide Delimited;
    var s := r.gap + (Head(r) + x);
    FieldsOfPrinted(r, x);
    AddressAndFields(s, |r.gap|, |r.gap| + |Head(r)|);
    var a := AddressOf(s, |r.gap|);
    assert |s[a.messageIndex..|r.gap| + |Head(r)|]| == 0;
  }

  /** What getMessageData takes out behind host and port. */
  lemma TakenOut(r: Record, x: string, outgoing: bool)
    requires r.gap != "" && Index(r.gap, HEADER, 0) == -1
    requires Delimited(r.host) && Delimited(r.port) && r.message == ""
    ensures var end := Index(x, DirectionMarker(outgoing), 0);
      MessageDataOf(r.gap + (Head(r) + x), outgoing)
      == MessageData(r.host, r.port, if end == -1 then x else x[..end])
  {
    hide AddressOf;
    hide Head;
    hide Delimited;
    hide HEADER;
    hide Index;
    hide DirectionMarker;
    var s, marker := r.gap + (Head(r) + x), DirectionMarker(outgoing);
    HeaderOf(r, x);
    AddressOfPrinted(r, x);
    assert s == (r.gap + Head(r)) + x;
    MarkerNotEmpty(outgoing);
    if Index(x, marker, 0) == -1 {
      AbsentBehind(r.gap + Head(r), x, marker);
    } else {
      IndexShift(r.gap + Head(r), x, marker);
    }
  }

  lemma MarkerNotEmpty(outgoing: bool)
    ensures DirectionMarker(outgoing) != ""
  {
  }

  lemma TakenOutOfText(r: Record, x: string, outgoing: bool)
    requires r.gap != "" && Index(r.gap, HEADER, 0) == -1
    requires Delimited(r.host) && Delimited(r.port) && r.message == ""
    ensures var end := Index(x, DirectionMarker(outgoing), 0);
      MessageDataOf(r.gap + HEADER + r.host + PORT_LABEL + r.port + PORT_END + x, outgoing)
      == MessageData(r.host, r.port, if end == -1 then x else x[..end])
  {
    hide HEADER;
    hide PORT_LABEL;
    hide PORT_END;
    hide DirectionMarker;
    hide Index;
    hide MatchesAt;
    hide Delimited;
    hide MessageDataOf;
    TakenOut(r, x, outgoing);
    TextOfHead(r, x);
  }

  lemma TextOfHead(r: Record, x: string)
    requires r.message == ""
    ensures r.gap + HEADER + r.host + PORT_LABEL + r.port + PORT_END + x == r.gap + (Head(r) + x)
  {
    hide HEADER;
    hide PORT_LABEL;
    hide PORT_END;
  }

  /** What is behind the first occurrence of `end` makes no difference. */
  lemma UpToEnd(text: string, message: string, end: string, rest: string)
    requires Index(message + end, end, 0) == |message|
    ensures Index(message + end + rest, end, 0) == |message|
    ensures (message + end + rest)[..|message|] == message
    ensures text + (message + end + rest) == text + message + end + rest
  {
    IndexExtends(message + end, rest, end, 0);
  }

  ghost predicate Labels(header: string, portLabel: string, eol: string, end: string, outgoing: bool) {
    HEADER == header && PORT_LABEL == portLabel && PORT_END == eol && DirectionMarker(outgoing) == end
  }

  lemma EntryWith(header: string, portLabel: string, eol: string, end: string, gap: string, host: string,
                  port: string, message: string, rest: string, outgoing: bool)
    requires Labels(header, portLabel, eol, end, outgoing)
    requires gap != "" && Index(gap, header, 0) == -1 && Delimited(host) && Delimited(port)
    ensures var text := gap + header + host + portLabel + port + eol;
      && (Index(message, end, 0) == -1 ==>
            MessageDataOf(text + message, outgoing) == MessageData(host, port, message))
      && (Index(message + end, end, 0) == |message| ==>
            MessageDataOf(text + message + end + rest, outgoing) == MessageData(host, port, message))
  {
    hide HEADER;
    hide PORT_LABEL;
    hide PORT_END;
    hide DirectionMarker;
    hide Delimited;
    hide Index;
    hide MatchesAt;
    hide MessageDataOf;
    var r := Record(gap, Outgoing, host, port, "");
    TakenOutOfText(r, message, outgoing);
    if Index(message + end, end, 0) == |message| {
      UpToEnd(gap + header + host + portLabel + port + eol, message, end, rest);
      TakenOutOfText(r, message + end + rest, outgoing);
    }
  }

  lemma LabelsInText(outgoing: bool)
    ensures Labels("----Remote Host:", "---- Port: ", "----\n",
                   if outgoing then "--------------------END" else "====================END", outgoing)
  {
  }

  /** The message is what stands in front of the end marker of the direction asked for, or everything. */
  lemma OneEntry(gap: string, host: string, port: string, message: string, rest: string, outgoing: bool)
    requires gap != "" && Index(gap, "----Remote Host:", 0) == -1
    requires EndsAtDashes(host) && EndsAtDashes(port)
    ensures var text := gap + "----Remote Host:" + host + "---- Port: " + port + "----\n";
      var end := if outgoing then "--------------------END" else "====================END";
      && (Index(message, end, 0) == -1 ==>
            MessageDataOf(text + message, outgoing) == MessageData(host, port, message))
      && (Index(message + end, end, 0) == |message| ==>
            MessageDataOf(text + message + end + rest, outgoing) == MessageData(host, port, message))
  {
    hide EndsAtDashes;
    hide Delimited;
    hide Labels;
    hide Index;
    hide MatchesAt;
    hide MessageDataOf;
    LabelsInText(outgoing);
    DelimitedInText(host);
    DelimitedInText(port);
    EntryWith("----Remote Host:", "---- Port: ", "----\n",
              if outgoing then "--------------------END" else "====================END",
              gap, host, port, message, rest, outgoing);
  }

  // ---------------------------------------------------------------- text without a record, and broken records

  /** Text without a header, or with its first header at the very front, is no record for either program. */
  lemma NoRecord(s: string, outgoing: bool)
    requires Index(s, "----Remote Host:", 0) == -1 || "----Remote Host:" <= s
    ensures FindNext(s).Nothing? && MessageDataOf(s, outgoing).NoHeader?
  {
    if "----Remote Host:" <= s { assert MatchesAt(s, HEADER, 0); }
  }

  /** A header with no dashes behind it, and an end marker: the append of the host gets a negative length. */
  lemma BrokenRecord(gap: string, x: string, rest: string, outgoing: bool)
    requires gap != "" && Index(gap, "----Remote Host:", 0) == -1
    requires NoEndIn("----Remote Host:" + x)
    requires Index(x + ("====================END" + rest), "----", 0) == -1
    ensures var s := gap + ("----Remote Host:" + x + ("====================END" + rest));
      FindNext(s).Broken? && MessageDataOf(s, outgoing).Overrun?
  {
    hide Index;
    hide MatchesAt;
    hide NoEndIn;
    hide FindNext;
    hide MessageDataOf;
    BrokenWith("----Remote Host:", "====================END", "----", gap, x, rest, outgoing) by {
      HeaderInText();
      MarkersInText();
    }
  }

  lemma BrokenWith(header: string, end: string, dashes: string, gap: string, x: string, rest: string, outgoing: bool)
    requires HEADER == header && Marker(Incoming) == end && DELIMITER == dashes
    requires gap != "" && Index(gap, header, 0) == -1
    requires NoEndIn(header + x)
    requires Index(x + (end + rest), dashes, 0) == -1
    ensures var s := gap + (header + x + (end + rest));
      FindNext(s).Broken? && MessageDataOf(s, outgoing).Overrun?
  {
    hide Index;
    hide HEADER;
    hide DELIMITER;
    hide Marker;
    hide NoEndIn;
    hide FirstEnd;
    hide FieldsOf;
    hide AddressOf;
    hide MatchesAt;
    var s := gap + (header + x + (end + rest));
    HeaderEndsUniquely();
    Regroup(gap, header, x, end + rest);
    IndexOfPlanted(gap, HEADER, x + (end + rest));
    NoEndMeansNone(header + x);
    FirstEndPlanted(gap, header + x, Incoming, rest);
    DashesNotEmpty();
    AbsentBehind(gap + header, x + (end + rest), dashes);
    NoDelimiter(s, |gap|, |gap| + |header + x|);
  }

  lemma Regroup(a: string, b: string, c: string, d: string)
    ensures a + (b + c + d) == a + (b + (c + d)) == (a + b) + (c + d)
  {
  }

  lemma DashesNotEmpty()
    ensures DELIMITER != ""
  {
  }

  lemma NoDelimiter(s: string, header: nat, end: nat)
    requires end <= |s| && Index(s, DELIMITER, header + |HEADER|) == -1
    ensures AddressOf(s, header).NoAddress? && FieldsOf(s, header, end).NoFields?
  {
  }

  /** Host and port in front of any text that starts with dashes. */
  lemma AddressUpTo(gap: string, host: string, port: string, rest: string)
    requires Delimited(host) && Delimited(port) && DELIMITER <= rest
    ensures var s := gap + (HEADER + (host + (PORT_LABEL + (port + rest))));
      && |s| == |gap| + 16 + |host| + 11 + |port| + |rest|
      && AddressOf(s, |gap|) == Address(host, port, |gap| + 16 + |host| + 11 + |port| + 5)
  {
    hide Index;
    hide MatchesAt;
    hide Delimited;
    hide HEADER;
    hide PORT_LABEL;
    hide PORT_END;
    hide DELIMITER;
    LabelLengths();
    var behind := PORT_LABEL + (port + rest);
    var s := gap + (HEADER + (host + behind));
    var a, b := gap + HEADER, gap + HEADER + host + PORT_LABEL;
    assert s == a + (host + behind) && s == b + (port + rest);
    PrefixOfSum(DELIMITER, PORT_LABEL, port + rest);
    DelimitedIn(a, host, behind);
    DelimitedIn(b, port, rest);
    assert s[|a|..|a| + |host|] == host && s[|b|..|b| + |port|] == port;
  }

  /** The message would start behind the end: content that ends with the dashes behind the port. */
  lemma NoMessage(gap: string, host: string, port: string, outgoing: bool)
    requires gap != "" && Index(gap, HEADER, 0) == -1 && Delimited(host) && Delimited(port)
    ensures MessageDataOf(gap + (HEADER + (host + (PORT_LABEL + (port + DELIMITER)))), outgoing).Overrun?
  {
    hide AddressOf;
    hide Delimited;
    hide HEADER;
    hide PORT_LABEL;
    hide DirectionMarker;
    HeaderEndsUniquely();
    IndexOfPlanted(gap, HEADER, host + (PORT_LABEL + (port + DELIMITER)));
    AddressUpTo(gap, host, port, DELIMITER);
  }

  /** An end marker directly behind the port: its dashes end the port, and the message starts behind its start. */
  lemma MarkerBehindPort(gap: string, host: string, port: string, x: string)
    requires gap != "" && Index(gap, HEADER, 0) == -1 && Delimited(host) && Delimited(port)
    requires NoEndIn(HEADER + (host + (PORT_LABEL + port)))
    ensures FindNext(gap + (HEADER + (host + (PORT_LABEL + (port + (Marker(Outgoing) + x)))))).Broken?
  {
    hide Index;
    hide MatchesAt;
    hide Delimited;
    hide HEADER;
    hide PORT_LABEL;
    hide DELIMITER;
    hide PORT_END;
    hide NoEndIn;
    hide FirstEnd;
    hide FieldsOf;
    hide Marker;
    var head, rest := HEADER + (host + (PORT_LABEL + port)), Marker(Outgoing) + x;
    var s := gap + (HEADER + (host + (PORT_LABEL + (port + rest))));
    HeaderEndsUniquely();
    IndexOfPlanted(gap, HEADER, host + (PORT_LABEL + (port + rest)));
    MarkerStartsWithDashes();
    PrefixOfSum(DELIMITER, Marker(Outgoing), x);
    AddressUpTo(gap, host, port, rest);
    NoEndMeansNone(head);
    FirstEndPlanted(gap, head, Outgoing, x);
    assert s == gap + (head + rest);
    LabelLengths();
    MessageBehindEnd(s, |gap|, |gap| + |head|);
  }

  lemma MarkerStartsWithDashes()
    ensures DELIMITER <= Marker(Outgoing)
  {
  }

  lemma MessageBehindEnd(s: string, header: nat, end: nat)
    requires end <= |s| && AddressOf(s, header).Address? && end < AddressOf(s, header).messageIndex
    ensures FieldsOf(s, header, end).NoFields?
  {
    hide Index;
    hide HEADER;
    hide PORT_LABEL;
    hide PORT_END;
    hide DELIMITER;
  }

  // ---------------------------------------------------------------- the other way round

  /** `s` from `i` on, with the first occurrence of `p` in it. */
  ghost predicate Around(s: string, p: string, i: nat, r: int) {
    i <= r && r + |p| <= |s| && s[i..] == s[i..r] + (p + s[r + |p|..])
  }

  /** Text around the first occurrence of `p` at or after `i`. */
  lemma AroundFirst(s: string, p: string, i: nat)
    requires Index(s, p, i) >= 0
    ensures var r := Index(s, p, i);
      && Around(s, p, i, r)
      && Index(s[i..r] + p, p, 0) == r - i
  {
    hide Index;
    var r := Index(s, p, i);
    var t, rest := s[i..r] + p, s[r + |p|..];
    assert s == s[..i] + (t + rest);
    MatchInSuffix(s[i..r], p, p, r - i);
    assert MatchesAt(t, p, r - i);
    forall j | 0 <= j < r - i
      ensures !MatchesAt(t, p, j)
    {
      MatchInPrefix(t, rest, p, j);
      MatchInSuffix(s[..i], t + rest, p, i + j);
    }
  }

  /** Where the fields of a record were cut. */
  lemma CutWhere(s: string, header: nat, end: nat) returns (hostEnd: int, portEnd: int)
    requires end <= |s| && FieldsOf(s, header, end).Fields?
    ensures hostEnd == Index(s, DELIMITER, header + 16) && header + 16 <= hostEnd
    ensures portEnd == Index(s, DELIMITER, hostEnd + 11) && hostEnd + 11 <= portEnd && portEnd + 5 <= end
    ensures FieldsOf(s, header, end) == Fields(s[header + 16..hostEnd], s[hostEnd + 11..portEnd], s[portEnd + 5..end])
  {
    hide Index;
    hide MatchesAt;
    hide HEADER;
    hide PORT_LABEL;
    hide PORT_END;
    hide DELIMITER;
    LabelLengths();
    hostEnd := Index(s, DELIMITER, header + 16);
    portEnd := Index(s, DELIMITER, hostEnd + 11);
  }

  lemma DeliveredWhere(s: string) returns (header: int, end: nat)
    requires FindNext(s).Delivered?
    ensures header == Index(s, HEADER, 0) && 0 < header && end <= |s|
    ensures var e := FindNext(s).event;
      && FieldsOf(s, header, end) == Fields(e.host, e.port, e.message)
      && MatchesAt(s, Marker(if e.outgoing then Outgoing else Incoming), end)
  {
    hide Index;
    hide FirstEnd;
    hide FieldsOf;
    hide Marker;
    hide MatchesAt;
    hide HEADER;
    header := Index(s, HEADER, 0);
    EndInside(s, header);
    var e := FirstEnd(s, header);
    end := e.pos;
    assert e.kind == Outgoing || e.kind == Incoming;
  }

  lemma SplitAt(s: string, i: nat, j: nat)
    requires i <= j <= |s|
    ensures s[i..] == s[i..j] + s[j..]
  {
  }

  lemma FieldThen(s: string, p: string, i: nat, r: int, k: nat)
    requires Around(s, p, i, r) && |p| == 4 && r + 4 <= k <= |s|
    ensures s[i..] == s[i..r] + (p + (s[r + 4..k] + s[k..]))
  {
    SplitAt(s, r + 4, k);
  }

  lemma Pieces(s: string, header: string, dashes: string, gap: nat, hostEnd: nat, portEnd: nat, end: nat)
    requires |header| == 16 && |dashes| == 4
    requires gap + 16 <= hostEnd && hostEnd + 11 <= portEnd && portEnd + 5 <= end <= |s|
    requires Around(s, header, 0, gap)
    requires Around(s, dashes, gap + 16, hostEnd) && Around(s, dashes, hostEnd + 11, portEnd)
    ensures s == s[..gap] + (header + (s[gap + 16..hostEnd] + (dashes + (s[hostEnd + 4..hostEnd + 11]
      + (s[hostEnd + 11..portEnd] + (dashes + (s[portEnd + 4..portEnd + 5] + (s[portEnd + 5..end] + s[end..]))))))))
  {
    hide Around;
    calc {
      s;
      { FromFront(s, header, gap); }
      s[..gap] + (header + s[gap + 16..]);
      { FieldThen(s, dashes, gap + 16, hostEnd, hostEnd + 11); }
      s[..gap] + (header + (s[gap + 16..hostEnd] + (dashes + (s[hostEnd + 4..hostEnd + 11] + s[hostEnd + 11..]))));
      { FieldThen(s, dashes, hostEnd + 11, portEnd, portEnd + 5); SplitAt(s, portEnd + 5, end); }
      s[..gap] + (header + (s[gap + 16..hostEnd] + (dashes + (s[hostEnd + 4..hostEnd + 11]
      + (s[hostEnd + 11..portEnd] + (dashes + (s[portEnd + 4..portEnd + 5] + (s[portEnd + 5..end] + s[end..]))))))));
    }
  }

  lemma FromFront(s: string, p: string, r: nat)
    requires Around(s, p, 0, r) && |p| == 16
    ensures r + 16 <= |s| && s == s[..r] + (p + s[r + 16..])
  {
    assert s[0..] == s && s[0..r] == s[..r];
  }

  /** What findNextMessage delivers stands in the text, between header, dashes and end marker. */
  lemma WhatIsDelivered(s: string) returns (gap: string, skip: string, eol: string, tail: string)
    requires FindNext(s).Delivered?
    ensures var e := FindNext(s).event;
      && s == gap + (HEADER + (e.host + (DELIMITER + (skip + (e.port + (DELIMITER + (eol + (e.message + tail))))))))
      && |skip| == 7 && |eol| == 1 && gap != ""
      && Marker(if e.outgoing then Outgoing else Incoming) <= tail
      && EndsAtDashes(e.host) && EndsAtDashes(e.port)
  {
    hide Index;
    hide FieldsOf;
    hide MatchesAt;
    hide Marker;
    hide HEADER;
    hide DELIMITER;
    hide FindNext;
    hide EndsAtDashes;
    hide Around;
    LabelLengths();
    DelimiterLength();
    var header, end := DeliveredWhere(s);
    var hostEnd, portEnd := CutWhere(s, header, end);
    AroundFirst(s, HEADER, 0);
    AroundFirst(s, DELIMITER, header + 16);
    AroundFirst(s, DELIMITER, hostEnd + 11);
    gap, skip, eol, tail := s[..header], s[hostEnd + 4..hostEnd + 11], s[portEnd + 4..portEnd + 5], s[end..];
    Pieces(s, HEADER, DELIMITER, header, hostEnd, portEnd, end);
    MatchIsPrefix(s, Marker(if FindNext(s).event.outgoing then Outgoing else Incoming), end);
  }

  lemma DelimiterLength()
    ensures |DELIMITER| == 4
    ensures forall field | Index(field + DELIMITER, DELIMITER, 0) == |field| :: EndsAtDashes(field)
  {
    hide Index;
    hide MatchesAt;
  }

  lemma MatchIsPrefix(s: string, p: string, i: int)
    requires MatchesAt(s, p, i)
    ensures 0 <= i <= |s| && p <= s[i..]
  {
    assert s[i..][..|p|] == s[i..i + |p|];
  }
}
