/**
 The record framer of siplog2siptrace: cutting SIP messages out of a growing
 buffer of log text, and the loops that read the log and drain the buffer.
 */
module SipLogFramer {
  import opened UtlText

  const HEADER := "----Remote Host:"
  const PORT_LABEL := "---- Port: "
  const PORT_END := "----\n"
  const DELIMITER := "----"

  // Every end marker is 23 characters; the whole end line is 43.
  const MARKER_LENGTH := 23
  const FOOTER_LENGTH := 43

  datatype Kind = Outgoing | Incoming | Parsed

  function Marker(k: Kind): (m: string)
    ensures |m| == MARKER_LENGTH
  {
    match k
    case Outgoing => "--------------------END"
    case Incoming => "====================END"
    case Parsed => "++++++++++++++++++++END"
  }

  function FooterFill(k: Kind): (f: string)
    ensures |f| == FOOTER_LENGTH - MARKER_LENGTH
  {
    match k
    case Outgoing => "--------------------"
    case Incoming => "===================="
    case Parsed => "++++++++++++++++++++"
  }

  /** The arguments of one call of writeMessageXml. */
  datatype Event = Event(outgoing: bool, host: string, port: string, message: string)

  datatype Found =
    | Nothing
    | Broken                              // a field of negative length: the append cannot succeed
    | Dropped(rest: string)
    | Delivered(event: Event, rest: string)

  datatype End = NoEnd | EndAt(pos: nat, kind: Kind)

  datatype Fields = NoFields | Fields(host: string, port: string, message: string)

  // ---------------------------------------------------------------- what one call finds

  /** One left-to-right scan for the first end marker of any kind. */
  function FirstEnd(s: string, i: nat): (r: End)
    ensures r.EndAt? ==> i <= r.pos && MatchesAt(s, Marker(r.kind), r.pos)
    ensures forall j, k :: i <= j && MatchesAt(s, Marker(k), j) ==> r.EndAt? && r.pos <= j
    decreases |s| - i
  {
    if i + MARKER_LENGTH > |s| then NoEnd
    else if s[i..i + MARKER_LENGTH] == Marker(Outgoing) then EndAt(i, Outgoing)
    else if s[i..i + MARKER_LENGTH] == Marker(Incoming) then EndAt(i, Incoming)
    else if s[i..i + MARKER_LENGTH] == Marker(Parsed) then EndAt(i, Parsed)
    else
      NoMarkerAt(s, i);
      FirstEnd(s, i + 1)
  }

  lemma NoMarkerAt(s: string, i: nat)
    requires i + MARKER_LENGTH <= |s|
    requires s[i..i + MARKER_LENGTH] != Marker(Outgoing)
    requires s[i..i + MARKER_LENGTH] != Marker(Incoming)
    requires s[i..i + MARKER_LENGTH] != Marker(Parsed)
    ensures forall k :: !MatchesAt(s, Marker(k), i)
  {
    forall k
      ensures !MatchesAt(s, Marker(k), i)
    {
      if k == Outgoing {} else if k == Incoming {} else {}
    }
  }

  /** Host, port and message of the record whose header is at `header` and whose end is at `end`. */
  function FieldsOf(s: string, header: nat, end: nat): Fields
    requires end <= |s|
  {
    var hostIndex := header + |HEADER|;
    var hostEnd := Index(s, DELIMITER, hostIndex);
    var portIndex := hostEnd + |PORT_LABEL|;
    if hostEnd < hostIndex then NoFields else
    var portEnd := Index(s, DELIMITER, portIndex);
    var messageIndex := portEnd + |PORT_END|;
    if portEnd < portIndex || end < messageIndex then NoFields
    else Fields(s[hostIndex..hostEnd], s[portIndex..portEnd], s[messageIndex..end])
  }

  lemma LabelLengths()
    ensures |HEADER| == 16 && |PORT_LABEL| == 11 && |PORT_END| == 5
    ensures DELIMITER <= PORT_LABEL && DELIMITER <= PORT_END
  {
  }

  function FindNext(s: string): (r: Found)
    ensures r.Dropped? || r.Delivered? ==> r.rest == s || |r.rest| < |s|
  {
    var header := Index(s, HEADER, 0);
    if header <= 0 then Nothing else
    var end := FirstEnd(s, header);
    if end.NoEnd? then Nothing else
    var rest := RemoveFront(s, end.pos + FOOTER_LENGTH);
    if end.kind.Parsed? then Dropped(rest) else
    var f := FieldsOf(s, header, end.pos);
    if f.NoFields? then Broken
    else Delivered(Event(end.kind.Outgoing?, f.host, f.port, f.message), rest)
  }

  // ---------------------------------------------------------------- what draining does

  datatype Outcome = Settled | Livelock | Fault

  datatype Drained = Drained(outcome: Outcome, events: seq<Event>, rest: string)

  function AfterAll(es: seq<Event>, d: Drained): Drained {
    Drained(d.outcome, es + d.events, d.rest)
  }

  function After(e: Event, d: Drained): Drained {
    AfterAll([e], d)
  }

  /** The drain loop, except that it stops where the source would repeat itself forever. */
  function Drain(s: string): Drained
    decreases |s|
  {
    match FindNext(s)
    case Nothing => Drained(Settled, [], s)
    case Broken => Drained(Fault, [], s)
    case Dropped(rest) => if |rest| == |s| then Drained(Settled, [], s) else Drain(rest)
    case Delivered(e, rest) =>
      if |rest| == |s| then Drained(Livelock, [e], s) else After(e, Drain(rest))
  }

  /** Appending each read to the buffer and draining; the buffer is what is left over. */
  function Feed(buffer: string, chunks: seq<string>): (d: Drained)
    decreases |chunks|
  {
    if chunks == [] then Drained(Settled, [], buffer) else
    var d := Drain(buffer + CStr(chunks[0]));
    if d.outcome != Settled then d else
    var more := Feed(d.rest, chunks[1..]);
    AfterAll(d.events, more)
  }

  // ---------------------------------------------------------------- the program

  /** The locals of `main`, with `written` for what writeMessageXml was given. */
  class Converter {
    var bufferString: string
    var isOutgoing: bool
    var host: string
    var port: string
    var message: string
    var written: seq<Event>

    constructor ()
      ensures bufferString == "" && written == []
    {
      bufferString, isOutgoing, host, port, message, written := "", false, "", "", "", [];
    }

    /** The first end marker after `hostIndex`, as the least of three searches. */
    method EarliestEnd(content: string, hostIndex: nat)
      returns (messageEnd: int, endFound: bool, isParsed: bool)
      requires hostIndex > 0
      modifies this`isOutgoing
      ensures endFound <==> FirstEnd(content, hostIndex).EndAt?
      ensures endFound ==> messageEnd == FirstEnd(content, hostIndex).pos
      ensures endFound ==> (isParsed <==> FirstEnd(content, hostIndex).kind.Parsed?)
      ensures endFound && !isParsed ==> (isOutgoing <==> FirstEnd(content, hostIndex).kind.Outgoing?)
    {
      var outgoingEnd := Index(content, Marker(Outgoing), hostIndex);
      var incomingEnd := Index(content, Marker(Incoming), hostIndex);
      var incomingParsedEnd := Index(content, Marker(Parsed), hostIndex);
      EarliestOfThree(content, hostIndex);

      messageEnd, endFound, isParsed := -1, false, false;
      if outgoingEnd > 0 {
        if messageEnd < 0 || outgoingEnd < messageEnd {
          isOutgoing, messageEnd, endFound := true, outgoingEnd, true;
        }
      }
      if incomingEnd > 0 {
        if messageEnd < 0 || incomingEnd < messageEnd {
          isOutgoing, messageEnd, endFound := false, incomingEnd, true;
        }
      }
      if incomingParsedEnd > 0 {
        if messageEnd < 0 || incomingParsedEnd < messageEnd {
          messageEnd, endFound, isParsed := incomingParsedEnd, true, true;
        }
      }
    }

    /** Host, port and message; false when an append would get a negative length. */
    method CutFields(content: string, header: nat, messageEnd: nat) returns (ok: bool)
      requires header <= |content| && messageEnd <= |content|
      modifies this`host, this`port, this`message
      ensures ok <==> FieldsOf(content, header, messageEnd).Fields?
      ensures ok ==> Fields(host, port, message) == FieldsOf(content, header, messageEnd)
    {
      hide Index;
      hide HEADER;
      hide PORT_LABEL;
      hide PORT_END;
      hide DELIMITER;
      LabelLengths();
      host, port := "", "";
      var hostIndex := header + 16;
      var hostEnd := Index(content, DELIMITER, hostIndex);
      if hostEnd - hostIndex < 0 { return false; }
      host := host + content[hostIndex..hostEnd];

      var portIndex := hostEnd + 11;
      var portEnd := Index(content, DELIMITER, portIndex);
      if portEnd - portIndex < 0 { return false; }
      port := port + content[portIndex..portEnd];

      var messageIndex := portEnd + 5;
      message := "";
      if messageEnd - messageIndex < 0 { return false; }
      message := message + content[messageIndex..messageEnd];
      return true;
    }

    /** `broken` reports an append of negative length, after which the source cannot go on. */
    method FindNextMessage() returns (foundMessage: bool, broken: bool)
      modifies this`bufferString, this`isOutgoing, this`host, this`port, this`message
      ensures broken <==> FindNext(old(bufferString)).Broken?
      ensures foundMessage <==> FindNext(old(bufferString)).Delivered?
      ensures match FindNext(old(bufferString))
              case Nothing => bufferString == old(bufferString)
              case Broken => bufferString == old(bufferString)
              case Dropped(rest) => bufferString == rest
              case Delivered(e, rest) => bufferString == rest && Event(isOutgoing, host, port, message) == e
    {
      foundMessage, broken := false, false;
      var content := bufferString;
      var hostIndex := Index(content, HEADER, 0);
      if hostIndex > 0 {
        var messageEnd, endFound, isParsed := EarliestEnd(content, hostIndex);
        if endFound && !isParsed {
          foundMessage := CutFields(content, hostIndex, messageEnd);
          if !foundMessage { return false, true; }
        }
        if endFound {
          bufferString := RemoveFront(content, messageEnd + 43);
        }
      }
    }

    /** The inner do-while of `main`. */
    method DrainBuffer() returns (outcome: Outcome)
      modifies this
      ensures var d := Drain(old(bufferString));
        outcome == d.outcome && bufferString == d.rest && written == old(written) + d.events
    {
      hide FindNext;
      hide Drain;
      hide AfterAll;
      AfterUnfolds(written, Drain(bufferString));
      ghost var total := AfterAll(written, Drain(bufferString));
      var foundMessage := true;
      while foundMessage
        invariant total == if foundMessage then AfterAll(written, Drain(bufferString))
                           else Drained(Settled, written, bufferString)
        decreases foundMessage, |bufferString|
      {
        DrainStep(written, bufferString);
        var bufferLength := |bufferString|;
        var broken;
        foundMessage, broken := FindNextMessage();
        if broken {
          return Fault;
        }
        if foundMessage {
          written := written + [Event(isOutgoing, host, port, message)];
          if bufferLength == |bufferString| {
            // The source has no exit here; DrainIsTheLoop shows that it never leaves the loop.
            return Livelock;
          }
        } else if bufferLength != |bufferString| {
          foundMessage := true;
        }
      }
      return Settled;
    }

    /** The outer do-while of `main`: the reads until end of file, which drains once more. */
    method Convert(chunks: seq<string>) returns (outcome: Outcome)
      modifies this
      ensures var d := Feed(old(bufferString), chunks + [""]);
        outcome == d.outcome && bufferString == d.rest && written == old(written) + d.events
    {
      hide Drain;
      hide AfterAll;
      ghost var all := chunks + [""];
      AfterUnfolds(written, Feed(bufferString, all));
      ghost var total := AfterAll(written, Feed(bufferString, all));
      var i := 0;
      while i <= |chunks|
        invariant 0 <= i <= |all|
        invariant total == AfterAll(written, Feed(bufferString, all[i..]))
      {
        assert all[i..][1..] == all[i + 1..];
        FeedStep(written, bufferString, all[i..]);
        ghost var arrived := bufferString + CStr(all[i]);
        AfterUnfolds(written, Drain(arrived));
        if i < |chunks| {
          bufferString := bufferString + CStr(chunks[i]);
        }
        assert bufferString == arrived;
        outcome := DrainBuffer();
        if outcome != Settled {
          return;
        }
        i := i + 1;
      }
      AfterUnfolds(written, Drained(Settled, [], bufferString));
      outcome := Settled;
    }
  }

  lemma AfterUnfolds(es: seq<Event>, d: Drained)
    ensures AfterAll(es, d) == Drained(d.outcome, es + d.events, d.rest)
  {
  }

  lemma AfterAppend(es: seq<Event>, more: seq<Event>, d: Drained)
    ensures AfterAll(es, AfterAll(more, d)) == AfterAll(es + more, d)
    ensures es + [] == es
  {
  }

  /** One iteration of the drain loop, with `es` already written. */
  lemma DrainStep(es: seq<Event>, s: string)
    ensures var f := FindNext(s);
      AfterAll(es, Drain(s)) ==
      if f.Nothing? then Drained(Settled, es, s)
      else if f.Broken? then Drained(Fault, es, s)
      else if f.Dropped? then
        if |f.rest| == |s| then Drained(Settled, es, s) else AfterAll(es, Drain(f.rest))
      else if |f.rest| == |s| then Drained(Livelock, es + [f.event], s)
      else AfterAll(es + [f.event], Drain(f.rest))
  {
    hide FindNext;
    var f := FindNext(s);
    assert es + [] == es;
    if f.Delivered? && |f.rest| < |s| {
      AfterAppend(es, [f.event], Drain(f.rest));
    }
  }

  lemma FeedStep(es: seq<Event>, buffer: string, chunks: seq<string>)
    requires chunks != []
    ensures var d := Drain(buffer + CStr(chunks[0]));
      AfterAll(es, Feed(buffer, chunks)) ==
      if d.outcome != Settled then AfterAll(es, d)
      else AfterAll(es + d.events, Feed(d.rest, chunks[1..]))
  {
    hide Drain;
    var d := Drain(buffer + CStr(chunks[0]));
    AfterAppend(es, d.events, Feed(d.rest, chunks[1..]));
  }

  /** The earliest of three first occurrences is the first occurrence of any of the three. */
  lemma EarliestOfThree(s: string, from: nat)
    ensures forall k ::
      var p := Index(s, Marker(k), from);
      p >= 0 ==> FirstEnd(s, from).EndAt? && FirstEnd(s, from).pos <= p
    ensures FirstEnd(s, from).EndAt? ==>
      var e := FirstEnd(s, from);
      && Index(s, Marker(e.kind), from) == e.pos
      && forall k :: k != e.kind ==> Index(s, Marker(k), from) != e.pos
  {
    var e := FirstEnd(s, from);
    if e.EndAt? {
      assert MatchesAt(s, Marker(e.kind), e.pos);
      forall k | k != e.kind
        ensures Index(s, Marker(k), from) != e.pos
      {
        MarkersDiffer(s, e.kind, k, e.pos);
      }
    }
  }

  lemma MarkersDiffer(s: string, j: Kind, k: Kind, i: int)
    requires MatchesAt(s, Marker(j), i) && j != k
    ensures !MatchesAt(s, Marker(k), i)
  {
    MatchChars(s, Marker(j), i, 0);
    if MatchesAt(s, Marker(k), i) {
      MatchChars(s, Marker(k), i, 0);
    }
  }
}
