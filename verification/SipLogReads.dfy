/**
 The framer on arbitrary text: what it finds does not change when more text
 arrives, so that reading in parts amounts to draining once.
 */
module SipLogReads {
  import opened UtlText
  import opened SipLogFramer
  import opened SipLogDrain
  import opened SipLogStreams

  // ---------------------------------------------------------------- one record

  /** A delimiter found stays where it is. */
  lemma DelimiterExtends(s: string, t: string, i: nat)
    requires Index(s, DELIMITER, i) >= 0
    ensures Index(s + t, DELIMITER, i) == Index(s, DELIMITER, i)
    ensures Index(s, DELIMITER, i) <= |s|
  {
    IndexExtends(s, t, DELIMITER, i);
  }

  lemma SliceExtends(s: string, t: string, i: nat, j: nat)
    requires i <= j <= |s|
    ensures (s + t)[i..j] == s[i..j]
  {
  }

  lemma FieldsExtend(s: string, t: string, header: nat, end: nat)
    requires end <= |s| && FieldsOf(s, header, end).Fields?
    ensures FieldsOf(s + t, header, end) == FieldsOf(s, header, end)
  {
    hide Index;
    hide HEADER;
    hide PORT_LABEL;
    hide PORT_END;
    hide DELIMITER;
    LabelLengths();
    var hostIndex := header + |HEADER|;
    var hostEnd := Index(s, DELIMITER, hostIndex);
    DelimiterExtends(s, t, hostIndex);
    var portIndex := hostEnd + |PORT_LABEL|;
    var portEnd := Index(s, DELIMITER, portIndex);
    DelimiterExtends(s, t, portIndex);
    SliceExtends(s, t, hostIndex, hostEnd);
    SliceExtends(s, t, portIndex, portEnd);
    SliceExtends(s, t, portEnd + |PORT_END|, end);
  }

  lemma RemoveExtends(s: string, t: string, n: nat)
    requires |RemoveFront(s, n)| < |s|
    ensures RemoveFront(s + t, n) == RemoveFront(s, n) + t
  {
  }

  /** A record that is consumed is consumed in the same way when more text follows it. */
  lemma FindNextExtends(s: string, t: string)
    requires var f := FindNext(s);
      (f.Dropped? || f.Delivered?) && |f.rest| < |s|
    ensures var f := FindNext(s);
      FindNext(s + t) == if f.Dropped? then Dropped(f.rest + t) else Delivered(f.event, f.rest + t)
  {
    hide Index;
    hide FirstEnd;
    hide FieldsOf;
    hide HEADER;
    hide RemoveFront;
    var header := Index(s, HEADER, 0);
    IndexExtends(s, t, HEADER, 0);
    FirstEndExtends(s, t, header);
    var end := FirstEnd(s, header);
    EndWithin(s, end);
    RemoveExtends(s, t, end.pos + FOOTER_LENGTH);
    if !end.kind.Parsed? {
      FieldsExtend(s, t, header, end.pos);
    }
  }

  /** What is delivered does not depend on what follows, even where nothing is removed yet. */
  lemma DeliveredExtends(s: string, t: string)
    requires FindNext(s).Delivered?
    ensures FindNext(s + t).Delivered? && FindNext(s + t).event == FindNext(s).event
  {
    hide Index;
    hide FirstEnd;
    hide FieldsOf;
    hide HEADER;
    hide RemoveFront;
    var header := Index(s, HEADER, 0);
    IndexExtends(s, t, HEADER, 0);
    FirstEndExtends(s, t, header);
    var end := FirstEnd(s, header);
    EndWithin(s, end);
    FieldsExtend(s, t, header, end.pos);
  }

  // ---------------------------------------------------------------- draining

  /** Draining settles in two steps as it does in one. */
  lemma {:induction false} DrainExtends(s: string, t: string)
    requires Drain(s).outcome.Settled?
    ensures Drain(s + t) == AfterAll(Drain(s).events, Drain(Drain(s).rest + t))
    decreases |s|
  {
    hide FindNext;
    hide Drain;
    hide AfterAll;
    Unfold(s, 1);
    Unfold(s + t, 1);
    var f := FindNext(s);
    if (f.Dropped? || f.Delivered?) && |f.rest| < |s| {
      FindNextExtends(s, t);
      if f.Dropped? {
        DrainExtends(f.rest, t);
      } else {
        AfterUnfolds([f.event], Drain(f.rest));
        DrainExtends(f.rest, t);
        AfterAppend([f.event], Drain(f.rest).events, Drain(Drain(f.rest).rest + t));
      }
    } else {
      AfterNone(Drain(s + t));
    }
  }

  lemma AfterNone(d: Drained)
    ensures AfterAll([], d) == d
  {
  }

  /** More text never takes back what was written. */
  lemma {:induction false} DrainEventsGrow(s: string, t: string)
    ensures Drain(s).events <= Drain(s + t).events
    decreases |s|
  {
    hide FindNext;
    hide Drain;
    Unfold(s, 1);
    Unfold(s + t, 1);
    var f := FindNext(s);
    if f.Delivered? {
      DeliveredExtends(s, t);
      if |f.rest| < |s| {
        FindNextExtends(s, t);
        DrainEventsGrow(f.rest, t);
      }
    } else if f.Dropped? && |f.rest| < |s| {
      FindNextExtends(s, t);
      DrainEventsGrow(f.rest, t);
    }
  }

  // ---------------------------------------------------------------- reading

  /** Does draining settle on all that has arrived, after every read behind `text`? */
  predicate SettlesThroughout(text: string, chunks: seq<string>)
    decreases |chunks|
  {
    chunks == [] ||
    (var now := text + CStr(chunks[0]);
     Drain(now).outcome.Settled? && SettlesThroughout(now, chunks[1..]))
  }

  /** What has arrived by the first read after which draining does not settle, or by the end. */
  function UpTo(text: string, chunks: seq<string>): string
    decreases |chunks|
  {
    if chunks == [] then text else
    var now := text + CStr(chunks[0]);
    if Drain(now).outcome.Settled? then UpTo(now, chunks[1..]) else now
  }

  /** The general step: `text` was read and drained, and settled. */
  lemma {:induction false} FeedFrom(text: string, chunks: seq<string>)
    requires Drain(text).outcome.Settled?
    ensures AfterAll(Drain(text).events, Feed(Drain(text).rest, chunks)) == Drain(UpTo(text, chunks))
    ensures Drain(UpTo(text, chunks)).outcome.Settled? <==> SettlesThroughout(text, chunks)
    decreases |chunks|
  {
    hide FindNext;
    hide Drain;
    hide AfterAll;
    hide CStr;
    var before := Drain(text);
    if chunks == [] {
      AfterUnfolds(before.events, Feed(before.rest, chunks));
      assert before.events + [] == before.events;
    } else {
      var now := text + CStr(chunks[0]);
      var d := Drain(before.rest + CStr(chunks[0]));
      DrainExtends(text, CStr(chunks[0]));
      AfterUnfolds(before.events, d);
      FeedStep(before.events, before.rest, chunks);
      if d.outcome.Settled? {
        FeedFrom(now, chunks[1..]);
      }
    }
  }

  /** Nothing is missing where every read settles, and otherwise only what came later. */
  lemma {:induction false} UpToIsReceived(text: string, chunks: seq<string>)
    ensures UpTo(text, chunks) <= text + Received(chunks)
    ensures SettlesThroughout(text, chunks) ==> UpTo(text, chunks) == text + Received(chunks)
    decreases |chunks|
  {
    hide Drain;
    hide CStr;
    if chunks == [] {
      assert text + Received(chunks) == text;
    } else {
      var now := text + CStr(chunks[0]);
      assert text + Received(chunks) == now + Received(chunks[1..]);
      UpToIsReceived(now, chunks[1..]);
    }
  }

  lemma NothingYet()
    ensures Drain("") == Drained(Settled, [], "")
  {
    EmptyTail();
    DrainNothing("");
  }

  /**
   Any text, well-formed or not, and any way of reading it.  The program
   finishes exactly when draining settles on what has arrived after every read.
   In any case it does what one drain does of all that arrived up to the first
   read after which draining does not settle; where it finishes, that is one
   drain of the whole, and otherwise it has written nothing that the whole
   would not give.
   */
  lemma ReadingAnyText(chunks: seq<string>)
    ensures var all := chunks + [""];
      && (Feed("", all).outcome.Settled? <==> SettlesThroughout("", all))
      && Feed("", all) == Drain(UpTo("", all))
      && (SettlesThroughout("", all) ==> Feed("", all) == Drain(Received(chunks)))
      && Feed("", all).events <= Drain(Received(chunks)).events
  {
    hide Feed;
    hide Drain;
    hide AfterAll;
    hide UpTo;
    hide SettlesThroughout;
    var all := chunks + [""];
    NothingYet();
    FeedFrom("", all);
    AfterNone(Feed("", all));
    ReceivedIsConcat(chunks);
    UpToIsReceived("", all);
    assert "" + Received(all) == Received(chunks);
    var upTo, whole := UpTo("", all), Received(chunks);
    assert whole == upTo + whole[|upTo|..];
    DrainEventsGrow(upTo, whole[|upTo|..]);
  }

  /** Two ways of reading the same text agree where draining settles after each of their reads. */
  lemma ReadingsAgree(a: seq<string>, b: seq<string>)
    requires Received(a) == Received(b)
    ensures SettlesThroughout("", a + [""]) && SettlesThroughout("", b + [""]) ==>
      Feed("", a + [""]) == Feed("", b + [""])
  {
    hide Feed;
    ReadingAnyText(a);
    ReadingAnyText(b);
  }
}
