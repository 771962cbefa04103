/**
 The framer on well-formed logs: draining undoes printing, and the way a log is
 split into reads does not matter unless a read ends inside the second half of
 the footer of a record that is to be delivered.
 */
module SipLogStreams {
  import opened UtlText
  import opened SipLogFramer

  // ---------------------------------------------------------------- the log layout

  /** `gap` is the text in front of the header, such as the "Read SIP message:" line. */
  datatype Record = Record(gap: string, kind: Kind, host: string, port: string, message: string)

  function Head(r: Record): string {
    HEADER + r.host + PORT_LABEL + r.port + PORT_END + r.message
  }

  function Print(r: Record): string {
    r.gap + (Head(r) + (Marker(r.kind) + FooterFill(r.kind)))
  }

  /** The first "----" behind the field is the one that ends it. */
  ghost predicate Delimited(field: string) {
    Index(field + DELIMITER, DELIMITER, 0) == |field|
  }

  /** The header, the delimiters and the end marker are found where they were printed. */
  ghost predicate Framed(r: Record) {
    && r.gap != "" && Index(r.gap, HEADER, 0) == -1
    && Delimited(r.host) && Delimited(r.port)
    && FirstEnd(Head(r), 0).NoEnd?
  }

  ghost predicate WellFormed(r: Record) {
    Framed(r) && '\0' !in Print(r)
  }

  function EventOf(r: Record): Event {
    Event(r.kind.Outgoing?, r.host, r.port, r.message)
  }

  function Stream(rs: seq<Record>, tail: string): string {
    if rs == [] then tail else Print(rs[0]) + Stream(rs[1..], tail)
  }

  /** One event for every record that is not a parsed one, in order. */
  function Events(rs: seq<Record>): seq<Event> {
    if rs == [] then []
    else if rs[0].kind.Parsed? then Events(rs[1..])
    else [EventOf(rs[0])] + Events(rs[1..])
  }

  /** A well-formed log: well-formed records, then text that holds no complete record. */
  ghost predicate WellFormedLog(rs: seq<Record>, tail: string) {
    && (forall r :: r in rs ==> WellFormed(r))
    && FindNext(tail).Nothing? && '\0' !in tail
  }

  // ---------------------------------------------------------------- searching in parts

  lemma IndexExtends(s: string, t: string, p: string, i: nat)
    requires Index(s, p, i) >= 0
    ensures Index(s + t, p, i) == Index(s, p, i)
  {
    var r := Index(s, p, i);
    MatchInPrefix(s, t, p, r);
    var q := Index(s + t, p, i);
    assert q <= r;
    MatchInPrefix(s, t, p, q);
  }

  lemma IndexShift(a: string, s: string, p: string)
    requires Index(s, p, 0) >= 0
    ensures Index(a + s, p, |a|) == |a| + Index(s, p, 0)
  {
    var r := Index(s, p, 0);
    MatchInSuffix(a, s, p, |a| + r);
    var q := Index(a + s, p, |a|);
    assert q <= |a| + r;
    MatchInSuffix(a, s, p, q);
  }

  lemma DelimitedIn(a: string, field: string, rest: string)
    requires Delimited(field) && DELIMITER <= rest
    ensures Index(a + (field + rest), DELIMITER, |a|) == |a| + |field|
  {
    var t := rest[|DELIMITER|..];
    assert field + rest == (field + DELIMITER) + t;
    IndexExtends(field + DELIMITER, t, DELIMITER, 0);
    IndexShift(a, field + rest, DELIMITER);
  }

  /** What it takes to be the first end marker. */
  lemma FirstEndIs(s: string, i: nat, pos: nat, k: Kind)
    requires i <= pos && MatchesAt(s, Marker(k), pos)
    requires forall j, k' :: i <= j < pos ==> !MatchesAt(s, Marker(k'), j)
    ensures FirstEnd(s, i) == EndAt(pos, k)
  {
    hide Marker;
    hide MatchesAt;
    hide FirstEnd;
    var e := FirstEnd(s, i);
    assert e.EndAt? && e.pos == pos;
    if e.kind != k { MarkersDiffer(s, k, e.kind, pos); }
  }

  lemma FirstEndExtends(s: string, t: string, i: nat)
    requires FirstEnd(s, i).EndAt?
    ensures FirstEnd(s + t, i) == FirstEnd(s, i)
  {
    hide Marker;
    hide MatchesAt;
    hide FirstEnd;
    var e := FirstEnd(s, i);
    forall j, k | i <= j < e.pos
      ensures !MatchesAt(s + t, Marker(k), j)
    {
      EndWithin(s, e);
      MatchInPrefix(s, t, Marker(k), j);
    }
    EndWithin(s, e);
    MatchInPrefix(s, t, Marker(e.kind), e.pos);
    FirstEndIs(s + t, i, e.pos, e.kind);
  }

  lemma EndWithin(s: string, e: End)
    requires e.EndAt? && MatchesAt(s, Marker(e.kind), e.pos)
    ensures e.pos + MARKER_LENGTH <= |s|
  {
    hide Marker;
  }

  /** The fill character, and then "END". */
  lemma MarkerShape(k: Kind)
    ensures forall q :: 0 <= q < 20 ==> Marker(k)[q] != 'E' && Marker(k)[q] != 'N' && Marker(k)[q] != 'D'
    ensures Marker(k)[20..] == "END"
  {
    match k case Outgoing => case Incoming => case Parsed =>
  }

  /** No end marker, of whatever kind, can overlap the start of an end marker. */
  lemma NoMarkerAstride(h: string, k: Kind, x: string, j: Kind, i: nat)
    requires i < |h| < i + MARKER_LENGTH
    ensures !MatchesAt(h + (Marker(k) + x), Marker(j), i)
  {
    hide Marker;
    var s := h + (Marker(k) + x);
    var d := |h| - i;
    if MatchesAt(s, Marker(j), i) {
      // 'E', 'N' or 'D' of the earlier marker would sit on a fill character of the later one.
      var q := if d <= 20 then 20 else d;
      MatchChars(s, Marker(j), i, q);
      MarkerShape(j);
      MarkerShape(k);
    }
  }

  lemma MarkerPlanted(a: string, h: string, k: Kind, x: string)
    ensures MatchesAt(a + (h + (Marker(k) + x)), Marker(k), |a| + |h|)
  {
    hide Marker;
    assert MatchesAt(Marker(k) + x, Marker(k), 0);
    MatchInSuffix(h, Marker(k) + x, Marker(k), |h|);
    MatchInSuffix(a, h + (Marker(k) + x), Marker(k), |a| + |h|);
  }

  lemma NoMarkerBefore(h: string, k: Kind, x: string, j: Kind, i: nat)
    requires FirstEnd(h, 0).NoEnd? && i < |h|
    ensures !MatchesAt(h + (Marker(k) + x), Marker(j), i)
  {
    hide Marker;
    hide FirstEnd;
    hide MatchesAt;
    if i + MARKER_LENGTH <= |h| {
      MatchInPrefix(h, Marker(k) + x, Marker(j), i);
    } else {
      NoMarkerAstride(h, k, x, j, i);
    }
  }

  lemma FirstEndPlanted(a: string, h: string, k: Kind, x: string)
    requires FirstEnd(h, 0).NoEnd?
    ensures FirstEnd(a + (h + (Marker(k) + x)), |a|) == EndAt(|a| + |h|, k)
  {
    hide Marker;
    hide FirstEnd;
    hide MatchesAt;
    var t := h + (Marker(k) + x);
    MarkerPlanted(a, h, k, x);
    forall j, k' | |a| <= j < |a| + |h|
      ensures !MatchesAt(a + t, Marker(k'), j)
    {
      MatchInSuffix(a, t, Marker(k'), j);
      NoMarkerBefore(h, k, x, k', j - |a|);
    }
    FirstEndIs(a + t, |a|, |a| + |h|, k);
  }

  // ---------------------------------------------------------------- one record

  lemma HeaderEndsUniquely()
    ensures EndsUniquely(HEADER)
  {
  }

  lemma HeaderOf(r: Record, x: string)
    requires Index(r.gap, HEADER, 0) == -1
    ensures Index(r.gap + (Head(r) + x), HEADER, 0) == |r.gap|
  {
    hide Index;
    hide HEADER;
    var b := r.host + PORT_LABEL + r.port + PORT_END + r.message + x;
    assert Head(r) + x == HEADER + b;
    HeaderEndsUniquely();
    IndexOfPlanted(r.gap, HEADER, b);
  }

  /** The pieces of a printed record, at their positions. */
  lemma Layout(r: Record, x: string)
    ensures var s := r.gap + (Head(r) + x);
      var host := |r.gap| + |HEADER|;
      var port := host + |r.host| + |PORT_LABEL|;
      var message := port + |r.port| + |PORT_END|;
      && s == s[..host] + (r.host + (PORT_LABEL + (r.port + PORT_END + r.message + x)))
      && s == s[..port] + (r.port + (PORT_END + (r.message + x)))
      && s[host..host + |r.host|] == r.host
      && s[port..port + |r.port|] == r.port
      && s[message..message + |r.message|] == r.message
      && message + |r.message| == |r.gap| + |Head(r)|
  {
    hide HEADER;
    hide PORT_LABEL;
    hide PORT_END;
  }

  lemma FieldsOfPrinted(r: Record, x: string)
    requires Delimited(r.host) && Delimited(r.port)
    ensures FieldsOf(r.gap + (Head(r) + x), |r.gap|, |r.gap| + |Head(r)|)
         == Fields(r.host, r.port, r.message)
  {
    hide HEADER;
    hide PORT_LABEL;
    hide PORT_END;
    hide DELIMITER;
    hide Delimited;
    hide Index;
    hide Head;
    var s := r.gap + (Head(r) + x);
    var host := |r.gap| + |HEADER|;
    var port := host + |r.host| + |PORT_LABEL|;
    LabelLengths();
    Layout(r, x);
    PrefixOfSum(DELIMITER, PORT_LABEL, r.port + PORT_END + r.message + x);
    PrefixOfSum(DELIMITER, PORT_END, r.message + x);
    DelimitedIn(s[..host], r.host, PORT_LABEL + (r.port + PORT_END + r.message + x));
    DelimitedIn(s[..port], r.port, PORT_END + (r.message + x));
  }

  lemma PrefixOfSum(p: string, s: string, t: string)
    requires p <= s
    ensures p <= s + t
  {
  }

  /** Once the end marker is there the record is found, whether or not the footer is complete. */
  lemma FindMarked(r: Record, x: string)
    requires Framed(r)
    ensures var s := r.gap + (Head(r) + (Marker(r.kind) + x));
      var rest := RemoveFront(s, |r.gap| + |Head(r)| + FOOTER_LENGTH);
      FindNext(s) == if r.kind.Parsed? then Dropped(rest) else Delivered(EventOf(r), rest)
  {
    hide Head;
    hide HEADER;
    hide Index;
    hide FirstEnd;
    hide FieldsOf;
    hide Marker;
    hide Delimited;
    hide DELIMITER;
    var x' := Marker(r.kind) + x;
    HeaderOf(r, x');
    FirstEndPlanted(r.gap, Head(r), r.kind, x);
    FieldsOfPrinted(r, x');
  }

  /** Before that, nothing is found. */
  lemma FindUnmarked(r: Record, n: nat)
    requires Framed(r) && n < |r.gap| + |Head(r)| + MARKER_LENGTH
    ensures FindNext(Print(r)[..n]).Nothing?
  {
    var x := Marker(r.kind) + FooterFill(r.kind);
    var s, t := Print(r)[..n], Print(r)[n..];
    assert s + t == Print(r);
    var header := Index(s, HEADER, 0);
    if header > 0 {
      IndexExtends(s, t, HEADER, 0);
      HeaderOf(r, x);
      if FirstEnd(s, header).EndAt? {
        FirstEndExtends(s, t, header);
        FirstEndPlanted(r.gap, Head(r), r.kind, FooterFill(r.kind));
      }
    }
  }

  /** A complete record at the front of the buffer is consumed exactly. */
  lemma FindWhole(r: Record, rest: string)
    requires Framed(r)
    ensures FindNext(Print(r) + rest)
         == if r.kind.Parsed? then Dropped(rest) else Delivered(EventOf(r), rest)
  {
    hide Head;
    hide Marker;
    hide FooterFill;
    hide FindNext;
    hide Framed;
    var x := FooterFill(r.kind) + rest;
    var s := r.gap + (Head(r) + (Marker(r.kind) + x));
    assert s == Print(r) + rest;
    assert |Print(r)| == |r.gap| + |Head(r)| + FOOTER_LENGTH;
    assert s[|Print(r)|..] == rest;
    FindMarked(r, x);
  }

  /** A record whose footer is cut short is found, but nothing is removed. */
  lemma FindCutShort(r: Record, n: nat)
    requires Framed(r)
    requires |r.gap| + |Head(r)| + MARKER_LENGTH <= n < |Print(r)|
    ensures var s := Print(r)[..n];
      FindNext(s) == if r.kind.Parsed? then Dropped(s) else Delivered(EventOf(r), s)
  {
    var x := FooterFill(r.kind)[..n - (|r.gap| + |Head(r)| + MARKER_LENGTH)];
    assert r.gap + (Head(r) + (Marker(r.kind) + x)) == Print(r)[..n];
    FindMarked(r, x);
  }

  // ---------------------------------------------------------------- whole logs

  /**
   May a read end after the first `n` characters of the log?  Not inside the
   last 20 characters of a footer, unless the record is one that is dropped.
   */
  predicate SafeCut(rs: seq<Record>, n: nat) {
    if rs == [] then true
    else if n < |Print(rs[0])| then
      rs[0].kind.Parsed? || n < |Print(rs[0])| - (FOOTER_LENGTH - MARKER_LENGTH)
    else SafeCut(rs[1..], n - |Print(rs[0])|)
  }

  /** What is still to be drained once `n` characters have arrived: the open records, and how much of them is there. */
  function Remaining(rs: seq<Record>, n: nat): (r: (seq<Record>, nat))
    ensures r.1 <= n
    ensures r.0 == [] || r.1 < |Print(r.0[0])|
  {
    if rs == [] || n < |Print(rs[0])| then (rs, n) else Remaining(rs[1..], n - |Print(rs[0])|)
  }

  /** The events of the records that are complete within the first `n` characters. */
  function EventsBefore(rs: seq<Record>, n: nat): seq<Event> {
    if rs == [] || n < |Print(rs[0])| then []
    else Events(rs[..1]) + EventsBefore(rs[1..], n - |Print(rs[0])|)
  }

  lemma EventsSplit(rs: seq<Record>)
    requires rs != []
    ensures Events(rs) == Events(rs[..1]) + Events(rs[1..])
    ensures Events(rs[..1]) == if rs[0].kind.Parsed? then [] else [EventOf(rs[0])]
  {
    assert rs[..1][1..] == [];
  }

  /**
   Stuck after `n` characters: the events of the complete records were written,
   then the one of the record that is open there, which is still in the buffer.
   */
  ghost predicate StuckAt(rs: seq<Record>, tail: string, n: nat, d: Drained) {
    var (open, k) := Remaining(rs, n);
    && open != [] && k <= |Stream(open, tail)|
    && d == Drained(Livelock, EventsBefore(rs, n) + [EventOf(open[0])], Stream(open, tail)[..k])
  }

  /** Nothing found in `s` means nothing found in what has arrived of it so far. */
  lemma NothingInPrefix(s: string, n: nat)
    requires FindNext(s).Nothing? && n <= |s|
    ensures FindNext(s[..n]).Nothing?
  {
    var p, t := s[..n], s[n..];
    assert p + t == s;
    var header := Index(p, HEADER, 0);
    if header > 0 {
      IndexExtends(p, t, HEADER, 0);
      if FirstEnd(p, header).EndAt? {
        FirstEndExtends(p, t, header);
      }
    }
  }

  /** Draining what has arrived of a well-formed log. */
  lemma {:induction false} DrainPrefix(rs: seq<Record>, tail: string, n: nat)
    requires WellFormedLog(rs, tail) && n <= |Stream(rs, tail)|
    ensures Remaining(rs, n).1 <= |Stream(Remaining(rs, n).0, tail)|
    ensures var d := Drain(Stream(rs, tail)[..n]);
      if SafeCut(rs, n) then
        d == Drained(Settled, EventsBefore(rs, n), Stream(Remaining(rs, n).0, tail)[..Remaining(rs, n).1])
      else
        StuckAt(rs, tail, n, d)
  {
    hide FindNext;
    hide Print;
    hide Drain;
    hide WellFormed;
    hide Events;
    hide EventOf;
    if rs == [] {
      NothingInPrefix(tail, n);
      DrainNothing(tail[..n]);
    } else {
      EventsSplit(rs);
      EventsBeforePart(rs, n);
      StreamParts(rs, tail, n);
      if n < |Print(rs[0])| {
        DrainPart(rs[0], n);
      } else {
        DrainPrefix(rs[1..], tail, n - |Print(rs[0])|);
        DrainWhole(rs[0], Stream(rs[1..], tail)[..n - |Print(rs[0])|]);
      }
    }
  }

  /** The events of the complete records in front of an open one. */
  lemma EventsBeforePart(rs: seq<Record>, n: nat)
    requires rs != []
    ensures n < |Print(rs[0])| ==> EventsBefore(rs, n) == [] && Remaining(rs, n) == (rs, n)
    ensures forall e :: EventsBefore(rs, n) + [e] == (if n < |Print(rs[0])| then [e] else
      Events(rs[..1]) + (EventsBefore(rs[1..], n - |Print(rs[0])|) + [e]))
  {
    hide Print;
    hide Events;
  }

  lemma StreamParts(rs: seq<Record>, tail: string, n: nat)
    requires rs != [] && n <= |Stream(rs, tail)|
    ensures var size := |Print(rs[0])|;
      Stream(rs, tail)[..n] == if n < size then Print(rs[0])[..n]
                               else Print(rs[0]) + Stream(rs[1..], tail)[..n - size]
  {
    hide Print;
  }

  lemma DrainNothing(s: string)
    requires FindNext(s).Nothing?
    ensures Drain(s) == Drained(Settled, [], s)
  {
    hide FindNext;
  }

  lemma DrainWhole(r: Record, more: string)
    requires WellFormed(r)
    ensures Drain(Print(r) + more)
         == if r.kind.Parsed? then Drain(more) else After(EventOf(r), Drain(more))
  {
    hide FindNext;
    hide Print;
    hide Framed;
    FindWhole(r, more);
    PrintNotEmpty([r]);
  }

  /** Draining a record that has not arrived completely. */
  lemma DrainPart(r: Record, n: nat)
    requires WellFormed(r) && n < |Print(r)|
    ensures var s := Print(r)[..n];
      Drain(s) == if r.kind.Parsed? || n < |Print(r)| - (FOOTER_LENGTH - MARKER_LENGTH)
        then Drained(Settled, [], s)
        else Drained(Livelock, [EventOf(r)], s)
  {
    assert |Print(r)| == |r.gap| + |Head(r)| + FOOTER_LENGTH;
    if n < |r.gap| + |Head(r)| + MARKER_LENGTH {
      FindUnmarked(r, n);
    } else {
      FindCutShort(r, n);
    }
  }

  // ---------------------------------------------------------------- every way of reading

  /** Does every read, after the first `m` characters, end at a safe place? */
  predicate SafeReads(rs: seq<Record>, m: nat, chunks: seq<string>)
    decreases |chunks|
  {
    chunks == [] ||
    (SafeCut(rs, m + |chunks[0]|) && SafeReads(rs, m + |chunks[0]|, chunks[1..]))
  }

  /** How many characters behind the first `m` the first read ends that does not end at a safe place. */
  function UnsafeOffset(rs: seq<Record>, m: nat, chunks: seq<string>): nat
    decreases |chunks|
  {
    if chunks == [] then 0
    else if !SafeCut(rs, m + |chunks[0]|) then |chunks[0]|
    else |chunks[0]| + UnsafeOffset(rs, m + |chunks[0]|, chunks[1..])
  }

  lemma {:induction false} RemainingAgrees(rs: seq<Record>, n: nat, k: nat)
    ensures var (rs', n') := Remaining(rs, n);
      && SafeCut(rs, n + k) == SafeCut(rs', n' + k)
      && Remaining(rs, n + k) == Remaining(rs', n' + k)
  {
    hide Print;
    if rs != [] && n >= |Print(rs[0])| {
      RemainingAgrees(rs[1..], n - |Print(rs[0])|, k);
    }
  }

  lemma {:induction false} EventsAgree(rs: seq<Record>, n: nat, k: nat)
    ensures var (rs', n') := Remaining(rs, n);
      && Events(rs) == EventsBefore(rs, n) + Events(rs')
      && EventsBefore(rs, n + k) == EventsBefore(rs, n) + EventsBefore(rs', n' + k)
  {
    hide Print;
    hide Events;
    if rs != [] && n >= |Print(rs[0])| {
      EventsSplit(rs);
      EventsAgree(rs[1..], n - |Print(rs[0])|, k);
    }
  }

  lemma {:induction false} RemainingText(rs: seq<Record>, tail: string, n: nat)
    requires n <= |Stream(rs, tail)|
    ensures var (rs', n') := Remaining(rs, n);
      n' <= |Stream(rs', tail)| && Stream(rs', tail)[n'..] == Stream(rs, tail)[n..]
    ensures forall r :: r in Remaining(rs, n).0 ==> r in rs
  {
    hide Print;
    if rs != [] && n >= |Print(rs[0])| {
      RemainingText(rs[1..], tail, n - |Print(rs[0])|);
    }
  }

  lemma {:induction false} SafeReadsAgree(rs: seq<Record>, n: nat, k: nat, chunks: seq<string>)
    ensures SafeReads(rs, n + k, chunks)
         == SafeReads(Remaining(rs, n).0, Remaining(rs, n).1 + k, chunks)
    ensures UnsafeOffset(rs, n + k, chunks)
         == UnsafeOffset(Remaining(rs, n).0, Remaining(rs, n).1 + k, chunks)
    decreases |chunks|
  {
    hide Remaining;
    hide SafeCut;
    if chunks != [] {
      RemainingAgrees(rs, n, k + |chunks[0]|);
      SafeReadsAgree(rs, n, k + |chunks[0]|, chunks[1..]);
    }
  }

  lemma {:induction false} NoNulInLog(rs: seq<Record>, tail: string)
    requires WellFormedLog(rs, tail)
    ensures '\0' !in Stream(rs, tail)
  {
    hide Print;
    if rs != [] {
      assert WellFormed(rs[0]);
      NoNulInLog(rs[1..], tail);
    }
  }

  lemma NothingOpen(rs: seq<Record>, tail: string, m: nat)
    requires m == |Stream(rs, tail)| && (rs == [] || m < |Print(rs[0])|)
    ensures rs == [] && Events(rs) == [] && Stream(rs, tail)[..m] == tail
  {
    hide Print;
  }

  /** One read of a log of which `m` characters are in the buffer. */
  lemma ReadOne(s: string, m: nat, chunks: seq<string>)
    requires m <= |s| && chunks != [] && Concat(chunks) == s[m..] && '\0' !in s
    ensures var n := m + |chunks[0]|;
      n <= |s| && s[..m] + CStr(chunks[0]) == s[..n] && Concat(chunks[1..]) == s[n..]
  {
    var c := chunks[0];
    assert s[m..][..|c|] == c;
    assert forall x :: x in c ==> x in s;
    assert s[m..][|c|..] == Concat(chunks[1..]);
  }

  /** Getting stuck behind records that are already consumed. */
  lemma StuckLater(rs: seq<Record>, tail: string, n: nat, k: nat, d: Drained)
    requires var (rs', n') := Remaining(rs, n);
      && Remaining(rs, n + k) == Remaining(rs', n' + k)
      && EventsBefore(rs, n + k) == EventsBefore(rs, n) + EventsBefore(rs', n' + k)
      && StuckAt(rs', tail, n' + k, d)
    ensures StuckAt(rs, tail, n + k, AfterAll(EventsBefore(rs, n), d))
  {
    hide Remaining;
    hide EventsBefore;
    hide EventOf;
    hide Stream;
  }

  /** The general step: the buffer holds the first `m` characters of what is not yet drained. */
  lemma {:induction false} FeedRemaining(rs: seq<Record>, tail: string, m: nat, chunks: seq<string>)
    requires WellFormedLog(rs, tail) && m <= |Stream(rs, tail)|
    requires rs == [] || m < |Print(rs[0])|
    requires Concat(chunks) == Stream(rs, tail)[m..]
    ensures var d := Feed(Stream(rs, tail)[..m], chunks);
      if SafeReads(rs, m, chunks) then d == Drained(Settled, Events(rs), tail)
      else StuckAt(rs, tail, m + UnsafeOffset(rs, m, chunks), d)
    decreases |chunks|
  {
    hide FindNext;
    hide Print;
    hide Drain;
    hide SafeCut;
    hide Remaining;
    hide EventsBefore;
    hide Events;
    hide WellFormed;
    hide Stream;
    hide CStr;
    var s := Stream(rs, tail);
    if chunks == [] {
      NothingOpen(rs, tail, m);
    } else {
      var n := m + |chunks[0]|;
      NoNulInLog(rs, tail);
      ReadOne(s, m, chunks);
      DrainPrefix(rs, tail, n);
      if SafeCut(rs, n) {
        var (rs', n') := Remaining(rs, n);
        RemainingText(rs, tail, n);
        SafeReadsAgree(rs, n, 0, chunks[1..]);
        FeedRemaining(rs', tail, n', chunks[1..]);
        var k := UnsafeOffset(rs, n, chunks[1..]);
        RemainingAgrees(rs, n, k);
        EventsAgree(rs, n, k);
        if !SafeReads(rs, n, chunks[1..]) {
          StuckLater(rs, tail, n, k, Feed(Stream(rs', tail)[..n'], chunks[1..]));
        }
      }
    }
  }

  /**
   The central result.  Take any well-formed log and any way of reading it.
   If no read ends inside the last 20 characters of the footer of a delivered
   record, the program writes exactly one event per delivered record, in
   order, and is left with the tail.  If some read does end there, it writes
   the events in front of that record and the one of that record, and is left
   with that record in the buffer: by DrainIsTheLoop it never gets past it.
   */
  lemma ReadingAWellFormedLog(rs: seq<Record>, tail: string, chunks: seq<string>)
    requires WellFormedLog(rs, tail)
    requires Concat(chunks) == Stream(rs, tail)
    ensures Feed("", chunks + [""]).outcome.Settled? <==> SafeReads(rs, 0, chunks)
    ensures Feed("", chunks + [""]).outcome.Livelock? <==> !SafeReads(rs, 0, chunks)
    ensures SafeReads(rs, 0, chunks) ==>
      Feed("", chunks + [""]) == Drained(Settled, Events(rs), tail)
    ensures !SafeReads(rs, 0, chunks) ==>
      StuckAt(rs, tail, UnsafeOffset(rs, 0, chunks), Feed("", chunks + [""]))
  {
    hide FindNext;
    hide Print;
    hide Feed;
    hide Remaining;
    hide EventsBefore;
    ConcatEof(chunks);
    assert Stream(rs, tail)[0..] == Stream(rs, tail);
    PrintNotEmpty(rs);
    FeedRemaining(rs, tail, 0, chunks + [""]);
    SafeReadsEof(rs, 0, chunks, tail);
  }

  lemma PrintNotEmpty(rs: seq<Record>)
    ensures rs == [] || 0 < |Print(rs[0])|
  {
  }

  lemma {:induction false} ConcatEof(chunks: seq<string>)
    ensures Concat(chunks + [""]) == Concat(chunks)
  {
    if chunks != [] {
      ConcatEof(chunks[1..]);
      assert (chunks + [""])[1..] == chunks[1..] + [""];
    }
  }

  lemma {:induction false} SafeAtEnd(rs: seq<Record>, tail: string, n: nat)
    requires n == |Stream(rs, tail)|
    ensures SafeCut(rs, n)
  {
    hide Print;
    if rs != [] {
      SafeAtEnd(rs[1..], tail, n - |Print(rs[0])|);
    }
  }

  lemma {:induction false} SafeReadsEof(rs: seq<Record>, m: nat, chunks: seq<string>, tail: string)
    requires m + |Concat(chunks)| == |Stream(rs, tail)|
    ensures SafeReads(rs, m, chunks + [""]) == SafeReads(rs, m, chunks)
    ensures UnsafeOffset(rs, m, chunks + [""]) == UnsafeOffset(rs, m, chunks)
    decreases |chunks|
  {
    hide SafeCut;
    hide Stream;
    if chunks == [] {
      assert (chunks + [""])[1..] == [];
      SafeAtEnd(rs, tail, m);
    } else {
      assert (chunks + [""])[1..] == chunks[1..] + [""];
      SafeReadsEof(rs, m + |chunks[0]|, chunks[1..], tail);
    }
  }

  /** Draining a whole printed log undoes the printing. */
  lemma DrainUndoesPrinting(rs: seq<Record>, tail: string)
    requires WellFormedLog(rs, tail)
    ensures Drain(Stream(rs, tail)) == Drained(Settled, Events(rs), tail)
  {
    hide FindNext;
    hide Print;
    hide Drain;
    hide Events;
    hide Stream;
    hide Remaining;
    hide SafeCut;
    hide EventsBefore;
    hide WellFormed;
    var s := Stream(rs, tail);
    SafeAtEnd(rs, tail, |s|);
    DrainPrefix(rs, tail, |s|);
    RemainingText(rs, tail, |s|);
    EventsAgree(rs, |s|, 0);
    assert s[..|s|] == s;
    var (rs', n') := Remaining(rs, |s|);
    NothingOpen(rs', tail, n');
  }

  // ---------------------------------------------------------------- a log that is never finished

  function Sample(): Record {
    Record("\n", Incoming, "h", "5", "m")
  }

  lemma NoLetterNoMarker(s: string)
    requires 'E' !in s
    ensures FirstEnd(s, 0).NoEnd?
  {
    hide Marker;
    var e := FirstEnd(s, 0);
    if e.EndAt? {
      MarkerShape(e.kind);
      MatchChars(s, Marker(e.kind), e.pos, 20);
    }
  }

  lemma OneLetterIsDelimited(c: char)
    requires c != '-'
    ensures Delimited([c])
  {
    assert MatchesAt([c] + DELIMITER, DELIMITER, 1);
    assert ([c] + DELIMITER)[0..4][0] != DELIMITER[0];
    assert !MatchesAt([c] + DELIMITER, DELIMITER, 0);
  }

  lemma LettersOfLayout(k: Kind)
    ensures forall c | c == '\0' || c == 'E' :: c !in HEADER && c !in PORT_LABEL && c !in PORT_END
    ensures '\0' !in Marker(k) && '\0' !in FooterFill(k)
  {
    match k case Outgoing => case Incoming => case Parsed =>
  }

  lemma LettersOf(r: Record, c: char)
    requires c !in HEADER && c !in PORT_LABEL && c !in PORT_END
    requires c !in r.host && c !in r.port && c !in r.message
    ensures c !in Head(r)
    ensures c !in r.gap && c !in Marker(r.kind) && c !in FooterFill(r.kind) ==> c !in Print(r)
  {
    hide HEADER;
    hide PORT_LABEL;
    hide PORT_END;
    hide Marker;
    hide FooterFill;
  }

  lemma GapWithoutHeader(c: char)
    ensures Index([c], HEADER, 0) == -1
  {
  }

  lemma SampleIsWellFormed()
    ensures WellFormed(Sample())
  {
    hide Index;
    hide FirstEnd;
    hide Head;
    hide Print;
    hide Marker;
    hide FooterFill;
    var r := Sample();
    LettersOfLayout(r.kind);
    LettersOf(r, '\0');
    LettersOf(r, 'E');
    OneLetterIsDelimited('h');
    OneLetterIsDelimited('5');
    GapWithoutHeader('\n');
    NoLetterNoMarker(Head(r));
  }

  lemma ConcatTwo(a: string, b: string)
    ensures Concat([a, b]) == a + b && Concat([a]) == a
  {
    var none: seq<string> := [];
    assert [a][1..] == none && [b][1..] == none && [a, b][1..] == [b];
    assert Concat(none) == "";
    assert Concat([a]) == a + "" && Concat([b]) == b + "";
    assert Concat([a, b]) == a + Concat([b]);
  }

  /** Any one-record log, read at once or in two parts. */
  lemma ReadInTwoParts(r: Record, n: nat)
    requires WellFormed(r) && n <= |Print(r)|
    ensures SafeReads([r], 0, [Print(r)[..n], Print(r)[n..]]) == SafeCut([r], n)
    ensures SafeReads([r], 0, [Print(r)])
    ensures WellFormedLog([r], "") && Stream([r], "") == Print(r)
    ensures Concat([Print(r)[..n], Print(r)[n..]]) == Print(r) == Concat([Print(r)])
  {
    hide Print;
    hide FindNext;
    hide WellFormed;
    var p := Print(r);
    EmptyTail();
    assert Stream([r], "") == p + Stream([], "") == p;
    ConcatTwo(p[..n], p[n..]);
    ConcatTwo(p, "");
    SafeAtEnd([r], "", |p|);
    assert [p[..n], p[n..]][1..] == [p[n..]];
    assert SafeReads([r], n, [p[n..]]) by {
      assert [p[n..]][1..] == [];
      assert SafeCut([r], n + |p[n..]|);
    }
  }

  /** A one-record log read in two parts, the first ending one character early. */
  lemma SampleNeverFinishes()
    ensures var p := Print(Sample());
      && WellFormedLog([Sample()], "") && Stream([Sample()], "") == p
      && Feed("", [p[..|p| - 1], p[|p| - 1..], ""]).outcome.Livelock?
      && Feed("", [p, ""]) == Drained(Settled, Events([Sample()]), "")
  {
    SampleIsWellFormed();
    PrintLength(Sample());
    hide Print;
    hide Feed;
    hide FindNext;
    hide WellFormed;
    var r := Sample();
    var p := Print(r);
    var parts := [p[..|p| - 1], p[|p| - 1..]];
    ReadInTwoParts(r, |p| - 1);
    ReadingAWellFormedLog([r], "", parts);
    ReadingAWellFormedLog([r], "", [p]);
    assert parts + [""] == [p[..|p| - 1], p[|p| - 1..], ""];
    assert [p] + [""] == [p, ""];
  }

  lemma EmptyTail()
    ensures FindNext("").Nothing?
  {
  }

  lemma PrintLength(r: Record)
    ensures |Print(r)| > 0
    ensures |Print(r)| == |r.gap| + |Head(r)| + FOOTER_LENGTH
  {
  }
}
