/**
 The drain loop on arbitrary text: how Drain relates to the do-while that the
 source runs, when that loop stops, and what it leaves in the buffer.
 */
module SipLogDrain {
  import opened UtlText
  import opened SipLogFramer

  datatype Status = Running | Stopped | Faulted

  datatype Loop = Loop(status: Status, events: seq<Event>, content: string)

  function Then(e: Event, l: Loop): Loop {
    Loop(l.status, [e] + l.events, l.content)
  }

  /** At most `n` iterations of the do-while, exactly as written. */
  function Iterate(s: string, n: nat): Loop {
    if n == 0 then Loop(Running, [], s) else
    match FindNext(s)
    case Nothing => Loop(Stopped, [], s)
    case Broken => Loop(Faulted, [], s)
    case Dropped(rest) => if |rest| == |s| then Loop(Stopped, [], s) else Iterate(rest, n - 1)
    case Delivered(e, rest) => Then(e, Iterate(rest, n - 1))
  }

  /** `n` times the same event. */
  function Repeat(e: Event, n: nat): (r: seq<Event>)
    ensures |r| == n && forall i :: 0 <= i < n ==> r[i] == e
  {
    seq(n, _ => e)
  }

  /** On a livelocked buffer every iteration writes the same record again. */
  lemma {:induction false} LivelockRepeats(s: string, e: Event, n: nat)
    requires FindNext(s) == Delivered(e, s)
    ensures Iterate(s, n) == Loop(Running, Repeat(e, n), s)
  {
    hide FindNext;
    if n > 0 {
      LivelockRepeats(s, e, n - 1);
      assert [e] + Repeat(e, n - 1) == Repeat(e, n);
    }
  }

  lemma {:induction false} DrainLeavesTheLoop(s: string, n: nat)
    requires n > |s| && !Drain(s).outcome.Livelock?
    ensures var d := Drain(s);
      Iterate(s, n) == Loop(if d.outcome.Settled? then Stopped else Faulted, d.events, d.rest)
    decreases |s|
  {
    hide FindNext;
    match FindNext(s)
    case Nothing =>
    case Broken =>
    case Dropped(rest) =>
      if |rest| < |s| {
        DrainLeavesTheLoop(rest, n - 1);
      }
    case Delivered(e, rest) =>
      DrainLeavesTheLoop(rest, n - 1);
  }

  lemma {:induction false} DrainStaysInTheLoop(s: string, n: nat) returns (last: Event, extra: nat)
    requires n > |s| && Drain(s).outcome.Livelock?
    ensures var d := Drain(s);
      && d.events != [] && last == d.events[|d.events| - 1]
      && n - 1 - |s| <= extra < n
      && Iterate(s, n) == Loop(Running, d.events + Repeat(last, extra), d.rest)
    decreases |s|
  {
    hide FindNext;
    hide Drain;
    hide Iterate;
    Unfold(s, n);
    match FindNext(s)
    case Dropped(rest) =>
      last, extra := DrainStaysInTheLoop(rest, n - 1);
    case Delivered(e, rest) =>
      if |rest| == |s| {
        last, extra := e, n - 1;
        LivelockRepeats(s, e, n - 1);
      } else {
        last, extra := DrainStaysInTheLoop(rest, n - 1);
        PrependEvent(e, Drain(rest).events, Repeat(last, extra));
      }
  }

  /** One step of both definitions. */
  lemma Unfold(s: string, n: nat)
    requires n > 0
    ensures Drain(s) == match FindNext(s)
                        case Nothing => Drained(Settled, [], s)
                        case Broken => Drained(Fault, [], s)
                        case Dropped(rest) => if |rest| == |s| then Drained(Settled, [], s) else Drain(rest)
                        case Delivered(e, rest) =>
                          if |rest| == |s| then Drained(Livelock, [e], s) else After(e, Drain(rest))
    ensures FindNext(s).Dropped? && |FindNext(s).rest| < |s| ==> Iterate(s, n) == Iterate(FindNext(s).rest, n - 1)
    ensures FindNext(s).Delivered? ==> Iterate(s, n) == Then(FindNext(s).event, Iterate(FindNext(s).rest, n - 1))
  {
    hide FindNext;
  }

  lemma PrependEvent(e: Event, events: seq<Event>, more: seq<Event>)
    ensures [e] + (events + more) == ([e] + events) + more
  {
  }

  /**
   Drain is the do-while loop: where it settles the loop stops with the same
   events and buffer, where it faults the loop faults, and where it reports a
   livelock the loop is still running after any number of iterations, writing
   one more copy of the last event each time.
   */
  lemma DrainIsTheLoop(s: string, n: nat)
    requires n > |s|
    ensures var d := Drain(s);
      match d.outcome
      case Settled => Iterate(s, n) == Loop(Stopped, d.events, d.rest)
      case Fault => Iterate(s, n) == Loop(Faulted, d.events, d.rest)
      case Livelock =>
        && d.events != []
        && exists extra: nat {:trigger Repeat(d.events[|d.events| - 1], extra)} ::
          && n - 1 - |s| <= extra < n
          && Iterate(s, n) == Loop(Running, d.events + Repeat(d.events[|d.events| - 1], extra), d.rest)
  {
    hide FindNext;
    hide Drain;
    hide Iterate;
    if Drain(s).outcome.Livelock? {
      var last, extra := DrainStaysInTheLoop(s, n);
    } else {
      DrainLeavesTheLoop(s, n);
    }
  }

  /** The loop stops, without fault, exactly when Drain settles. */
  lemma LoopHaltsIffSettled(s: string)
    ensures (exists n: nat :: Iterate(s, n).status.Stopped?) <==> Drain(s).outcome.Settled?
    ensures (exists n: nat :: Iterate(s, n).status.Faulted?) <==> Drain(s).outcome.Fault?
  {
    hide FindNext;
    hide Drain;
    DrainIsTheLoop(s, |s| + 1);
    assert Iterate(s, |s| + 1) == Iterate(s, |s| + 1);
    forall n: nat
      ensures Iterate(s, n).status.Stopped? ==> Drain(s).outcome.Settled?
      ensures Iterate(s, n).status.Faulted? ==> Drain(s).outcome.Fault?
    {
      var m := n + |s| + 1;
      DrainIsTheLoop(s, m);
      if !Iterate(s, n).status.Running? {
        MoreIterations(s, n, m);
      }
    }
  }

  /** A loop that has left stays out. */
  lemma {:induction false} MoreIterations(s: string, n: nat, m: nat)
    requires n <= m && !Iterate(s, n).status.Running?
    ensures Iterate(s, m) == Iterate(s, n)
    decreases n
  {
    hide FindNext;
    if n > 0 {
      match FindNext(s)
      case Nothing =>
      case Broken =>
      case Dropped(rest) =>
        if |rest| != |s| {
          MoreIterations(rest, n - 1, m - 1);
        }
      case Delivered(e, rest) =>
        MoreIterations(rest, n - 1, m - 1);
    }
  }

  /** Nothing more can be taken from `s`, whatever the reason. */
  ghost predicate Exhausted(s: string) {
    var header := Index(s, HEADER, 0);
    var end := FirstEnd(s, if header < 0 then 0 else header);
    || header <= 0                                    // no header, or nothing in front of it
    || end.NoEnd?                                     // the record is still open
    || (end.kind.Parsed? && end.pos + FOOTER_LENGTH > |s|)   // a parsed record's footer is cut short
  }

  /** When the loop stops the buffer is exhausted, and draining it again changes nothing. */
  lemma {:induction false} SettledIsExhausted(s: string)
    requires Drain(s).outcome.Settled?
    ensures Exhausted(Drain(s).rest)
    ensures Drain(Drain(s).rest) == Drained(Settled, [], Drain(s).rest)
    decreases |s|
  {
    match FindNext(s)
    case Nothing =>
    case Dropped(rest) =>
      if |rest| < |s| { SettledIsExhausted(rest); }
    case Delivered(e, rest) =>
      SettledIsExhausted(rest);
  }

  /** A call only ever takes text off the front of the buffer. */
  lemma FindNextLeavesASuffix(s: string)
    ensures var f := FindNext(s);
      f.Dropped? || f.Delivered? ==> |f.rest| <= |s| && f.rest == s[|s| - |f.rest|..]
  {
    hide Index;
    hide FirstEnd;
    hide FieldsOf;
  }

  /** So does draining. */
  lemma {:induction false} DrainLeavesASuffix(s: string)
    ensures |Drain(s).rest| <= |s| && Drain(s).rest == s[|s| - |Drain(s).rest|..]
    decreases |s|
  {
    hide FindNext;
    FindNextLeavesASuffix(s);
    var f := FindNext(s);
    if (f.Dropped? || f.Delivered?) && |f.rest| < |s| {
      DrainLeavesASuffix(f.rest);
    }
  }

  /** Every outgoing or incoming end marker of `s` has the rest of its footer behind it. */
  ghost predicate FootersComplete(s: string) {
    forall i, k :: MatchesAt(s, Marker(k), i) && k != Parsed ==> i + FOOTER_LENGTH <= |s|
  }

  lemma FootersCompleteInSuffix(s: string, cut: nat)
    requires FootersComplete(s) && cut <= |s|
    ensures FootersComplete(s[cut..])
  {
    hide Marker;
    hide MatchesAt;
    assert s == s[..cut] + s[cut..];
    forall i: int, k | MatchesAt(s[cut..], Marker(k), i) && k != Parsed
      ensures i + FOOTER_LENGTH <= |s[cut..]|
    {
      MatchStart(s[cut..], Marker(k), i);
      MatchInSuffix(s[..cut], s[cut..], Marker(k), i + cut);
    }
  }

  lemma MatchStart(s: string, p: string, i: int)
    requires MatchesAt(s, p, i)
    ensures 0 <= i
  {
  }

  lemma CompleteFootersConsume(s: string)
    requires FootersComplete(s) && FindNext(s).Delivered?
    ensures |FindNext(s).rest| < |s|
  {
    hide Marker;
    hide FieldsOf;
    hide Index;
    hide FirstEnd;
  }

  /** A caller can rule the livelock out, for any text at all, by completing the footers. */
  lemma {:induction false} CompleteFootersNeverLivelock(s: string)
    requires FootersComplete(s)
    ensures !Drain(s).outcome.Livelock?
    decreases |s|
  {
    hide FindNext;
    hide FootersComplete;
    match FindNext(s)
    case Nothing =>
    case Broken =>
    case Dropped(rest) =>
      FindNextLeavesASuffix(s);
      if |rest| < |s| {
        FootersCompleteInSuffix(s, |s| - |rest|);
        CompleteFootersNeverLivelock(rest);
      }
    case Delivered(e, rest) =>
      FindNextLeavesASuffix(s);
      CompleteFootersConsume(s);
      FootersCompleteInSuffix(s, |s| - |rest|);
      CompleteFootersNeverLivelock(rest);
  }
}
