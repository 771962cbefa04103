/**
 The event log of sipXmgr: a circular buffer of 256 entries, read back through
 C's abs and truncating remainder.
 */
module EventLog {

  const MAX_EVENT_LOG_ENTRIES := 256

  function Abs(n: int): nat {
    if n < 0 then -n else n
  }

  /** C's `%`: the quotient is truncated towards zero. */
  function Rem(a: int, b: nat): int
    requires b > 0
  {
    if a >= 0 then a % b else -(-a % b)
  }

  function Entry(date: string, time: string, text: string): (e: string)
    ensures e != ""
  {
    date + " " + time + "  " + text
  }

  // ---------------------------------------------------------------- what the log should show

  /** The last 256 events, oldest first. */
  function Window(history: seq<string>): (w: seq<string>)
    ensures |w| == if |history| < MAX_EVENT_LOG_ENTRIES then |history| else MAX_EVENT_LOG_ENTRIES
  {
    if |history| <= MAX_EVENT_LOG_ENTRIES then history
    else history[|history| - MAX_EVENT_LOG_ENTRIES..]
  }

  function Rotated(s: seq<string>, k: nat): seq<string>
    requires k <= |s|
  {
    s[k..] + s[..k]
  }

  /** What is shown: the window, except that a full ring at index 0 is read from slot 2. */
  function Shown(history: seq<string>): seq<string> {
    if |history| % MAX_EVENT_LOG_ENTRIES == 0 && history != [] then Rotated(Window(history), 2)
    else Window(history)
  }

  function Render(entries: seq<string>): string {
    if entries == [] then "" else entries[0] + "\r\n" + Render(entries[1..])
  }

  // ---------------------------------------------------------------- the ring

  /** What slot `i` holds after the events of `history`. */
  function Slot(history: seq<string>, i: nat): string
    requires i < MAX_EVENT_LOG_ENTRIES
  {
    var turn := |history| - |history| % MAX_EVENT_LOG_ENTRIES;
    if turn + i < |history| then history[turn + i]
    else if turn >= MAX_EVENT_LOG_ENTRIES then history[turn - MAX_EVENT_LOG_ENTRIES + i]
    else ""
  }

  function Slots(history: seq<string>): (s: seq<string>)
    ensures |s| == MAX_EVENT_LOG_ENTRIES
  {
    seq(MAX_EVENT_LOG_ENTRIES, i requires 0 <= i < MAX_EVENT_LOG_ENTRIES => Slot(history, i))
  }

  /** The entries among `slots` that are not empty. */
  function Used(slots: seq<string>): seq<string> {
    if slots == [] then []
    else if slots[0] == "" then Used(slots[1..])
    else [slots[0]] + Used(slots[1..])
  }

  class EventRing {
    const mEventLog: array<string>
    var mEventLogIndex: int
    ghost var history: seq<string>

    ghost predicate Valid()
      reads this, mEventLog
    {
      && mEventLog.Length == MAX_EVENT_LOG_ENTRIES
      && mEventLogIndex == |history| % MAX_EVENT_LOG_ENTRIES
      && mEventLog[..] == Slots(history)
      && "" !in history
    }

    constructor ()
      ensures Valid() && history == [] && fresh(mEventLog)
    {
      mEventLog := new string[MAX_EVENT_LOG_ENTRIES](_ => "");
      mEventLogIndex, history := 0, [];
      new;
      ClearEventLog();
    }

    method ClearEventLog()
      requires mEventLog.Length == MAX_EVENT_LOG_ENTRIES
      modifies this, mEventLog
      ensures Valid() && history == []
    {
      for i := 0 to MAX_EVENT_LOG_ENTRIES
        invariant forall k :: 0 <= k < i ==> mEventLog[k] == ""
      {
        mEventLog[i] := "";
      }
      mEventLogIndex, history := 0, [];
    }

    method AddToEventLog(date: string, time: string, text: string)
      requires Valid()
      modifies this, mEventLog
      ensures Valid() && history == old(history) + [date + " " + time + "  " + text]
    {
      ghost var at := mEventLogIndex;
      mEventLog[mEventLogIndex] := date;
      mEventLog[mEventLogIndex] := mEventLog[mEventLogIndex] + " ";
      mEventLog[mEventLogIndex] := mEventLog[mEventLogIndex] + time;
      mEventLog[mEventLogIndex] := mEventLog[mEventLogIndex] + "  ";
      mEventLog[mEventLogIndex] := mEventLog[mEventLogIndex] + text;
      mEventLogIndex := Rem(mEventLogIndex + 1, MAX_EVENT_LOG_ENTRIES);
      SlotsAfter(history, Entry(date, time, text));
      assert mEventLog[..] == old(mEventLog[..])[at := Entry(date, time, text)];
      history := history + [Entry(date, time, text)];
    }

    method GetEventLog() returns (contents: string)
      requires Valid()
      ensures contents == Render(Shown(history))
    {
      hide Slots;
      hide Rotated;
      hide Used;
      hide Render;
      hide Shown;
      contents := "";
      var index := Rem(Abs(mEventLogIndex - 1), MAX_EVENT_LOG_ENTRIES);
      var last := Abs(Rem(mEventLogIndex - 1, MAX_EVENT_LOG_ENTRIES));
      StartIsEnd(mEventLogIndex);
      ghost var ring := Rotated(Slots(history), last + 1);
      RingStep(Slots(history), last, 0);
      ghost var i := 0;
      var more := true;
      RenderNothing();
      while more
        invariant 0 <= i <= MAX_EVENT_LOG_ENTRIES == |ring|
        invariant index == (last + i) % MAX_EVENT_LOG_ENTRIES
        invariant more <==> i < MAX_EVENT_LOG_ENTRIES
        invariant contents == Render(Used(ring[..i]))
        decreases MAX_EVENT_LOG_ENTRIES - i
      {
        index := Rem(index + 1, MAX_EVENT_LOG_ENTRIES);
        RingStep(Slots(history), last, i);
        assert mEventLog[index] == mEventLog[..][index];
        UsedAppend(ring[..i], ring[i]);
        assert ring[..i] + [ring[i]] == ring[..i + 1];
        if |mEventLog[index]| != 0 {
          RenderAppend(Used(ring[..i]), mEventLog[index]);
          contents := contents + mEventLog[index];
          contents := contents + "\r\n";
        }
        i := i + 1;
        more := index != last;
      }
      assert ring[..MAX_EVENT_LOG_ENTRIES] == ring;
      RingShows(history);
    }
  }

  // ---------------------------------------------------------------- why

  lemma SlotsAfter(history: seq<string>, e: string)
    ensures Slots(history + [e]) == Slots(history)[|history| % MAX_EVENT_LOG_ENTRIES := e]
    ensures (|history| + 1) % MAX_EVENT_LOG_ENTRIES
         == Rem(|history| % MAX_EVENT_LOG_ENTRIES + 1, MAX_EVENT_LOG_ENTRIES)
  {
  }

  lemma {:induction false} UsedAppend(s: seq<string>, e: string)
    ensures Used(s + [e]) == if e == "" then Used(s) else Used(s) + [e]
  {
    if s != [] {
      UsedAppend(s[1..], e);
      assert (s + [e])[1..] == s[1..] + [e];
    }
  }

  lemma {:induction false} RenderAppend(s: seq<string>, e: string)
    ensures Render(s + [e]) == Render(s) + e + "\r\n"
  {
    if s == [] {
      assert s + [e] == [e] && [e][1..] == [];
    } else {
      RenderAppend(s[1..], e);
      assert (s + [e])[1..] == s[1..] + [e];
    }
  }

  lemma RenderNothing()
    ensures Render(Used([])) == ""
  {
  }

  /** The walk starts one slot behind its end, whatever the index. */
  lemma StartIsEnd(index: int)
    requires 0 <= index < MAX_EVENT_LOG_ENTRIES
    ensures var last := Abs(Rem(index - 1, MAX_EVENT_LOG_ENTRIES));
      && Rem(Abs(index - 1), MAX_EVENT_LOG_ENTRIES) == last < MAX_EVENT_LOG_ENTRIES
      && last == Abs(index - 1)
  {
  }

  /** One step of the walk: the slot reached, and whether it is the last one. */
  lemma RingStep(slots: seq<string>, last: nat, i: nat)
    requires |slots| == MAX_EVENT_LOG_ENTRIES
    requires last < MAX_EVENT_LOG_ENTRIES && i < MAX_EVENT_LOG_ENTRIES
    ensures var next := Rem((last + i) % MAX_EVENT_LOG_ENTRIES + 1, MAX_EVENT_LOG_ENTRIES);
      && next == (last + i + 1) % MAX_EVENT_LOG_ENTRIES
      && Rotated(slots, last + 1)[i] == slots[next]
      && (next == last <==> i + 1 == MAX_EVENT_LOG_ENTRIES)
    ensures |Rotated(slots, last + 1)| == MAX_EVENT_LOG_ENTRIES
  {
    var sum := last + i;
    assert sum % MAX_EVENT_LOG_ENTRIES == if sum < MAX_EVENT_LOG_ENTRIES then sum else sum - MAX_EVENT_LOG_ENTRIES;
  }

  function Blanks(n: nat): (s: seq<string>)
    ensures |s| == n && forall i :: 0 <= i < n ==> s[i] == ""
  {
    if n == 0 then [] else [""] + Blanks(n - 1)
  }

  lemma {:induction false} UsedAll(s: seq<string>)
    requires "" !in s
    ensures Used(s) == s
  {
    if s != [] {
      UsedAll(s[1..]);
    }
  }

  lemma {:induction false} UsedSkips(n: nat, s: seq<string>)
    requires "" !in s
    ensures Used(Blanks(n) + s) == s
  {
    if n == 0 {
      assert Blanks(0) + s == s;
      UsedAll(s);
    } else {
      UsedSkips(n - 1, s);
      assert (Blanks(n) + s)[1..] == Blanks(n - 1) + s;
    }
  }

  lemma PartSlots(history: seq<string>)
    requires |history| < MAX_EVENT_LOG_ENTRIES
    ensures Slots(history)[..|history|] == history
    ensures forall i :: |history| <= i < MAX_EVENT_LOG_ENTRIES ==> Slots(history)[i] == ""
  {
    assert |history| % MAX_EVENT_LOG_ENTRIES == |history|;
  }

  lemma AllBlank(s: seq<string>)
    requires forall i :: 0 <= i < |s| ==> s[i] == ""
    ensures s == Blanks(|s|)
  {
    hide Blanks;
  }

  lemma EmptyRing(slots: seq<string>)
    requires |slots| >= 2 && forall i :: 0 <= i < |slots| ==> slots[i] == ""
    ensures Rotated(slots, 2) == Blanks(|slots|) + []
  {
    hide Blanks;
    var r := Rotated(slots, 2);
    assert |r| == |slots|;
    AllBlank(r);
    assert r + [] == r;
  }

  lemma UsedRing(slots: seq<string>, n: nat)
    requires n < |slots| && forall i :: n <= i < |slots| ==> slots[i] == ""
    ensures Rotated(slots, n) == Blanks(|slots| - n) + slots[..n]
  {
    hide Blanks;
    AllBlank(slots[n..]);
  }

  lemma FullRing(history: seq<string>)
    requires |history| >= MAX_EVENT_LOG_ENTRIES
    ensures Rotated(Slots(history), Abs(|history| % MAX_EVENT_LOG_ENTRIES - 1) + 1) == Shown(history)
  {
    FullSlots(history);
    hide Slots;
    hide Slot;
    var k := |history| % MAX_EVENT_LOG_ENTRIES;
    var slots, w := Slots(history), Window(history);
    if k > 0 {
      assert slots[k..] + slots[..k] == w;
    } else {
      assert slots == w;
    }
  }

  lemma FullSlots(history: seq<string>)
    requires |history| >= MAX_EVENT_LOG_ENTRIES
    ensures var k := |history| % MAX_EVENT_LOG_ENTRIES;
      var w := Window(history);
      forall i :: 0 <= i < MAX_EVENT_LOG_ENTRIES ==>
        Slots(history)[i] == if i < k then w[MAX_EVENT_LOG_ENTRIES - k + i] else w[i - k]
  {
  }

  lemma ShownWereLogged(history: seq<string>)
    ensures forall e :: e in Shown(history) ==> e in history
  {
  }

  lemma EmptyRingShows(history: seq<string>)
    requires history == []
    ensures Used(Rotated(Slots(history), 2)) == []
  {
    hide Slots;
    hide Slot;
    hide Rotated;
    hide Blanks;
    hide Used;
    PartSlots(history);
    EmptyRing(Slots(history));
    UsedSkips(|Slots(history)|, []);
  }

  lemma PartRingShows(history: seq<string>)
    requires "" !in history && |history| < MAX_EVENT_LOG_ENTRIES
    ensures Used(Rotated(Slots(history), |history|)) == history
  {
    hide Slots;
    hide Slot;
    hide Rotated;
    hide Blanks;
    hide Used;
    PartSlots(history);
    UsedRing(Slots(history), |history|);
    UsedSkips(|Slots(history)| - |history|, history);
  }

  /** Going once around the ring from where getEventLog starts gives the entries to show. */
  lemma RingShows(history: seq<string>)
    requires "" !in history
    ensures var k := |history| % MAX_EVENT_LOG_ENTRIES;
      Used(Rotated(Slots(history), Abs(k - 1) + 1)) == Shown(history)
  {
    hide Slots;
    hide Used;
    hide Rotated;
    if history == [] {
      EmptyRingShows(history);
    } else if |history| < MAX_EVENT_LOG_ENTRIES {
      PartRingShows(history);
    } else {
      FullRing(history);
      ShownWereLogged(history);
      UsedAll(Shown(history));
    }
  }

  /** Every one of the last 256 events is shown, once. */
  lemma ShowsTheWindow(history: seq<string>)
    ensures multiset(Shown(history))
         == multiset(if |history| <= 256 then history else history[|history| - 256..])
    ensures |Shown(history)| == if |history| < 256 then |history| else 256
  {
    var w := Window(history);
    if |w| >= 2 { assert w == w[..2] + w[2..]; }
  }

  /** Every second entry is the same, as far as the window goes. */
  ghost predicate Alternating(w: seq<string>) {
    forall i :: 0 <= i < |w| - 2 ==> w[i] == w[i + 2]
  }

  lemma {:induction false} AlternatingFrom(w: seq<string>, i: nat)
    requires Alternating(w) && 2 * i + 1 < |w|
    ensures w[2 * i] == w[0] && w[2 * i + 1] == w[1]
  {
    if i > 0 {
      AlternatingFrom(w, i - 1);
      assert w[2 * i - 2] == w[2 * i - 2 + 2] && w[2 * i - 1] == w[2 * i - 1 + 2];
    }
  }

  lemma RotationIff(w: seq<string>)
    requires |w| == MAX_EVENT_LOG_ENTRIES
    ensures Rotated(w, 2) == w <==> Alternating(w)
  {
    var r := Rotated(w, 2);
    assert forall i :: 0 <= i < |w| - 2 ==> r[i] == w[i + 2];
    if Alternating(w) {
      AlternatingFrom(w, 127);
      assert r[254] == w[0] && r[255] == w[1];
    }
  }

  /**
   The log is in chronological order exactly when the ring index is not 0, or
   nothing was logged, or the entries merely alternate between two texts.
   */
  lemma ChronologicalIff(history: seq<string>)
    ensures Shown(history) == Window(history)
      <==> |history| % MAX_EVENT_LOG_ENTRIES != 0 || history == [] || Alternating(Window(history))
  {
    if |history| % MAX_EVENT_LOG_ENTRIES == 0 && history != [] {
      RotationIff(Window(history));
    }
  }

  /** `n` events, the first unlike the others. */
  function OddOneFirst(n: nat): (h: seq<string>)
    ensures |h| == n && forall i :: 0 <= i < n ==> h[i] == if i == 0 then "first" else "later"
  {
    seq(n, i => if i == 0 then "first" else "later")
  }

  /** After 256 events the oldest is shown behind all but one of the others. */
  lemma OldestShownLate()
    ensures var h := OddOneFirst(MAX_EVENT_LOG_ENTRIES);
      Window(h)[0] == "first" && Shown(h) != Window(h)
      && |Shown(h)| == MAX_EVENT_LOG_ENTRIES && Shown(h)[254] == "first"
  {
    hide OddOneFirst;
    var h := OddOneFirst(MAX_EVENT_LOG_ENTRIES);
    assert Window(h) == h;
    assert h[0] != h[2];
    ChronologicalIff(h);
  }
}
