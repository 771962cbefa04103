/**
 OsSysLog::escape and unescape, which put a message on one log line and take it
 off again.
 */
module SysLogEscape {
  import opened UtlText

  predicate Special(c: char) {
    c == '\\' || c == '\r' || c == '\n' || c == '"'
  }

  /** The letter that stands for a special character behind a backslash. */
  function Letter(c: char): char
    requires Special(c)
  {
    if c == '\r' then 'r' else if c == '\n' then 'n' else c
  }

  predicate EscapeLetter(c: char) {
    c == '\\' || c == '"' || c == 'r' || c == 'n'
  }

  function Meaning(c: char): char
    requires EscapeLetter(c)
  {
    if c == 'r' then '\r' else if c == 'n' then '\n' else c
  }

  function EscapeAll(s: string): string {
    if s == "" then ""
    else if Special(s[0]) then ['\\', Letter(s[0])] + EscapeAll(s[1..])
    else [s[0]] + EscapeAll(s[1..])
  }

  /** Nothing to escape. */
  predicate Plain(s: string) {
    forall i :: 0 <= i < |s| ==> !Special(s[i])
  }

  lemma {:induction false} EscapeAppends(s: string, t: string)
    ensures EscapeAll(s + t) == EscapeAll(s) + EscapeAll(t)
  {
    if s == "" {
      assert s + t == t;
    } else {
      assert (s + t)[1..] == s[1..] + t;
      EscapeAppends(s[1..], t);
    }
  }

  lemma {:induction false} EscapePlain(s: string)
    requires Plain(s)
    ensures EscapeAll(s) == s
  {
    if s != "" {
      EscapePlain(s[1..]);
    }
  }

  lemma EscapeOne(c: char)
    ensures EscapeAll([c]) == if Special(c) then ['\\', Letter(c)] else [c]
  {
    assert [c][1..] == "";
  }

  /** Escaping goes character by character, and changes four of them. */
  lemma WhatIsEscaped(c: char, more: string)
    ensures EscapeAll("") == ""
    ensures EscapeAll([c] + more)
         == (if c == '\n' then "\\n" else if c == '\r' then "\\r" else if c == '\\' then "\\\\"
             else if c == '"' then "\\\"" else [c]) + EscapeAll(more)
  {
    assert ([c] + more)[0] == c && ([c] + more)[1..] == more;
  }

  /** A stretch without special characters is copied. */
  lemma EscapeThrough(s: string, from: nat, to: nat)
    requires from <= to <= |s| && Plain(s[from..to])
    ensures EscapeAll(s[..to]) == EscapeAll(s[..from]) + s[from..to]
  {
    hide EscapeAll;
    EscapePlain(s[from..to]);
    EscapeAppends(s[..from], s[from..to]);
    assert s[..from] + s[from..to] == s[..to];
  }

  /** A special character takes two places. */
  lemma EscapeNext(s: string, i: nat)
    requires i < |s| && Special(s[i])
    ensures EscapeAll(s[..i + 1]) == EscapeAll(s[..i]) + ['\\', Letter(s[i])]
  {
    hide EscapeAll;
    EscapeAppends(s[..i], [s[i]]);
    EscapeOne(s[i]);
    assert s[..i] + [s[i]] == s[..i + 1];
  }

  lemma PlainNext(s: string, from: nat, i: nat)
    requires from <= i < |s| && Plain(s[from..i])
    ensures Plain(s[from..i + 1]) <==> !Special(s[i])
    ensures Plain(s[i + 1..i + 1])
  {
    assert s[from..i + 1] == s[from..i] + [s[i]];
    assert s[from..i + 1][i - from] == s[i];
  }

  /** The text up to the first NUL, escaped; text with nothing to escape is returned whole. */
  method Escape(source: string) returns (results: string)
    ensures results == if Plain(CStr(source)) then source else EscapeAll(CStr(source))
  {
    hide EscapeAll;
    hide Special;
    results := "";
    var text := CStr(source);
    var pTraverse, pLast := 0, 0;
    EscapePlain("");
    while pTraverse < |text|
      invariant 0 <= pLast <= pTraverse <= |text|
      invariant Plain(text[pLast..pTraverse])
      invariant results == EscapeAll(text[..pLast])
      invariant pLast > 0 ==> Special(text[pLast - 1])
    {
      PlainNext(text, pLast, pTraverse);
      if Special(text[pTraverse]) {
        EscapeThrough(text, pLast, pTraverse);
        EscapeNext(text, pTraverse);
        if pLast < pTraverse {
          results := results + text[pLast..pTraverse];
        }
        pLast := pTraverse + 1;
        results := results + ['\\', Letter(text[pTraverse])];
      }
      pTraverse := pTraverse + 1;
    }
    assert text[..|text|] == text && text[0..|text|] == text;
    EscapeThrough(text, pLast, |text|);
    if pLast == 0 {
      return source;
    } else if pLast < pTraverse {
      results := results + text[pLast..pTraverse];
    }
  }

  // ---------------------------------------------------------------- unescape

  /** Was there an escape; the text up to the last escape, decoded; and the text behind it. */
  datatype Decoded = Decoded(found: bool, body: string, tail: string)

  function Raw(raw: string, d: Decoded): Decoded {
    if d.found then Decoded(true, raw + d.body, d.tail) else Decoded(false, "", raw + d.tail)
  }

  function Meant(c: char, d: Decoded): Decoded {
    Decoded(true, [c] + d.body, d.tail)
  }

  function Decode(s: string): (d: Decoded)
    ensures !d.found ==> d.body == ""
  {
    if s == "" then Decoded(false, "", "")
    else if s[0] == '\\' && |s| >= 2 then
      if EscapeLetter(s[1]) then Meant(Meaning(s[1]), Decode(s[2..]))
      else Raw(s[..2], Decode(s[2..]))
    else Raw(s[..1], Decode(s[1..]))
  }

  /** The final append is one character short. */
  function UnescapeAll(s: string): string {
    var d := Decode(s);
    if !d.found then s
    else if d.tail == "" then d.body
    else d.body + d.tail[..|d.tail| - 1]
  }

  /** What was decoded so far, the raw text since, and the rest. */
  function Joined(done: string, found: bool, raw: string, d: Decoded): Decoded {
    if d.found then Decoded(true, done + raw + d.body, d.tail)
    else Decoded(found, done, raw + d.tail)
  }

  lemma JoinStart(d: Decoded)
    requires !d.found ==> d.body == ""
    ensures Joined("", false, "", d) == d
  {
    assert "" + "" + d.body == d.body && "" + d.tail == d.tail;
  }

  lemma JoinRaw(done: string, found: bool, raw: string, more: string, d: Decoded)
    ensures Joined(done, found, raw, Raw(more, d)) == Joined(done, found, raw + more, d)
  {
    assert done + raw + (more + d.body) == done + (raw + more) + d.body;
    assert raw + (more + d.tail) == (raw + more) + d.tail;
  }

  lemma JoinMeant(done: string, found: bool, raw: string, c: char, d: Decoded)
    requires !d.found ==> d.body == ""
    ensures Joined(done, found, raw, Meant(c, d)) == Joined(done + raw + [c], true, "", d)
  {
    if d.found {
      assert done + raw + ([c] + d.body) == (done + raw + [c]) + "" + d.body;
    } else {
      assert [c] + d.body == [c];
      assert done + raw + [c] == done + raw + ([c] + d.body);
      assert "" + d.tail == d.tail;
    }
  }

  /** An ordinary character. */
  lemma PlainStep(text: string, done: string, found: bool, from: nat, i: nat)
    requires from <= i < |text| && text[i] != '\\'
    ensures Joined(done, found, text[from..i], Decode(text[i..]))
         == Joined(done, found, text[from..i + 1], Decode(text[i + 1..]))
  {
    hide Decode;
    hide Joined;
    hide Raw;
    DecodeStep(text[i..]);
    JoinRaw(done, found, text[from..i], text[i..][..1], Decode(text[i + 1..]));
    assert text[i..][1..] == text[i + 1..];
    assert text[from..i] + text[i..][..1] == text[from..i + 1];
  }

  /** A backslash at `i`, and the character behind it. */
  lemma EscapedStep(text: string, done: string, found: bool, from: nat, i: nat)
    requires from <= i < |text| - 1 && text[i] == '\\'
    ensures Joined(done, found, text[from..i], Decode(text[i..]))
         == if EscapeLetter(text[i + 1]) then
              Joined(done + text[from..i] + [Meaning(text[i + 1])], true, "", Decode(text[i + 2..]))
            else Joined(done, found, text[from..i + 2], Decode(text[i + 2..]))
  {
    hide Decode;
    hide Joined;
    hide Raw;
    hide Meant;
    DecodeStep(text[i..]);
    assert text[i..][1] == text[i + 1] && text[i..][2..] == text[i + 2..];
    var later := Decode(text[i + 2..]);
    if EscapeLetter(text[i + 1]) {
      JoinMeant(done, found, text[from..i], Meaning(text[i + 1]), later);
    } else {
      JoinRaw(done, found, text[from..i], text[i..][..2], later);
      assert text[from..i] + text[i..][..2] == text[from..i + 2];
    }
  }

  method Unescape(source: string) returns (results: string)
    ensures results == if Decode(CStr(source)).found then UnescapeAll(CStr(source)) else source
  {
    hide Decode;
    hide Joined;
    hide UnescapeAll;
    results := "";
    var text := CStr(source);
    var pTraverse, pLast := 0, 0;
    var bLastWasEscapeChar := false;
    assert text[0..] == text;
    JoinStart(Decode(text));
    while pTraverse < |text|
      invariant 0 <= pLast <= pTraverse <= |text|
      invariant bLastWasEscapeChar ==> pLast < pTraverse && text[pTraverse - 1] == '\\'
      invariant pLast == 0 ==> results == ""
      invariant var at := if bLastWasEscapeChar then pTraverse - 1 else pTraverse;
        Decode(text) == Joined(results, pLast != 0, text[pLast..at], Decode(text[at..]))
    {
      var c := text[pTraverse];
      if bLastWasEscapeChar {
        EscapedStep(text, results, pLast != 0, pLast, pTraverse - 1);
        if c == '\\' || c == '"' || c == 'r' || c == 'n' {
          if pLast < pTraverse {
            results := results + text[pLast..pTraverse - 1];
          }
          pLast := pTraverse + 1;
          results := results + [Meaning(c)];
          assert text[pLast..pTraverse + 1] == "";
        }
        bLastWasEscapeChar := false;
      } else if c == '\\' {
        bLastWasEscapeChar := true;
      } else {
        PlainStep(text, results, pLast != 0, pLast, pTraverse);
      }
      pTraverse := pTraverse + 1;
    }
    ScanEnds(text, results, pLast != 0, pLast, if bLastWasEscapeChar then pTraverse - 1 else pTraverse);
    if pLast == 0 {
      return source;
    }
    UnescapeIs(text, results, pLast);
    if pLast < pTraverse {
      results := results + text[pLast..pTraverse - 1];
    }
  }

  /** At the end of the text, perhaps with a backslash left over. */
  lemma ScanEnds(text: string, done: string, found: bool, from: nat, at: nat)
    requires from <= at <= |text|
    requires at == |text| || (at == |text| - 1 && text[at] == '\\')
    ensures Joined(done, found, text[from..at], Decode(text[at..])) == Decoded(found, done, text[from..])
  {
    hide Decode;
    DecodeEnd(text[at..]);
    JoinEnd(done, found, text[from..at], text[at..]);
    assert text[from..at] + text[at..] == text[from..];
  }

  lemma UnescapeIs(text: string, done: string, from: nat)
    requires from <= |text| && Decode(text) == Decoded(true, done, text[from..])
    ensures UnescapeAll(text) == if from < |text| then done + text[from..|text| - 1] else done
  {
    hide Decode;
    if from < |text| {
      assert text[from..][..|text| - from - 1] == text[from..|text| - 1];
    }
  }

  lemma JoinEnd(done: string, found: bool, raw: string, rest: string)
    ensures Joined(done, found, raw, Decoded(false, "", rest)) == Decoded(found, done, raw + rest)
  {
  }

  lemma DecodeStep(s: string)
    requires s != ""
    ensures s[0] == '\\' && |s| >= 2 ==>
      Decode(s) == if EscapeLetter(s[1]) then Meant(Meaning(s[1]), Decode(s[2..])) else Raw(s[..2], Decode(s[2..]))
    ensures s[0] != '\\' ==> Decode(s) == Raw(s[..1], Decode(s[1..]))
  {
  }

  lemma DecodeEnd(s: string)
    requires s == "" || s == "\\"
    ensures Decode(s) == Decoded(false, "", s)
  {
  }

  /** What decoding an escaped message gives: the message, cut behind its last special character. */
  ghost predicate Undone(m: string, d: Decoded) {
    && d.found == !Plain(m)
    && d.body + d.tail == m
    && (d.found ==> d.body != "" && Special(d.body[|d.body| - 1]))
    && (!d.found ==> d.body == "")
    && Plain(d.tail)
  }

  lemma {:induction false} DecodeUndoesEscape(m: string)
    ensures Undone(m, Decode(EscapeAll(m)))
  {
    hide Decode;
    hide Undone;
    if m == "" {
      DecodeEnd("");
      UndoneNothing();
    } else {
      DecodeUndoesEscape(m[1..]);
      var e, d := EscapeAll(m), Decode(EscapeAll(m[1..]));
      DecodeStep(e);
      if Special(m[0]) {
        assert e[2..] == EscapeAll(m[1..]);
        UndoneSpecial(m, d);
      } else {
        assert e[1..] == EscapeAll(m[1..]) && e[..1] == [m[0]];
        UndonePlain(m, d);
      }
    }
  }

  lemma UndoneNothing()
    ensures Undone("", Decoded(false, "", ""))
  {
  }

  lemma UndoneSpecial(m: string, d: Decoded)
    requires m != "" && Special(m[0]) && Undone(m[1..], d)
    ensures Undone(m, Meant(m[0], d))
  {
    assert m == [m[0]] + m[1..];
    assert ([m[0]] + d.body) + d.tail == [m[0]] + (d.body + d.tail);
    if d.body != "" {
      assert ([m[0]] + d.body)[|d.body|] == d.body[|d.body| - 1];
    } else {
      assert ([m[0]] + d.body)[0] == m[0];
    }
  }

  lemma UndonePlain(m: string, d: Decoded)
    requires m != "" && !Special(m[0]) && Undone(m[1..], d)
    ensures Undone(m, Raw([m[0]], d))
  {
    PlainCons(m);
    assert m == [m[0]] + m[1..];
    if d.found {
      assert ([m[0]] + d.body) + d.tail == [m[0]] + (d.body + d.tail);
      assert ([m[0]] + d.body)[|d.body|] == d.body[|d.body| - 1];
    } else {
      assert d.body + d.tail == d.tail;
      assert "" + ([m[0]] + d.tail) == m;
    }
  }

  lemma PlainCons(m: string)
    requires m != "" && !Special(m[0])
    ensures Plain(m) <==> Plain(m[1..])
  {
    if Plain(m[1..]) {
      assert forall i :: 0 < i < |m| ==> m[i] == m[1..][i - 1];
    }
  }

  lemma LastOfPlain(m: string, body: string, tail: string)
    requires m == body + tail && tail != "" && Plain(tail)
    ensures !Special(m[|m| - 1])
    ensures m[..|m| - 1] == body + tail[..|tail| - 1]
  {
    assert m[|m| - 1] == tail[|tail| - 1];
  }

  /** Character by character: the last append is harmless exactly where there is nothing left for it. */
  lemma RoundTripIff(m: string)
    ensures UnescapeAll(EscapeAll(m)) == m <==> Plain(m) || Special(m[|m| - 1])
    ensures UnescapeAll(EscapeAll(m)) != m ==> UnescapeAll(EscapeAll(m)) == m[..|m| - 1]
  {
    hide Decode;
    hide EscapeAll;
    hide Special;
    hide Plain;
    DecodeUndoesEscape(m);
    var d := Decode(EscapeAll(m));
    if !d.found {
      EscapePlain(m);
    } else if d.tail == "" {
      assert d.body + "" == d.body;
    } else {
      LastOfPlain(m, d.body, d.tail);
    }
  }

  // ---------------------------------------------------------------- what the two methods return

  /** What escape returns. */
  function Escaped(m: string): string {
    if Plain(CStr(m)) then m else EscapeAll(CStr(m))
  }

  /** What unescape returns. */
  function Unescaped(s: string): string {
    if Decode(CStr(s)).found then UnescapeAll(CStr(s)) else s
  }

  lemma {:induction false} EscapeAddsNoNul(s: string)
    requires '\0' !in s
    ensures '\0' !in EscapeAll(s)
  {
    if s != "" {
      assert s[0] in s;
      EscapeAddsNoNul(s[1..]);
    }
  }

  /** Text with something to escape in front of its first NUL. */
  lemma EscapedThenUnescaped(m: string)
    requires !Plain(CStr(m))
    ensures Unescaped(Escaped(m)) == UnescapeAll(EscapeAll(CStr(m)))
  {
    hide Decode;
    hide EscapeAll;
    hide UnescapeAll;
    EscapeAddsNoNul(CStr(m));
    DecodeUndoesEscape(CStr(m));
  }

  /**
   unescape undoes escape exactly for text without anything to escape in front
   of its first NUL, and for text without a NUL whose last character was
   escaped.  From other text what is behind a NUL is lost, and the last
   character in front of it unless that was escaped.
   */
  lemma UnescapeUndoesEscapeIff(m: string)
    ensures Unescaped(Escaped(m)) == m
      <==> Plain(CStr(m)) || (CStr(m) == m && Special(m[|m| - 1]))
    ensures !Plain(CStr(m)) ==>
      var c := CStr(m);
      Unescaped(Escaped(m)) == if Special(c[|c| - 1]) then c else c[..|c| - 1]
  {
    hide Decode;
    hide EscapeAll;
    hide UnescapeAll;
    hide Special;
    hide Plain;
    var c := CStr(m);
    if Plain(c) {
      EscapePlain(c);
      DecodeUndoesEscape(c);
    } else {
      EscapedThenUnescaped(m);
      RoundTripIff(c);
      NotPlain(c);
    }
  }

  lemma NotPlain(c: string)
    requires !Plain(c)
    ensures c != ""
  {
  }

  // ---------------------------------------------------------------- any text

  /** The text of a message, piece by piece: a raw character, or a backslash and what is behind it. */
  datatype Piece = Bare(c: char) | Escaping(c: char)

  predicate Proper(p: Piece) {
    p.Bare? ==> p.c != '\\'
  }

  function Source(ps: seq<Piece>): string {
    if ps == [] then ""
    else (if ps[0].Bare? then [ps[0].c] else ['\\', ps[0].c]) + Source(ps[1..])
  }

  /** Every text is made of such pieces, perhaps with a backslash left over. */
  lemma {:induction false} EveryText(text: string) returns (ps: seq<Piece>, left: string)
    ensures (forall p :: p in ps ==> Proper(p)) && (left == "" || left == "\\")
    ensures text == Source(ps) + left
    decreases |text|
  {
    if text == "" || text == "\\" {
      ps, left := [], text;
    } else {
      var n := if text[0] == '\\' then 2 else 1;
      var p := if n == 2 then Escaping(text[1]) else Bare(text[0]);
      var more;
      more, left := EveryText(text[n..]);
      ps := [p] + more;
      assert ps[1..] == more;
      assert text == text[..n] + text[n..];
    }
  }

  lemma SourceOne(p: Piece)
    ensures Source([p]) == if p.Bare? then [p.c] else ['\\', p.c]
  {
    assert [p][1..] == [];
  }

  /** The four escapes that are decoded. */
  predicate Known(p: Piece) {
    p.Escaping? && (p.c == 'n' || p.c == 'r' || p.c == '\\' || p.c == '"')
  }

  /** Any other escape stays as it is. */
  function PieceMeant(p: Piece): string {
    if p.Bare? then [p.c]
    else if p.c == 'n' then "\n"
    else if p.c == 'r' then "\r"
    else if p.c == '\\' then "\\"
    else if p.c == '"' then "\""
    else ['\\', p.c]
  }

  function TextMeant(ps: seq<Piece>): string {
    if ps == [] then "" else PieceMeant(ps[0]) + TextMeant(ps[1..])
  }

  ghost predicate AnyKnown(ps: seq<Piece>) {
    exists i :: 0 <= i < |ps| && Known(ps[i])
  }

  /** What is decoded of a text, and whether its last piece was. */
  ghost predicate DecodedAs(ps: seq<Piece>, left: string, d: Decoded) {
    && (d.found <==> AnyKnown(ps))
    && d.body + d.tail == TextMeant(ps) + left
    && (d.found ==> (d.tail == "" <==> left == "" && Known(ps[|ps| - 1])))
    && (!d.found ==> d.body == "" && d.tail == Source(ps) + left)
  }

  lemma {:induction false} DecodeText(ps: seq<Piece>, left: string)
    requires (forall p :: p in ps ==> Proper(p)) && (left == "" || left == "\\")
    ensures DecodedAs(ps, left, Decode(Source(ps) + left))
    decreases |ps|
  {
    hide Decode;
    hide DecodedAs;
    if ps == [] {
      assert "" + left == left;
      DecodeEnd(left);
      DecodedNothing(left);
    } else {
      var p, more := ps[0], ps[1..];
      var text := Source(more) + left;
      assert forall q :: q in more ==> q in ps;
      DecodeText(more, left);
      SourceOne(p);
      assert Source(ps) + left == Source([p]) + text;
      DecodeFirst(p, text);
      if Known(p) {
        DecodedKnown(ps, left, Decode(text));
      } else {
        DecodedOther(ps, left, Decode(text));
      }
    }
  }

  lemma DecodedNothing(left: string)
    ensures DecodedAs([], left, Decoded(false, "", left))
  {
    assert "" + left == left;
  }

  lemma DecodeFirst(p: Piece, text: string)
    requires Proper(p)
    ensures Decode(Source([p]) + text)
         == if Known(p) then Meant(PieceMeant(p)[0], Decode(text)) else Raw(Source([p]), Decode(text))
  {
    hide Decode;
    SourceOne(p);
    var s := Source([p]) + text;
    DecodeStep(s);
    assert s[|Source([p])|..] == text && s[..|Source([p])|] == Source([p]);
  }

  lemma KnownMeant(p: Piece)
    ensures Known(p) ==> PieceMeant(p) == [PieceMeant(p)[0]]
    ensures Proper(p) && !Known(p) ==> PieceMeant(p) == Source([p])
  {
    SourceOne(p);
  }

  lemma Assoc(a: string, b: string, c: string)
    ensures (a + b) + c == a + (b + c)
  {
  }

  lemma TextCons(ps: seq<Piece>, left: string)
    requires ps != []
    ensures TextMeant(ps) + left == PieceMeant(ps[0]) + (TextMeant(ps[1..]) + left)
    ensures Source(ps) + left == Source([ps[0]]) + (Source(ps[1..]) + left)
  {
    hide PieceMeant;
    SourceOne(ps[0]);
    Assoc(PieceMeant(ps[0]), TextMeant(ps[1..]), left);
    Assoc(Source([ps[0]]), Source(ps[1..]), left);
  }

  lemma SourceNotEmpty(ps: seq<Piece>)
    ensures Source(ps) == "" <==> ps == []
  {
  }

  lemma DecodedKnown(ps: seq<Piece>, left: string, d: Decoded)
    requires ps != [] && Known(ps[0]) && DecodedAs(ps[1..], left, d)
    ensures DecodedAs(ps, left, Meant(PieceMeant(ps[0])[0], d))
  {
    hide Known;
    hide PieceMeant;
    hide AnyKnown;
    hide TextMeant;
    hide Source;
    KnownMeant(ps[0]);
    var c := PieceMeant(ps[0])[0];
    TextCons(ps, left);
    Assoc([c], d.body, d.tail);
    LastKnown(ps);
    if |ps| > 1 { LastKnown(ps[1..]); }
    SourceNotEmpty(ps[1..]);
    assert d.tail == "" && !d.found ==> Source(ps[1..]) == "" && left == "";
  }

  lemma DecodedOther(ps: seq<Piece>, left: string, d: Decoded)
    requires ps != [] && Proper(ps[0]) && !Known(ps[0]) && DecodedAs(ps[1..], left, d)
    ensures DecodedAs(ps, left, Raw(Source([ps[0]]), d))
  {
    hide Known;
    hide PieceMeant;
    hide AnyKnown;
    hide TextMeant;
    hide Source;
    var x := Source([ps[0]]);
    KnownMeant(ps[0]);
    TextCons(ps, left);
    Assoc(x, d.body, d.tail);
    assert "" + (x + d.tail) == x + d.tail && "" + d.tail == d.tail;
    LastKnown(ps);
  }

  lemma LastKnown(ps: seq<Piece>)
    requires ps != []
    ensures AnyKnown(ps) <==> Known(ps[0]) || AnyKnown(ps[1..])
    ensures AnyKnown(ps[1..]) ==> |ps| > 1
    ensures |ps| > 1 ==> ps[1..][|ps| - 2] == ps[|ps| - 1]
    ensures Known(ps[|ps| - 1]) ==> AnyKnown(ps)
  {
    if AnyKnown(ps[1..]) {
      var i :| 0 <= i < |ps[1..]| && Known(ps[1..][i]);
      assert Known(ps[i + 1]);
    }
    if AnyKnown(ps) {
      var i :| 0 <= i < |ps| && Known(ps[i]);
      assert i == 0 || Known(ps[1..][i - 1]);
    }
  }

  /**
   What unescape makes of any text: nothing changes if it holds no known
   escape; otherwise all of them are decoded, and the last character is lost
   unless it came out of one.
   */
  lemma WhatUnescapeReturns(s: string, ps: seq<Piece>, left: string)
    requires (forall p :: p in ps ==> Proper(p)) && (left == "" || left == "\\")
    requires CStr(s) == Source(ps) + left
    ensures Unescaped(s) ==
      if !AnyKnown(ps) then s
      else if left == "" && Known(ps[|ps| - 1]) then TextMeant(ps)
      else (TextMeant(ps) + left)[..|TextMeant(ps) + left| - 1]
  {
    hide Decode;
    hide Source;
    hide TextMeant;
    DecodeText(ps, left);
    var d := Decode(CStr(s));
    if d.found {
      assert d.tail == "" ==> d.body + d.tail == d.body && TextMeant(ps) + left == TextMeant(ps);
      assert d.tail != "" ==> (d.body + d.tail)[..|d.body + d.tail| - 1] == d.body + d.tail[..|d.tail| - 1];
    }
  }

  /** Both methods, one after the other. */
  method EscapeAndUnescape(m: string) returns (r: string)
    ensures r == m <==> Plain(CStr(m)) || (CStr(m) == m && Special(m[|m| - 1]))
  {
    hide Decode;
    hide EscapeAll;
    hide UnescapeAll;
    hide Special;
    hide Plain;
    var s := Escape(m);
    r := Unescape(s);
    UnescapeUndoesEscapeIff(m);
    assert s == Escaped(m) && r == Unescaped(s);
    NotPlainIsSomething(m);
  }

  lemma NotPlainIsSomething(m: string)
    ensures !Plain(CStr(m)) && CStr(m) == m ==> m != ""
  {
  }

  /** A newline and a letter: the letter is lost. */
  lemma UnescapeLosesALetter()
    ensures Unescaped(Escaped("\na")) == "\n"
  {
    hide UnescapeAll;
    hide EscapeAll;
    hide Decode;
    assert CStr("\na") == "\na";
    assert Special("\na"[0]) && !Special("\na"[1]);
    UnescapeUndoesEscapeIff("\na");
    assert "\na"[..1] == "\n";
  }

  /** Two newlines with a NUL between them: only the first comes back. */
  lemma UnescapeLosesBehindNul()
    ensures Unescaped(Escaped("\n\0\n")) == "\n"
  {
    hide UnescapeAll;
    hide EscapeAll;
    hide Decode;
    assert CStr("\n\0\n") == "\n";
    assert Special("\n"[0]);
    UnescapeUndoesEscapeIff("\n\0\n");
  }
}
