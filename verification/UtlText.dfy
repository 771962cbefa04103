/**
 The operations of the UtlString class that the log converters use, on values.
 A `size_t` result of "not found" that the callers store in an `int` is -1 here.
 */
module UtlText {

  ghost predicate MatchesAt(s: string, p: string, i: int) {
    0 <= i && i + |p| <= |s| && s[i..i + |p|] == p
  }

  /** UtlString::index: the first occurrence of `p` at or after `start`, or -1. */
  function Index(s: string, p: string, start: nat): (r: int)
    ensures r == -1 || (start <= r && MatchesAt(s, p, r))
    ensures forall i :: start <= i && MatchesAt(s, p, i) ==> 0 <= r <= i
    decreases |s| - start
  {
    if start + |p| > |s| then -1
    else if s[start..start + |p|] == p then start
    else Index(s, p, start + 1)
  }

  lemma IndexInside(s: string, p: string, start: nat)
    ensures Index(s, p, start) >= 0 ==> start <= Index(s, p, start) && Index(s, p, start) + |p| <= |s|
  {
  }

  /** UtlString::remove(0, n): a length beyond the end leaves the string alone. */
  function RemoveFront(s: string, n: nat): (r: string)
    ensures n > |s| ==> r == s
    ensures n <= |s| ==> s[..n] + r == s
  {
    if 0 < n <= |s| then s[n..] else s
  }

  /** What a `char*` argument denotes: everything before the first NUL. */
  function CStr(s: string): (r: string)
    ensures r <= s && '\0' !in r
    ensures '\0' !in s ==> r == s
    ensures r != s ==> s[|r|] == '\0'
  {
    if s == "" || s[0] == '\0' then "" else [s[0]] + CStr(s[1..])
  }

  function Repeated(c: char, n: nat): (s: string)
    ensures |s| == n && forall i :: 0 <= i < n ==> s[i] == c
  {
    if n == 0 then "" else [c] + Repeated(c, n - 1)
  }

  function Concat(parts: seq<string>): string {
    if parts == [] then "" else parts[0] + Concat(parts[1..])
  }

  /** The text that arrives through reads: of each of them, what is in front of its first NUL. */
  function Received(chunks: seq<string>): string {
    if chunks == [] then "" else CStr(chunks[0]) + Received(chunks[1..])
  }

  /** Reads without NULs arrive as they are; the read at end of file adds nothing. */
  lemma {:induction false} ReceivedIsConcat(chunks: seq<string>)
    ensures (forall c :: c in chunks ==> '\0' !in c) ==> Received(chunks) == Concat(chunks)
    ensures Received(chunks + [""]) == Received(chunks)
  {
    if chunks == [] {
      assert [""][1..] == [];
    } else {
      ReceivedIsConcat(chunks[1..]);
      assert chunks[0] in chunks;
      assert (chunks + [""])[1..] == chunks[1..] + [""];
    }
  }

  /** `p` never overlaps itself: its last character occurs nowhere else in it. */
  ghost predicate EndsUniquely(p: string) {
    p != "" && forall k :: 0 <= k < |p| - 1 ==> p[k] != p[|p| - 1]
  }

  lemma MatchChars(s: string, p: string, i: int, k: int)
    requires MatchesAt(s, p, i) && 0 <= k < |p|
    ensures s[i + k] == p[k]
  {
    assert s[i..i + |p|][k] == p[k];
  }

  /** An occurrence in `a + b` that ends within `a` is an occurrence in `a`, and conversely. */
  lemma MatchInPrefix(a: string, b: string, p: string, i: int)
    requires 0 <= i && i + |p| <= |a|
    ensures MatchesAt(a + b, p, i) <==> MatchesAt(a, p, i)
  {
    assert (a + b)[i..i + |p|] == a[i..i + |p|];
  }

  lemma MatchInSuffix(a: string, b: string, p: string, i: int)
    requires |a| <= i
    ensures MatchesAt(a + b, p, i) <==> MatchesAt(b, p, i - |a|)
  {
    if i + |p| <= |a| + |b| {
      assert (a + b)[i..i + |p|] == b[i - |a|..i - |a| + |p|];
    }
  }

  /** A border-free pattern planted after `a` cannot also match astride the end of `a`. */
  lemma NoMatchAstride(a: string, p: string, b: string, i: int)
    requires EndsUniquely(p) && 0 <= i < |a| < i + |p|
    ensures !MatchesAt(a + (p + b), p, i)
  {
    if MatchesAt(a + (p + b), p, i) {
      MatchChars(a + (p + b), p, i, |p| - 1);
    }
  }

  /** A border-free pattern placed after text without it is found exactly there. */
  lemma IndexOfPlanted(a: string, p: string, b: string)
    requires EndsUniquely(p) && Index(a, p, 0) == -1
    ensures Index(a + (p + b), p, 0) == |a|
  {
    MatchInSuffix(a, p + b, p, |a|);
    assert MatchesAt(p + b, p, 0);
    forall i | 0 <= i < |a|
      ensures !MatchesAt(a + (p + b), p, i)
    {
      if i + |p| <= |a| {
        MatchInPrefix(a, p + b, p, i);
      } else {
        NoMatchAstride(a, p, b, i);
      }
    }
  }
}
