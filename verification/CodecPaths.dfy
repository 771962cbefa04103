/**
 The static vector of codec paths of CpMediaInterfaceFactoryImpl: all-or-nothing
 appends to an array that grows by doubling, in size_t arithmetic.
 */
module CodecPaths {
  import opened UtlText

  // The largest value of a 64-bit size_t.
  const SIZE_MAX: nat := 0xFFFF_FFFF_FFFF_FFFF

  const DEFAULT_NUM_CODEC_PATHS: nat := 10

  /** The regular expression sees the path up to its first NUL. */
  predicate ValidPath(path: string) {
    forall c :: c in CStr(path) ==> c !in "*?\"<>|"
  }

  ghost predicate Allowed(text: string) {
    forall i :: 0 <= i < |text| ==> text[i] !in {'*', '?', '"', '<', '>', '|'}
  }

  /** Six characters make a path invalid, if they stand in front of its first NUL. */
  lemma WhichPathsAreValid(path: string)
    ensures ValidPath(path) <==> Allowed(CStr(path))
  {
    AllowedIff(CStr(path));
  }

  lemma AllowedIff(text: string)
    ensures (forall c :: c in text ==> c !in "*?\"<>|") <==> Allowed(text)
  {
    if forall c :: c in text ==> c !in "*?\"<>|" {
      forall i | 0 <= i < |text|
        ensures text[i] !in {'*', '?', '"', '<', '>', '|'}
      {
        assert text[i] in text;
        NotAllowed(text[i]);
      }
    } else {
      var c :| c in text && c in "*?\"<>|";
      NotAllowed(c);
      var i :| 0 <= i < |text| && text[i] == c;
      assert text[i] in {'*', '?', '"', '<', '>', '|'};
    }
  }

  lemma NotAllowed(c: char)
    ensures c in "*?\"<>|" <==> c in {'*', '?', '"', '<', '>', '|'}
  {
  }

  /** The least doubling of `size` above `newSize`. */
  function Doubled(size: nat, newSize: nat): (r: nat)
    requires size > 0
    ensures newSize < r
    ensures size <= newSize ==> r <= 2 * newSize && 2 * size <= r
    ensures size > newSize ==> r == size
    decreases if newSize >= size then newSize - size + 1 else 0
  {
    if size <= newSize then Doubled(2 * size, newSize) else size
  }

  /** The capacity after ensureCapacityCodecPaths(newSize). */
  function Capacity(alloc: nat, newSize: nat): nat {
    if newSize <= alloc then alloc
    else if newSize > SIZE_MAX / 2 then newSize
    else Doubled(if alloc == 0 then DEFAULT_NUM_CODEC_PATHS else alloc, newSize)
  }

  lemma DoubledStep(size: nat, newSize: nat)
    requires size > 0
    ensures Doubled(size, newSize) == if size <= newSize then Doubled(2 * size, newSize) else size
  {
  }

  lemma CapacityIs(alloc: nat, newSize: nat)
    ensures Capacity(alloc, newSize) ==
      if newSize <= alloc then alloc
      else if newSize > SIZE_MAX / 2 then newSize
      else Doubled(if alloc == 0 then 10 else alloc, newSize)
  {
  }

  /** The sum that addCodecPaths asks for, which may wrap. */
  function WrappedSum(count: nat, n: nat): nat {
    (count + n) % (SIZE_MAX + 1)
  }

  /** The grown capacity suffices, never wraps, and is at most twice what was asked for. */
  lemma CapacitySuffices(alloc: nat, newSize: nat)
    requires alloc <= SIZE_MAX && newSize <= SIZE_MAX
    ensures newSize <= Capacity(alloc, newSize) <= SIZE_MAX
    ensures alloc <= Capacity(alloc, newSize)
    ensures newSize > alloc ==>
      Capacity(alloc, newSize) <= if 2 * newSize > 10 then 2 * newSize else 10
  {
  }

  function Pow2(k: nat): nat {
    if k == 0 then 1 else 2 * Pow2(k - 1)
  }

  /** Doubled is the least of size, 2 * size, 4 * size, ... that is above `newSize`. */
  lemma {:induction false} DoubledIsLeast(size: nat, newSize: nat) returns (k: nat)
    requires size > 0
    ensures Doubled(size, newSize) == size * Pow2(k) > newSize
    ensures k > 0 ==> size * Pow2(k - 1) <= newSize
    decreases if newSize >= size then newSize - size + 1 else 0
  {
    if size <= newSize {
      var j := DoubledIsLeast(2 * size, newSize);
      k := j + 1;
      TwiceInside(size, Pow2(j));
      if j > 0 { TwiceInside(size, Pow2(j - 1)); }
    } else {
      k := 0;
    }
  }

  lemma TwiceInside(a: nat, b: nat)
    ensures 2 * a * b == a * (2 * b)
  {
  }

  /**
   A vector that is too small grows to the least doubling above the size asked
   for, from 10 if it was empty; beyond half of size_t, to exactly that size.
   */
  lemma CapacityGrows(alloc: nat, newSize: nat) returns (k: nat)
    requires alloc < newSize < 0x1_0000_0000_0000_0000
    ensures var from := if alloc == 0 then 10 else alloc;
      if newSize < 0x8000_0000_0000_0000 then
        && Capacity(alloc, newSize) == from * Pow2(k) > newSize
        && (k > 0 ==> from * Pow2(k - 1) <= newSize)
      else Capacity(alloc, newSize) == newSize
  {
    k := DoubledIsLeast(if alloc == 0 then 10 else alloc, newSize);
  }

  /** There is room for the new paths exactly when the sum of the counts fits in a size_t. */
  lemma RoomIffSumFits(alloc: nat, count: nat, n: nat)
    requires count <= alloc <= SIZE_MAX && n <= SIZE_MAX
    ensures count + n <= Capacity(alloc, WrappedSum(count, n)) <==> count + n < 0x1_0000_0000_0000_0000
  {
    if count + n <= SIZE_MAX {
      assert WrappedSum(count, n) == count + n;
    } else {
      assert WrappedSum(count, n) == count + n - (SIZE_MAX + 1);
    }
    CapacitySuffices(alloc, WrappedSum(count, n));
  }

  // ---------------------------------------------------------------- the vector

  /** The static members of the factory; `copied` counts the elements that reallocation has moved. */
  class CodecPathList {
    var mpCodecPaths: array?<string>
    var mnAllocCodecPaths: nat
    var mnCodecPaths: nat
    ghost var copied: nat

    ghost predicate Valid()
      reads this, mpCodecPaths
    {
      && mnCodecPaths <= mnAllocCodecPaths <= SIZE_MAX
      && (mpCodecPaths == null <==> mnAllocCodecPaths == 0)
      && (mpCodecPaths != null ==> mpCodecPaths.Length == mnAllocCodecPaths)
    }

    ghost function Contents(): seq<string>
      reads this, mpCodecPaths
      requires Valid()
    {
      if mpCodecPaths == null then [] else mpCodecPaths[..mnCodecPaths]
    }

    ghost function Account(): Ledger
      reads this
    {
      Ledger(mnAllocCodecPaths, mnCodecPaths, copied)
    }

    constructor ()
      ensures Valid() && Contents() == [] && Account() == Ledger(0, 0, 0)
    {
      mpCodecPaths, mnAllocCodecPaths, mnCodecPaths, copied := null, 0, 0, 0;
    }

    method ClearCodecPaths()
      modifies this
      ensures Valid() && Contents() == [] && Account() == Ledger(0, 0, 0)
    {
      mpCodecPaths := null;
      mnAllocCodecPaths := 0;
      mnCodecPaths := 0;
      copied := 0;
    }

    method EnsureCapacityCodecPaths(newSize: nat)
      requires Valid() && newSize <= SIZE_MAX
      modifies this
      ensures Valid() && Contents() == old(Contents())
      ensures Account() == Grow(old(Account()), newSize)
      ensures mpCodecPaths == old(mpCodecPaths) || fresh(mpCodecPaths)
    {
      hide Doubled;
      hide Capacity;
      CapacityIs(mnAllocCodecPaths, newSize);
      if newSize <= mnAllocCodecPaths {
        return;
      }
      var newArraySz := mnAllocCodecPaths;
      if newArraySz == 0 {
        newArraySz := DEFAULT_NUM_CODEC_PATHS;
      }
      if newSize <= SIZE_MAX / 2 {
        ghost var size := newArraySz;
        while newArraySz <= newSize
          invariant 0 < newArraySz <= SIZE_MAX
          invariant Doubled(newArraySz, newSize) == Doubled(size, newSize)
          modifies {}
          decreases newSize - newArraySz
        {
          DoubledStep(newArraySz, newSize);
          newArraySz := newArraySz * 2;
        }
        DoubledStep(newArraySz, newSize);
      } else {
        newArraySz := newSize;
      }
      CapacitySuffices(mnAllocCodecPaths, newSize);

      var newArray := new string[newArraySz](_ => "");
      var i := 0;
      while i < mnCodecPaths
        invariant 0 <= i <= mnCodecPaths
        invariant forall k :: 0 <= k < i ==> newArray[k] == Contents()[k]
        invariant copied == old(copied) + i
        modifies newArray, this`copied
      {
        newArray[i] := mpCodecPaths[i];
        copied := copied + 1;
        i := i + 1;
      }
      mpCodecPaths := newArray;
      mnAllocCodecPaths := newArraySz;
    }

    /** The first loop of addCodecPaths: is every path syntactically valid? */
    static method CheckPaths(codecPaths: seq<string>) returns (ok: bool)
      ensures ok <==> forall p :: p in codecPaths ==> Allowed(CStr(p))
    {
      hide ValidPath;
      hide Allowed;
      var i := 0;
      while i < |codecPaths|
        invariant 0 <= i <= |codecPaths|
        invariant forall k :: 0 <= k < i ==> Allowed(CStr(codecPaths[k]))
      {
        WhichPathsAreValid(codecPaths[i]);
        if !ValidPath(codecPaths[i]) {
          return false;
        }
        i := i + 1;
      }
      return true;
    }

    /** Its second loop: the new paths go behind the stored ones. */
    method StorePaths(codecPaths: seq<string>)
      requires Valid() && mnCodecPaths + |codecPaths| <= mnAllocCodecPaths
      modifies mpCodecPaths, this`mnCodecPaths
      ensures Valid() && Contents() == old(Contents()) + codecPaths
      ensures Account() == old(Account()).(count := old(mnCodecPaths) + |codecPaths|)
    {
      ghost var was := Contents();
      var i := 0;
      while i < |codecPaths|
        invariant 0 <= i <= |codecPaths|
        invariant Contents() == was
        invariant forall k :: 0 <= k < i ==> mpCodecPaths[mnCodecPaths + k] == codecPaths[k]
        modifies mpCodecPaths
      {
        mpCodecPaths[mnCodecPaths + i] := codecPaths[i];
        i := i + 1;
      }
      mnCodecPaths := mnCodecPaths + |codecPaths|;
    }

    /** All of the paths are appended, or, if any is invalid, none is. */
    method AddCodecPaths(codecPaths: seq<string>) returns (ok: bool)
      requires Valid() && mnCodecPaths + |codecPaths| <= SIZE_MAX
      modifies this, mpCodecPaths
      ensures Valid()
      ensures ok <==> forall p :: p in codecPaths ==> Allowed(CStr(p))
      ensures ok ==> Contents() == old(Contents()) + codecPaths
      ensures ok ==> Account() == Add(old(Account()), |codecPaths|)
      ensures !ok ==> Contents() == old(Contents()) && Account() == old(Account())
    {
      hide Capacity;
      hide Allowed;
      ok := CheckPaths(codecPaths);
      if !ok {
        return;
      }
      var newSize := WrappedSum(mnCodecPaths, |codecPaths|);
      CapacitySuffices(mnAllocCodecPaths, newSize);
      EnsureCapacityCodecPaths(newSize);
      StorePaths(codecPaths);
    }
  }

  // ---------------------------------------------------------------- what growing costs

  /** Capacity, paths stored, and elements copied since the last clear. */
  datatype Ledger = Ledger(alloc: nat, count: nat, copied: nat)

  function Grow(l: Ledger, newSize: nat): Ledger {
    if newSize <= l.alloc then l
    else Ledger(Capacity(l.alloc, newSize), l.count, l.copied + l.count)
  }

  function Add(l: Ledger, n: nat): Ledger {
    Grow(l, l.count + n).(count := l.count + n)
  }

  function AddAll(l: Ledger, adds: seq<nat>): Ledger
    decreases |adds|
  {
    if adds == [] then l else AddAll(Add(l, adds[0]), adds[1..])
  }

  /** The reallocations so far are paid for by the paths stored. */
  ghost predicate Amortised(l: Ledger) {
    && l.count <= l.alloc
    && (l.alloc == 0 ==> l.copied == 0)
    && (l.alloc > 0 ==> l.copied + DEFAULT_NUM_CODEC_PATHS <= l.alloc)
    && (l.count > 0 ==> l.copied < 2 * l.count)
    && (l.count == 0 ==> l.copied == 0)
  }

  lemma AddIsAmortised(l: Ledger, n: nat)
    requires Amortised(l) && l.count + n <= SIZE_MAX / 2
    ensures Amortised(Add(l, n))
  {
  }

  lemma {:induction false} CountOnlyGrows(l: Ledger, adds: seq<nat>)
    ensures AddAll(l, adds).count >= l.count
    decreases |adds|
  {
    hide Grow;
    if adds != [] { CountOnlyGrows(Add(l, adds[0]), adds[1..]); }
  }

  lemma {:induction false} AddsAreAmortised(l: Ledger, adds: seq<nat>)
    requires Amortised(l) && AddAll(l, adds).count <= SIZE_MAX / 2
    ensures Amortised(AddAll(l, adds))
    decreases |adds|
  {
    hide Grow;
    if adds != [] {
      CountOnlyGrows(Add(l, adds[0]), adds[1..]);
      AddIsAmortised(l, adds[0]);
      AddsAreAmortised(Add(l, adds[0]), adds[1..]);
    }
  }

  /** Any sequence of adds copies fewer than two elements for every path stored. */
  lemma CopiesAreAmortised(adds: seq<nat>)
    requires AddAll(Ledger(0, 0, 0), adds).count <= SIZE_MAX / 2
    ensures var l := AddAll(Ledger(0, 0, 0), adds);
      l.count > 0 ==> l.copied < 2 * l.count
  {
    AddsAreAmortised(Ledger(0, 0, 0), adds);
  }

  /** `k` adds of one path each. */
  function Singles(k: nat): (s: seq<nat>)
    ensures |s| == k
  {
    if k == 0 then [] else [1] + Singles(k - 1)
  }

  /** Beyond half of size_t a full vector has no reserve: it is copied whole for every single path. */
  lemma {:induction false} SinglesBeyondHalf(l: Ledger, k: nat)
    requires l.alloc == l.count > SIZE_MAX / 2
    ensures var r := AddAll(l, Singles(k));
      r.alloc == r.count == l.count + k && r.copied >= l.copied + k * l.count
    decreases k
  {
    hide Doubled;
    if k > 0 {
      var l1 := Ledger(l.count + 1, l.count + 1, l.copied + l.count);
      assert Add(l, 1) == l1;
      assert Singles(k)[1..] == Singles(k - 1);
      SinglesBeyondHalf(l1, k - 1);
      assert (k - 1) * l1.count >= (k - 1) * l.count;
      assert k * l.count == (k - 1) * l.count + l.count;
    }
  }

  /** So the bound of two copies per path fails there. */
  lemma CopiesBeyondHalf()
    ensures var half := SIZE_MAX / 2 + 1;
      var l := AddAll(Ledger(0, 0, 0), [half, 1, 1, 1]);
      l.count == half + 3 && l.copied == 3 * half + 3 > 2 * l.count
  {
    var half := SIZE_MAX / 2 + 1;
    var l1 := Ledger(half, half, 0);
    var l2 := Ledger(half + 1, half + 1, half);
    var l3 := Ledger(half + 2, half + 2, 2 * half + 1);
    var l4 := Ledger(half + 3, half + 3, 3 * half + 3);
    assert Add(Ledger(0, 0, 0), half) == l1;
    assert Add(l1, 1) == l2 && Add(l2, 1) == l3 && Add(l3, 1) == l4;
    var adds: seq<nat> := [half, 1, 1, 1];
    var none: seq<nat> := [];
    assert adds[1..] == [1, 1, 1] && [1, 1, 1][1..] == [1, 1] && [1, 1][1..] == [1] && [1][1..] == none;
    assert AddAll(l4, none) == l4;
    assert AddAll(l3, [1]) == l4;
    assert AddAll(l2, [1, 1]) == l4;
    assert AddAll(l1, [1, 1, 1]) == l4;
  }
}
