/**
 The decoder's Huffman tables: a 9-bit table indexed by the next bits for the
 short codes, and pre-shifted upper bounds for the rest. The builder is proved
 against the canonical code, and the tables against naive decoding.
 */
module HuffmanTables {
  import opened Bits
  import opened BitReversal
  import opened Huffman

  const FAST_BITS := 9
  const FAST_SIZE := 512

  // ----- the slots of the symbols in code order

  function Slot(lens: seq<nat>, i: nat): nat
    requires i < |lens|
  {
    FirstSymbol(lens, lens[i]) + Rank(lens, i)
  }

  lemma {:induction false} FirstSymbolMono(lens: seq<nat>, s: nat, t: nat)
    requires s < t
    ensures FirstSymbol(lens, s) + Used(lens, s) <= FirstSymbol(lens, t)
    decreases t
  {
    if s < t - 1 { FirstSymbolMono(lens, s, t - 1); }
  }

  lemma {:induction false} FirstSymbolAtMost(lens: seq<nat>, s: nat)
    ensures FirstSymbol(lens, s) <= |lens|
    decreases |lens|
  {
    if lens == [] {
      FirstSymbolOfNone(s);
    } else {
      FirstSymbolLast(lens, s);
      FirstSymbolAtMost(lens[..|lens| - 1], s);
    }
  }

  lemma {:induction false} FirstSymbolOfNone(s: nat)
    ensures FirstSymbol([], s) == 0
  {
    if s > 0 { FirstSymbolOfNone(s - 1); }
  }

  lemma {:induction false} FirstSymbolLast(lens: seq<nat>, s: nat)
    requires lens != []
    ensures FirstSymbol(lens, s) == FirstSymbol(lens[..|lens| - 1], s) + B2N(0 < lens[|lens| - 1] < s)
  {
    if s > 0 { FirstSymbolLast(lens, s - 1); }
  }

  lemma SlotBound(lens: seq<nat>, i: nat)
    requires i < |lens| && lens[i] > 0
    ensures Slot(lens, i) < |lens|
  {
    RankBelowCount(lens, i);
    FirstSymbolAtMost(lens, lens[i] + 1);
  }

  lemma SlotInjective(lens: seq<nat>, i: nat, j: nat)
    requires i < |lens| && j < |lens| && lens[i] > 0 && lens[j] > 0
    requires Slot(lens, i) == Slot(lens, j)
    ensures i == j
  {
    RankBelowCount(lens, i);
    RankBelowCount(lens, j);
    if lens[i] < lens[j] {
      FirstSymbolMono(lens, lens[i], lens[j]);
    } else if lens[j] < lens[i] {
      FirstSymbolMono(lens, lens[j], lens[i]);
    } else if i < j {
      RankIncreases(lens, i, j);
    } else if j < i {
      RankIncreases(lens, j, i);
    }
  }

  // ----- the fast table

  function FastValue(s: nat, i: nat): nat {
    512 * s + i
  }

  /** Entry `j` of the fast table once the first `n` symbols are entered. */
  predicate FastEntry(lens: seq<nat>, n: nat, j: nat, v: nat)
    requires n <= |lens|
  {
    && (forall i :: 0 <= i < n && lens[i] <= FAST_BITS && Matches(lens, i, j) ==> v == FastValue(lens[i], i))
    && (v != 0 ==> exists i :: 0 <= i < n && lens[i] <= FAST_BITS && Matches(lens, i, j))
  }

  lemma {:induction false} SameLow(x: nat, y: nat, s: nat)
    requires x < y && Low(x, s) == Low(y, s)
    ensures x + Pow2(s) <= y
    decreases s
  {
    if s > 0 { SameLow(x / 2, y / 2, s - 1); }
  }

  lemma {:induction false} LowPlusPow2(x: nat, s: nat)
    ensures Low(x + Pow2(s), s) == Low(x, s)
    decreases s
  {
    if s > 0 {
      assert (x + Pow2(s)) / 2 == x / 2 + Pow2(s - 1);
      LowPlusPow2(x / 2, s - 1);
    }
  }

  /** An index starts with the code `c` exactly when its low bits are `c` reversed. */
  lemma StartsWithCode(j: nat, c: nat, s: nat)
    requires c < Pow2(s)
    ensures Rev(j, s) == c <==> Low(j, s) == Rev(c, s)
  {
    RevLow(j, s, s);
    LowBound(j, s);
    RevRev(Low(j, s), s);
    RevRev(c, s);
  }

  /** Filling in one more symbol keeps the entries of the earlier ones: the code is prefix-free. */
  lemma FastStep(lens: seq<nat>, n: nat, before: seq<nat>, after: seq<nat>)
    requires n < |lens| && 0 < lens[n] <= FAST_BITS && Code(lens, n) < Pow2(lens[n])
    requires |before| == |after| == FAST_SIZE
    requires forall j :: 0 <= j < FAST_SIZE ==> FastEntry(lens, n, j, before[j])
    requires forall j :: 0 <= j < FAST_SIZE ==>
      after[j] == if Low(j, lens[n]) == Rev(Code(lens, n), lens[n]) then FastValue(lens[n], n) else before[j]
    ensures forall j :: 0 <= j < FAST_SIZE ==> FastEntry(lens, n + 1, j, after[j])
  {
    forall j | 0 <= j < FAST_SIZE ensures FastEntry(lens, n + 1, j, after[j]) {
      StartsWithCode(j, Code(lens, n), lens[n]);
      assert FastEntry(lens, n, j, before[j]);
      if Matches(lens, n, j) {
        forall i | 0 <= i < n && Matches(lens, i, j) ensures false { PrefixFree(lens, i, n, j); }
      }
    }
  }

  /** Enters `v` at every index whose low `s` bits are `j0`. */
  method FillFast(fast: array<uint16>, j0: nat, s: nat, v: uint16)
    requires fast.Length == FAST_SIZE && 1 <= s <= FAST_BITS && j0 < Pow2(s)
    modifies fast
    ensures forall j :: 0 <= j < FAST_SIZE ==> fast[j] == if Low(j, s) == j0 then v else old(fast[j])
  {
    var j := j0;
    Pow2Mono(s, FAST_BITS);
    assert Pow2(FAST_BITS) == FAST_SIZE;
    LowIdentity(j0, s);
    forall x | 0 <= x < j0 ensures Low(x, s) != j0 {
      LowIdentity(x, s);
    }
    while j < FAST_SIZE
      invariant Low(j, s) == j0
      invariant forall x :: 0 <= x < FAST_SIZE ==>
                fast[x] == if x < j && Low(x, s) == j0 then v else old(fast[x])
    {
      fast[j] := v;
      forall x | j < x < j + Pow2(s) ensures Low(x, s) != j0 {
        if Low(x, s) == j0 { SameLow(j, x, s); }
      }
      LowPlusPow2(j, s);
      j := j + Pow2(s);
    }
  }

  // ----- the tables

  /** The number of symbols of each length, unused symbols not counted. */
  method CountSizes(lens: seq<nat>) returns (r: seq<nat>)
    requires ValidLens(lens)
    ensures |r| == 17 && forall s :: 0 <= s < 17 ==> r[s] == Used(lens, s)
  {
    var sizes := new nat[17](_ => 0);
    for i := 0 to |lens|
      invariant forall s :: 0 <= s < 17 ==> sizes[s] == Count(lens[..i], s)
    {
      forall s | 0 <= s < 17 ensures Count(lens[..i + 1], s) == Count(lens[..i], s) + B2N(lens[i] == s) {
        CountStep(lens, s, i);
      }
      sizes[lens[i]] := sizes[lens[i]] + 1;
    }
    assert lens[..|lens|] == lens;
    sizes[0] := 0;
    return sizes[..];
  }

  lemma AssignStep(lens: seq<nat>, i: nat)
    requires ValidLens(lens) && 1 <= i < 16 && FirstCode(lens, i) <= Pow2(i)
    ensures Pow2(i) < 0x1_0000 && FirstSymbol(lens, i) < 0x1_0000
    ensures FirstCode(lens, i + 1) == 2 * EndCode(lens, i)
    ensures FirstSymbol(lens, i + 1) == FirstSymbol(lens, i) + Used(lens, i)
    ensures EndCode(lens, i) <= Pow2(i) ==> Shl(EndCode(lens, i), 16 - i) <= 0x1_0000
    ensures Pow2(i + 1) == 2 * Pow2(i)
  {
    Pow2Mono(i, 15);
    FirstSymbolAtMost(lens, i);
    Pow2Values(15);
    ShlMono(EndCode(lens, i), Pow2(i), 16 - i);
    Pow2Shl(i, 16 - i);
    Pow2Values(16);
  }

  /** Symbol `i` has a code of its length and a slot that no earlier symbol has. */
  lemma SymbolFacts(lens: seq<nat>, i: nat)
    requires ValidLens(lens) && Accepted(lens) && i < |lens| && lens[i] > 0
    ensures Code(lens, i) < Pow2(lens[i]) <= 32768
    ensures Slot(lens, i) < |lens|
    ensures forall k :: 0 <= k < i && lens[k] > 0 ==> Slot(lens, k) != Slot(lens, i)
  {
    SlotBound(lens, i);
    CodeInRange(lens, i);
    FirstCodeAtMost(lens, lens[i]);
    Pow2Mono(lens[i], 15);
    Pow2Values(15);
    forall k | 0 <= k < i && lens[k] > 0 ensures Slot(lens, k) != Slot(lens, i) {
      if Slot(lens, k) == Slot(lens, i) { SlotInjective(lens, i, k); }
    }
  }

  /** No length has more symbols than there are strings of that length. */
  method SizesFit(lens: seq<nat>, sizes: seq<nat>) returns (ok: bool)
    requires |sizes| == 17 && forall s :: 0 <= s < 17 ==> sizes[s] == Used(lens, s)
    ensures !ok ==> !Accepted(lens)
  {
    for i := 1 to 16 {
      if sizes[i] > Pow2(i) {
        assert !Fits(lens, i);
        return false;
      }
    }
    return true;
  }

  /** What the tables hold for the codes of length `s`. */
  predicate LengthRow(lens: seq<nat>, s: nat, first: nat, symbol: nat, end: nat)
    requires s <= 16
  {
    first == FirstCode(lens, s) && symbol == FirstSymbol(lens, s) && end == Shl(EndCode(lens, s), 16 - s)
  }

  /** Symbol `i` and its length are in the slot of `i`. */
  predicate SymbolRow(lens: seq<nat>, i: nat, value: seq<nat>, size: seq<nat>)
    requires i < |lens| && |value| == |size| == 288
  {
    Slot(lens, i) < 288 && value[Slot(lens, i)] == i && size[Slot(lens, i)] == lens[i]
  }

  /** The next code of length `s` once the first `i` symbols have theirs. */
  predicate NextRow(lens: seq<nat>, i: nat, s: nat, next: nat)
    requires i <= |lens|
  {
    next == FirstCode(lens, s) + Count(lens[..i], s)
  }

  lemma NextRowsStep(lens: seq<nat>, i: nat, next: seq<nat>)
    requires i < |lens| && |next| == 16
    requires forall s :: 1 <= s < 16 ==> NextRow(lens, i, s, next[s])
    ensures forall s :: 1 <= s < 16 ==> NextRow(lens, i + 1, s, next[s] + B2N(lens[i] == s))
    ensures 0 < lens[i] < 16 ==> next[lens[i]] == Code(lens, i)
  {
    forall s | 1 <= s < 16 ensures NextRow(lens, i + 1, s, next[s] + B2N(lens[i] == s)) {
      assert NextRow(lens, i, s, next[s]);
      CountStep(lens, s, i);
    }
    assert 0 < lens[i] < 16 ==> NextRow(lens, i, lens[i], next[lens[i]]);
  }

  class ZHuffman {
    const fast: array<uint16>
    const firstcode: array<uint16>
    const maxcode: array<uint32>
    const firstsymbol: array<uint16>
    const size: array<byte>
    const value: array<uint16>
    ghost const Repr: set<object>

    ghost predicate Valid() {
      && Repr == {fast as object, firstcode, maxcode, firstsymbol, size, value}
      && fast.Length == FAST_SIZE && firstcode.Length == 16 && maxcode.Length == 17
      && firstsymbol.Length == 16 && size.Length == 288 && value.Length == 288
      && Distinct(fast, firstcode, maxcode, firstsymbol, size, value)
    }

    static ghost predicate Distinct(a: object, b: object, c: object, d: object, e: object, f: object) {
      && a != b && a != c && a != d && a != e && a != f
      && b != c && b != d && b != e && b != f
      && c != d && c != e && c != f
      && d != e && d != f
      && e != f
    }

    ghost predicate Apart(o: object) {
      o != fast && o != firstcode && o != maxcode && o != firstsymbol && o != size && o != value
    }

    /** The tables hold the canonical code of `lens`. */
    ghost predicate Holds(lens: seq<nat>)
      requires Valid()
      reads Repr
    {
      ValidLens(lens) && Accepted(lens) && SlowHolds(lens) && FastHolds(lens, |lens|)
    }

    /** The part of the tables that the slow path uses. */
    ghost predicate SlowHolds(lens: seq<nat>)
      requires Valid() && |lens| <= 288
      reads Repr
    {
      BoundsHold(lens, 16) && maxcode[16] == 0x10000 && SymbolsHold(lens, |lens|)
    }

    ghost predicate BoundsHold(lens: seq<nat>, n: nat)
      requires Valid() && n <= 16
      reads firstcode, firstsymbol, maxcode
    {
      forall s :: 1 <= s < n ==> LengthRow(lens, s, firstcode[s], firstsymbol[s], maxcode[s])
    }

    ghost predicate SymbolsHold(lens: seq<nat>, n: nat)
      requires Valid() && n <= |lens| <= 288
      reads size, value
    {
      forall i :: 0 <= i < n && lens[i] > 0 ==> SymbolRow(lens, i, value[..], size[..])
    }

    ghost predicate FastHolds(lens: seq<nat>, n: nat)
      requires Valid() && n <= |lens|
      reads fast
    {
      forall j :: 0 <= j < FAST_SIZE ==> FastEntry(lens, n, j, fast[j])
    }

    constructor ()
      ensures Valid() && fresh(Repr)
    {
      var f, c, m := new uint16[FAST_SIZE], new uint16[16], new uint32[17];
      var y, z, v := new uint16[16], new byte[288], new uint16[288];
      fast, firstcode, maxcode, firstsymbol, size, value := f, c, m, y, z, v;
      Repr := {f as object, c, m, y, z, v};
    }

    /** Records the codes of one length. */
    method AssignLength(lens: seq<nat>, i: nat, code: nat, k: nat, end: nat, next_code: array<uint16>)
      requires Valid() && ValidLens(lens) && 1 <= i < 16 && Fits(lens, i)
      requires code == FirstCode(lens, i) && k == FirstSymbol(lens, i) && end == EndCode(lens, i)
      requires next_code.Length == 16 && Apart(next_code) && BoundsHold(lens, i)
      modifies firstcode, firstsymbol, maxcode, next_code
      ensures BoundsHold(lens, i + 1)
      ensures next_code[i] == code && forall s :: 0 <= s < 16 && s != i ==> next_code[s] == old(next_code[s])
    {
      AssignStep(lens, i);
      next_code[i] := code;
      firstcode[i] := code;
      firstsymbol[i] := k;
      maxcode[i] := Shl(end, 16 - i);
      assert LengthRow(lens, i, firstcode[i], firstsymbol[i], maxcode[i]);
    }

    /** Assigns the first code of each length; fails when a length has too many codes. */
    method AssignCodes(lens: seq<nat>, sizes: seq<nat>, next_code: array<uint16>) returns (ok: bool)
      requires Valid() && ValidLens(lens)
      requires |sizes| == 17 && forall s :: 0 <= s < 17 ==> sizes[s] == Used(lens, s)
      requires next_code.Length == 16 && Apart(next_code)
      modifies firstcode, firstsymbol, maxcode, next_code
      ensures ok <==> Accepted(lens)
      ensures ok ==> BoundsHold(lens, 16)
      ensures ok ==> forall s :: 1 <= s < 16 ==> NextRow(lens, 0, s, next_code[s])
    {
      var code: nat, k: nat := 0, 0;
      for i := 1 to 16
        invariant code == FirstCode(lens, i) && code <= Pow2(i) && k == FirstSymbol(lens, i)
        invariant forall s :: 1 <= s < i ==> Fits(lens, s)
        invariant forall s :: 1 <= s < i ==> NextRow(lens, 0, s, next_code[s])
        invariant BoundsHold(lens, i)
      {
        var end := code + sizes[i];
        if sizes[i] > 0 && end - 1 >= Pow2(i) {
          assert !Fits(lens, i);
          return false;
        }
        AssignStep(lens, i);
        AssignLength(lens, i, code, k, end, next_code);
        code := 2 * end;
        k := k + sizes[i];
      }
      return true;
    }

    /** Enters symbol `i` into its slot of the list sorted by code. */
    method EnterSorted(lens: seq<nat>, i: nat, c: nat)
      requires Valid() && ValidLens(lens) && Accepted(lens) && i < |lens| && lens[i] > 0
      requires c == Slot(lens, i) && SymbolsHold(lens, i)
      modifies size, value
      ensures SymbolsHold(lens, i + 1)
    {
      SymbolFacts(lens, i);
      size[c] := lens[i];
      value[c] := i;
      forall k | 0 <= k < i && lens[k] > 0 ensures SymbolRow(lens, k, value[..], size[..]) {
        assert SymbolRow(lens, k, old(value[..]), old(size[..]));
      }
    }

    /** Enters symbol `i` at every index of the fast table that starts with its code. */
    method EnterFast(lens: seq<nat>, i: nat, c: nat)
      requires Valid() && ValidLens(lens) && Accepted(lens) && i < |lens| && 0 < lens[i] <= FAST_BITS
      requires c == Code(lens, i) && FastHolds(lens, i)
      modifies fast
      ensures FastHolds(lens, i + 1)
    {
      SymbolFacts(lens, i);
      BitReverseIsRev(c, lens[i]);
      RevBound(c, lens[i]);
      FillFast(fast, BitReverse(c, lens[i]), lens[i], FastValue(lens[i], i));
      FastStep(lens, i, old(fast[..]), fast[..]);
    }

    /** Enters symbol `i` under its code into the sorted list and, if short, the fast table. */
    method EnterSymbol(lens: seq<nat>, i: nat, next_code: array<uint16>)
      requires Valid() && ValidLens(lens) && Accepted(lens) && i < |lens|
      requires next_code.Length == 16 && Apart(next_code)
      requires forall s :: 1 <= s < 16 ==> NextRow(lens, i, s, next_code[s])
      requires BoundsHold(lens, 16) && SymbolsHold(lens, i) && FastHolds(lens, i)
      modifies fast, size, value, next_code
      ensures forall s :: 1 <= s < 16 ==> NextRow(lens, i + 1, s, next_code[s])
      ensures SymbolsHold(lens, i + 1) && FastHolds(lens, i + 1)
    {
      var s := lens[i];
      NextRowsStep(lens, i, next_code[..]);
      if s != 0 {
        assert LengthRow(lens, s, firstcode[s], firstsymbol[s], maxcode[s]);
        SymbolFacts(lens, i);
        EnterSorted(lens, i, next_code[s] - firstcode[s] + firstsymbol[s]);
        if s <= FAST_BITS {
          EnterFast(lens, i, next_code[s]);
        }
        next_code[s] := next_code[s] + 1;
      }
    }

    method ClearFast()
      requires Valid()
      modifies fast
      ensures forall j :: 0 <= j < FAST_SIZE ==> fast[j] == 0
    {
      for i := 0 to FAST_SIZE
        invariant forall j :: 0 <= j < i ==> fast[j] == 0
      {
        fast[i] := 0;
      }
    }

    /** Enters every symbol that has a code. */
    method EnterSymbols(lens: seq<nat>, next_code: array<uint16>)
      requires Valid() && ValidLens(lens) && Accepted(lens)
      requires next_code.Length == 16 && Apart(next_code)
      requires forall s :: 1 <= s < 16 ==> NextRow(lens, 0, s, next_code[s])
      requires BoundsHold(lens, 16) && FastHolds(lens, 0)
      modifies fast, size, value, next_code
      ensures SymbolsHold(lens, |lens|) && FastHolds(lens, |lens|)
    {
      for i := 0 to |lens|
        invariant forall s :: 1 <= s < 16 ==> NextRow(lens, i, s, next_code[s])
        invariant SymbolsHold(lens, i) && FastHolds(lens, i)
      {
        EnterSymbol(lens, i, next_code);
      }
    }

    /** Builds the tables, or reports that no prefix code has these lengths. */
    method Build(lens: seq<nat>) returns (ok: bool)
      requires Valid() && ValidLens(lens)
      modifies Repr
      ensures ok <==> Accepted(lens)
      ensures ok ==> Holds(lens)
    {
      var sizes := CountSizes(lens);
      ClearFast();
      ok := SizesFit(lens, sizes);
      if !ok { return; }
      var next_code := new uint16[16];
      ok := AssignCodes(lens, sizes, next_code);
      if !ok { return; }
      maxcode[16] := 0x10000;
      EnterSymbols(lens, next_code);
    }
  }
}
