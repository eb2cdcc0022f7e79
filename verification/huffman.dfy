/**
 Canonical Huffman codes (section 3.2.2 of RFC 1951) and their naive
 bit-by-bit decoding: the reference that the decoder's tables are proved
 against.
 */
module Huffman {
  import opened Bits

  /** What the table builder can be called with: at most 288 symbols, lengths 0 (unused) to 15. */
  predicate ValidLens(lens: seq<nat>) {
    |lens| <= 288 && forall i :: 0 <= i < |lens| ==> lens[i] <= 15
  }

  /** How many symbols have length `s`. */
  function Count(lens: seq<nat>, s: nat): nat {
    if lens == [] then 0
    else Count(lens[..|lens| - 1], s) + B2N(lens[|lens| - 1] == s)
  }

  /** The same, with the unused symbols not counted. */
  function Used(lens: seq<nat>, s: nat): nat {
    if s == 0 then 0 else Count(lens, s)
  }

  function FirstCode(lens: seq<nat>, s: nat): nat {
    if s == 0 then 0 else 2 * (FirstCode(lens, s - 1) + Used(lens, s - 1))
  }

  /** One past the last code of length `s`. */
  function EndCode(lens: seq<nat>, s: nat): nat {
    FirstCode(lens, s) + Used(lens, s)
  }

  /** How many symbols have a non-zero length below `s`. */
  function FirstSymbol(lens: seq<nat>, s: nat): nat {
    if s == 0 then 0 else FirstSymbol(lens, s - 1) + Used(lens, s - 1)
  }

  /** The position of symbol `i` among the symbols of its length. */
  function Rank(lens: seq<nat>, i: nat): nat
    requires i < |lens|
  {
    Count(lens[..i], lens[i])
  }

  /** The code of symbol `i`; its first bit is the most significant of the `lens[i]` bits. */
  function Code(lens: seq<nat>, i: nat): nat
    requires i < |lens|
  {
    FirstCode(lens, lens[i]) + Rank(lens, i)
  }

  /** The first `lens[i]` bits of the window `w`, first bit least significant, are the code of `i`. */
  predicate Matches(lens: seq<nat>, i: nat, w: nat)
    requires i < |lens|
  {
    lens[i] > 0 && Rev(w, lens[i]) == Code(lens, i)
  }

  /** The codes of length `s` fit in `s` bits. */
  predicate Fits(lens: seq<nat>, s: nat) {
    EndCode(lens, s) <= Pow2(s)
  }

  predicate Accepted(lens: seq<nat>) {
    forall s :: 1 <= s <= 15 ==> Fits(lens, s)
  }

  /** The index of the symbol with length `s` and code `c`, `|lens|` if there is none. */
  function Lookup(lens: seq<nat>, s: nat, c: nat, from: nat): (i: nat)
    requires from <= |lens|
    ensures from <= i <= |lens|
    ensures i < |lens| ==> lens[i] == s && Code(lens, i) == c
    ensures forall k :: from <= k < i ==> lens[k] != s || Code(lens, k) != c
    decreases |lens| - from
  {
    if from == |lens| || (lens[from] == s && Code(lens, from) == c) then from
    else Lookup(lens, s, c, from + 1)
  }

  /** Reads one more bit at a time until the bits so far are some symbol's code. */
  function NaiveDecode(lens: seq<nat>, w: nat, s: nat): (r: int)
    requires 1 <= s <= 16
    ensures -1 <= r < |lens|
    ensures r >= 0 ==> lens[r] >= s && Matches(lens, r, w)
    ensures r < 0 ==> forall k :: 0 <= k < |lens| && s <= lens[k] <= 15 ==> !Matches(lens, k, w)
    decreases |lens|, 16 - s
  {
    if s == 16 then -1
    else
      var i := Lookup(lens, s, Rev(w, s), 0);
      if i < |lens| then i else NaiveDecode(lens, w, s + 1)
  }

  // ----- counting

  lemma {:induction false} CountPrefix(lens: seq<nat>, s: nat, i: nat)
    requires i <= |lens|
    ensures Count(lens[..i], s) <= Count(lens, s)
    decreases |lens| - i
  {
    if i < |lens| {
      assert lens[..i + 1][..i] == lens[..i];
      CountPrefix(lens, s, i + 1);
    } else {
      assert lens[..i] == lens;
    }
  }

  lemma CountStep(lens: seq<nat>, s: nat, i: nat)
    requires i < |lens|
    ensures Count(lens[..i + 1], s) == Count(lens[..i], s) + B2N(lens[i] == s)
  {
    assert lens[..i + 1][..i] == lens[..i];
  }

  lemma RankBelowCount(lens: seq<nat>, i: nat)
    requires i < |lens|
    ensures Rank(lens, i) < Count(lens, lens[i])
  {
    CountStep(lens, lens[i], i);
    CountPrefix(lens, lens[i], i + 1);
  }

  /** Symbols of one length have consecutive codes in symbol order. */
  lemma RankIncreases(lens: seq<nat>, i: nat, j: nat)
    requires i < j < |lens| && lens[i] == lens[j]
    ensures Rank(lens, i) < Rank(lens, j)
  {
    CountStep(lens, lens[i], i);
    assert lens[..j][..i + 1] == lens[..i + 1];
    CountPrefix(lens[..j], lens[i], i + 1);
  }

  /** Every rank below the count is taken. */
  lemma {:induction false} NthSymbol(lens: seq<nat>, s: nat, r: nat, n: nat) returns (i: nat)
    requires n <= |lens| && r < Count(lens[..n], s)
    ensures i < n && lens[i] == s && Rank(lens, i) == r
    decreases n
  {
    CountStep(lens, s, n - 1);
    if lens[n - 1] == s && r == Count(lens[..n - 1], s) {
      i := n - 1;
    } else {
      i := NthSymbol(lens, s, r, n - 1);
    }
  }

  // ----- the code is prefix-free

  lemma {:induction false} FirstCodeAtMost(lens: seq<nat>, s: nat)
    requires Accepted(lens) && s <= 15
    ensures EndCode(lens, s) <= Pow2(s)
  {
    if s == 0 { assert FirstCode(lens, 0) == 0; } else { assert Fits(lens, s); }
  }

  lemma CodeInRange(lens: seq<nat>, i: nat)
    requires i < |lens| && lens[i] > 0
    ensures FirstCode(lens, lens[i]) <= Code(lens, i) < EndCode(lens, lens[i])
  {
    RankBelowCount(lens, i);
  }

  /** A window that has left the codes of length `s` on the low side never comes back to one. */
  lemma {:induction false} BelowStaysBelow(lens: seq<nat>, w: nat, s: nat, t: nat)
    requires s < t && Rev(w, s) < EndCode(lens, s)
    ensures Rev(w, t) < FirstCode(lens, t)
    decreases t
  {
    if s < t - 1 { BelowStaysBelow(lens, w, s, t - 1); }
  }

  /** At most one symbol's code starts any window: no code is a prefix of another. */
  lemma PrefixFree(lens: seq<nat>, i: nat, j: nat, w: nat)
    requires i < |lens| && j < |lens|
    requires Matches(lens, i, w) && Matches(lens, j, w)
    ensures i == j
  {
    CodeInRange(lens, i);
    CodeInRange(lens, j);
    if lens[i] < lens[j] {
      BelowStaysBelow(lens, w, lens[i], lens[j]);
    } else if lens[j] < lens[i] {
      BelowStaysBelow(lens, w, lens[j], lens[i]);
    } else if i < j {
      RankIncreases(lens, i, j);
    } else if j < i {
      RankIncreases(lens, j, i);
    }
  }

  /** A window below the end of the codes of length `s` starts with a code of at most that length. */
  lemma {:induction false} BelowEndMatches(lens: seq<nat>, w: nat, s: nat) returns (i: nat)
    requires 1 <= s && Rev(w, s) < EndCode(lens, s)
    ensures i < |lens| && 0 < lens[i] <= s && Matches(lens, i, w)
    decreases s
  {
    if Rev(w, s) >= FirstCode(lens, s) {
      assert lens[..|lens|] == lens;
      i := NthSymbol(lens, s, Rev(w, s) - FirstCode(lens, s), |lens|);
    } else {
      assert EndCode(lens, 0) == 0;
      i := BelowEndMatches(lens, w, s - 1);
    }
  }

  /** Naive decoding finds the one symbol whose code starts the window. */
  lemma NaiveDecodeFinds(lens: seq<nat>, i: nat, w: nat)
    requires ValidLens(lens) && i < |lens| && Matches(lens, i, w)
    ensures NaiveDecode(lens, w, 1) == i
  {
    var r := NaiveDecode(lens, w, 1);
    if r >= 0 { PrefixFree(lens, i, r, w); }
  }

  // ----- acceptance is the Kraft inequality

  /** The codes of length at most `s` leave room for `Kraft` of the 2^s strings of `s` bits. */
  function Kraft(lens: seq<nat>, s: nat): nat {
    if lens == [] then 0
    else Kraft(lens[..|lens| - 1], s) +
         (var l := lens[|lens| - 1]; if 0 < l <= s then Pow2(s - l) else 0)
  }

  lemma {:induction false} KraftZero(lens: seq<nat>)
    ensures Kraft(lens, 0) == 0
  {
    if lens != [] { KraftZero(lens[..|lens| - 1]); }
  }

  lemma {:induction false} KraftStep(lens: seq<nat>, s: nat)
    requires s > 0
    ensures Kraft(lens, s) == 2 * Kraft(lens, s - 1) + Count(lens, s)
  {
    if lens != [] { KraftStep(lens[..|lens| - 1], s); }
  }

  lemma {:induction false} KraftIsEndCode(lens: seq<nat>, s: nat)
    ensures Kraft(lens, s) == EndCode(lens, s)
  {
    if s == 0 { KraftZero(lens); } else { KraftStep(lens, s); KraftIsEndCode(lens, s - 1); }
  }

  lemma {:induction false} EndCodeDoubles(lens: seq<nat>, s: nat, t: nat)
    requires s <= t && EndCode(lens, t) <= Pow2(t)
    ensures EndCode(lens, s) <= Pow2(s)
    decreases t
  {
    if s < t { EndCodeDoubles(lens, s, t - 1); }
  }

  /** A list of lengths is accepted exactly when a prefix code with these lengths exists. */
  lemma AcceptedIffKraft(lens: seq<nat>)
    ensures Accepted(lens) <==> Kraft(lens, 15) <= Pow2(15)
  {
    KraftIsEndCode(lens, 15);
    assert Accepted(lens) ==> Fits(lens, 15);
    if Kraft(lens, 15) <= Pow2(15) {
      forall s | 1 <= s <= 15 ensures Fits(lens, s) { EndCodeDoubles(lens, s, 15); }
    }
  }
}
