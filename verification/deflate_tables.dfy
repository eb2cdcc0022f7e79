/**
 The length and distance symbols of section 3.2.5 of RFC 1951: the decoder's
 tables, the encoder's tables, and that the encoder's intervals are the ranges
 the decoder gives to its symbols.
 */
module DeflateTables {
  import opened Bits

  // ----- the decoder's tables

  /** The shortest length of symbol `257 + l`; 29 and 30 pad the table. */
  function LengthBase(l: nat): nat {
    match l
    case 0 => 3 case 1 => 4 case 2 => 5 case 3 => 6 case 4 => 7
    case 5 => 8 case 6 => 9 case 7 => 10 case 8 => 11 case 9 => 13
    case 10 => 15 case 11 => 17 case 12 => 19 case 13 => 23 case 14 => 27
    case 15 => 31 case 16 => 35 case 17 => 43 case 18 => 51 case 19 => 59
    case 20 => 67 case 21 => 83 case 22 => 99 case 23 => 115 case 24 => 131
    case 25 => 163 case 26 => 195 case 27 => 227 case 28 => 258
    case _ => 0
  }

  /** How many extra bits follow symbol `257 + l`. */
  function LengthExtra(l: nat): nat {
    match l
    case 0 => 0 case 1 => 0 case 2 => 0 case 3 => 0 case 4 => 0
    case 5 => 0 case 6 => 0 case 7 => 0 case 8 => 1 case 9 => 1
    case 10 => 1 case 11 => 1 case 12 => 2 case 13 => 2 case 14 => 2
    case 15 => 2 case 16 => 3 case 17 => 3 case 18 => 3 case 19 => 3
    case 20 => 4 case 21 => 4 case 22 => 4 case 23 => 4 case 24 => 5
    case 25 => 5 case 26 => 5 case 27 => 5 case 28 => 0
    case _ => 0
  }

  /** The shortest distance of symbol `d`; 30 and 31 pad the table. */
  function DistBase(d: nat): nat {
    match d
    case 0 => 1 case 1 => 2 case 2 => 3 case 3 => 4 case 4 => 5
    case 5 => 7 case 6 => 9 case 7 => 13 case 8 => 17 case 9 => 25
    case 10 => 33 case 11 => 49 case 12 => 65 case 13 => 97 case 14 => 129
    case 15 => 193 case 16 => 257 case 17 => 385 case 18 => 513 case 19 => 769
    case 20 => 1025 case 21 => 1537 case 22 => 2049 case 23 => 3073 case 24 => 4097
    case 25 => 6145 case 26 => 8193 case 27 => 12289 case 28 => 16385 case 29 => 24577
    case _ => 0
  }

  /** How many extra bits follow distance symbol `d`. */
  function DistExtra(d: nat): nat {
    match d
    case 0 => 0 case 1 => 0 case 2 => 0 case 3 => 0 case 4 => 1
    case 5 => 1 case 6 => 2 case 7 => 2 case 8 => 3 case 9 => 3
    case 10 => 4 case 11 => 4 case 12 => 5 case 13 => 5 case 14 => 6
    case 15 => 6 case 16 => 7 case 17 => 7 case 18 => 8 case 19 => 8
    case 20 => 9 case 21 => 9 case 22 => 10 case 23 => 10 case 24 => 11
    case 25 => 11 case 26 => 12 case 27 => 12 case 28 => 13 case 29 => 13
    case _ => 0
  }

  // ----- the encoder's tables, each with the first value after its last interval

  /** The start of the `j`th interval of lengths. */
  function Lengthc(j: nat): nat {
    match j
    case 0 => 3 case 1 => 4 case 2 => 5 case 3 => 6 case 4 => 7
    case 5 => 8 case 6 => 9 case 7 => 10 case 8 => 11 case 9 => 13
    case 10 => 15 case 11 => 17 case 12 => 19 case 13 => 23 case 14 => 27
    case 15 => 31 case 16 => 35 case 17 => 43 case 18 => 51 case 19 => 59
    case 20 => 67 case 21 => 83 case 22 => 99 case 23 => 115 case 24 => 131
    case 25 => 163 case 26 => 195 case 27 => 227 case 28 => 258
    case _ => 259
  }

  /** The extra bits of the `j`th interval of lengths. */
  function Lengtheb(j: nat): nat {
    match j
    case 0 => 0 case 1 => 0 case 2 => 0 case 3 => 0 case 4 => 0
    case 5 => 0 case 6 => 0 case 7 => 0 case 8 => 1 case 9 => 1
    case 10 => 1 case 11 => 1 case 12 => 2 case 13 => 2 case 14 => 2
    case 15 => 2 case 16 => 3 case 17 => 3 case 18 => 3 case 19 => 3
    case 20 => 4 case 21 => 4 case 22 => 4 case 23 => 4 case 24 => 5
    case 25 => 5 case 26 => 5 case 27 => 5 case 28 => 0
    case _ => 0
  }

  /** The start of the `j`th interval of distances. */
  function Distc(j: nat): nat {
    match j
    case 0 => 1 case 1 => 2 case 2 => 3 case 3 => 4 case 4 => 5
    case 5 => 7 case 6 => 9 case 7 => 13 case 8 => 17 case 9 => 25
    case 10 => 33 case 11 => 49 case 12 => 65 case 13 => 97 case 14 => 129
    case 15 => 193 case 16 => 257 case 17 => 385 case 18 => 513 case 19 => 769
    case 20 => 1025 case 21 => 1537 case 22 => 2049 case 23 => 3073 case 24 => 4097
    case 25 => 6145 case 26 => 8193 case 27 => 12289 case 28 => 16385 case 29 => 24577
    case _ => 32768
  }

  /** The extra bits of the `j`th interval of distances. */
  function Disteb(j: nat): nat {
    match j
    case 0 => 0 case 1 => 0 case 2 => 0 case 3 => 0 case 4 => 1
    case 5 => 1 case 6 => 2 case 7 => 2 case 8 => 3 case 9 => 3
    case 10 => 4 case 11 => 4 case 12 => 5 case 13 => 5 case 14 => 6
    case 15 => 6 case 16 => 7 case 17 => 7 case 18 => 8 case 19 => 8
    case 20 => 9 case 21 => 9 case 22 => 10 case 23 => 10 case 24 => 11
    case 25 => 11 case 26 => 12 case 27 => 12 case 28 => 13 case 29 => 13
    case _ => 0
  }

  lemma LengthInterval(j: nat)
    requires j < 29
    ensures Lengthc(j) == LengthBase(j) && Lengtheb(j) == LengthExtra(j) <= 5
    ensures Lengthc(j) < Lengthc(j + 1) <= Lengthc(j) + Pow2(Lengtheb(j))
  {
  }

  lemma DistInterval(j: nat)
    requires j < 30
    ensures Distc(j) == DistBase(j) && Disteb(j) == DistExtra(j) <= 13
    ensures Distc(j) < Distc(j + 1) <= Distc(j) + Pow2(Disteb(j))
  {
    ExtraPow2(Disteb(j));
    if j < 10 {} else if j < 20 {} else {}
  }

  lemma ExtraPow2(e: nat)
    requires e <= 13
    ensures Pow2(e) == match e
            case 0 => 1 case 1 => 2 case 2 => 4 case 3 => 8 case 4 => 16 case 5 => 32 case 6 => 64 case 7 => 128
            case 8 => 256 case 9 => 512 case 10 => 1024 case 11 => 2048 case 12 => 4096 case _ => 8192
  {
    if e > 0 { ExtraPow2(e - 1); }
  }
}
