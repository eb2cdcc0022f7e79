/**
 When the HDR reader's loop over runs and dumps does not end: its turns one by one,
 with the length 0 that the source reads behind the end of the bytes.
 */
module HdrLoop {
  import opened Basics
  import opened Bits
  import opened BitStream
  import opened HdrRle

  /** The loop at its head with `n` values missing, or after it. */
  datatype Loop = Going(pos: nat, n: nat, acc: seq<byte>) | Stopped(r: RowResult)

  /** One turn. */
  function Turn(z: seq<byte>, s: Loop): Loop {
    match s
    case Stopped(_) => s
    case Going(pos, n, acc) =>
      if n == 0 then Stopped(Row(pos, acc))
      else
        var count := ByteAt(z, pos);
        if count > 128 then
          if count - 128 > n then Stopped(BadRle)
          else Going(pos + 2, n - (count - 128), acc + Fill(ByteAt(z, pos + 1), count - 128))
        else if count > n then Stopped(BadRle)
        else Going(pos + 1 + count, n - count, acc + Values(z, pos + 1, count))
  }

  function Turns(z: seq<byte>, s: Loop, k: nat): Loop
    decreases k
  {
    if k == 0 then s else Turns(z, Turn(z, s), k - 1)
  }

  /** A row that is read, and one that is bad, is so after finitely many turns. */
  lemma {:induction false} Stops(z: seq<byte>, pos: nat, n: nat, acc: seq<byte>) returns (k: nat)
    requires ReadFrom(z, pos, n, acc) != Hangs
    ensures Turns(z, Going(pos, n, acc), k) == Stopped(ReadFrom(z, pos, n, acc))
    decreases if pos < |z| then |z| - pos else 0, n
  {
    hide Values, Fill;
    var next := Turn(z, Going(pos, n, acc));
    if next.Stopped? {
      k := 1;
      assert Turns(z, next, 0) == next;
    } else {
      k := Stops(z, next.pos, next.n, next.acc);
      k := k + 1;
    }
  }

  /** A row that hangs is not finished after any number of turns. */
  lemma {:induction false} Goes(z: seq<byte>, pos: nat, n: nat, acc: seq<byte>, k: nat)
    requires ReadFrom(z, pos, n, acc) == Hangs
    ensures Turns(z, Going(pos, n, acc), k).Going?
    decreases k
  {
    hide Values, Fill;
    if k > 0 {
      var next := Turn(z, Going(pos, n, acc));
      Goes(z, next.pos, next.n, next.acc, k - 1);
    }
  }

  /** `Hangs` says that the loop never ends, any other result that it ends with this result. */
  lemma HangsIffNeverStops(z: seq<byte>, pos: nat, n: nat, acc: seq<byte>)
    ensures ReadFrom(z, pos, n, acc) == Hangs <==> forall k: nat :: Turns(z, Going(pos, n, acc), k).Going?
    ensures ReadFrom(z, pos, n, acc) != Hangs ==>
              exists k: nat :: Turns(z, Going(pos, n, acc), k) == Stopped(ReadFrom(z, pos, n, acc))
  {
    hide ReadFrom, Turns;
    if ReadFrom(z, pos, n, acc) == Hangs {
      forall k: nat ensures Turns(z, Going(pos, n, acc), k).Going? { Goes(z, pos, n, acc, k); }
    } else {
      var k := Stops(z, pos, n, acc);
    }
  }

  /** Four of eight values are announced: the loop never ends. Announcing eight is enough, even if none is there. */
  lemma ShortAndLongEnough()
    ensures forall k: nat :: Turns([4], Going(0, 8, []), k).Going?
    ensures exists k: nat :: Turns([8], Going(0, 8, []), k) == Stopped(Row(9, Fill(0, 8)))
  {
    var short: seq<byte>, long: seq<byte> := [4], [8];
    assert Announced(short, 5) == Announced(long, 9) == 0;
    HangsIffShort(short, 0, 8, []);
    HangsIffNeverStops(short, 0, 8, []);
    AllZeros(long, 1, 8);
    assert ReadFrom(long, 9, 0, [] + Values(long, 1, 8)) == Row(9, Fill(0, 8));
    HangsIffNeverStops(long, 0, 8, []);
  }

  lemma {:induction false} AllZeros(z: seq<byte>, pos: nat, n: nat)
    requires pos >= |z|
    ensures Values(z, pos, n) == Fill(0, n)
  {
    if n > 0 { AllZeros(z, pos, n - 1); }
  }
}
