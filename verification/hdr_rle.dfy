/**
 The run-length code of HDR scanlines: the writer's search for runs of three, and
 the reader, for every byte sequence it may be given.
 */
module HdrRle {
  import opened Basics
  import opened Bits
  import opened BitStream

  // ----- chunks

  datatype Chunk = Run(len: nat, value: byte) | Dump(data: seq<byte>)

  predicate ChunkOk(c: Chunk) {
    match c
    case Run(len, value) => 1 <= len <= 127
    case Dump(data) => 1 <= |data| <= 128
  }

  predicate ChunksOk(cs: seq<Chunk>) {
    forall i :: 0 <= i < |cs| ==> ChunkOk(cs[i])
  }

  /** The component values that chunks stand for. */
  function Expand(cs: seq<Chunk>): seq<byte> {
    if cs == [] then []
    else (match cs[0] case Run(len, value) => Fill(value, len) case Dump(data) => data) + Expand(cs[1..])
  }

  /** The bytes of chunks: a length, above 128 for runs, and the value or the values. */
  function Bytes(cs: seq<Chunk>): seq<byte>
    requires ChunksOk(cs)
  {
    if cs == [] then []
    else
      assert ChunkOk(cs[0]);
      (match cs[0] case Run(len, value) => [len + 128, value] case Dump(data) => [|data|] + data) + Bytes(cs[1..])
  }

  lemma One(c: Chunk)
    requires ChunkOk(c)
    ensures Expand([c]) == match c case Run(len, value) => Fill(value, len) case Dump(data) => data
    ensures Bytes([c]) == match c case Run(len, value) => [len + 128, value] case Dump(data) => [|data|] + data
  {
    assert [c][1..] == [];
  }

  // ----- the writer

  /** Three equal values stand at `r`. */
  predicate RunAt(row: seq<byte>, r: nat) {
    r + 2 < |row| && row[r] == row[r + 1] == row[r + 2]
  }

  method FindRun(row: seq<byte>, x: nat) returns (r: nat)
    requires x <= |row|
    ensures r == FirstRun(row, x)
    ensures forall q :: x <= q < r && q + 2 < |row| ==> row[q] != row[q + 1] || row[q] != row[q + 2]
    ensures r == |row| || (r + 2 < |row| && row[r] == row[r + 1] == row[r + 2])
  {
    r := x;
    while r + 2 < |row|
      invariant x <= r <= |row| && FirstRun(row, r) == FirstRun(row, x)
      invariant forall q :: x <= q < r ==> !RunAt(row, q)
    {
      if row[r] == row[r + 1] && row[r] == row[r + 2] { break; }
      r := r + 1;
    }
    if r + 2 >= |row| {
      r := |row|;
    }
    forall q | x <= q < r && q + 2 < |row| ensures row[q] != row[q + 1] || row[q] != row[q + 2] {
      assert !RunAt(row, q);
    }
  }

  /** The first place from `x` on from which three values are equal, the end of the row if there is none. */
  function FirstRun(row: seq<byte>, x: nat): (r: nat)
    requires x <= |row|
    ensures x <= r <= |row| && (r < |row| ==> RunAt(row, r)) && forall q :: x <= q < r ==> !RunAt(row, q)
    decreases |row| - x
  {
    if x + 2 >= |row| then |row| else if RunAt(row, x) then x else FirstRun(row, x + 1)
  }

  /** The first place from `x` on with another value than `v`. */
  function RunEnd(row: seq<byte>, x: nat, v: byte): (e: nat)
    requires x <= |row|
    ensures x <= e <= |row| && (forall q :: x <= q < e ==> row[q] == v) && (e < |row| ==> row[e] != v)
    decreases |row| - x
  {
    if x < |row| && row[x] == v then RunEnd(row, x + 1, v) else x
  }

  /** Values in dumps of 128, the last one with the rest. */
  function Dumps(data: seq<byte>): seq<Chunk> {
    if data == [] then [] else if |data| > 128 then [Dump(data[..128])] + Dumps(data[128..]) else [Dump(data)]
  }

  /** `n` times a value in runs of 127, the last one with the rest. */
  function Runs(n: nat, v: byte): seq<Chunk> {
    if n == 0 then [] else if n > 127 then [Run(127, v)] + Runs(n - 127, v) else [Run(n, v)]
  }

  /** The chunks of the row from `x` on: dumps up to the next three equal values, and runs of these. */
  function Chunks(row: seq<byte>, x: nat): seq<Chunk>
    requires x <= |row|
    decreases |row| - x
  {
    if x == |row| then []
    else
      var r := FirstRun(row, x);
      if r == |row| then Dumps(row[x..r])
      else
        var e := RunEnd(row, r, row[r]);
        assert RunAt(row, r) && e > r;
        Dumps(row[x..r]) + (Runs(e - r, row[r]) + Chunks(row, e))
  }

  lemma {:induction false} Concat(a: seq<Chunk>, b: seq<Chunk>)
    requires ChunksOk(a) && ChunksOk(b)
    ensures ChunksOk(a + b) && Expand(a + b) == Expand(a) + Expand(b) && Bytes(a + b) == Bytes(a) + Bytes(b)
    decreases |a|
  {
    hide ChunkOk, Expand, Bytes;
    assert ChunksOk(a + b);
    hide ChunksOk;
    if a == [] {
      assert a + b == b;
      Empty();
    } else {
      assert (a + b)[1..] == a[1..] + b;
      Concat(a[1..], b);
      HeadAndRest(a);
      HeadAndRest(a + b);
      Associate(Expand([a[0]]), Expand(a[1..]), Expand(b));
      Associate(Bytes([a[0]]), Bytes(a[1..]), Bytes(b));
    }
  }

  lemma {:induction false} DumpsOk(data: seq<byte>)
    ensures ChunksOk(Dumps(data)) && Expand(Dumps(data)) == data
    decreases |data|
  {
    if |data| > 128 {
      DumpsOk(data[128..]);
      One(Dump(data[..128]));
      Concat([Dump(data[..128])], Dumps(data[128..]));
    } else if data != [] {
      One(Dump(data));
    }
  }

  lemma {:induction false} RunsOk(n: nat, v: byte)
    ensures ChunksOk(Runs(n, v)) && Expand(Runs(n, v)) == Fill(v, n)
    decreases n
  {
    if n > 127 {
      RunsOk(n - 127, v);
      One(Run(127, v));
      Concat([Run(127, v)], Runs(n - 127, v));
    } else if n > 0 {
      One(Run(n, v));
    }
  }

  lemma {:induction false} ChunksStandFor(row: seq<byte>, x: nat)
    requires x <= |row|
    ensures ChunksOk(Chunks(row, x)) && Expand(Chunks(row, x)) == row[x..]
    decreases |row| - x
  {
    if x == |row| {
      Empty();
    } else {
      var r := FirstRun(row, x);
      DumpsOk(row[x..r]);
      if r < |row| {
        var e := RunEnd(row, r, row[r]);
        RunNotEmpty(row, r);
        hide ChunksOk, Expand, Bytes, Dumps, Runs, FirstRun, RunEnd, RunAt, Fill;
        RunsOk(e - r, row[r]);
        ChunksStandFor(row, e);
        RowParts(row, x, r, e);
        Concat(Runs(e - r, row[r]), Chunks(row, e));
        Concat(Dumps(row[x..r]), Runs(e - r, row[r]) + Chunks(row, e));
      } else {
        assert row[x..] == row[x..r];
      }
    }
  }

  lemma RowParts(row: seq<byte>, x: nat, r: nat, e: nat)
    requires x <= r < e <= |row| && forall q :: r <= q < e ==> row[q] == row[r]
    ensures row[x..] == row[x..r] + (Fill(row[r], e - r) + row[e..])
  {
    assert row[r..e] == Fill(row[r], e - r);
  }

  lemma RunNotEmpty(row: seq<byte>, r: nat)
    requires r < |row|
    ensures RunEnd(row, r, row[r]) > r
  {
  }

  // ----- how long the chunks are

  function First(c: Chunk): byte
    requires ChunkOk(c)
  {
    match c case Run(_, value) => value case Dump(data) => data[0]
  }

  /** A dump ends before a run or when it is full, a run before another value or when it is full. */
  predicate Tight(a: Chunk, b: Chunk) {
    && ChunkOk(a) && ChunkOk(b)
    && match a
       case Dump(data) => |data| == 128 || b.Run?
       case Run(len, value) => First(b) != value || (len == 127 && b.Run?)
  }

  /** A run of fewer than three values only goes on with what a full run has left. */
  predicate Long(cs: seq<Chunk>, i: nat)
    requires i < |cs|
  {
    cs[i].Run? && cs[i].len < 3 ==> i > 0 && cs[i - 1] == Run(127, cs[i].value)
  }

  predicate AllTight(cs: seq<Chunk>) {
    && (forall i :: 0 <= i < |cs| - 1 ==> Tight(cs[i], cs[i + 1]))
    && forall i :: 0 <= i < |cs| ==> Long(cs, i)
  }

  /** Dumps hold no three equal values side by side. */
  predicate DumpPlain(c: Chunk) {
    c.Dump? ==> forall q :: 0 <= q < |c.data| ==> !RunAt(c.data, q)
  }

  predicate AllPlain(cs: seq<Chunk>) {
    forall i :: 0 <= i < |cs| ==> DumpPlain(cs[i])
  }

  lemma TightConcat(a: seq<Chunk>, b: seq<Chunk>)
    requires AllTight(a) && AllTight(b) && (a != [] && b != [] ==> Tight(a[|a| - 1], b[0]))
    ensures AllTight(a + b)
  {
    hide Tight;
    var cs := a + b;
    forall i | 0 <= i < |cs| - 1 ensures Tight(cs[i], cs[i + 1]) {
      if i < |a| - 1 { assert Tight(a[i], a[i + 1]); } else if i >= |a| { assert Tight(b[i - |a|], b[i - |a| + 1]); }
    }
    forall i | 0 <= i < |cs| ensures Long(cs, i) {
      if i < |a| { assert Long(a, i); } else { assert Long(b, i - |a|); }
    }
  }

  lemma PlainConcat(a: seq<Chunk>, b: seq<Chunk>)
    requires AllPlain(a) && AllPlain(b) && ChunksOk(a) && ChunksOk(b)
    ensures AllPlain(a + b) && ChunksOk(a + b)
  {
    hide DumpPlain, ChunkOk;
  }

  lemma {:induction false} DumpsTight(data: seq<byte>)
    requires forall q :: 0 <= q < |data| ==> !RunAt(data, q)
    ensures var cs := Dumps(data);
            && AllTight(cs) && ChunksOk(cs) && AllPlain(cs) && (forall i :: 0 <= i < |cs| ==> cs[i].Dump?)
            && (cs == [] <==> data == []) && (cs != [] ==> cs[0].data[0] == data[0])
    decreases |data|
  {
    if |data| > 128 {
      forall q | 0 <= q < |data[128..]| ensures !RunAt(data[128..], q) { assert !RunAt(data, 128 + q); }
      forall q | 0 <= q < 128 ensures !RunAt(data[..128], q) { assert !RunAt(data, q); }
      DumpsTight(data[128..]);
      TightConcat([Dump(data[..128])], Dumps(data[128..]));
    }
  }

  lemma {:induction false} RunsTight(n: nat, v: byte)
    requires n > 0
    ensures var cs := Runs(n, v);
            && cs != [] && ChunksOk(cs) && AllPlain(cs) && (forall i :: 0 <= i < |cs| - 1 ==> Tight(cs[i], cs[i + 1]))
            && (forall i :: 0 <= i < |cs| ==> cs[i].Run? && cs[i].value == v)
            && (forall i :: 1 <= i < |cs| ==> Long(cs, i)) && (n >= 3 ==> Long(cs, 0))
    decreases n
  {
    if n > 127 {
      RunsTight(n - 127, v);
      var rest := Runs(n - 127, v);
      var cs := Runs(n, v);
      assert cs == [Run(127, v)] + rest;
      forall i | 0 <= i < |cs| - 1 ensures Tight(cs[i], cs[i + 1]) { if i > 0 { assert Tight(rest[i - 1], rest[i]); } }
      forall i | 1 <= i < |cs| ensures Long(cs, i) { if i > 1 { assert Long(rest, i - 1); } }
    }
  }

  /** As long as the format and the values allow, and with every three equal values in a run. */
  predicate Good(cs: seq<Chunk>) {
    ChunksOk(cs) && AllTight(cs) && AllPlain(cs)
  }

  predicate StartsWith(cs: seq<Chunk>, v: byte) {
    cs != [] && ChunkOk(cs[0]) && First(cs[0]) == v
  }

  lemma GoodDumps(data: seq<byte>)
    requires forall q :: 0 <= q < |data| ==> !RunAt(data, q)
    ensures Good(Dumps(data)) && (forall i :: 0 <= i < |Dumps(data)| ==> Dumps(data)[i].Dump?)
    ensures if data == [] then Dumps(data) == [] else StartsWith(Dumps(data), data[0])
  {
    DumpsTight(data);
    hide AllTight, AllPlain;
  }

  lemma GoodRuns(n: nat, v: byte)
    requires n >= 3
    ensures Good(Runs(n, v)) && StartsWith(Runs(n, v), v)
    ensures forall i :: 0 <= i < |Runs(n, v)| ==> Runs(n, v)[i].Run? && Runs(n, v)[i].value == v
  {
    RunsTight(n, v);
    RunsAllTight(Runs(n, v));
    hide Runs, AllPlain, AllTight;
    assert ChunkOk(Runs(n, v)[0]);
  }

  lemma RunsAllTight(cs: seq<Chunk>)
    requires cs != [] && (forall i :: 0 <= i < |cs| - 1 ==> Tight(cs[i], cs[i + 1]))
    requires (forall i :: 1 <= i < |cs| ==> Long(cs, i)) && Long(cs, 0)
    ensures AllTight(cs)
  {
  }

  lemma RunsThenRest(runs: seq<Chunk>, rest: seq<Chunk>, v: byte, u: byte)
    requires Good(runs) && Good(rest) && StartsWith(runs, v) && (rest != [] ==> StartsWith(rest, u) && u != v)
    requires forall i :: 0 <= i < |runs| ==> runs[i].Run? && runs[i].value == v
    ensures Good(runs + rest) && StartsWith(runs + rest, v) && (runs + rest)[0].Run?
  {
    hide AllTight, AllPlain, First;
    assert ChunkOk(runs[|runs| - 1]);
    if rest != [] { assert Tight(runs[|runs| - 1], rest[0]); }
    TightConcat(runs, rest);
    PlainConcat(runs, rest);
  }

  lemma DumpsThenRuns(dumps: seq<Chunk>, b: seq<Chunk>, u: byte, v: byte)
    requires Good(dumps) && Good(b) && StartsWith(b, v) && b[0].Run? && (dumps != [] ==> StartsWith(dumps, u))
    requires forall i :: 0 <= i < |dumps| ==> dumps[i].Dump?
    ensures Good(dumps + b) && StartsWith(dumps + b, if dumps == [] then v else u)
  {
    hide AllTight, AllPlain, First;
    if dumps != [] {
      assert ChunkOk(dumps[|dumps| - 1]);
      assert Tight(dumps[|dumps| - 1], b[0]);
    }
    TightConcat(dumps, b);
    PlainConcat(dumps, b);
  }

  /** The chunks of a row are as long as the format and the row allow. */
  lemma {:induction false} ChunksTight(row: seq<byte>, x: nat)
    requires x <= |row|
    ensures Good(Chunks(row, x))
    ensures if x == |row| then Chunks(row, x) == [] else StartsWith(Chunks(row, x), row[x])
    decreases |row| - x
  {
    if x < |row| {
      var r := FirstRun(row, x);
      if r < |row| { RunOfThree(row, r); }
      hide Dumps, Runs, FirstRun, RunEnd, Good, StartsWith, RunAt, Tight, Long, ChunkOk;
      PlainPart(row, x, r);
      GoodDumps(row[x..r]);
      if r < |row| {
        var e := RunEnd(row, r, row[r]);
        ChunksTight(row, e);
        GoodRuns(e - r, row[r]);
        var u, w := if e < |row| then row[e] else 0, if x < r then row[x] else 0;
        RunsThenRest(Runs(e - r, row[r]), Chunks(row, e), row[r], u);
        DumpsThenRuns(Dumps(row[x..r]), Runs(e - r, row[r]) + Chunks(row, e), w, row[r]);
      }
    }
  }

  lemma RunOfThree(row: seq<byte>, r: nat)
    requires RunAt(row, r)
    ensures RunEnd(row, r, row[r]) >= r + 3
  {
  }

  lemma PlainPart(row: seq<byte>, x: nat, r: nat)
    requires x <= r <= |row| && forall q :: x <= q < r ==> !RunAt(row, q)
    ensures forall q :: 0 <= q < |row[x..r]| ==> !RunAt(row[x..r], q)
  {
    forall q | 0 <= q < |row[x..r]| ensures !RunAt(row[x..r], q) { assert !RunAt(row, x + q); }
  }

  // ----- writing them

  /** The values from `x` to `r`, in dumps. */
  method WriteDumps(row: seq<byte>, x: nat, r: nat) returns (out: seq<byte>)
    requires x <= r <= |row|
    ensures ChunksOk(Dumps(row[x..r])) && out == Bytes(Dumps(row[x..r]))
  {
    DumpsOk(row[x..r]);
    out := [];
    var i := x;
    Empty();
    hide Bytes, Dumps, ChunksOk, Expand;
    assert [] + Bytes(Dumps(row[x..r])) == Bytes(Dumps(row[x..r]));
    while i < r
      invariant x <= i <= r && ChunksOk(Dumps(row[i..r]))
      invariant out + Bytes(Dumps(row[i..r])) == Bytes(Dumps(row[x..r]))
    {
      var len := if r - i > 128 then 128 else r - i;
      DumpsStep(row, i, r, len);
      Associate(out, [len] + row[i..i + len], Bytes(Dumps(row[i + len..r])));
      out := out + ([len] + row[i..i + len]);
      i := i + len;
    }
    NoDumps(row, r);
    assert out + [] == out;
  }

  lemma NoDumps(row: seq<byte>, r: nat)
    requires r <= |row|
    ensures ChunksOk(Dumps(row[r..r])) && Bytes(Dumps(row[r..r])) == []
  {
    assert row[r..r] == [];
  }

  lemma DumpsStep(row: seq<byte>, i: nat, r: nat, len: nat)
    requires i < r <= |row| && len == if r - i > 128 then 128 else r - i
    ensures ChunksOk(Dumps(row[i..r])) && ChunksOk(Dumps(row[i + len..r]))
    ensures Bytes(Dumps(row[i..r])) == [len] + row[i..i + len] + Bytes(Dumps(row[i + len..r]))
  {
    DumpsOk(row[i..r]);
    DumpsOk(row[i + len..r]);
    var c := Dump(row[i..i + len]);
    One(c);
    if r - i > 128 {
      assert row[i..r][..128] == c.data && row[i..r][128..] == row[i + len..r];
      Concat([c], Dumps(row[i + len..r]));
    } else {
      assert row[i..r] == c.data && row[r..r] == [];
      Empty();
    }
  }

  /** The equal values from `x` to `r`, in runs. */
  method WriteRuns(v: byte, x: nat, r: nat) returns (out: seq<byte>)
    requires x <= r
    ensures ChunksOk(Runs(r - x, v)) && out == Bytes(Runs(r - x, v))
  {
    RunsOk(r - x, v);
    out := [];
    var i := x;
    hide Bytes, Runs, ChunksOk, Expand, Fill;
    assert [] + Bytes(Runs(r - x, v)) == Bytes(Runs(r - x, v));
    while i < r
      invariant x <= i <= r && ChunksOk(Runs(r - i, v)) && out + Bytes(Runs(r - i, v)) == Bytes(Runs(r - x, v))
    {
      var len := if r - i > 127 then 127 else r - i;
      RunsStep(v, r - i, len);
      Associate(out, [len + 128, v], Bytes(Runs(r - i - len, v)));
      out := out + [len + 128, v];
      i := i + len;
    }
    NoRuns(v);
    assert out + [] == out;
  }

  lemma NoRuns(v: byte)
    ensures ChunksOk(Runs(0, v)) && Bytes(Runs(0, v)) == []
  {
  }

  lemma RunsStep(v: byte, n: nat, len: nat)
    requires n > 0 && len == if n > 127 then 127 else n
    ensures ChunksOk(Runs(n, v)) && ChunksOk(Runs(n - len, v))
    ensures Bytes(Runs(n, v)) == [len + 128, v] + Bytes(Runs(n - len, v))
  {
    RunsOk(n, v);
    RunsOk(n - len, v);
    One(Run(len, v));
    if n > 127 { Concat([Run(127, v)], Runs(n - 127, v)); } else { Empty(); }
  }

  /** The bytes of the row's chunks. */
  function RowBytes(row: seq<byte>): seq<byte> {
    ChunksStandFor(row, 0);
    Bytes(Chunks(row, 0))
  }

  /** The bytes are those of the row's chunks. */
  ghost predicate Coded(row: seq<byte>, out: seq<byte>) {
    ChunksOk(Chunks(row, 0)) && out == Bytes(Chunks(row, 0))
  }

  /** One component of a scanline. */
  method WriteRow(row: seq<byte>) returns (out: seq<byte>)
    ensures Coded(row, out)
  {
    hide Bytes, Expand, ChunksOk, Dumps, Runs, FirstRun, RunEnd, RunAt, Chunks;
    ChunksStandFor(row, 0);
    out := [];
    var x: nat := 0;
    assert [] + Bytes(Chunks(row, 0)) == Bytes(Chunks(row, 0));
    while x < |row|
      invariant x <= |row| && ChunksOk(Chunks(row, x)) && out + Bytes(Chunks(row, x)) == Bytes(Chunks(row, 0))
    {
      var r := FindRun(row, x);
      var dumps := WriteDumps(row, x, r);
      ghost var all, at := Bytes(Chunks(row, x)), x;
      out := out + dumps;
      x := r;
      if r + 2 < |row| {
        while r < |row| && row[r] == row[x]
          invariant x <= r <= |row| && RunEnd(row, r, row[x]) == RunEnd(row, x, row[x])
        {
          EndStep(row, r, row[x]);
          r := r + 1;
        }
        EndHere(row, r, row[x]);
        var runs := WriteRuns(row[x], x, r);
        ChunksStep(row, at, x, r, dumps, runs);
        out := out + runs;
        x := r;
      } else {
        NoRunLeft(row, at, r, dumps);
      }
    }
    NoChunks(row);
  }

  lemma EndStep(row: seq<byte>, r: nat, v: byte)
    requires r < |row| && row[r] == v
    ensures RunEnd(row, r, v) == RunEnd(row, r + 1, v)
  {
  }

  lemma EndHere(row: seq<byte>, r: nat, v: byte)
    requires r <= |row| && (r < |row| ==> row[r] != v)
    ensures RunEnd(row, r, v) == r
  {
  }

  lemma NoChunks(row: seq<byte>)
    ensures ChunksOk(Chunks(row, |row|)) && Bytes(Chunks(row, |row|)) == []
  {
  }

  lemma ChunksStep(row: seq<byte>, at: nat, x: nat, e: nat, dumps: seq<byte>, runs: seq<byte>)
    requires at < |row| && x == FirstRun(row, at) < |row| && e == RunEnd(row, x, row[x])
    requires ChunksOk(Dumps(row[at..x])) && dumps == Bytes(Dumps(row[at..x]))
    requires ChunksOk(Runs(e - x, row[x])) && runs == Bytes(Runs(e - x, row[x]))
    ensures e > at && ChunksOk(Chunks(row, at)) && ChunksOk(Chunks(row, e))
    ensures Bytes(Chunks(row, at)) == dumps + runs + Bytes(Chunks(row, e))
  {
    hide Bytes, Dumps, Runs, FirstRun, RunEnd, Expand, ChunksOk, RunAt;
    RunNotEmpty(row, x);
    ChunksStandFor(row, e);
    Concat(Runs(e - x, row[x]), Chunks(row, e));
    Concat(Dumps(row[at..x]), Runs(e - x, row[x]) + Chunks(row, e));
    Associate(dumps, runs, Bytes(Chunks(row, e)));
  }

  lemma NoRunLeft(row: seq<byte>, at: nat, r: nat, dumps: seq<byte>)
    requires at < |row| && r == FirstRun(row, at) && r + 2 >= |row|
    requires ChunksOk(Dumps(row[at..r])) && dumps == Bytes(Dumps(row[at..r]))
    ensures r == |row| && ChunksOk(Chunks(row, at)) && ChunksOk(Chunks(row, r))
    ensures Bytes(Chunks(row, at)) == dumps + Bytes(Chunks(row, r))
  {
    hide Dumps;
    NoChunks(row);
  }

  lemma Empty()
    ensures ChunksOk([]) && Bytes([]) == [] && Expand([]) == []
  {
  }

  // ----- the reader

  /** `Hangs`: every further length is read as 0, behind the end of the bytes. */
  datatype RowResult = Row(pos: nat, row: seq<byte>) | BadRle | Hangs

  /** Reads `n` more values after `acc`. */
  function ReadFrom(z: seq<byte>, pos: nat, n: nat, acc: seq<byte>): RowResult
    decreases if pos < |z| then |z| - pos else 0, n
  {
    if n == 0 then Row(pos, acc)
    else if pos >= |z| then Hangs
    else
      var count := z[pos];
      if count > 128 then
        if count - 128 > n then BadRle
        else ReadFrom(z, pos + 2, n - (count - 128), acc + Fill(ByteAt(z, pos + 1), count - 128))
      else if count > n then BadRle
      else ReadFrom(z, pos + 1 + count, n - count, acc + Values(z, pos + 1, count))
  }

  /** How many values the lengths from `pos` to the end of the bytes announce. */
  function Announced(z: seq<byte>, pos: nat): nat
    decreases if pos < |z| then |z| - pos else 0
  {
    if pos >= |z| then 0
    else if z[pos] > 128 then z[pos] - 128 + Announced(z, pos + 2)
    else z[pos] + Announced(z, pos + 1 + z[pos])
  }

  /** The reader hangs exactly when fewer values are announced than it needs. */
  lemma {:induction false} HangsIffShort(z: seq<byte>, pos: nat, n: nat, acc: seq<byte>)
    ensures ReadFrom(z, pos, n, acc) == Hangs <==> Announced(z, pos) < n
    decreases if pos < |z| then |z| - pos else 0
  {
    hide Values, Fill;
    if n > 0 && pos < |z| {
      var count := z[pos];
      if 128 < count <= n + 128 {
        HangsIffShort(z, pos + 2, n - (count - 128), acc + Fill(ByteAt(z, pos + 1), count - 128));
      } else if count <= 128 && count <= n {
        HangsIffShort(z, pos + 1 + count, n - count, acc + Values(z, pos + 1, count));
      }
    }
  }

  /** The reader's loops for one component of a scanline. */
  method ReadRow(z: seq<byte>, start: nat, width: nat) returns (r: RowResult)
    ensures r == ReadFrom(z, start, width, [])
    ensures r == Hangs <==> Announced(z, start) < width
  {
    HangsIffShort(z, start, width, []);
    hide Announced;
    var pos, row: seq<byte> := start, [];
    while |row| < width
      invariant |row| <= width && ReadFrom(z, pos, width - |row|, row) == ReadFrom(z, start, width, [])
      decreases if pos < |z| then |z| - pos else 0, width - |row|
    {
      var nleft := width - |row|;
      if pos >= |z| { return Hangs; }
      var count: nat := z[pos];
      pos := pos + 1;
      if count > 128 {
        var value := ByteAt(z, pos);
        pos := pos + 1;
        count := count - 128;
        if count > nleft { return BadRle; }
        row := row + Fill(value, count);
      } else {
        if count > nleft { return BadRle; }
        var i := 0;
        ghost var before, at := row, pos;
        while i < count
          invariant i <= count && pos == at + i && row == before + Values(z, at, i)
        {
          row := row + [ByteAt(z, pos)];
          pos := pos + 1;
          i := i + 1;
        }
      }
    }
    r := Row(pos, row);
  }

  lemma ReadHead(z: seq<byte>, pos: nat, n: nat, c: Chunk, acc: seq<byte>)
    requires ChunkOk(c) && n >= |Expand([c])| && pos < |z|
    requires c.Run? ==> z[pos] == c.len + 128 && ByteAt(z, pos + 1) == c.value
    requires c.Dump? ==> z[pos] == |c.data| && Values(z, pos + 1, |c.data|) == c.data
    ensures ReadFrom(z, pos, n, acc) == ReadFrom(z, pos + |Bytes([c])|, n - |Expand([c])|, acc + Expand([c]))
  {
    hide Bytes, Expand, Values, Fill;
    One(c);
  }

  lemma HeadAndRest(cs: seq<Chunk>)
    requires cs != [] && ChunksOk(cs)
    ensures ChunkOk(cs[0]) && ChunksOk([cs[0]]) && ChunksOk(cs[1..])
    ensures Expand(cs) == Expand([cs[0]]) + Expand(cs[1..]) && Bytes(cs) == Bytes([cs[0]]) + Bytes(cs[1..])
  {
    hide Fill, ChunkOk;
    assert ChunkOk(cs[0]);
    One(cs[0]);
  }

  lemma ReadNone(z: seq<byte>, pos: nat, acc: seq<byte>)
    ensures ReadFrom(z, pos, 0, acc) == Row(pos, acc + Expand([])) && |Expand([])| == 0 && |Bytes([])| == 0
  {
  }

  /** Reading the bytes of chunks gives the values they stand for, and never bad data. */
  lemma {:induction false} ChunksRead(z: seq<byte>, pos: nat, cs: seq<Chunk>, acc: seq<byte>)
    requires ChunksOk(cs) && StandsAt(z, pos, Bytes(cs))
    ensures ReadFrom(z, pos, |Expand(cs)|, acc) == Row(pos + |Bytes(cs)|, acc + Expand(cs))
    decreases |cs|
  {
    hide ReadFrom, Bytes, Expand, Values, ChunkOk, ChunksOk, StandsAt;
    if cs == [] {
      ReadNone(z, pos, acc);
    } else {
      HeadAndRest(cs);
      var head, values := Bytes([cs[0]]), Expand([cs[0]]);
      StandsSplit(z, pos, head, Bytes(cs[1..]));
      HeadStands(z, pos, cs[0], head);
      ReadHead(z, pos, |Expand(cs)|, cs[0], acc);
      ChunksRead(z, pos + |head|, cs[1..], acc + values);
      Associate(acc, values, Expand(cs[1..]));
    }
  }

  lemma HeadStands(z: seq<byte>, pos: nat, c: Chunk, head: seq<byte>)
    requires ChunkOk(c) && head == Bytes([c]) && StandsAt(z, pos, head)
    ensures pos < |z|
    ensures c.Run? ==> z[pos] == c.len + 128 && ByteAt(z, pos + 1) == c.value
    ensures c.Dump? ==> z[pos] == |c.data| && Values(z, pos + 1, |c.data|) == c.data
  {
    One(c);
    hide Bytes, Expand, Values;
    match c {
      case Run(len, value) => RunStands(z, pos, len + 128, value);
      case Dump(data) => DumpStands(z, pos, |data|, data);
    }
  }

  lemma RunStands(z: seq<byte>, pos: nat, b: byte, value: byte)
    requires StandsAt(z, pos, [b, value])
    ensures pos + 1 < |z| && z[pos] == b && ByteAt(z, pos + 1) == value
  {
    var s := z[pos..pos + 2];
    assert s[0] == z[pos] && s[1] == z[pos + 1];
  }

  lemma DumpStands(z: seq<byte>, pos: nat, b: byte, data: seq<byte>)
    requires StandsAt(z, pos, [b] + data)
    ensures pos < |z| && z[pos] == b && Values(z, pos + 1, |data|) == data
  {
    StandsSplit(z, pos, [b], data);
    assert z[pos..pos + 1][0] == z[pos];
    ValuesSlice(z, pos + 1, |data|);
  }

  // ----- whole scanlines

  /** Four components of the same width. */
  predicate ScanlineOk(line: seq<seq<byte>>) {
    |line| == 4 && forall c :: 0 <= c < 4 ==> |line[c]| == |line[0]|
  }

  /** The widths of scanlines that are run-length coded. */
  predicate RunCoded(width: nat) {
    8 <= width < 32768
  }

  /** The first `x` pixels, component by component. */
  function Plain(line: seq<seq<byte>>, x: nat): (r: seq<byte>)
    requires ScanlineOk(line) && x <= |line[0]|
    ensures |r| == 4 * x
  {
    if x == 0 then [] else Plain(line, x - 1) + [line[0][x - 1], line[1][x - 1], line[2][x - 1], line[3][x - 1]]
  }

  /** The header with the width, and the four components one after the other. */
  ghost predicate RowsCoded(line: seq<seq<byte>>, out: seq<byte>)
    requires ScanlineOk(line)
  {
    exists a, b, c, d ::
      && Coded(line[0], a) && Coded(line[1], b) && Coded(line[2], c) && Coded(line[3], d)
      && out == [2, 2, |line[0]| / 256, |line[0]| % 256] + a + b + c + d
  }

  /** The bytes of a scanline: coded, or pixel after pixel if it is too short or too long. */
  ghost predicate ScanlineCoded(line: seq<seq<byte>>, out: seq<byte>)
    requires ScanlineOk(line)
  {
    if RunCoded(|line[0]|) then RowsCoded(line, out) else out == Plain(line, |line[0]|)
  }

  method WriteScanline(line: seq<seq<byte>>) returns (out: seq<byte>)
    requires ScanlineOk(line)
    ensures ScanlineCoded(line, out)
    ensures 8 <= |line[0]| < 32768 ==>
              out == [2, 2, |line[0]| / 256, |line[0]| % 256]
                     + RowBytes(line[0]) + RowBytes(line[1]) + RowBytes(line[2]) + RowBytes(line[3])
    ensures !(8 <= |line[0]| < 32768) ==>
              |out| == 4 * |line[0]|
              && forall x, c :: 0 <= x < |line[0]| && 0 <= c < 4 ==> out[4 * x + c] == line[c][x]
  {
    hide Coded;
    var width := |line[0]|;
    if width < 8 || width >= 32768 {
      out := [];
      for x := 0 to width
        invariant out == Plain(line, x)
      {
        out := out + [line[0][x], line[1][x], line[2][x], line[3][x]];
      }
      forall x, c | 0 <= x < width && 0 <= c < 4 ensures out[4 * x + c] == line[c][x] {
        PlainAtPixel(line, width, x, c);
      }
      return;
    }
    var a := WriteRow(line[0]);
    var b := WriteRow(line[1]);
    var c := WriteRow(line[2]);
    var d := WriteRow(line[3]);
    out := [2, 2, width / 256, width % 256] + a + b + c + d;
    forall c | 0 <= c < 4 ensures forall r :: Coded(line[c], r) ==> r == RowBytes(line[c]) { CodedIs(line[c]); }
  }

  lemma CodedIs(row: seq<byte>)
    ensures forall r :: Coded(row, r) <==> r == RowBytes(row)
  {
    ChunksStandFor(row, 0);
  }

  /**
   `Flat` stands for the restart with plain pixels when the first scanlines are not
   coded, `Garbage` for pixels that the bytes have ended before.
   */
  datatype LineResult = Line(pos: nat, line: seq<seq<byte>>) | Flat | BadWidth | BadLine | LineHangs | Garbage

  /** Component `c` of `n` plain pixels. */
  function Component(z: seq<byte>, start: nat, n: nat, c: nat): (r: seq<byte>)
    ensures |r| == n
  {
    seq(n, i requires 0 <= i < n => ByteAt(z, start + 4 * i + c))
  }

  function PlainAt(z: seq<byte>, start: nat, width: nat): LineResult {
    if start + 4 * width > |z| then Garbage
    else Line(start + 4 * width, seq(4, c requires 0 <= c < 4 => Component(z, start, width, c)))
  }

  lemma PlainOrGarbage(z: seq<byte>, start: nat, width: nat)
    ensures PlainAt(z, start, width) == Garbage <==> start + 4 * width > |z|
    ensures PlainAt(z, start, width) != Garbage ==> PlainAt(z, start, width).Line?
  {
  }

  method ReadPlain(z: seq<byte>, start: nat, width: nat) returns (r: LineResult)
    ensures r == PlainAt(z, start, width)
  {
    var pos: nat := start;
    var a: seq<byte>, b: seq<byte>, c: seq<byte>, d: seq<byte> := [], [], [], [];
    for i := 0 to width
      invariant pos == start + 4 * i && (pos <= |z| || i == 0)
      invariant a == Component(z, start, i, 0) && b == Component(z, start, i, 1)
      invariant c == Component(z, start, i, 2) && d == Component(z, start, i, 3)
    {
      if pos + 4 > |z| { return Garbage; }
      a, b, c, d := a + [z[pos]], b + [z[pos + 1]], c + [z[pos + 2]], d + [z[pos + 3]];
      pos := pos + 4;
    }
    if pos > |z| { return Garbage; }
    assert [a, b, c, d] == seq(4, k requires 0 <= k < 4 => Component(z, start, width, k));
    r := Line(pos, [a, b, c, d]);
  }

  /** The reader for a scanline of an image of this width. */
  method ReadScanline(z: seq<byte>, start: nat, width: nat) returns (r: LineResult)
    ensures r == LineAt(z, start, width)
    ensures !(8 <= width < 32768) ==> (r == Garbage <==> start + 4 * width > |z|)
    ensures r == Flat <==>
            8 <= width < 32768
            && !(ByteAt(z, start) == 2 && ByteAt(z, start + 1) == 2 && ByteAt(z, start + 2) < 128)
    ensures r == BadWidth <==>
            8 <= width < 32768
            && ByteAt(z, start) == 2 && ByteAt(z, start + 1) == 2 && ByteAt(z, start + 2) < 128
            && 256 * ByteAt(z, start + 2) + ByteAt(z, start + 3) != width
  {
    hide ReadFrom, PlainAt;
    if width < 8 || width >= 32768 {
      r := ReadPlain(z, start, width);
      PlainOrGarbage(z, start, width);
      return;
    }
    var c1, c2 := ByteAt(z, start), ByteAt(z, start + 1);
    var hi: nat, lo: nat := ByteAt(z, start + 2), ByteAt(z, start + 3);
    if c1 != 2 || c2 != 2 || hi >= 0x80 { return Flat; }
    if hi * 256 + lo != width { return BadWidth; }
    var line: seq<seq<byte>> := [];
    var pos: nat := start + 4;
    for k := 0 to 4
      invariant |line| == k && RowsFrom(z, pos, width, line) == RowsFrom(z, start + 4, width, [])
    {
      var row := ReadRow(z, pos, width);
      if row == BadRle { return BadLine; }
      if row == Hangs { return LineHangs; }
      line := line + [row.row];
      pos := row.pos;
    }
    r := Line(pos, line);
  }

  function RowsFrom(z: seq<byte>, pos: nat, width: nat, acc: seq<seq<byte>>): LineResult
    requires |acc| <= 4
    decreases 4 - |acc|
  {
    if |acc| == 4 then Line(pos, acc)
    else match ReadFrom(z, pos, width, [])
      case BadRle => BadLine
      case Hangs => LineHangs
      case Row(pos, row) => RowsFrom(z, pos, width, acc + [row])
  }

  function LineAt(z: seq<byte>, start: nat, width: nat): LineResult {
    if !RunCoded(width) then PlainAt(z, start, width)
    else if ByteAt(z, start) != 2 || ByteAt(z, start + 1) != 2 || ByteAt(z, start + 2) >= 0x80 then Flat
    else if ByteAt(z, start + 2) as nat * 256 + ByteAt(z, start + 3) != width then BadWidth
    else RowsFrom(z, start + 4, width, [])
  }

  /** What the writer writes for a scanline, the reader reads back, wherever it stands. */
  lemma ScanlineReadBack(z: seq<byte>, pos: nat, line: seq<seq<byte>>, out: seq<byte>)
    requires ScanlineOk(line) && ScanlineCoded(line, out) && StandsAt(z, pos, out)
    ensures LineAt(z, pos, |line[0]|) == Line(pos + |out|, line)
  {
    if RunCoded(|line[0]|) { RowsReadBack(z, pos, line, out); } else { PlainReadBack(z, pos, line, out); }
  }

  lemma PlainReadBack(z: seq<byte>, pos: nat, line: seq<seq<byte>>, out: seq<byte>)
    requires ScanlineOk(line) && out == Plain(line, |line[0]|) && StandsAt(z, pos, out)
    ensures PlainAt(z, pos, |line[0]|) == Line(pos + |out|, line)
  {
    hide Plain;
    var width := |line[0]|;
    forall c | 0 <= c < 4 ensures Component(z, pos, width, c) == line[c] {
      forall i | 0 <= i < width ensures ByteAt(z, pos + 4 * i + c) == line[c][i] {
        PlainAtPixel(line, width, i, c);
        assert z[pos..pos + |out|][4 * i + c] == z[pos + 4 * i + c];
      }
    }
    assert seq(4, c requires 0 <= c < 4 => Component(z, pos, width, c)) == line;
  }

  lemma {:induction false} PlainAtPixel(line: seq<seq<byte>>, x: nat, i: nat, c: nat)
    requires ScanlineOk(line) && i < x <= |line[0]| && c < 4
    ensures Plain(line, x)[4 * i + c] == line[c][i]
  {
    if i < x - 1 { PlainAtPixel(line, x - 1, i, c); }
  }

  lemma RowsReadBack(z: seq<byte>, pos: nat, line: seq<seq<byte>>, out: seq<byte>)
    requires ScanlineOk(line) && RunCoded(|line[0]|) && RowsCoded(line, out) && StandsAt(z, pos, out)
    ensures LineAt(z, pos, |line[0]|) == Line(pos + |out|, line)
  {
    hide ReadFrom, RowsFrom, Coded;
    var width := |line[0]|;
    var h: seq<byte> := [2, 2, width / 256, width % 256];
    var a, b, c, d :| Coded(line[0], a) && Coded(line[1], b) && Coded(line[2], c) && Coded(line[3], d)
                      && out == h + a + b + c + d;
    StandsSplit(z, pos, h + a + b + c, d);
    StandsSplit(z, pos, h + a + b, c);
    StandsSplit(z, pos, h + a, b);
    StandsSplit(z, pos, h, a);
    HeaderStands(z, pos, h);
    var p := pos + 4;
    NextRow(z, p, a, line[..0], line);
    NextRow(z, p + |a|, b, line[..1], line);
    NextRow(z, p + |a| + |b|, c, line[..2], line);
    NextRow(z, p + |a| + |b| + |c|, d, line[..3], line);
    AllRows(z, pos + |out|, width, line);
  }

  lemma HeaderStands(z: seq<byte>, pos: nat, h: seq<byte>)
    requires |h| == 4 && StandsAt(z, pos, h)
    ensures ByteAt(z, pos) == h[0] && ByteAt(z, pos + 1) == h[1] && ByteAt(z, pos + 2) == h[2]
            && ByteAt(z, pos + 3) == h[3]
  {
    var s := z[pos..pos + 4];
    assert s[0] == z[pos] && s[1] == z[pos + 1] && s[2] == z[pos + 2] && s[3] == z[pos + 3];
  }

  /** A written row is read back. */
  lemma RowReadBack(z: seq<byte>, pos: nat, row: seq<byte>, out: seq<byte>)
    requires Coded(row, out) && StandsAt(z, pos, out)
    ensures ReadFrom(z, pos, |row|, []) == Row(pos + |out|, row)
  {
    hide ReadFrom, Bytes, Expand, ChunksOk, Chunks;
    var cs := Chunks(row, 0);
    ChunksStandFor(row, 0);
    assert row[0..] == row;
    ChunksRead(z, pos, cs, []);
    assert [] + row == row;
  }

  lemma NextRow(z: seq<byte>, pos: nat, out: seq<byte>, acc: seq<seq<byte>>, line: seq<seq<byte>>)
    requires ScanlineOk(line) && |acc| < 4 && acc == line[..|acc|]
    requires Coded(line[|acc|], out) && StandsAt(z, pos, out)
    ensures RowsFrom(z, pos, |line[0]|, acc) == RowsFrom(z, pos + |out|, |line[0]|, line[..|acc| + 1])
  {
    hide ReadFrom, Coded;
    RowReadBack(z, pos, line[|acc|], out);
    assert line[..|acc| + 1] == acc + [line[|acc|]];
  }

  lemma AllRows(z: seq<byte>, pos: nat, width: nat, line: seq<seq<byte>>)
    requires |line| == 4
    ensures RowsFrom(z, pos, width, line[..4]) == Line(pos, line)
  {
    assert line[..4] == line;
  }
}
