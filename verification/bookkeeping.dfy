/**
 The waiting-time bookkeeping of one NPU OS: what is added when a prediction is
 sent, and taken off when its echo comes back, in any order.
 */
module Bookkeeping {
  import opened WcetList

  /** A prediction on its way, with the `prev_wcet` that its message carries. */
  datatype Prediction = Prediction(key: Key, prev: real)

  datatype Policy = Mwct | Mnt

  datatype Book = Book(
    ewt: real,
    ntasks: int,
    table: map<Key, real>,
    inFlight: seq<Prediction>,
    reports: seq<Report>,   // history: the times echoed so far
    unreturned: real)       // history: the sum of the `prev_wcet` of echoed predictions that were not taken off

  datatype Event = Send(key: Key) | Echo(i: nat, time: real)

  const EMPTY := Book(0.0, 0, map[], [], [], 0.0)

  predicate Enabled(b: Book, e: Event) {
    e.Echo? ==> e.i < |b.inFlight|
  }

  function After(policy: Policy, b: Book, e: Event): Book
    requires Enabled(b, e)
  {
    match e
    case Send(key) =>
      if policy == Mwct then
        var wcet := Lookup(b.table, key);
        b.(ewt := b.ewt + wcet, inFlight := b.inFlight + [Prediction(key, wcet)])
      else b.(ntasks := b.ntasks + 1, inFlight := b.inFlight + [Prediction(key, 0.0)])
    case Echo(i, time) =>
      var p := b.inFlight[i];
      var b := b.(inFlight := b.inFlight[..i] + b.inFlight[i + 1..]);
      if policy == Mwct then
        b.(table := Raised(b.table, p.key, time), reports := b.reports + [Report(p.key, time)],
           ewt := if p.prev > 0.0 then b.ewt - p.prev else b.ewt,
           unreturned := if p.prev > 0.0 then b.unreturned else b.unreturned + p.prev)
      else b.(ntasks := b.ntasks - 1)
  }

  predicate IsRun(policy: Policy, events: seq<Event>, books: seq<Book>) {
    && |books| == |events| + 1 && books[0] == EMPTY
    && forall i :: 0 <= i < |events| ==>
         Enabled(books[i], events[i]) && books[i + 1] == After(policy, books[i], events[i])
  }

  function Sum(ps: seq<Prediction>): real {
    if ps == [] then 0.0 else Sum(ps[..|ps| - 1]) + ps[|ps| - 1].prev
  }

  lemma {:induction false} SumConcat(a: seq<Prediction>, b: seq<Prediction>)
    ensures Sum(a + b) == Sum(a) + Sum(b)
  {
    if b == [] {
      assert a + b == a;
    } else {
      assert (a + b)[..|a + b| - 1] == a + b[..|b| - 1];
      SumConcat(a, b[..|b| - 1]);
    }
  }

  lemma SumOne(p: Prediction)
    ensures Sum([p]) == p.prev
  {
    assert [p][..0] == [];
  }

  lemma SumWithout(ps: seq<Prediction>, i: nat)
    requires i < |ps|
    ensures Sum(ps[..i] + ps[i + 1..]) == Sum(ps) - ps[i].prev
  {
    hide Sum;
    var before, p, behind := ps[..i], [ps[i]], ps[i + 1..];
    SumConcat(before, behind);
    SumConcat(before, p);
    SumConcat(before + p, behind);
    SumOne(ps[i]);
    assert ps == before + p + behind;
  }

  /** What every state keeps. */
  predicate Inv(policy: Policy, b: Book) {
    && b.unreturned <= 0.0
    && (policy == Mwct ==> b.ewt == Sum(b.inFlight) + b.unreturned && b.table == TableOf(b.reports))
    && (policy == Mnt ==> b.ntasks == |b.inFlight|)
  }

  lemma StepKeepsInv(policy: Policy, b: Book, e: Event)
    requires Inv(policy, b) && Enabled(b, e)
    ensures Inv(policy, After(policy, b, e))
  {
    match e
    case Send(key) =>
      SumConcat(b.inFlight, [Prediction(key, Lookup(b.table, key))]);
      SumOne(Prediction(key, Lookup(b.table, key)));
    case Echo(i, time) =>
      SumWithout(b.inFlight, i);
      assert (b.reports + [Report(b.inFlight[i].key, time)])[..|b.reports|] == b.reports;
  }

  /** In every reachable state `ewt` is the work in flight, less what negative times left behind; `ntasks` is exact. */
  lemma {:induction false} RunsKeepInv(policy: Policy, events: seq<Event>, books: seq<Book>, n: nat)
    requires IsRun(policy, events, books) && n < |books|
    ensures Inv(policy, books[n])
  {
    if n > 0 {
      RunsKeepInv(policy, events, books, n - 1);
      StepKeepsInv(policy, books[n - 1], events[n - 1]);
    }
  }

  /**
   In every run a prediction is sent along with the greatest time that its OS has
   reported for its request, 0 if there is none, and adds this to `ewt`.
   */
  lemma SendAddsMaximum(events: seq<Event>, books: seq<Book>, n: nat, key: Key)
    requires IsRun(Mwct, events, books) && n < |events| && events[n] == Send(key)
    ensures |books[n + 1].inFlight| == |books[n].inFlight| + 1
    ensures var p := books[n + 1].inFlight[|books[n].inFlight|];
            var reports := books[n].reports;
            && books[n + 1].inFlight == books[n].inFlight + [p] && p.key == key
            && books[n + 1].ewt == books[n].ewt + p.prev && books[n + 1].reports == reports
            && (forall i :: 0 <= i < |reports| && reports[i].key == key ==> reports[i].time <= p.prev)
            && (Report(key, p.prev) in reports
                || (p.prev == 0.0 && forall i :: 0 <= i < |reports| ==> reports[i].key != key))
  {
    RunsKeepInv(Mwct, events, books, n);
    hide Sum, TableOf;
    TableHoldsMaximum(books[n].reports, key);
  }

  /** An echo is of a prediction on its way, takes off what this added if it was more than 0, and is reported. */
  lemma EchoTakesOff(policy: Policy, events: seq<Event>, books: seq<Book>, n: nat, i: nat, time: real)
    requires IsRun(policy, events, books) && n < |events| && events[n] == Echo(i, time)
    ensures i < |books[n].inFlight|
    ensures books[n + 1].inFlight == books[n].inFlight[..i] + books[n].inFlight[i + 1..]
    ensures policy == Mwct ==>
              var p := books[n].inFlight[i];
              && books[n + 1].ewt == books[n].ewt - (if p.prev > 0.0 then p.prev else 0.0)
              && books[n + 1].reports == books[n].reports + [Report(p.key, time)]
    ensures policy == Mnt ==> books[n + 1].ntasks == books[n].ntasks - 1
  {
  }

  /** Step `i` does not echo a prediction whose `prev_wcet` is negative, which the handler would not take off. */
  predicate TakenOff(events: seq<Event>, books: seq<Book>, i: nat)
    requires i < |events| && i < |books|
  {
    events[i].Echo? ==> events[i].i < |books[i].inFlight| && books[i].inFlight[events[i].i].prev >= 0.0
  }

  lemma {:induction false} AllTakenOff(events: seq<Event>, books: seq<Book>, n: nat)
    requires IsRun(Mwct, events, books) && n < |books|
    ensures books[n].unreturned == 0.0 <==> forall i :: 0 <= i < n ==> TakenOff(events, books, i)
  {
    hide Sum, Lookup, Raised;
    if n > 0 {
      AllTakenOff(events, books, n - 1);
      RunsKeepInv(Mwct, events, books, n - 1);
      UnreturnedStep(books[n - 1], events[n - 1]);
      assert books[n] == After(Mwct, books[n - 1], events[n - 1]);
      assert (forall i :: 0 <= i < n ==> TakenOff(events, books, i))
          <==> TakenOff(events, books, n - 1) && forall i :: 0 <= i < n - 1 ==> TakenOff(events, books, i);
    }
  }

  lemma UnreturnedStep(b: Book, e: Event)
    requires Enabled(b, e) && b.unreturned <= 0.0
    ensures After(Mwct, b, e).unreturned == 0.0 <==>
            b.unreturned == 0.0 && (e.Echo? ==> b.inFlight[e.i].prev >= 0.0)
  {
  }

  /** `ewt` equals the work in flight exactly when no prediction with a negative `prev_wcet` was echoed. */
  lemma EwtIsWorkInFlight(events: seq<Event>, books: seq<Book>, n: nat)
    requires IsRun(Mwct, events, books) && n < |books|
    ensures books[n].ewt == Sum(books[n].inFlight) <==> forall i :: 0 <= i < n ==> TakenOff(events, books, i)
    ensures books[n].ewt <= Sum(books[n].inFlight)
  {
    hide Sum;
    RunsKeepInv(Mwct, events, books, n);
    AllTakenOff(events, books, n);
  }

  /** Nothing was left behind, and no time that is recorded or on its way is negative. */
  predicate Clean(b: Book) {
    && b.unreturned == 0.0
    && (forall i :: 0 <= i < |b.inFlight| ==> b.inFlight[i].prev >= 0.0)
    && (forall i :: 0 <= i < |b.reports| ==> b.reports[i].time >= 0.0)
  }

  lemma StepLeavesNothing(b: Book, e: Event)
    requires Inv(Mwct, b) && Enabled(b, e) && Clean(b) && (e.Echo? ==> e.time >= 0.0)
    ensures Clean(After(Mwct, b, e))
  {
    if e.Send? { TableHoldsMaximum(b.reports, e.key); }
  }

  lemma {:induction false} StaysClean(events: seq<Event>, books: seq<Book>, n: nat)
    requires IsRun(Mwct, events, books) && n < |books|
    requires forall i :: 0 <= i < n && events[i].Echo? ==> events[i].time >= 0.0
    ensures Clean(books[n])
  {
    if n > 0 {
      StaysClean(events, books, n - 1);
      RunsKeepInv(Mwct, events, books, n - 1);
      assert Enabled(books[n - 1], events[n - 1]) && books[n] == After(Mwct, books[n - 1], events[n - 1]);
      hide IsRun, Clean, Inv, Enabled, After;
      StepLeavesNothing(books[n - 1], events[n - 1]);
    }
  }

  /** Durations that are never negative leave nothing behind. */
  lemma NothingLeftBehind(events: seq<Event>, books: seq<Book>, n: nat)
    requires IsRun(Mwct, events, books) && n < |books|
    requires forall i :: 0 <= i < n && events[i].Echo? ==> events[i].time >= 0.0
    ensures books[n].ewt == Sum(books[n].inFlight)
  {
    hide Sum, IsRun, TableOf;
    assert books[n].unreturned == 0.0 by { StaysClean(events, books, n); }
    RunsKeepInv(Mwct, events, books, n);
  }

  /** A clock that runs backwards leaves `ewt` below the work in flight for good. */
  lemma NegativeTimeStays()
    ensures exists books: seq<Book>, events: seq<Event> ::
              && IsRun(Mwct, events, books)
              && books[|events|].inFlight == [] && books[|events|].ewt < 0.0
  {
    var k := Key(0, 0, 0);
    var b1 := After(Mwct, EMPTY, Send(k));
    assert b1 == Book(0.0, 0, map[], [Prediction(k, 0.0)], [], 0.0);
    var b2 := After(Mwct, b1, Echo(0, -1.0));
    assert b2 == Book(0.0, 0, map[k := -1.0], [], [Report(k, -1.0)], 0.0);
    var b3 := After(Mwct, b2, Send(k));
    assert b3 == Book(-1.0, 0, map[k := -1.0], [Prediction(k, -1.0)], [Report(k, -1.0)], 0.0);
    var b4 := After(Mwct, b3, Echo(0, 1.0));
    assert b4.inFlight == [] && b4.ewt == -1.0;
    var events, books := [Send(k), Echo(0, -1.0), Send(k), Echo(0, 1.0)], [EMPTY, b1, b2, b3, b4];
    hide After;
    assert IsRun(Mwct, events, books);
    assert books[|events|] == b4;
  }

  // ----- the handlers

  /** The daemon's record of the OS is what the book says. */
  ghost predicate Keeps(os: ServerNpuOS, b: Book)
    reads os
  {
    os.ewt == b.ewt && os.ntasks == b.ntasks && os.Table == b.table
  }

  /** The second half of a client's predict request. */
  method Predict(policy: Policy, os: ServerNpuOS, key: Key, ghost b: Book) returns (p: Prediction)
    requires os.Valid() && key.nnid < NETWORKS && Keeps(os, b)
    modifies os`ewt, os`ntasks
    ensures os.Valid() && Keeps(os, After(policy, b, Send(key)))
    ensures After(policy, b, Send(key)).inFlight == b.inFlight + [p]
  {
    p := Prediction(key, 0.0);
    if policy == Mwct {
      var wcet := os.GetWcet(key.nnid, key.start, key.delta);
      os.ewt := os.ewt + wcet;
      p := Prediction(key, wcet);
    } else {
      os.ntasks := os.ntasks + 1;
    }
  }

  /** The echo of a prediction. */
  method PredictEcho(policy: Policy, os: ServerNpuOS, p: Prediction, time: real, ghost b: Book, ghost i: nat)
    requires os.Valid() && p.key.nnid < NETWORKS && Keeps(os, b) && i < |b.inFlight| && b.inFlight[i] == p
    modifies os, os.q, os.Queues, os.Nodes
    ensures os.Valid() && Keeps(os, After(policy, b, Echo(i, time)))
  {
    if policy == Mwct {
      os.UpdateWcet(p.key.nnid, p.key.start, p.key.delta, time);
      if p.prev > 0.0 {
        os.ewt := os.ewt - p.prev;
      }
    } else {
      os.ntasks := os.ntasks - 1;
    }
  }
}
