/**
 The level-1 scheduler over whole runs of several NPU OSes: what it places a request
 by is the work in flight and the greatest times reported so far.
 */
module Placement {
  import opened Bits
  import opened BitHandler
  import opened Registry
  import opened WcetList
  import opened Scheduler
  import B = Bookkeeping

  /** An OS connects, or something happens to one that has. */
  datatype Event = Join(os: nat) | At(os: nat, e: B.Event)

  /** The books of the connected OSes. */
  type World = map<nat, B.Book>

  predicate Enabled(w: World, e: Event) {
    match e
    case Join(os) => os < MAX_NOS_SUPPORT && os !in w
    case At(os, f) => os in w && B.Enabled(w[os], f)
  }

  function After(w: World, e: Event): World
    requires Enabled(w, e)
  {
    match e
    case Join(os) => w[os := B.EMPTY]
    case At(os, f) => w[os := B.After(B.Mwct, w[os], f)]
  }

  predicate IsRun(events: seq<Event>, worlds: seq<World>) {
    && |worlds| == |events| + 1 && worlds[0] == map[]
    && forall i :: 0 <= i < |events| ==> Enabled(worlds[i], events[i]) && worlds[i + 1] == After(worlds[i], events[i])
  }

  /** No echo reports a negative time. */
  predicate TimesOk(events: seq<Event>, n: nat)
    requires n <= |events|
  {
    forall i :: 0 <= i < n && events[i].At? && events[i].e.Echo? ==> events[i].e.time >= 0.0
  }

  /** What every book keeps, and what it keeps besides if the times are `ok`. */
  predicate Sound(b: B.Book, ok: bool) {
    B.Inv(B.Mwct, b) && (ok ==> B.Clean(b))
  }

  predicate WorldSound(w: World, ok: bool) {
    forall os :: os in w ==> Sound(w[os], ok)
  }

  lemma StepSound(w: World, e: Event, ok: bool)
    requires WorldSound(w, ok) && Enabled(w, e) && (ok && e.At? && e.e.Echo? ==> e.e.time >= 0.0)
    ensures WorldSound(After(w, e), ok)
  {
    hide Sound, B.After, B.Enabled;
    if e.At? { BookSound(w[e.os], e.e, ok); } else { EmptySound(ok); }
  }

  lemma BookSound(b: B.Book, e: B.Event, ok: bool)
    requires Sound(b, ok) && B.Enabled(b, e) && (ok && e.Echo? ==> e.time >= 0.0)
    ensures Sound(B.After(B.Mwct, b, e), ok)
  {
    hide B.After, B.Inv, B.Clean;
    B.StepKeepsInv(B.Mwct, b, e);
    if ok { B.StepLeavesNothing(b, e); }
  }

  lemma EmptySound(ok: bool)
    ensures Sound(B.EMPTY, ok)
  {
    assert B.Sum([]) == 0.0 && TableOf([]) == map[];
    hide B.Sum, TableOf, Lookup;
  }

  lemma {:induction false} AllSound(events: seq<Event>, worlds: seq<World>, n: nat, ok: bool)
    requires IsRun(events, worlds) && n < |worlds| && (ok ==> TimesOk(events, n))
    ensures WorldSound(worlds[n], ok)
  {
    if n > 0 {
      AllSound(events, worlds, n - 1, ok);
      var e := events[n - 1];
      assert Enabled(worlds[n - 1], e) && worlds[n] == After(worlds[n - 1], e);
      hide IsRun, WorldSound, Enabled, After;
      StepSound(worlds[n - 1], e, ok);
    }
  }

  /**
   The work in flight on an OS, less what negative times left behind, and the greatest
   time that it has reported for the request, 0 if none.
   */
  function Expected(b: B.Book, key: Key): real {
    B.Sum(b.inFlight) + b.unreturned + Lookup(TableOf(b.reports), key)
  }

  /** Times that are never negative leave nothing behind, and what was reported for a request is not negative. */
  lemma ExpectedIsWork(events: seq<Event>, worlds: seq<World>, n: nat, os: nat, key: Key)
    requires IsRun(events, worlds) && n < |worlds| && TimesOk(events, n) && os in worlds[n]
    ensures var b := worlds[n][os];
            Expected(b, key) == B.Sum(b.inFlight) + Lookup(TableOf(b.reports), key) >= B.Sum(b.inFlight)
  {
    AllSound(events, worlds, n, true);
    var b := worlds[n][os];
    assert Sound(b, true);
    hide IsRun, TimesOk, WorldSound, B.Sum, Lookup, TableOf;
    TableHoldsMaximum(b.reports, key);
  }

  /** In every run the least index with the least expected completion is chosen among the eligible OSes. */
  method Place(nnpos: NnPos, nos: array<ServerNpuOS?>, key: Key, affinity: uint32, dblMax: real,
               ghost events: seq<Event>, ghost worlds: seq<World>, ghost n: nat, num: nat) returns (r: int)
    requires IsRun(events, worlds) && n < |worlds|
    requires nnpos.Valid() && nos.Length == MAX_NOS_SUPPORT && num <= MAX_NOS_SUPPORT
    requires 0 <= key.start && key.nnid < NETWORKS && key.start + key.delta < BIT_MAX_NUM
    requires forall i :: Eligible(nnpos, num, key.start, key.delta, affinity, i) ==>
               i in worlds[n] && nos[i] != null && nos[i].Valid() && B.Keeps(nos[i], worlds[n][i])
    ensures r == -1 || Eligible(nnpos, num, key.start, key.delta, affinity, r)
    ensures r == -1 <==>
            forall i :: Eligible(nnpos, num, key.start, key.delta, affinity, i) ==>
              Expected(worlds[n][i], key) >= dblMax
    ensures r >= 0 ==> forall i :: Eligible(nnpos, num, key.start, key.delta, affinity, i) ==>
              var t, u := Expected(worlds[n][r], key), Expected(worlds[n][i], key);
              t < u || (t == u && r <= i)
  {
    AllSound(events, worlds, n, false);
    hide Bit, B.Sum, TableOf, Lookup, IsRun;
    r := Mwct(nnpos, nos, num, key.nnid, key.start, key.delta, affinity, dblMax);
    forall i | Eligible(nnpos, num, key.start, key.delta, affinity, i)
      ensures Completion(nos[i], key.nnid, key.start, key.delta) == Expected(worlds[n][i], key)
    {
      assert Sound(worlds[n][i], false) && B.Keeps(nos[i], worlds[n][i]);
    }
  }
}
