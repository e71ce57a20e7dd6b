/**
  What whole runs of requests promise, starting from an empty data directory:
  objects are the last bodies written, and ids are fresh exactly as long as the
  64-bit counter of an entity has not run out.
  */
module CrudRuns {
  import opened CrudPaths
  import opened Text
  import opened CrudStore

  function Run(reqs: seq<Request>): Store {
    if reqs == [] then EMPTY else Next(Run(reqs[..|reqs| - 1]), reqs[|reqs| - 1])
  }

  /** The answers given along a run. */
  ghost function Answers(reqs: seq<Request>): seq<Response> {
    if reqs == [] then []
    else
      var front, r := reqs[..|reqs| - 1], reqs[|reqs| - 1];
      Answers(front) + [Answer(Run(front), r)]
  }

  /** A request that the store determines the outcome of. */
  predicate ServedAt(s: Store, r: Request) {
    Admits(s, r) && !Escapes(s, r)
  }

  /** Every request of the run is one, in the state it comes to. */
  predicate Served(reqs: seq<Request>) {
    forall k | 0 <= k < |reqs| :: ServedAt(Run(reqs[..k]), reqs[k])
  }

  /** The names that the writes of a run bring in. */
  function NamesIn(reqs: seq<Request>): set<string> {
    set k | 0 <= k < |reqs| && (reqs[k].verb == Post || reqs[k].verb == Put) && reqs[k].name != "" :: reqs[k].name
  }

  lemma {:induction false} RecordsAreOfNames(reqs: seq<Request>, k: nat)
    requires k <= |reqs|
    ensures Run(reqs[..k]).maxIds.Keys <= NamesIn(reqs)
    decreases k
  {
    if k > 0 {
      RecordsAreOfNames(reqs, k - 1);
      assert reqs[..k][..k - 1] == reqs[..k - 1] && reqs[..k][k - 1] == reqs[k - 1];
      RecordIsOfName(Run(reqs[..k - 1]), reqs[k - 1]);
    }
  }

  lemma RecordIsOfName(s: Store, r: Request)
    ensures Next(s, r).maxIds.Keys
         <= s.maxIds.Keys + if (r.verb == Post || r.verb == Put) && r.name != "" then {r.name} else {}
  {
  }

  /** In particular every run whose ids have no dots in front and whose names no name continues after a colon. */
  lemma PlainRunsAreServed(reqs: seq<Request>)
    requires forall k | 0 <= k < |reqs| :: IsRequest(reqs[k]) && (reqs[k].id == "" || IsId(reqs[k].id))
    requires ToldApart(NamesIn(reqs))
    ensures Served(reqs)
  {
    forall k | 0 <= k < |reqs|
      ensures ServedAt(Run(reqs[..k]), reqs[k])
    {
      RecordsAreOfNames(reqs, k);
      PlainNeverEscapes(Run(reqs[..k]), reqs[k]);
    }
  }

  // ----- What a request writes -----

  predicate Writes(s: Store, r: Request) {
    r.name != "" && ((r.verb == Post && r.id == "") || (r.verb == Put && r.id != "" && Stoull(r.id).Number?))
  }

  /** The id that a write goes to, as text and as a number. */
  function TargetId(s: Store, r: Request): string
    requires Writes(s, r)
  {
    if r.verb == Post then Decimal(NextId(s, r.name)) else r.id
  }

  /** A write that leaves an object; one to an id with a slash does not. */
  predicate Stores(s: Store, r: Request) {
    Writes(s, r) && SlashFree(TargetId(s, r))
  }

  /** A DELETE whose address leads to that object, under whatever name. */
  predicate Deletes(s: Store, r: Request, e: string, i: string) {
    r.verb == Delete && r.name != "" && r.id != "" && SpotOf(s, r) == AtObject(e, i)
  }

  function TargetNumber(s: Store, r: Request): nat
    requires Writes(s, r)
  {
    if r.verb == Post then NextId(s, r.name) else Stoull(r.id).value
  }

  /**
    The numbers of all ids ever written for `e` in the run, deleted since or not; of
    an id with a slash, the number before it.
    */
  function Used(reqs: seq<Request>, e: string): set<nat> {
    if reqs == [] then {}
    else
      var front, r := reqs[..|reqs| - 1], reqs[|reqs| - 1];
      Used(front, e) + if Writes(Run(front), r) && r.name == e then {TargetNumber(Run(front), r)} else {}
  }

  /** A write to an entity whose recorded maximum is 2^64-1, at any other id. */
  predicate Wraps(s: Store, r: Request) {
    && Writes(s, r)
    && r.name in s.maxIds && s.maxIds[r.name] == MAX_ID
    && TargetNumber(s, r) != MAX_ID
  }

  // ----- Invariants of all runs -----

  /** Maxima fit 64 bits and were written, or are the 1 that a first write records. */
  predicate MaximaWereUsed(reqs: seq<Request>) {
    var s := Run(reqs);
    forall e | e in s.maxIds :: s.maxIds[e] <= MAX_ID && (s.maxIds[e] == 1 || s.maxIds[e] in Used(reqs, e))
  }

  /** Every object was written at an id that is in the history. */
  predicate ObjectsWereUsed(reqs: seq<Request>) {
    var s := Run(reqs);
    forall k | k in s.objects ::
      k.0 in s.maxIds && Stoull(k.1).Number? && Stoull(k.1).value in Used(reqs, k.0)
  }

  lemma TargetStoull(s: Store, r: Request)
    requires Writes(s, r) && (r.name in s.maxIds ==> s.maxIds[r.name] <= MAX_ID)
    ensures Stoull(TargetId(s, r)) == Number(TargetNumber(s, r))
    ensures TargetNumber(s, r) <= MAX_ID
  {
    if r.verb == Post {
      StoullDecimal(NextId(s, r.name));
    } else {
      StoullRange(r.id);
    }
  }

  lemma UsedSnoc(front: seq<Request>, r: Request, e: string)
    ensures Run(front + [r]) == Next(Run(front), r)
    ensures Used(front + [r], e)
         == Used(front, e) + if Writes(Run(front), r) && r.name == e then {TargetNumber(Run(front), r)} else {}
  {
    assert (front + [r])[..|front|] == front;
  }

  lemma {:induction false} RunsKeepInvariants(reqs: seq<Request>)
    ensures MaximaWereUsed(reqs) && ObjectsWereUsed(reqs)
    decreases reqs
  {
    if reqs != [] {
      var front, r := reqs[..|reqs| - 1], reqs[|reqs| - 1];
      assert reqs == front + [r];
      RunsKeepInvariants(front);
      StepKeepsMaxima(front, r);
      StepKeepsObjects(front, r);
    }
  }

  lemma StepKeepsMaxima(front: seq<Request>, r: Request)
    requires MaximaWereUsed(front)
    ensures MaximaWereUsed(front + [r])
  {
    var s := Run(front);
    UsedSnoc(front, r, r.name);
    if Writes(s, r) {
      TargetStoull(s, r);
    }
    forall e | e in Next(s, r).maxIds
      ensures Next(s, r).maxIds[e] <= MAX_ID
      ensures Next(s, r).maxIds[e] == 1 || Next(s, r).maxIds[e] in Used(front + [r], e)
    {
      UsedSnoc(front, r, e);
    }
  }

  lemma StepKeepsObjects(front: seq<Request>, r: Request)
    requires MaximaWereUsed(front) && ObjectsWereUsed(front)
    ensures ObjectsWereUsed(front + [r])
  {
    var s := Run(front);
    UsedSnoc(front, r, r.name);
    if Writes(s, r) {
      TargetStoull(s, r);
    }
    forall k | k in Next(s, r).objects
      ensures k.0 in Next(s, r).maxIds && Stoull(k.1).Number? && Stoull(k.1).value in Used(front + [r], k.0)
    {
      UsedSnoc(front, r, k.0);
    }
  }

  // ----- Freshness -----

  /** The recorded maximum of the entity is at least every id ever written for it. */
  predicate CoversEntity(reqs: seq<Request>, e: string) {
    forall v | v in Used(reqs, e) :: e in Run(reqs).maxIds && v <= Run(reqs).maxIds[e]
  }

  /** The record of an entity before a write: 1 when there was none. */
  function Recorded(s: Store, e: string): nat {
    if e in s.maxIds then s.maxIds[e] else 1
  }

  function Max(a: nat, b: nat): nat {
    if a < b then b else a
  }

  /** A write keeps the greater number, except past the end of the counter, where it keeps its own. */
  lemma WriteRecords(s: Store, r: Request)
    requires Writes(s, r) && Recorded(s, r.name) <= MAX_ID
    ensures r.name in Next(s, r).maxIds
    ensures var v := TargetNumber(s, r);
      Next(s, r).maxIds[r.name] == if Recorded(s, r.name) == MAX_ID then v else Max(v, Recorded(s, r.name))
  {
    TargetStoull(s, r);
  }

  lemma OthersKeepRecord(s: Store, r: Request, e: string)
    requires !(Writes(s, r) && r.name == e)
    ensures e in s.maxIds ==> e in Next(s, r).maxIds && Next(s, r).maxIds[e] == s.maxIds[e]
  {
  }

  /**
    The record of an entity covers all its ids after one more request exactly when
    the request does not write to it past the end of the counter.
    */
  lemma CoverageStep(reqs: seq<Request>, r: Request, e: string)
    requires CoversEntity(reqs, e)
    ensures CoversEntity(reqs + [r], e) <==> !(r.name == e && Wraps(Run(reqs), r))
  {
    var s := Run(reqs);
    RunsKeepInvariants(reqs);
    UsedSnoc(reqs, r, e);
    if !(Writes(s, r) && r.name == e) {
      OthersKeepRecord(s, r, e);
    } else {
      TargetStoull(s, r);
      WriteRecords(s, r);
      WriteCovers(Used(reqs, e), Recorded(s, e), TargetNumber(s, r), Next(s, r).maxIds[e]);
    }
  }

  lemma WriteCovers(used: set<nat>, m: nat, v: nat, newMax: nat)
    requires forall u | u in used :: u <= m
    requires m <= MAX_ID && v <= MAX_ID && (m == 1 || m in used)
    requires newMax == if m == MAX_ID then v else Max(v, m)
    ensures (forall u | u in used + {v} :: u <= newMax) <==> !(m == MAX_ID && v != MAX_ID)
  {
    if m == MAX_ID {
      assert m in used + {v};
    }
  }

  /** No request of the run wraps. */
  predicate NeverWraps(reqs: seq<Request>) {
    forall k | 0 <= k < |reqs| :: !Wraps(Run(reqs[..k]), reqs[k])
  }

  /**
    The record covers every id after every request of a run exactly when no request
    of the run writes to an entity that stands at 2^64-1.
    */
  lemma {:induction false} CoversUntilItWraps(reqs: seq<Request>)
    ensures NeverWraps(reqs) <==> forall k, e | 0 <= k <= |reqs| :: CoversEntity(reqs[..k], e)
    decreases reqs
  {
    if reqs == [] {
      assert forall k | 0 <= k <= |reqs| :: reqs[..k] == [];
    } else {
      var front, r := reqs[..|reqs| - 1], reqs[|reqs| - 1];
      assert reqs == front + [r] && reqs[..|reqs|] == reqs;
      assert forall k | 0 <= k <= |front| :: front[..k] == reqs[..k];
      CoversUntilItWraps(front);
      if NeverWraps(front) {
        assert forall e :: CoversEntity(front[..|front|], e);
        assert front[..|front|] == front;
        forall e {
          CoverageStep(front, r, e);
        }
        if Wraps(Run(front), r) {
          assert !CoversEntity(reqs, r.name);
        }
      }
    }
  }

  predicate IsAbove(n: nat, used: set<nat>) {
    forall v | v in used :: v < n
  }

  /** The id a POST is given is above every id ever used exactly while the counter has not run out. */
  lemma {:induction false} PostIdIsAboveAll(reqs: seq<Request>, e: string)
    requires CoversEntity(reqs, e)
    ensures var s := Run(reqs);
      IsAbove(NextId(s, e), Used(reqs, e)) <==> !(e in s.maxIds && s.maxIds[e] == MAX_ID)
  {
    RunsKeepInvariants(reqs);
    var s := Run(reqs);
    if e in s.maxIds {
      NextIsAbove(Used(reqs, e), s.maxIds[e]);
    }
  }

  lemma NextIsAbove(used: set<nat>, m: nat)
    requires m <= MAX_ID && (m == 1 || m in used) && forall v | v in used :: v <= m
    ensures IsAbove(Incremented(m), used) <==> m != MAX_ID
  {
    if m == MAX_ID {
      assert m in used && Incremented(m) == 0;
    }
  }

  lemma {:induction false} UnusedIdHasNoObject(reqs: seq<Request>, e: string, n: nat)
    requires n !in Used(reqs, e) && n <= MAX_ID
    ensures (e, Decimal(n)) !in Run(reqs).objects
  {
    RunsKeepInvariants(reqs);
    StoullDecimal(n);
  }

  /**
    While the record of an entity covers its ids, a POST is given an unused id, and
    so overwrites nothing, exactly if the record is below 2^64-1 or 0 is unused.
    */
  lemma {:induction false} PostIsFreshExactly(reqs: seq<Request>, e: string)
    requires CoversEntity(reqs, e)
    ensures var n := NextId(Run(reqs), e);
      && (n !in Used(reqs, e) <==> Recorded(Run(reqs), e) < MAX_ID || 0 !in Used(reqs, e))
      && (n !in Used(reqs, e) ==> (e, Decimal(n)) !in Run(reqs).objects)
  {
    RunsKeepInvariants(reqs);
    if NextId(Run(reqs), e) !in Used(reqs, e) {
      UnusedIdHasNoObject(reqs, e, NextId(Run(reqs), e));
    }
  }

  /**
    In a run that never wraps, while the record of the entity is below 2^64-1, a
    POST gets an id that was never used, even by an object deleted since, and
    overwrites nothing.
    */
  lemma {:induction false} PostIsFresh(reqs: seq<Request>, r: Request)
    requires NeverWraps(reqs)
    requires r.verb == Post && r.name != "" && r.id == "" && Recorded(Run(reqs), r.name) < MAX_ID
    ensures var s := Run(reqs);
      && IsAbove(NextId(s, r.name), Used(reqs, r.name))
      && (r.name, Decimal(NextId(s, r.name))) !in s.objects
      && Answer(s, r) == Response(201, "text/plain", "{ \"id\": \"" + Decimal(NextId(s, r.name)) + "\" }")
  {
    CoversUntilItWraps(reqs);
    assert reqs[..|reqs|] == reqs;
    assert CoversEntity(reqs[..|reqs|], r.name);
    PostIdIsAboveAll(reqs, r.name);
    UnusedIdHasNoObject(reqs, r.name, NextId(Run(reqs), r.name));
  }

  lemma {:induction false} UsedGrows(reqs: seq<Request>, k: nat, e: string)
    requires k <= |reqs|
    ensures Used(reqs[..k], e) <= Used(reqs, e)
    decreases |reqs| - k
  {
    if k == |reqs| {
      assert reqs[..k] == reqs;
    } else {
      UsedGrows(reqs, k + 1, e);
      assert reqs[..k + 1][..k] == reqs[..k];
    }
  }

  /** Two POSTs of one run that never wraps are given different ids. */
  lemma PostsGetDifferentIds(reqs: seq<Request>, j: nat, k: nat)
    requires NeverWraps(reqs) && j < k < |reqs|
    requires reqs[j].verb == Post && reqs[j].id == "" && reqs[j].name != ""
    requires reqs[k].(body := "") == reqs[j].(body := "")
    ensures var first, second := NextId(Run(reqs[..j]), reqs[j].name), NextId(Run(reqs[..k]), reqs[k].name);
      first < second && Decimal(first) != Decimal(second)
  {
    var e := reqs[j].name;
    PrefixNeverWraps(reqs, k);
    PostIsUsed(reqs, j, k);
    UsedGrows(reqs[..k], j + 1, e);
    assert reqs[..k][..j + 1] == reqs[..j + 1];
    PostIsFresh(reqs[..k], reqs[k]);
    if Decimal(NextId(Run(reqs[..j]), e)) == Decimal(NextId(Run(reqs[..k]), e)) {
      DecimalInjective(NextId(Run(reqs[..j]), e), NextId(Run(reqs[..k]), e));
    }
  }

  lemma PrefixNeverWraps(reqs: seq<Request>, k: nat)
    requires NeverWraps(reqs) && k < |reqs|
    ensures NeverWraps(reqs[..k])
    ensures reqs[k].verb == Post && reqs[k].id == "" && reqs[k].name != "" ==>
      Recorded(Run(reqs[..k]), reqs[k].name) < MAX_ID
  {
    assert forall m | 0 <= m < k :: reqs[..k][..m] == reqs[..m];
    RunsKeepInvariants(reqs[..k]);
    assert !Wraps(Run(reqs[..k]), reqs[k]);
  }

  lemma PostIsUsed(reqs: seq<Request>, j: nat, k: nat)
    requires j < k < |reqs| && reqs[j].verb == Post && reqs[j].id == "" && reqs[j].name != ""
    ensures NextId(Run(reqs[..j]), reqs[j].name) in Used(reqs[..j + 1], reqs[j].name)
  {
    assert reqs[..j + 1] == reqs[..j] + [reqs[j]];
    UsedSnoc(reqs[..j], reqs[j], reqs[j].name);
  }

  /**
    Once the record stands at 2^64-1, the next write undoes it: a POST is given the
    id 0, and the record falls back to the number that was written.
    */
  lemma WrappingForgets(s: Store, r: Request)
    requires Wraps(s, r)
    ensures s.maxIds[r.name] == 0xFFFF_FFFF_FFFF_FFFF && (r.verb == Post ==> TargetNumber(s, r) == 0)
    ensures Next(s, r).maxIds[r.name] == TargetNumber(s, r) < s.maxIds[r.name]
  {
    TargetStoull(s, r);
    WriteRecords(s, r);
  }

  /** A PUT to a number stores its body there and records the number as WriteRecords says. */
  lemma PutsNumber(s: Store, e: string, n: nat, body: string)
    requires e != "" && n <= MAX_ID && Recorded(s, e) <= MAX_ID
    ensures var v := if Recorded(s, e) == MAX_ID then n else Max(n, Recorded(s, e));
      Next(s, Request(Put, e, Decimal(n), body)) == Store(s.objects[(e, Decimal(n)) := body], s.maxIds[e := v])
  {
    StoullDecimal(n);
    DecimalIsId(n);
    RecordAfter(s, e, n);
  }

  lemma RecordAfter(s: Store, e: string, n: nat)
    requires n <= MAX_ID && Recorded(s, e) <= MAX_ID
    ensures var t, v := WithEntity(s, e), if Recorded(s, e) == MAX_ID then n else Max(n, Recorded(s, e));
      (if n >= NextId(t, e) then t.maxIds[e := n] else t.maxIds) == s.maxIds[e := v]
  {
    var t := WithEntity(s, e);
    assert t.maxIds == s.maxIds[e := Recorded(s, e)];
  }

  /** A POST stores its body under the number after the record. */
  lemma PostsNext(s: Store, e: string, body: string)
    requires e in s.maxIds && e != "" && s.maxIds[e] <= MAX_ID
    ensures Next(s, Request(Post, e, "", body)).objects == s.objects[(e, Decimal(Incremented(s.maxIds[e]))) := body]
  {
    StoullDecimal(NextId(s, e));
    DecimalIsId(NextId(s, e));
  }

  lemma NumbersDiffer(m: nat, n: nat)
    requires m != n
    ensures Decimal(m) != Decimal(n)
  {
    if Decimal(m) == Decimal(n) {
      DecimalInjective(m, n);
    }
  }

  lemma RunOfTwo(r1: Request, r2: Request)
    ensures Run([r1, r2]) == Next(Next(EMPTY, r1), r2)
  {
    assert [r1, r2] == [] + [r1] + [r2];
    UsedSnoc([], r1, "");
    UsedSnoc([] + [r1], r2, "");
  }

  lemma RunOfThree(r1: Request, r2: Request, r3: Request)
    ensures Run([r1, r2, r3]) == Next(Next(Next(EMPTY, r1), r2), r3)
  {
    RunOfTwo(r1, r2);
    assert [r1, r2, r3] == [r1, r2] + [r3];
    UsedSnoc([r1, r2], r3, "");
  }

  /**
    A run after which a POST is given an id in use and overwrites its object: once a
    PUT has reached 2^64-1, a PUT to 0 resets the record, and the POST gets 1.
    */
  lemma WrappedPostOverwrites(e: string, x: string, y: string, z: string, w: string)
    requires e != ""
    ensures var s := Run([Request(Put, e, Decimal(1), x), Request(Put, e, Decimal(MAX_ID), y),
                          Request(Put, e, Decimal(0), z)]);
      && NextId(s, e) == 1 && (e, Decimal(1)) in s.objects && s.objects[(e, Decimal(1))] == x
      && Next(s, Request(Post, e, "", w)).objects == s.objects[(e, Decimal(1)) := w]
  {
    RunOfThree(Request(Put, e, Decimal(1), x), Request(Put, e, Decimal(MAX_ID), y), Request(Put, e, Decimal(0), z));
    PutsNumber(EMPTY, e, 1, x);
    var s1 := Next(EMPTY, Request(Put, e, Decimal(1), x));
    PutsNumber(s1, e, MAX_ID, y);
    var s2 := Next(s1, Request(Put, e, Decimal(MAX_ID), y));
    PutsNumber(s2, e, 0, z);
    NumbersDiffer(1, MAX_ID);
    NumbersDiffer(1, 0);
    PostsNext(Next(s2, Request(Put, e, Decimal(0), z)), e, w);
  }

  /**
    Once the record no longer covers the ids, a record below 2^64-1 does not help:
    after PUTs to 2^64-1 and 2^64-2, the POST repeats 2^64-1 and overwrites its object.
    */
  lemma PostAfterWrapRepeats(e: string, y: string, z: string, w: string)
    requires e != ""
    ensures var reqs := [Request(Put, e, Decimal(MAX_ID), y), Request(Put, e, Decimal(MAX_ID - 1), z)];
      var s, key := Run(reqs), (e, Decimal(MAX_ID));
      && Recorded(s, e) == MAX_ID - 1 && !CoversEntity(reqs, e)
      && NextId(s, e) == MAX_ID && MAX_ID in Used(reqs, e)
      && key in s.objects && s.objects[key] == y
      && Next(s, Request(Post, e, "", w)).objects == s.objects[key := w]
  {
    var r1, r2 := Request(Put, e, Decimal(MAX_ID), y), Request(Put, e, Decimal(MAX_ID - 1), z);
    RunOfTwo(r1, r2);
    PutsNumber(EMPTY, e, MAX_ID, y);
    PutsNumber(Next(EMPTY, r1), e, MAX_ID - 1, z);
    NumbersDiffer(MAX_ID, MAX_ID - 1);
    FirstIsUsed(r1, r2, MAX_ID);
    PostsNext(Next(Next(EMPTY, r1), r2), e, w);
  }

  lemma FirstIsUsed(r1: Request, r2: Request, n: nat)
    requires n <= MAX_ID && r1.verb == Put && r1.name != "" && r1.id == Decimal(n)
    ensures n in Used([r1, r2], r1.name)
  {
    StoullDecimal(n);
    assert Writes(EMPTY, r1);
    assert [r1] == [] + [r1] && [r1, r2] == [r1] + [r2];
    UsedSnoc([], r1, r1.name);
    UsedSnoc([r1], r2, r1.name);
  }

  // ----- Contents: a reference reading of the history -----

  /** The body last written at an address and not deleted since, read off the requests from the end. */
  function LastBody(reqs: seq<Request>, e: string, i: string): Option<string> {
    if reqs == [] then None
    else
      var front, r := reqs[..|reqs| - 1], reqs[|reqs| - 1];
      if Stores(Run(front), r) && r.name == e && TargetId(Run(front), r) == i then Some(r.body)
      else if Deletes(Run(front), r, e, i) then None
      else LastBody(front, e, i)
  }

  /** The store holds, at every address, exactly the last body written there and not deleted since. */
  lemma {:induction false} ObjectsAreLastBodies(reqs: seq<Request>, e: string, i: string)
    requires e != "" && i != ""
    ensures LastBody(reqs, e, i)
         == if (e, i) in Run(reqs).objects then Some(Run(reqs).objects[(e, i)]) else None
    decreases reqs
  {
    if reqs != [] {
      var front, r := reqs[..|reqs| - 1], reqs[|reqs| - 1];
      ObjectsAreLastBodies(front, e, i);
      RunsKeepInvariants(front);
      if Writes(Run(front), r) {
        TargetStoull(Run(front), r);
      }
    }
  }

  /** What each verb answers to an address without dots, in terms of the history alone. */
  lemma {:induction false} AnswersFollowHistory(reqs: seq<Request>, r: Request)
    requires r.name != "" && IsId(r.id)
    ensures var last := LastBody(reqs, r.name, r.id);
      var a := Answer(Run(reqs), r);
      && (r.verb == Get ==>
            a == if last.Some? then Response(200, "application/json", last.value)
                 else Response(404, "text/plain", "404 Not Found\r\n\r\n"))
      && (r.verb == Put && Stoull(r.id).Number? ==>
            a == if last.Some? then Response(200, "text/plain", "Successful update.")
                 else Response(201, "text/plain", "{ \"id\": \"" + r.id + "\" }"))
      && (r.verb == Put && !Stoull(r.id).Number? ==> a == Threw)
      && (r.verb == Delete ==>
            a == if last.Some? then Response(200, "text/plain", "Successful delete.")
                 else Response(204, "text/plain", ""))
      && (r.verb == Post ==> a == Response(400, "text/plain", "400 Bad Request \r\n\r\n"))
  {
    ObjectsAreLastBodies(reqs, r.name, r.id);
    PlainLanding(Run(reqs).maxIds.Keys, r.name, r.id);
    RunsKeepInvariants(reqs);
    ObjectIdsHaveNoSlash(reqs);
  }

  /** The same for any address that leads to an object, if by way of dots. */
  lemma AnswersFollowSpot(reqs: seq<Request>, r: Request, e: string, i: string)
    requires r.name != "" && r.id != "" && e != "" && i != "" && SpotOf(Run(reqs), r) == AtObject(e, i)
    ensures var last := LastBody(reqs, e, i);
      var a := Answer(Run(reqs), r);
      && (r.verb == Get ==>
            a == if last.Some? then Response(200, "application/json", last.value)
                 else Response(404, "text/plain", "404 Not Found\r\n\r\n"))
      && (r.verb == Delete ==>
            a == if last.Some? then Response(200, "text/plain", "Successful delete.")
                 else Response(204, "text/plain", ""))
  {
    ObjectsAreLastBodies(reqs, e, i);
  }

  lemma {:induction false} ObjectIdsHaveNoSlash(reqs: seq<Request>)
    ensures forall k | k in Run(reqs).objects :: SlashFree(k.1)
    decreases reqs
  {
    if reqs != [] {
      ObjectIdsHaveNoSlash(reqs[..|reqs| - 1]);
    }
  }

  /** What a PUT to a numeric id has written is read back exactly if the id has no slash. */
  lemma PutIsReadBackExactly(reqs: seq<Request>, r: Request)
    requires r.verb == Put && r.name != "" && IsRouted(r.id) && Stoull(r.id).Number?
    ensures Answer(Run(reqs + [r]), r.(verb := Get)) == Response(200, "application/json", r.body) <==> '/' !in r.id
    ensures '/' in r.id ==>
      Answer(Run(reqs + [r]), r.(verb := Get)) == Response(404, "text/plain", "404 Not Found\r\n\r\n")
  {
    if '/' in r.id {
      NumbersAreIds(r.id);
      PlainLanding(Run(reqs + [r]).maxIds.Keys, r.name, r.id);
      NowhereIsNotFound(Run(reqs + [r]), r.(verb := Get));
    } else {
      PutIsReadUntilTouched(reqs, r, [], r.body);
      assert reqs + [r] + [] == reqs + [r] && r.(verb := Get) == Request(Get, r.name, r.id, r.body);
    }
  }

  lemma NowhereIsNotFound(s: Store, r: Request)
    requires r.verb == Get && r.name != "" && r.id != "" && SpotOf(s, r) == Nowhere
    ensures Answer(s, r) == Response(404, "text/plain", "404 Not Found\r\n\r\n")
  {
  }

  /** A PUT to an id with a slash is answered as a creation, but nothing is stored, so that a GET does not find it. */
  lemma SlashedPutStoresNothing(reqs: seq<Request>, r: Request)
    requires r.verb == Put && r.name != "" && '/' in r.id && IsRouted(r.id) && Stoull(r.id).Number?
    ensures Answer(Run(reqs), r) == Response(201, "text/plain", "{ \"id\": \"" + r.id + "\" }")
    ensures Next(Run(reqs), r).objects == Run(reqs).objects
    ensures Answer(Run(reqs + [r]), r.(verb := Get)) == Response(404, "text/plain", "404 Not Found\r\n\r\n")
  {
    ObjectIdsHaveNoSlash(reqs);
    UsedSnoc(reqs, r, r.name);
    PutIsReadBackExactly(reqs, r);
  }

  /** A listing names exactly the ids that hold a body, in strictly increasing order. */
  lemma ListingFollowsHistory(reqs: seq<Request>, e: string, names: seq<string>, i: string)
    requires e != "" && i != ""
    requires Increasing(names) && Elements(names) == Ids(Run(reqs), e)
    ensures Answer(Run(reqs), Request(Get, e, "", "")) == Response(200, "application/json", ListBody(names))
    ensures i in names <==> LastBody(reqs, e, i).Some?
  {
    IncreasingIsUnique(names, Sorted(Ids(Run(reqs), e)));
    ObjectsAreLastBodies(reqs, e, i);
    assert i in names <==> i in Elements(names);
    if (e, i) in Run(reqs).objects {
      assert (e, i).1 in Ids(Run(reqs), e);
    }
  }

  /** A request changes no object but the one it writes or its address leads to, and no record of another entity. */
  lemma OthersAreUndisturbed(s: Store, r: Request, k: (string, string))
    requires !(Stores(s, r) && k == (r.name, TargetId(s, r))) && !Deletes(s, r, k.0, k.1)
    ensures k in Next(s, r).objects <==> k in s.objects
    ensures k in s.objects ==> Next(s, r).objects[k] == s.objects[k]
    ensures k.0 != r.name && k.0 in s.maxIds ==> k.0 in Next(s, r).maxIds && Next(s, r).maxIds[k.0] == s.maxIds[k.0]
  {
    if r.verb == Delete {
      DeleteKeepsOthers(s, r, k);
    }
  }

  lemma DeleteKeepsOthers(s: Store, r: Request, k: (string, string))
    requires r.verb == Delete && !Deletes(s, r, k.0, k.1)
    ensures Next(s, r).maxIds == s.maxIds
    ensures k in Next(s, r).objects <==> k in s.objects
    ensures k in s.objects ==> Next(s, r).objects[k] == s.objects[k]
  {
  }

  // ----- A body is read back until its address is written or deleted -----

  /** A request that neither writes nor deletes at an address by naming it, nor deletes by way of dots. */
  predicate Spares(r: Request, e: string, i: string) {
    match r.verb
    case Put => (r.name, r.id) != (e, i)
    case Delete => (r.name, r.id) != (e, i) && (r.id == "" || IsId(r.id))
    case _ => true
  }

  predicate PostsTo(r: Request, e: string) {
    r.verb == Post && r.name == e && r.id == ""
  }

  lemma SparedObjectStays(reqs: seq<Request>, r: Request, e: string, i: string)
    requires e != "" && (e, i) in Run(reqs).objects && Spares(r, e, i)
    requires NeverWraps(reqs + [r]) || !PostsTo(r, e)
    ensures (e, i) in Run(reqs + [r]).objects && Run(reqs + [r]).objects[(e, i)] == Run(reqs).objects[(e, i)]
  {
    UsedSnoc(reqs, r, e);
    SparedIsNotStored(reqs, r, e, i);
    SparedIsNotDeleted(Run(reqs), r, e, i);
    OthersAreUndisturbed(Run(reqs), r, (e, i));
  }

  lemma SparedIsNotStored(reqs: seq<Request>, r: Request, e: string, i: string)
    requires e != "" && (e, i) in Run(reqs).objects && Spares(r, e, i)
    requires NeverWraps(reqs + [r]) || !PostsTo(r, e)
    ensures !(Stores(Run(reqs), r) && (e, i) == (r.name, TargetId(Run(reqs), r)))
  {
    if PostsTo(r, e) {
      PrefixNeverWraps(reqs + [r], |reqs|);
      assert (reqs + [r])[..|reqs|] == reqs;
      PostIsFresh(reqs, r);
    }
  }

  lemma SparedIsNotDeleted(s: Store, r: Request, e: string, i: string)
    requires Spares(r, e, i)
    ensures !Deletes(s, r, e, i)
  {
    if r.verb == Delete && r.id != "" {
      PlainLanding(s.maxIds.Keys, r.name, r.id);
    }
  }

  lemma NeverWrapsFront(reqs: seq<Request>, k: nat)
    requires NeverWraps(reqs) && k <= |reqs|
    ensures NeverWraps(reqs[..k])
  {
    assert forall m | 0 <= m < k :: reqs[..k][..m] == reqs[..m];
  }

  /**
    After a PUT, whatever came before, a GET of its address is answered with its body
    for as long as the address is spared; a POST to the entity spares it while the
    run never wraps.
    */
  lemma PutIsReadUntilTouched(before: seq<Request>, r: Request, between: seq<Request>, body: string)
    requires r.verb == Put && r.name != "" && SlashFree(r.id) && Stoull(r.id).Number?
    requires forall q | q in between :: Spares(q, r.name, r.id)
    requires NeverWraps(before + [r] + between) || forall q | q in between :: !PostsTo(q, r.name)
    ensures var s := Run(before + [r] + between);
      && (r.name, r.id) in s.objects && s.objects[(r.name, r.id)] == r.body
      && Answer(s, Request(Get, r.name, r.id, body)) == Response(200, "application/json", r.body)
  {
    PutIsStored(before, r, between);
    RunsKeepInvariants(before + [r] + between);
    SlashFreeIsRouted(r.id);
    NumbersAreIds(r.id);
    PlainLanding(Run(before + [r] + between).maxIds.Keys, r.name, r.id);
  }

  lemma SlashFreeIsRouted(i: string)
    requires SlashFree(i)
    ensures IsRouted(i)
  {
  }

  lemma {:induction false} PutIsStored(before: seq<Request>, r: Request, between: seq<Request>)
    requires r.verb == Put && r.name != "" && SlashFree(r.id) && Stoull(r.id).Number?
    requires forall q | q in between :: Spares(q, r.name, r.id)
    requires NeverWraps(before + [r] + between) || forall q | q in between :: !PostsTo(q, r.name)
    ensures var s := Run(before + [r] + between);
      (r.name, r.id) in s.objects && s.objects[(r.name, r.id)] == r.body
    decreases |between|
  {
    if between == [] {
      assert before + [r] + between == before + [r];
      UsedSnoc(before, r, r.name);
    } else {
      var front, q := between[..|between| - 1], between[|between| - 1];
      var reqs := before + [r] + front;
      assert before + [r] + between == reqs + [q];
      if NeverWraps(reqs + [q]) {
        NeverWrapsFront(reqs + [q], |reqs|);
        assert (reqs + [q])[..|reqs|] == reqs;
      }
      PutIsStored(before, r, front);
      SparedObjectStays(reqs, q, r.name, r.id);
    }
  }

  // ----- Other entities -----

  /** The objects of all other entities are as they were. */
  ghost predicate OthersKept(s: Store, t: Store, e: string) {
    forall k: (string, string) | k.0 != e ::
      (k in t.objects <==> k in s.objects) && (k in s.objects ==> t.objects[k] == s.objects[k])
  }

  /** A request disturbs another entity exactly if it is a DELETE that dots lead to an object of it. */
  lemma OtherEntitiesDisturbedExactly(s: Store, r: Request)
    ensures OthersKept(s, Next(s, r), r.name) <==>
      !(r.verb == Delete && r.name != "" && r.id != "" && HasObject(s, SpotOf(s, r)) && SpotOf(s, r).owner != r.name)
  {
    if r.verb == Delete && r.name != "" && r.id != "" && HasObject(s, SpotOf(s, r)) && SpotOf(s, r).owner != r.name {
      assert (SpotOf(s, r).owner, SpotOf(s, r).id) !in Next(s, r).objects;
    }
  }

  /** Addresses without dots never do. */
  lemma PlainRequestsKeepOthers(s: Store, r: Request)
    requires r.id == "" || IsId(r.id)
    ensures OthersKept(s, Next(s, r), r.name)
  {
    if r.id != "" {
      PlainLanding(s.maxIds.Keys, r.name, r.id);
    }
    OtherEntitiesDisturbedExactly(s, r);
  }

  /** A DELETE that leads up and into another entity removes the object of that entity. */
  lemma DotsReachOtherEntities(s: Store, e: string, f: string, i: string, body: string)
    requires e in s.maxIds && f in s.maxIds && IsName(e) && IsName(f) && SlashFree(i) && !IsDots(i)
    ensures Next(s, Request(Delete, e, "../" + (f + "/" + i), body)) == s.(objects := s.objects - {(f, i)})
  {
    var r := Request(Delete, e, "../" + (f + "/" + i), body);
    DotsLead(s.maxIds.Keys, e, f, i);
    DeletedWhereLed(s, r, AtObject(f, i));
  }

  lemma DeletedWhereLed(s: Store, r: Request, spot: Spot)
    requires r.verb == Delete && r.name != "" && r.id != "" && SpotOf(s, r) == spot
    ensures Next(s, r) == Deleted(s, spot)
  {
  }

  lemma DotsLead(dirs: set<string>, e: string, f: string, i: string)
    requires e in dirs && f in dirs && IsName(f) && SlashFree(i) && !IsDots(i)
    ensures Land(dirs, AtEntity(e), "../" + (f + "/" + i)) == AtObject(f, i)
  {
    DotsLand(dirs, e, f + "/" + i);
    NameLands(dirs, f, i);
    PlainIsId(i);
    PlainLanding(dirs, f, i);
  }

  lemma DotsLand(dirs: set<string>, e: string, rest: string)
    requires e in dirs
    ensures Land(dirs, AtEntity(e), "../" + rest) == Land(dirs, AtData, rest)
  {
    DotsThenRest(rest);
  }

  lemma NameLands(dirs: set<string>, f: string, rest: string)
    requires IsName(f)
    ensures Land(dirs, AtData, f + "/" + rest) == Land(dirs, AtEntity(f), rest)
  {
    FirstThenRest(f, rest);
  }

  lemma DotsThenRest(rest: string)
    ensures FirstSegment("../" + rest) == ".." && BehindSegment("../" + rest) == rest
  {
    var s := "../" + rest;
    assert s[1..][0] == '.' && s[2..][0] == '/';
    assert s[1..][1..] == s[2..];
    assert FirstSegment(s[2..]) == "";
    assert FirstSegment(s[1..]) == ".";
  }

  lemma {:induction false} FirstThenRest(f: string, rest: string)
    requires '/' !in f
    ensures FirstSegment(f + "/" + rest) == f && BehindSegment(f + "/" + rest) == rest
    decreases f
  {
    var s := f + "/" + rest;
    if f != "" {
      assert s[1..] == f[1..] + "/" + rest;
      FirstThenRest(f[1..], rest);
      assert f == [f[0]] + f[1..];
    }
  }
}
