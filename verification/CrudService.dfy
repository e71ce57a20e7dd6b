/**
  Routing and the store together: runs of calls that name their objects by targets,
  in any spelling, under a configuration that was accepted.
  */
module CrudService {
  import opened ConfigTree
  import opened ConfigInterpreters
  import opened CrudAddresses
  import opened CrudFiles
  import opened CrudHandlers
  import opened CrudPaths
  import opened CrudStore
  import opened Routing
  import opened Text
  import Runs = CrudRuns

  datatype Call = Call(verb: Verb, target: string, body: string)

  /** What routing makes of a call: the data path it goes to, and the request that it is there. */
  function Addressed(t: ServerPaths, c: Call): (string, Request) {
    var address := CrudEntityPath(t, Normalize(c.target));
    (address.dataPath, Request(c.verb, address.entityName, address.entityId, c.body))
  }

  function AllAddressed(t: ServerPaths, calls: seq<Call>): seq<(string, Request)> {
    seq(|calls|, k requires 0 <= k < |calls| => Addressed(t, calls[k]))
  }

  predicate AddressedAt(t: ServerPaths, calls: seq<Call>, reqs: seq<(string, Request)>, k: nat) {
    k < |calls| == |reqs| && reqs[k] == Addressed(t, calls[k])
  }

  lemma EachIsAddressed(t: ServerPaths, calls: seq<Call>)
    ensures |AllAddressed(t, calls)| == |calls|
    ensures forall k: nat | k < |calls| :: AddressedAt(t, calls, AllAddressed(t, calls), k)
  {
  }

  lemma CallIsAddressed(t: ServerPaths, calls: seq<Call>, k: nat)
    requires k < |calls|
    ensures |AllAddressed(t, calls)| == |calls| && AllAddressed(t, calls)[k] == Addressed(t, calls[k])
  {
    EachIsAddressed(t, calls);
    assert AddressedAt(t, calls, AllAddressed(t, calls), k);
  }

  /** The handling of one call: its target is split, and the request dispatched. */
  method HandleCall(handler: CrudHandler, t: ServerPaths, c: Call, ghost s: Store) returns (r: Response)
    requires c.target != ""
    requires handler.Serves(Addressed(t, c).0, s) && Admits(s, Addressed(t, c).1)
    modifies handler.fileManager, handler.fileManager.disk
    ensures !handler.fileManager.locked
    ensures var (d, q) := Addressed(t, c);
      !Escapes(s, q) ==>
        && handler.Serves(d, Next(s, q)) && r == Answer(s, q)
        && KeptOutside(old(handler.fileManager.disk.nodes), handler.fileManager.disk.nodes, d)
  {
    var path := GetCrudEntityPath(t, c.target);
    r := handler.HandleRequest(c.verb, path, c.body, s);
  }

  /**
    Calls to any locations, in any order: each is answered as the store of the data
    path that routing finds prescribes, after the calls that went there before.
    */
  method ServeCalls(handler: CrudHandler, t: ServerPaths, calls: seq<Call>, ghost paths: set<string>)
    returns (answers: seq<Response>)
    requires forall k | 0 <= k < |calls| :: calls[k].target != ""
    requires forall d | d in paths :: handler.Serves(d, EMPTY)
    requires AllApart(paths) && AllServed(AllAddressed(t, calls), paths)
    modifies handler.fileManager, handler.fileManager.disk
    ensures forall d | d in paths :: handler.Serves(d, Runs.Run(To(AllAddressed(t, calls), d)))
    ensures AnsweredApart(AllAddressed(t, calls), answers)
  {
    ghost var reqs := AllAddressed(t, calls);
    EachIsAddressed(t, calls);
    NoneServed(handler, reqs, paths);
    answers := ServeEach(handler, t, calls, reqs, paths);
    AllOfThemServed(handler, reqs, paths);
  }

  method ServeEach(handler: CrudHandler, t: ServerPaths, calls: seq<Call>,
                   ghost reqs: seq<(string, Request)>, ghost paths: set<string>)
    returns (answers: seq<Response>)
    requires forall k | 0 <= k < |calls| :: calls[k].target != ""
    requires |reqs| == |calls| && forall k: nat | k < |calls| :: AddressedAt(t, calls, reqs, k)
    requires AllApart(paths) && AllServed(reqs, paths) && AllServing(handler, reqs, 0, paths)
    modifies handler.fileManager, handler.fileManager.disk
    ensures AllServing(handler, reqs, |reqs|, paths) && AnsweredApart(reqs, answers)
  {
    answers := [];
    for k := 0 to |calls|
      invariant AllServing(handler, reqs, k, paths)
      invariant AnsweredApart(reqs[..k], answers)
    {
      var r := HandleNext(handler, t, calls, k, reqs, paths);
      AnsweredNext(reqs, k, answers, r);
      answers := answers + [r];
    }
    assert reqs[..|reqs|] == reqs;
  }

  lemma NoneServed(handler: CrudHandler, reqs: seq<(string, Request)>, paths: set<string>)
    requires forall d | d in paths :: handler.Serves(d, EMPTY)
    ensures AllServing(handler, reqs, 0, paths)
  {
    assert reqs[..0] == [];
  }

  lemma AllOfThemServed(handler: CrudHandler, reqs: seq<(string, Request)>, paths: set<string>)
    requires AllServing(handler, reqs, |reqs|, paths)
    ensures forall d | d in paths :: handler.Serves(d, Runs.Run(To(reqs, d)))
  {
    assert reqs[..|reqs|] == reqs;
  }

  /** After the first `k` requests, the disk represents the stores of all data paths. */
  ghost predicate AllServing(handler: CrudHandler, reqs: seq<(string, Request)>, k: nat, paths: set<string>)
    reads handler, handler.fileManager, handler.fileManager.disk
  {
    k <= |reqs| && forall d | d in paths :: handler.Serves(d, Runs.Run(To(reqs[..k], d)))
  }

  /** One call of many: the stores of the other data paths stay represented. */
  method HandleNext(handler: CrudHandler, t: ServerPaths, calls: seq<Call>, k: nat,
                    ghost reqs: seq<(string, Request)>, ghost paths: set<string>)
    returns (r: Response)
    requires k < |calls| == |reqs| && calls[k].target != "" && AddressedAt(t, calls, reqs, k)
    requires AllApart(paths) && AllServed(reqs, paths) && AllServing(handler, reqs, k, paths)
    modifies handler.fileManager, handler.fileManager.disk
    ensures AllServing(handler, reqs, k + 1, paths)
    ensures r == AnswerAt(reqs, k)
  {
    ghost var nodes0 := handler.fileManager.disk.nodes;
    ServedNow(reqs, paths, k);
    r := HandleCall(handler, t, calls[k], Runs.Run(To(reqs[..k], reqs[k].0)));
    AllStillRepresented(nodes0, handler.fileManager.disk.nodes, reqs, k, paths);
  }

  // ----- One object, many spellings -----

  /** A location, a name and an id that a target can be spelled from and split into again. */
  predicate IsAddress(location: string, name: string, id: string) {
    && location != "" && Collapse(location, false) == location && location[|location| - 1] != '/'
    && SlashFree(name) && SlashFree(id)
  }

  /** A target is routed to the CRUD handler by way of the location. */
  predicate GoesTo(t: ServerPaths, opens: string -> bool, target: string, location: string) {
    RequestType(t, opens, Normalize(target)) == CRUD && Location(t, Normalize(target)) == location
  }

  /** However an address is spelled, it is routed alike. */
  lemma SpellingsGoAlike(t: ServerPaths, opens: string -> bool, location: string, name: string, id: string,
                         a: nat, b: nat, c: nat, a': nat, b': nat, c': nat)
    requires IsAddress(location, name, id) && a > 0 && b > 0 && a' > 0 && b' > 0
    ensures GoesTo(t, opens, Target(location, name, id, a, b, c), location)
       <==> GoesTo(t, opens, Target(location, name, id, a', b', c'), location)
  {
    NormalizeTargetOf(location, name, id, a, b, c);
    NormalizeTargetOf(location, name, id, a', b', c');
  }

  /** Under an accepted configuration, a call that is routed by way of its location gets to its object. */
  lemma {:induction false} SpellingIsAddressed(config: seq<Stmt>, opens: string -> bool, verb: Verb, body: string,
                                               location: string, name: string, id: string, a: nat, b: nat, c: nat)
    requires Accepted(config) && IsAddress(location, name, id) && a > 0 && b > 0
    requires GoesTo(Tables(LocationsIn(config)), opens, Target(location, name, id, a, b, c), location)
    ensures var t := Tables(LocationsIn(config));
      && location in t.crud
      && Addressed(t, Call(verb, Target(location, name, id, a, b, c), body))
         == (t.crud[location], Request(verb, name, id, body))
  {
    var t := Tables(LocationsIn(config));
    AcceptedConfigRoutesAgree(config, opens, Normalize(Target(location, name, id, a, b, c)));
    AddressRoundTrip(t, location, name, id, a, b, c);
  }

  /** The requests to one data path are those up to one of them, that one, and some that come behind it. */
  lemma {:induction false} ToSplits(reqs: seq<(string, Request)>, k: nat, m: nat, d: string)
    returns (between: seq<Request>)
    requires k < m <= |reqs| && reqs[k].0 == d
    ensures To(reqs[..m], d) == To(reqs[..k], d) + [reqs[k].1] + between
    ensures forall q | q in between :: exists j :: k < j < m && reqs[j] == (d, q)
    decreases m - k
  {
    assert reqs[..m][..m - 1] == reqs[..m - 1];
    if m == k + 1 {
      between := [];
    } else {
      between := ToSplits(reqs, k, m - 1, d);
      if reqs[m - 1].0 == d {
        between := between + [reqs[m - 1].1];
      }
    }
  }

  /** Between two calls, the object at an address is left alone by all calls that go to its data path. */
  predicate LeftAlone(reqs: seq<(string, Request)>, k: nat, m: nat, d: string, e: string, i: string) {
    && m <= |reqs|
    && (forall j | k < j < m && reqs[j].0 == d :: Runs.Spares(reqs[j].1, e, i))
    && (Runs.NeverWraps(To(reqs[..m], d)) || forall j | k < j < m && reqs[j].0 == d :: !Runs.PostsTo(reqs[j].1, e))
  }

  lemma BodyIsServed(reqs: seq<(string, Request)>, k: nat, m: nat, d: string, r: Request, body: string)
    requires k < m <= |reqs| && reqs[k] == (d, r)
    requires r.verb == Put && r.name != "" && SlashFree(r.id) && Stoull(r.id).Number?
    requires LeftAlone(reqs, k, m, d, r.name, r.id)
    ensures Answer(Runs.Run(To(reqs[..m], d)), Request(Get, r.name, r.id, body))
         == Response(200, "application/json", r.body)
  {
    var between := ToSplits(reqs, k, m, d);
    forall q | q in between
      ensures Runs.Spares(q, r.name, r.id)
      ensures Runs.NeverWraps(To(reqs[..m], d)) || !Runs.PostsTo(q, r.name)
    {
      var j :| k < j < m && reqs[j] == (d, q);
    }
    Runs.PutIsReadUntilTouched(To(reqs[..k], d), r, between, body);
  }

  /**
    The CRUD service end to end: after an accepted configuration, a PUT to one
    spelling of an address is read back by a GET of any other spelling, whatever
    calls to other addresses and other locations come in between.
    */
  lemma PutIsReadAtAnySpelling(config: seq<Stmt>, opens: string -> bool, calls: seq<Call>,
                               answers: seq<Response>, k: nat, m: nat,
                               location: string, name: string, id: string,
                               a: nat, b: nat, c: nat, a': nat, b': nat, c': nat)
    requires Accepted(config) && IsAddress(location, name, id) && Stoull(id).Number?
    requires a > 0 && b > 0 && a' > 0 && b' > 0
    requires k < m < |calls| == |answers|
    requires calls[k].verb == Put && calls[k].target == Target(location, name, id, a, b, c)
    requires calls[m].verb == Get && calls[m].target == Target(location, name, id, a', b', c')
    requires GoesTo(Tables(LocationsIn(config)), opens, calls[k].target, location)
    requires var t := Tables(LocationsIn(config));
      && AnsweredApart(AllAddressed(t, calls), answers)
      && LeftAlone(AllAddressed(t, calls), k, m, Addressed(t, calls[k]).0, name, id)
    ensures answers[m] == Response(200, "application/json", calls[k].body)
  {
    var t := Tables(LocationsIn(config));
    SpellingsGoAlike(t, opens, location, name, id, a, b, c, a', b', c');
    SpellingIsAddressed(config, opens, Put, calls[k].body, location, name, id, a, b, c);
    SpellingIsAddressed(config, opens, Get, calls[m].body, location, name, id, a', b', c');
    CallIsAddressed(t, calls, k);
    CallIsAddressed(t, calls, m);
    BodyIsServed(AllAddressed(t, calls), k, m, t.crud[location], Request(Put, name, id, calls[k].body), calls[m].body);
  }
}
