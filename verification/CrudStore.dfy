/**
  What the CRUD service means: a map from entity name and id to a body, with the
  greatest id recorded for each entity, and what whole runs of requests promise.
  */
module CrudStore {
  import opened CrudPaths
  import opened Text

  datatype Option<T> = None | Some(value: T)

  /** `maxIds` has a key for exactly the entities that were ever written. */
  datatype Store = Store(objects: map<(string, string), string>, maxIds: map<string, nat>)

  const EMPTY := Store(map[], map[])

  datatype Verb = Get | Post | Put | Delete | Other

  /** A request with the entity name and id that routing found in its target. */
  datatype Request = Request(verb: Verb, name: string, id: string, body: string)

  datatype Response =
    | Response(status: nat, contentType: string, body: string)
    | Threw

  // ----- Names and ids -----

  /** An entity name that is one path component and one word of the id file. */
  predicate IsName(e: string) {
    SlashFree(e) && NoSpace(e) && e != "maxEntityIds" && e != "." && e != ".."
  }

  /** The name `f` continues the name `e` after a colon. */
  predicate Continues(e: string, f: string) {
    e + ":" <= f
  }

  /** No name continues another after a colon, as names without colons never do. */
  predicate ToldApart(names: set<string>) {
    forall e, f | e in names && f in names :: !Continues(e, f)
  }

  lemma NamesWithoutColons(names: set<string>)
    requires forall e | e in names :: ':' !in e
    ensures ToldApart(names)
  {
    forall e, f | e in names && f in names
      ensures !Continues(e, f)
    {
      ContinuationHasColon(e, f);
    }
  }

  lemma ContinuationHasColon(e: string, f: string)
    ensures Continues(e, f) ==> ':' in f
  {
    if Continues(e, f) {
      assert f[|e|] == (e + ":")[|e|] == ':';
    }
  }

  /** An id that does not lead out of the directory of its entity. */
  predicate IsId(i: string) {
    IsRouted(i) && !IsDots(FirstSegment(i))
  }

  lemma PlainIsId(i: string)
    requires SlashFree(i) && !IsDots(i)
    ensures IsId(i)
  {
    FirstSegmentOfPlain(i);
  }

  lemma DecimalIsId(n: nat)
    ensures SlashFree(Decimal(n)) && IsId(Decimal(n))
  {
    DecimalRoundTrip(n);
    assert forall i | 0 <= i < |Decimal(n)| :: IsDigit(Decimal(n)[i]);
    assert IsDigit(Decimal(n)[0]);
    PlainIsId(Decimal(n));
  }

  /** A number does not begin with dots, so that writes are never led astray. */
  lemma NumbersAreIds(i: string)
    requires IsRouted(i) && Stoull(i).Number?
    ensures IsId(i)
  {
    DigitInFirstSegment(i);
    DotsAreDots(FirstSegment(i));
  }

  lemma DotsAreDots(segment: string)
    ensures IsDots(segment) ==> forall k | 0 <= k < |segment| :: !IsDigit(segment[k])
  {
  }

  lemma {:induction false} DigitInFirstSegment(s: string)
    requires Stoull(s).Number?
    ensures exists k :: 0 <= k < |FirstSegment(s)| && IsDigit(FirstSegment(s)[k])
    decreases s
  {
    if IsSpace(s[0]) {
      DigitInFirstSegment(s[1..]);
      var k :| 0 <= k < |FirstSegment(s[1..])| && IsDigit(FirstSegment(s[1..])[k]);
      assert FirstSegment(s)[k + 1] == FirstSegment(s[1..])[k];
    } else if s[0] == '-' || s[0] == '+' {
      assert IsDigit(s[1..][0]);
      assert FirstSegment(s[1..])[0] == s[1] && FirstSegment(s)[1] == s[1];
    } else {
      assert FirstSegment(s)[0] == s[0];
    }
  }

  predicate IsRequest(r: Request) {
    (r.name == "" || IsName(r.name)) && (r.id == "" || IsRouted(r.id))
  }

  // ----- Where an id leads -----

  /** What a path below the directory of an entity leads to. */
  datatype Spot =
    | AtData
    | AtIds
    | AtEntity(name: string)
    | AtObject(owner: string, id: string)
    | Nowhere
    | Beyond

  /**
    Following a path segment by segment, where `dirs` are the entities that have a
    directory: only directories can be passed, and above the data path, or at a
    name that no entity can have, the store says nothing.
    */
  function Land(dirs: set<string>, spot: Spot, path: string): Spot
    decreases |path|
  {
    if path == "" then spot
    else
      var segment, more := FirstSegment(path), BehindSegment(path);
      match spot
      case AtEntity(e) =>
        if e !in dirs then Nowhere
        else Land(dirs, FromEntity(e, segment), more)
      case AtData => Land(dirs, FromData(segment), more)
      case Beyond => Beyond
      case _ => Nowhere
  }

  function FromEntity(e: string, segment: string): Spot {
    if segment == "." then AtEntity(e) else if segment == ".." then AtData else AtObject(e, segment)
  }

  function FromData(segment: string): Spot {
    if segment == "." then AtData
    else if segment == ".." then Beyond
    else if segment == "maxEntityIds" then AtIds
    else if IsName(segment) then AtEntity(segment)
    else Beyond
  }

  /** An id without dots leads to the object it names, or, with a slash or for an unknown entity, nowhere. */
  lemma PlainLanding(dirs: set<string>, e: string, i: string)
    requires IsId(i)
    ensures Land(dirs, AtEntity(e), i) == if e in dirs && SlashFree(i) then AtObject(e, i) else Nowhere
  {
    RoutedSegments(i);
  }

  /** Where the address of a request leads. */
  function SpotOf(s: Store, r: Request): Spot {
    Land(s.maxIds.Keys, AtEntity(r.name), r.id)
  }

  /**
    A request whose outcome the store does not determine: it reads or deletes the id
    file or something beyond the data path, or deletes the directory of an entity
    that has no objects.
    */
  predicate Escapes(s: Store, r: Request) {
    && (r.verb == Get || r.verb == Delete) && r.name != "" && r.id != ""
    && Leaves(s, r.verb, SpotOf(s, r), r.id)
  }

  /** The spot that an id leads a GET or DELETE to is none of which the store knows what happens. */
  predicate Leaves(s: Store, verb: Verb, spot: Spot, id: string) {
    match spot
    case AtIds => true
    case Beyond => true
    case AtEntity(e) => verb == Delete && e in s.maxIds && Ids(s, e) == {} && !IsDots(LastSegment(id))
    case _ => false
  }

  lemma PlainNeverEscapes(s: Store, r: Request)
    requires r.id == "" || IsId(r.id)
    ensures !Escapes(s, r)
  {
    if r.id != "" {
      PlainLanding(s.maxIds.Keys, r.name, r.id);
    }
  }

  /** Routing yields such a request, and a write does not bring in a name that stems confuse with a known one. */
  predicate Admits(s: Store, r: Request) {
    && IsRequest(r)
    && (r.name != "" && (r.verb == Post || r.verb == Put) ==> ToldApart(s.maxIds.Keys + {r.name}))
  }

  // ----- The operations -----

  const MAX_ID: nat := TWO_TO_THE_64 - 1

  /** Adding one to an unsigned 64-bit number. */
  function Incremented(n: nat): nat {
    if n == MAX_ID then 0 else n + 1
  }

  /** The id a POST is given: one more than the recorded maximum, modulo 2^64. */
  function NextId(s: Store, e: string): nat {
    if e !in s.maxIds then 1 else Incremented(s.maxIds[e])
  }

  /** The first write to an entity records the id 1, before it looks at the id it was given. */
  function WithEntity(s: Store, e: string): Store {
    if e in s.maxIds then s else s.(maxIds := s.maxIds[e := 1])
  }

  /** For an id with a slash, the number before it is recorded, but the file cannot be opened. */
  function WithObject(t: Store, e: string, i: string, v: nat, body: string): Store {
    Store(
      if SlashFree(i) then t.objects[(e, i) := body] else t.objects,
      if v >= NextId(t, e) then t.maxIds[e := v] else t.maxIds)
  }

  function Written(s: Store, e: string, i: string, body: string): Store {
    var t := WithEntity(s, e);
    match Stoull(i)
    case Number(v) => WithObject(t, e, i, v, body)
    case _ => t
  }

  function Deleted(s: Store, spot: Spot): Store {
    match spot
    case AtObject(e, i) => s.(objects := s.objects - {(e, i)})
    case _ => s
  }

  predicate HasObject(s: Store, spot: Spot) {
    spot.AtObject? && (spot.owner, spot.id) in s.objects
  }

  /** What opening a spot and reading it yields; a directory opens, but has no text. */
  function ReadAt(s: Store, spot: Spot): Option<string> {
    match spot
    case AtObject(e, i) => if (e, i) in s.objects then Some(s.objects[(e, i)]) else None
    case AtEntity(e) => if e in s.maxIds then Some("") else None
    case AtData => Some("")
    case _ => None
  }

  const BAD_METHOD := Response(
    400, "text/plain", "400 Bad Request\r\nRequest method must be one of POST/GET/PUT/DELETE \r\n\r\n")
  const NO_NAME := Response(400, "text/plain", "400 Bad Request\r\nRequest must contain Entity name \r\n\r\n")
  const BAD_REQUEST := Response(400, "text/plain", "400 Bad Request \r\n\r\n")

  function IdBody(i: string): string {
    "{ \"id\": \"" + i + "\" }"
  }

  /** The store after a request. */
  function Next(s: Store, r: Request): Store {
    if r.name == "" then s
    else
      match r.verb
      case Post => if r.id == "" then Written(s, r.name, Decimal(NextId(s, r.name)), r.body) else s
      case Put => if r.id == "" then s else Written(s, r.name, r.id, r.body)
      case Delete => if r.id == "" then s else Deleted(s, SpotOf(s, r))
      case _ => s
  }

  function ObjectResponse(contents: Option<string>): Response {
    match contents
    case Some(body) => Response(200, "application/json", body)
    case None => Response(404, "text/plain", "404 Not Found\r\n\r\n")
  }

  /** The answer to a request. */
  ghost function Answer(s: Store, r: Request): Response {
    if r.verb == Other then BAD_METHOD
    else if r.name == "" then NO_NAME
    else
      match r.verb
      case Post =>
        if r.id != "" then BAD_REQUEST else Response(201, "text/plain", IdBody(Decimal(NextId(s, r.name))))
      case Get =>
        if r.id == "" then Response(200, "application/json", ListBody(Sorted(Ids(s, r.name))))
        else ObjectResponse(ReadAt(s, SpotOf(s, r)))
      case Put =>
        if r.id == "" then BAD_REQUEST
        else if !Stoull(r.id).Number? then Threw
        else if (r.name, r.id) in s.objects then Response(200, "text/plain", "Successful update.")
        else Response(201, "text/plain", IdBody(r.id))
      case Delete =>
        if r.id == "" then BAD_REQUEST
        else if HasObject(s, SpotOf(s, r)) then Response(200, "text/plain", "Successful delete.")
        else Response(204, "text/plain", "")
      case Other => Threw
  }

  // ----- Listing: the ids of an entity in lexicographic order -----

  function Ids(s: Store, e: string): set<string> {
    set k | k in s.objects && k.0 == e :: k.1
  }

  predicate Less(a: string, b: string) {
    b != "" && (a == "" || a[0] < b[0] || (a[0] == b[0] && Less(a[1..], b[1..])))
  }

  lemma {:induction false} LessIrreflexive(a: string)
    ensures !Less(a, a)
    decreases a
  {
    if a != "" {
      LessIrreflexive(a[1..]);
    }
  }

  lemma {:induction false} LessTransitive(a: string, b: string, c: string)
    requires Less(a, b) && Less(b, c)
    ensures Less(a, c)
    decreases a
  {
    if a != "" && a[0] == b[0] && b[0] == c[0] {
      LessTransitive(a[1..], b[1..], c[1..]);
    }
  }

  lemma {:induction false} LessTotal(a: string, b: string)
    ensures Less(a, b) || a == b || Less(b, a)
    decreases a
  {
    if a != "" && b != "" && a[0] == b[0] {
      LessTotal(a[1..], b[1..]);
      if a[1..] == b[1..] {
        assert a == [a[0]] + a[1..] && b == [b[0]] + b[1..];
      }
    }
  }

  /** Strictly increasing: sorted, without duplicates. */
  predicate Increasing(names: seq<string>) {
    forall i, j | 0 <= i < j < |names| :: Less(names[i], names[j])
  }

  function Elements(names: seq<string>): set<string> {
    set n | n in names
  }

  lemma {:induction false} IncreasingIsUnique(a: seq<string>, b: seq<string>)
    requires Increasing(a) && Increasing(b) && Elements(a) == Elements(b)
    ensures a == b
    decreases a
  {
    if a == [] {
      SomeElement(b);
    } else {
      assert a[0] in Elements(a) && a[0] in b;
      assert b[0] in Elements(b) && b[0] in a;
      LessIrreflexive(a[0]);
      if a[0] != b[0] {
        LessTransitive(a[0], b[0], a[0]);
      }
      forall n
        ensures n in Elements(a[1..]) <==> n in Elements(b[1..])
      {
        TailElements(a, n);
        TailElements(b, n);
      }
      IncreasingIsUnique(a[1..], b[1..]);
      assert a == [a[0]] + a[1..] && b == [b[0]] + b[1..];
    }
  }

  lemma SomeElement(b: seq<string>)
    ensures Elements(b) == {} ==> b == []
  {
    if b != [] {
      assert b[0] in Elements(b);
    }
  }

  lemma TailElements(a: seq<string>, n: string)
    requires a != [] && Increasing(a)
    ensures n in Elements(a[1..]) <==> n in Elements(a) && n != a[0]
  {
    LessIrreflexive(a[0]);
  }

  lemma {:induction false} IncreasingExists(s: set<string>) returns (names: seq<string>)
    ensures Increasing(names) && Elements(names) == s
    decreases |s|
  {
    if s == {} {
      return [];
    }
    var m := Least(s);
    var tail := IncreasingExists(s - {m});
    names := [m] + tail;
    LeastInFront(s, m, tail);
  }

  lemma LeastInFront(s: set<string>, m: string, tail: seq<string>)
    requires m in s && Increasing(tail) && Elements(tail) == s - {m}
    requires forall x | x in s && x != m :: Less(m, x)
    ensures Increasing([m] + tail) && Elements([m] + tail) == s
  {
    forall x | x in tail
      ensures Less(m, x)
    {
      assert x in Elements(tail);
    }
    forall x
      ensures x in Elements([m] + tail) <==> x in s
    {
      assert x in Elements(tail) <==> x in s - {m};
    }
  }

  lemma Least(s: set<string>) returns (m: string)
    requires s != {}
    ensures m in s && forall x | x in s && x != m :: Less(m, x)
  {
    m :| m in s;
    var rest := s - {m};
    while exists x :: x in rest && Less(x, m)
      invariant m in s && rest <= s && m !in rest
      invariant forall x | x in s && x !in rest && x != m :: Less(m, x)
      decreases |rest|
    {
      var x :| x in rest && Less(x, m);
      forall y | y in s && y !in rest && y != m
        ensures Less(x, y)
      {
        LessTransitive(x, m, y);
      }
      m, rest := x, rest - {x};
    }
    forall x | x in s && x != m
      ensures Less(m, x)
    {
      LessTotal(m, x);
    }
  }

  /** The elements of a set, in lexicographic order. */
  ghost function Sorted(s: set<string>): (names: seq<string>)
    ensures Increasing(names) && Elements(names) == s
  {
    assert exists names :: Increasing(names) && Elements(names) == s by {
      var some := IncreasingExists(s);
    }
    var names :| Increasing(names) && Elements(names) == s;
    names
  }

  function JoinNames(names: seq<string>): string {
    if names == [] then ""
    else if |names| == 1 then names[0]
    else JoinNames(names[..|names| - 1]) + ", " + names[|names| - 1]
  }

  function ListBody(names: seq<string>): string {
    "[" + JoinNames(names) + "]"
  }
}
