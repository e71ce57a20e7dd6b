/**
  From a parsed configuration to the tables that routing uses: which `location`
  statements are accepted, and what the tables then hold.
  */
module ConfigInterpreters {
  import opened ConfigTree
  import opened ConfigObjects
  import opened Routing

  // ----- What a configuration says -----

  predicate Starts(s: Stmt, word: string) {
    s.tokens != [] && s.tokens[0] == word
  }

  /** The statements of a block that start with `word`, in order. */
  function Named(body: seq<Stmt>, word: string): seq<Stmt> {
    if body == [] then []
    else WithNamed(Named(body[..|body| - 1], word), body[|body| - 1], word)
  }

  function WithNamed(named: seq<Stmt>, s: Stmt, word: string): seq<Stmt> {
    if Starts(s, word) then named + [s] else named
  }

  function BodyOf(s: Stmt): seq<Stmt> {
    if s.Block? then s.body else []
  }

  /** All `location` statements directly inside a top-level `server`, in order. */
  function LocationsIn(t: seq<Stmt>): seq<Stmt> {
    if t == [] then []
    else
      var s, before := t[|t| - 1], LocationsIn(t[..|t| - 1]);
      if Starts(s, "server") then before + Named(BodyOf(s), "location") else before
  }

  predicate HasTokens(body: seq<Stmt>, n: nat) {
    forall i | 0 <= i < |body| :: |body[i].tokens| >= n
  }

  /** A block that names `key` at most once, and then with a value. */
  predicate KeyIsLegal(body: seq<Stmt>, key: string) {
    HasTokens(body, 1) && |Named(body, key)| <= 1 && HasTokens(Named(body, key), 2)
  }

  /** What one pass over a block finds out about `key`. */
  datatype Finding = Absent | Value(value: string) | Faulty

  function Find(body: seq<Stmt>, key: string): Finding {
    if body == [] then Absent
    else FindNext(Find(body[..|body| - 1], key), body[|body| - 1], key)
  }

  function FindNext(f: Finding, s: Stmt, key: string): Finding {
    if f == Faulty || s.tokens == [] then Faulty
    else if s.tokens[0] != key then f
    else if f == Absent && |s.tokens| >= 2 then Value(s.tokens[1])
    else Faulty
  }

  /** A finding is right about a block, given whether all its statements have tokens and which of them name the key. */
  predicate IsRight(f: Finding, tokened: bool, named: seq<Stmt>) {
    && (f != Faulty <==> tokened && |named| <= 1 && HasTokens(named, 2))
    && (f == Absent <==> tokened && named == [])
    && (f.Value? ==> |named| == 1 && |named[0].tokens| >= 2 && f.value == named[0].tokens[1])
  }

  lemma StaysRight(f: Finding, tokened: bool, named: seq<Stmt>, s: Stmt, key: string)
    requires IsRight(f, tokened, named)
    ensures IsRight(FindNext(f, s, key), tokened && s.tokens != [], WithNamed(named, s, key))
  {
    assert Starts(s, key) ==> (named + [s])[|named|] == s;
    assert forall i | 0 <= i < |named| :: (named + [s])[i] == named[i];
  }

  lemma TokensOfLast(body: seq<Stmt>)
    requires body != []
    ensures HasTokens(body, 1) <==> HasTokens(body[..|body| - 1], 1) && body[|body| - 1].tokens != []
  {
    var front := body[..|body| - 1];
    assert forall i | 0 <= i < |front| :: front[i] == body[i];
  }

  lemma NamedSnoc(front: seq<Stmt>, s: Stmt, key: string)
    ensures Named(front + [s], key) == WithNamed(Named(front, key), s, key)
    ensures HasTokens(front + [s], 1) <==> HasTokens(front, 1) && s.tokens != []
  {
    var all := front + [s];
    assert all[..|all| - 1] == front && all[|front|] == s;
    TokensOfLast(all);
  }

  lemma {:induction false} FindIsRight(body: seq<Stmt>, key: string)
    ensures IsRight(Find(body, key), HasTokens(body, 1), Named(body, key))
    decreases body
  {
    if body != [] {
      var front, s := body[..|body| - 1], body[|body| - 1];
      FindIsRight(front, key);
      TokensOfLast(body);
      StaysRight(Find(front, key), HasTokens(front, 1), Named(front, key), s, key);
    } else {
      assert HasTokens(body, 1) && Named(body, key) == [];
    }
  }

  /** The pass succeeds exactly on legal blocks, and finds the value of the only statement that names the key. */
  lemma {:induction false} FindMeans(body: seq<Stmt>, key: string)
    ensures Find(body, key) != Faulty <==> KeyIsLegal(body, key)
    ensures KeyIsLegal(body, key) ==>
      Find(body, key) == if Named(body, key) == [] then Absent else Value(Named(body, key)[0].tokens[1])
  {
    FindIsRight(body, key);
  }

  lemma {:induction false} FaultyStays(body: seq<Stmt>, i: nat, key: string)
    requires i <= |body| && Find(body[..i], key) == Faulty
    ensures Find(body, key) == Faulty
    decreases |body| - i
  {
    if i == |body| {
      assert body[..i] == body;
    } else {
      assert body[..i + 1][..i] == body[..i];
      FaultyStays(body, i + 1, key);
    }
  }

  /** The kind of request that a handler name in a location statement stands for. */
  function HandlerKind(name: string): Kind {
    if name == "EchoHandler" then Echo
    else if name == "StaticHandler" then Static
    else if name == "CrudHandler" then CRUD
    else if name == "HealthHandler" then Health
    else if name == "SleepHandler" then Sleep
    else if name == "AppHandler" then App
    else None
  }

  function KindOfStmt(s: Stmt): Kind
    requires |s.tokens| >= 3
  {
    HandlerKind(s.tokens[2])
  }

  predicate NeedsBlock(kind: Kind) {
    kind == Static || kind == CRUD || kind == App
  }

  predicate LocationIsLegal(s: Stmt) {
    && |s.tokens| >= 3
    && (NeedsBlock(KindOfStmt(s)) ==> s.Block?)
    && (KindOfStmt(s) == Static ==> KeyIsLegal(s.body, "root"))
    && (KindOfStmt(s) == CRUD ==> KeyIsLegal(s.body, "data_path"))
    && (KindOfStmt(s) == App ==> KeyIsLegal(s.body, "api_key") && KeyIsLegal(s.body, "chatgpt_url"))
  }

  /** Each location statement is legal, and no two name the same location. */
  predicate Legal(locations: seq<Stmt>) {
    && (forall i | 0 <= i < |locations| :: LocationIsLegal(locations[i]))
    && forall i, j | 0 <= i < j < |locations| :: locations[i].tokens[1] != locations[j].tokens[1]
  }

  predicate ServerIsLegal(s: Stmt) {
    s.tokens != [] && (Starts(s, "server") ==> s.Block? && HasTokens(s.body, 1))
  }

  predicate ServersAreLegal(t: seq<Stmt>) {
    forall i | 0 <= i < |t| :: ServerIsLegal(t[i])
  }

  predicate Accepted(t: seq<Stmt>) {
    ServersAreLegal(t) && Legal(LocationsIn(t))
  }

  // ----- The tables of the legal location statements -----

  function OfKind(locations: seq<Stmt>, kind: Kind): seq<string>
    requires HasTokens(locations, 3)
  {
    if locations == [] then []
    else
      var s, before := locations[|locations| - 1], OfKind(locations[..|locations| - 1], kind);
      if KindOfStmt(s) == kind then before + [s.tokens[1]] else before
  }

  /** For each location of the kind whose block names `key`, the value it gives. */
  function Values(locations: seq<Stmt>, kind: Kind, key: string): map<string, string>
    requires HasTokens(locations, 3)
  {
    if locations == [] then map[]
    else
      var s := locations[|locations| - 1];
      WithValue(Values(locations[..|locations| - 1], kind, key), s, kind, key)
  }

  function WithValue(m: map<string, string>, s: Stmt, kind: Kind, key: string): map<string, string>
    requires |s.tokens| >= 3
  {
    var f := Find(BodyOf(s), key);
    if KindOfStmt(s) == kind && f.Value? then m[s.tokens[1] := f.value] else m
  }

  function Tables(locations: seq<Stmt>): ServerPaths
    requires HasTokens(locations, 3)
  {
    ServerPaths(
      OfKind(locations, Echo),
      Values(locations, Static, "root"),
      Values(locations, CRUD, "data_path"),
      OfKind(locations, Health),
      OfKind(locations, Sleep),
      OfKind(locations, App))
  }

  predicate Used(locations: seq<Stmt>, location: string)
    requires HasTokens(locations, 3)
  {
    exists i | 0 <= i < |locations| :: locations[i].tokens[1] == location
  }

  predicate UsedAs(locations: seq<Stmt>, location: string, kind: Kind)
    requires HasTokens(locations, 3)
  {
    exists i | 0 <= i < |locations| :: locations[i].tokens[1] == location && KindOfStmt(locations[i]) == kind
  }

  lemma {:induction false} OfKindComesFrom(locations: seq<Stmt>, kind: Kind)
    requires HasTokens(locations, 3)
    ensures forall p :: p in OfKind(locations, kind) <==> UsedAs(locations, p, kind)
    decreases locations
  {
    if locations != [] {
      var front, s := locations[..|locations| - 1], locations[|locations| - 1];
      OfKindComesFrom(front, kind);
      forall p
        ensures p in OfKind(locations, kind) <==> UsedAs(locations, p, kind)
      {
        UsedSnoc(front, s, p, kind);
        assert front + [s] == locations;
      }
    }
  }

  lemma UsedSnoc(front: seq<Stmt>, s: Stmt, p: string, kind: Kind)
    requires HasTokens(front, 3) && |s.tokens| >= 3
    ensures HasTokens(front + [s], 3)
    ensures UsedAs(front + [s], p, kind) <==> UsedAs(front, p, kind) || (s.tokens[1] == p && KindOfStmt(s) == kind)
    ensures Used(front + [s], p) <==> Used(front, p) || s.tokens[1] == p
  {
    var all := front + [s];
    assert all[|front|] == s && forall i | 0 <= i < |front| :: all[i] == front[i];
  }

  lemma {:induction false} ValuesComeFrom(locations: seq<Stmt>, kind: Kind, key: string)
    requires HasTokens(locations, 3)
    ensures forall p | p in Values(locations, kind, key) :: UsedAs(locations, p, kind)
    decreases locations
  {
    if locations != [] {
      var front, s := locations[..|locations| - 1], locations[|locations| - 1];
      ValuesComeFrom(front, kind, key);
      forall p | p in Values(locations, kind, key)
        ensures UsedAs(locations, p, kind)
      {
        UsedSnoc(front, s, p, kind);
        assert front + [s] == locations;
      }
    }
  }

  lemma {:induction false} OfKindHasNoRepeats(locations: seq<Stmt>, kind: Kind)
    requires HasTokens(locations, 3) && Legal(locations)
    ensures NoRepeats(OfKind(locations, kind))
    decreases locations
  {
    if locations != [] {
      var front, s := locations[..|locations| - 1], locations[|locations| - 1];
      LegalFront(locations);
      OfKindHasNoRepeats(front, kind);
      OfKindComesFrom(front, kind);
      assert !UsedAs(front, s.tokens[1], kind);
    }
  }

  /** The kind that the location statements give a location. */
  function KindGiven(locations: seq<Stmt>, p: string): Kind
    requires HasTokens(locations, 3)
  {
    if locations == [] then None
    else
      var s := locations[|locations| - 1];
      if s.tokens[1] == p then KindOfStmt(s) else KindGiven(locations[..|locations| - 1], p)
  }

  lemma {:induction false} OneKindEach(locations: seq<Stmt>, p: string, kind: Kind)
    requires HasTokens(locations, 3) && Legal(locations) && UsedAs(locations, p, kind)
    ensures KindGiven(locations, p) == kind
    decreases locations
  {
    var front, s := locations[..|locations| - 1], locations[|locations| - 1];
    LegalFront(locations);
    UsedSnoc(front, s, p, kind);
    assert front + [s] == locations;
    if s.tokens[1] != p {
      OneKindEach(front, p, kind);
    }
  }

  ghost predicate AllGiven(locations: seq<Stmt>, ps: set<string>, kind: Kind)
    requires HasTokens(locations, 3)
  {
    forall p | p in ps :: KindGiven(locations, p) == kind
  }

  lemma ListIsOfItsKind(locations: seq<Stmt>, kind: Kind)
    requires HasTokens(locations, 3) && Legal(locations)
    ensures AllGiven(locations, Listed(OfKind(locations, kind)), kind)
  {
    OfKindComesFrom(locations, kind);
    forall p | p in OfKind(locations, kind)
      ensures KindGiven(locations, p) == kind
    {
      OneKindEach(locations, p, kind);
    }
  }

  lemma TableIsOfItsKind(locations: seq<Stmt>, kind: Kind, key: string)
    requires HasTokens(locations, 3) && Legal(locations)
    ensures AllGiven(locations, Values(locations, kind, key).Keys, kind)
  {
    ValuesComeFrom(locations, kind, key);
    forall p | p in Values(locations, kind, key)
      ensures KindGiven(locations, p) == kind
    {
      OneKindEach(locations, p, kind);
    }
  }

  lemma KindsAreDisjoint(locations: seq<Stmt>, a: set<string>, b: set<string>, c: set<string>,
                         d: set<string>, e: set<string>, f: set<string>)
    requires HasTokens(locations, 3)
    requires AllGiven(locations, a, Static) && AllGiven(locations, b, CRUD) && AllGiven(locations, c, Echo)
    requires AllGiven(locations, d, Health) && AllGiven(locations, e, Sleep) && AllGiven(locations, f, App)
    ensures a !! b !! c !! d !! e !! f
  {}

  /**
    The tables of an accepted configuration name pairwise different locations,
    across all six kinds, which is what the agreement of the routing functions
    asks for.
    */
  lemma AcceptedTablesAreDistinct(t: seq<Stmt>)
    requires Accepted(t)
    ensures DistinctLocations(Tables(LocationsIn(t)))
  {
    LegalTablesAreDisjoint(LocationsIn(t));
    OfKindHasNoRepeats(LocationsIn(t), Echo);
    OfKindHasNoRepeats(LocationsIn(t), Health);
    OfKindHasNoRepeats(LocationsIn(t), Sleep);
    OfKindHasNoRepeats(LocationsIn(t), App);
  }

  lemma LegalTablesAreDisjoint(ls: seq<Stmt>)
    requires HasTokens(ls, 3) && Legal(ls)
    ensures var t := Tables(ls);
      t.static_.Keys !! t.crud.Keys !! Listed(t.echo) !! Listed(t.health) !! Listed(t.sleep) !! Listed(t.app)
  {
    TableIsOfItsKind(ls, Static, "root");
    TableIsOfItsKind(ls, CRUD, "data_path");
    ListIsOfItsKind(ls, Echo);
    ListIsOfItsKind(ls, Health);
    ListIsOfItsKind(ls, Sleep);
    ListIsOfItsKind(ls, App);
    var t := Tables(ls);
    KindsAreDisjoint(ls, t.static_.Keys, t.crud.Keys, Listed(t.echo), Listed(t.health), Listed(t.sleep), Listed(t.app));
  }

  /** After an accepted configuration, all three routing functions select the same location. */
  lemma {:induction false} AcceptedConfigRoutesAgree(t: seq<Stmt>, opens: string -> bool, r: string)
    requires Accepted(t)
    ensures var tables := Tables(LocationsIn(t));
      && (RequestType(tables, opens, r) == Static ==>
            StaticLocation(tables, r) == Location(tables, r) && opens(StaticFilePath(tables, r)))
      && (RequestType(tables, opens, r) == CRUD ==>
            CrudLocation(tables, r) == Location(tables, r) && TakenForCrud(tables, Location(tables, r)))
  {
    AcceptedTablesAreDistinct(t);
    var tables := Tables(LocationsIn(t));
    if RequestType(tables, opens, r) == Static {
      StaticRoutesAgree(tables, opens, r);
    }
    if RequestType(tables, opens, r) == CRUD {
      CrudRoutesAgree(tables, opens, r);
    }
  }

  /** The table has the location exactly when the finding is a value, and with that value. */
  predicate Gives(table: map<string, string>, location: string, f: Finding) {
    if f.Value? then location in table && table[location] == f.value else location !in table
  }

  lemma {:induction false} LocationGives(locations: seq<Stmt>, kind: Kind, key: string, i: nat)
    requires HasTokens(locations, 3) && Legal(locations) && i < |locations| && KindOfStmt(locations[i]) == kind
    ensures Gives(Values(locations, kind, key), locations[i].tokens[1], Find(BodyOf(locations[i]), key))
    decreases locations
  {
    var front, last := locations[..|locations| - 1], locations[|locations| - 1];
    var table := Values(front, kind, key);
    LegalFront(locations);
    assert Values(locations, kind, key) == WithValue(table, last, kind, key);
    if i < |front| {
      LocationGives(front, kind, key, i);
      StillGives(table, locations[i], last, kind, key);
    } else {
      ValuesComeFrom(front, kind, key);
      NowGives(table, last, kind, key);
    }
  }

  lemma StillGives(table: map<string, string>, s: Stmt, last: Stmt, kind: Kind, key: string)
    requires |s.tokens| >= 3 && |last.tokens| >= 3 && s.tokens[1] != last.tokens[1]
    requires Gives(table, s.tokens[1], Find(BodyOf(s), key))
    ensures Gives(WithValue(table, last, kind, key), s.tokens[1], Find(BodyOf(s), key))
  {}

  lemma NowGives(table: map<string, string>, last: Stmt, kind: Kind, key: string)
    requires |last.tokens| >= 3 && KindOfStmt(last) == kind && last.tokens[1] !in table
    ensures Gives(WithValue(table, last, kind, key), last.tokens[1], Find(BodyOf(last), key))
  {}

  lemma LegalFront(locations: seq<Stmt>)
    requires locations != [] && HasTokens(locations, 3) && Legal(locations)
    ensures var front, last := locations[..|locations| - 1], locations[|locations| - 1];
      && Legal(front) && HasTokens(front, 3)
      && !Used(front, last.tokens[1])
      && forall i | 0 <= i < |front| :: front[i].tokens[1] != last.tokens[1]
  {
    var front := locations[..|locations| - 1];
    assert forall i | 0 <= i < |front| :: front[i] == locations[i];
  }

  /** A static or crud location is in its table exactly when its block gives it a path, and with that path. */
  lemma ValueOfLocation(locations: seq<Stmt>, kind: Kind, key: string, i: nat)
    requires HasTokens(locations, 3) && Legal(locations) && i < |locations| && KindOfStmt(locations[i]) == kind
    requires KeyIsLegal(BodyOf(locations[i]), key)
    ensures var location, table := locations[i].tokens[1], Values(locations, kind, key);
      var named := Named(BodyOf(locations[i]), key);
      if named != [] then location in table && table[location] == named[0].tokens[1] else location !in table
  {
    LocationGives(locations, kind, key, i);
    FindMeans(BodyOf(locations[i]), key);
  }

  // ----- The interpreter -----

  datatype ConfigError = DuplicateLocation | DuplicateKey | OutOfRange | MissingBlock

  datatype Outcome = Accepts | Throws(error: ConfigError)

  /** The value the last app location gives `key`, or what it was before. */
  function LastAppValue(locations: seq<Stmt>, key: string, initial: string): string
    requires HasTokens(locations, 3)
  {
    if locations == [] then initial
    else
      var s := locations[|locations| - 1];
      var f := Find(BodyOf(s), key);
      if KindOfStmt(s) == App && f.Value? then f.value
      else LastAppValue(locations[..|locations| - 1], key, initial)
  }

  /** The static members that interpreting a configuration sets. */
  class ConfigInterpreter {
    var serverPaths: ServerPaths
    var apiKey: string
    var chatgptUrl: string

    constructor ()
      ensures serverPaths == ServerPaths([], map[], map[], [], [], []) && apiKey == "" && chatgptUrl == ""
    {
      serverPaths, apiKey, chatgptUrl := ServerPaths([], map[], map[], [], [], []), "", "";
    }

    /** Looks for the single statement of a block that gives `key` a value. */
    method FindKey(block: NginxConfig, key: string, ghost body: seq<Stmt>, ghost heap: set<object>)
      returns (outcome: Outcome, found: bool, value: string)
      requires IsTree(block, body, heap)
      ensures outcome.Accepts? <==> Find(body, key) != Faulty
      ensures outcome.Accepts? ==> Find(body, key) == if found then Value(value) else Absent
    {
      found, value := false, "";
      for i := 0 to |block.statements|
        invariant Find(body[..i], key) == if found then Value(value) else Absent
      {
        var s := block.statements[i];
        assert IsStmt(s, body[i], heap);
        FindStep(body, i, key);
        if s.tokens == [] {
          return Throws(OutOfRange), found, value;
        }
        if s.tokens[0] == key {
          if found {
            return Throws(DuplicateKey), found, value;
          }
          if |s.tokens| < 2 {
            return Throws(OutOfRange), found, value;
          }
          value, found := s.tokens[1], true;
        }
      }
      assert body[..|body|] == body;
      outcome := Accepts;
    }

    /** The key and the address of the language model, from the block of an app location. */
    method FindAppKeys(block: NginxConfig, ghost body: seq<Stmt>, ghost heap: set<object>) returns (outcome: Outcome)
      requires IsTree(block, body, heap) && this !in heap
      modifies this`apiKey, this`chatgptUrl
      ensures outcome.Accepts? <==> Find(body, "api_key") != Faulty && Find(body, "chatgpt_url") != Faulty
      ensures outcome.Accepts? ==> apiKey == ValueOr(Find(body, "api_key"), old(apiKey))
      ensures outcome.Accepts? ==> chatgptUrl == ValueOr(Find(body, "chatgpt_url"), old(chatgptUrl))
    {
      var foundGptUrl, foundApiKey := false, false;
      for i := 0 to |block.statements|
        invariant Find(body[..i], "api_key") == if foundApiKey then Value(apiKey) else Absent
        invariant Find(body[..i], "chatgpt_url") == if foundGptUrl then Value(chatgptUrl) else Absent
        invariant !foundApiKey ==> apiKey == old(apiKey)
        invariant !foundGptUrl ==> chatgptUrl == old(chatgptUrl)
      {
        var s := block.statements[i];
        assert IsStmt(s, body[i], heap);
        FindStep(body, i, "api_key");
        FindStep(body, i, "chatgpt_url");
        if s.tokens == [] {
          return Throws(OutOfRange);
        }
        if s.tokens[0] == "api_key" {
          if foundApiKey {
            return Throws(DuplicateKey);
          }
          if |s.tokens| < 2 {
            return Throws(OutOfRange);
          }
          apiKey, foundApiKey := s.tokens[1], true;
        } else if s.tokens[0] == "chatgpt_url" {
          if foundGptUrl {
            return Throws(DuplicateKey);
          }
          if |s.tokens| < 2 {
            return Throws(OutOfRange);
          }
          chatgptUrl, foundGptUrl := s.tokens[1], true;
        }
      }
      assert body[..|body|] == body;
      outcome := Accepts;
    }

    /** The `root` or the `data_path` of a location, from its block. */
    method FindPath(stmt: NginxConfigStatement, key: string, ghost value: Stmt, ghost heap: set<object>)
      returns (outcome: Outcome, found: bool, path: string)
      requires IsStmt(stmt, value, heap)
      ensures outcome.Accepts? <==> value.Block? && Find(BodyOf(value), key) != Faulty
      ensures outcome.Accepts? ==> Find(BodyOf(value), key) == if found then Value(path) else Absent
    {
      if stmt.childBlock == null {
        return Throws(MissingBlock), false, "";
      }
      outcome, found, path := FindKey(stmt.childBlock, key, BodyOf(value), heap);
    }

    /** One location statement. */
    method InterpretLocation(stmt: NginxConfigStatement, tables: ServerPaths, used: set<string>,
                             ghost value: Stmt, ghost heap: set<object>)
      returns (outcome: Outcome, newTables: ServerPaths, newUsed: set<string>)
      requires IsStmt(stmt, value, heap) && this !in heap
      modifies this`apiKey, this`chatgptUrl
      ensures outcome.Accepts? <==> LocationIsLegal(value) && value.tokens[1] !in used
      ensures outcome.Accepts? ==>
        && newTables == WithLocation(tables, value) && newUsed == used + {value.tokens[1]}
        && apiKey == AppValueAfter(value, "api_key", old(apiKey))
        && chatgptUrl == AppValueAfter(value, "chatgpt_url", old(chatgptUrl))
    {
      outcome, newTables, newUsed := Accepts, tables, used;
      if |stmt.tokens| < 3 {
        return Throws(OutOfRange), tables, used;
      }
      var location, locationType := stmt.tokens[1], stmt.tokens[2];
      if location in used {
        return Throws(DuplicateLocation), tables, used;
      }
      newUsed := used + {location};
      LegalityByFind(value);
      if locationType == "EchoHandler" {
        newTables := tables.(echo := tables.echo + [location]);
      } else if locationType == "StaticHandler" {
        var found, root;
        outcome, found, root := FindPath(stmt, "root", value, heap);
        if found {
          newTables := tables.(static_ := tables.static_[location := root]);
        }
      } else if locationType == "CrudHandler" {
        var found, dataPath;
        outcome, found, dataPath := FindPath(stmt, "data_path", value, heap);
        if found {
          newTables := tables.(crud := tables.crud[location := dataPath]);
        }
      } else if locationType == "HealthHandler" {
        newTables := tables.(health := tables.health + [location]);
      } else if locationType == "SleepHandler" {
        newTables := tables.(sleep := tables.sleep + [location]);
      } else if locationType == "AppHandler" {
        newTables := tables.(app := tables.app + [location]);
        if stmt.childBlock == null {
          return Throws(MissingBlock), tables, used;
        }
        outcome := FindAppKeys(stmt.childBlock, BodyOf(value), heap);
      }
    }

    /** The local tables, the used locations and the static members after the location statements in `done`. */
    ghost predicate At(done: seq<Stmt>, tables: ServerPaths, used: set<string>, apiKey0: string, chatgptUrl0: string)
      reads this`apiKey, this`chatgptUrl
    {
      && Legal(done) && HasTokens(done, 3)
      && tables == Tables(done)
      && used == LocationsOf(done)
      && apiKey == LastAppValue(done, "api_key", apiKey0)
      && chatgptUrl == LastAppValue(done, "chatgpt_url", chatgptUrl0)
    }

    /** The block of one `server`, after the location statements in `done`. */
    method InterpretServer(block: NginxConfig, tables: ServerPaths, used: set<string>,
                           ghost body: seq<Stmt>, ghost heap: set<object>, ghost done: seq<Stmt>,
                           ghost apiKey0: string, ghost chatgptUrl0: string)
      returns (outcome: Outcome, newTables: ServerPaths, newUsed: set<string>)
      requires IsTree(block, body, heap) && this !in heap
      requires At(done, tables, used, apiKey0, chatgptUrl0)
      modifies this`apiKey, this`chatgptUrl
      ensures outcome.Accepts? <==> HasTokens(body, 1) && Legal(done + Named(body, "location"))
      ensures outcome.Accepts? ==> At(done + Named(body, "location"), newTables, newUsed, apiKey0, chatgptUrl0)
    {
      newTables, newUsed := tables, used;
      assert done + Named([], "location") == done;
      for i := 0 to |block.statements|
        invariant HasTokens(body[..i], 1)
        invariant At(done + Named(body[..i], "location"), newTables, newUsed, apiKey0, chatgptUrl0)
      {
        var s := block.statements[i];
        assert IsStmt(s, body[i], heap);
        ghost var before := done + Named(body[..i], "location");
        ServerStep(done, body, i);
        if s.tokens == [] {
          return Throws(OutOfRange), newTables, newUsed;
        }
        if s.tokens[0] == "location" {
          LegalSnoc(before, body[i]);
          LocationStep(before, body[i], apiKey0, chatgptUrl0);
          outcome, newTables, newUsed := InterpretLocation(s, newTables, newUsed, body[i], heap);
          if outcome.Throws? {
            return;
          }
        }
      }
      assert body[..|body|] == body;
      outcome := Accepts;
    }

    /** One statement of the configuration: a `server` has its block interpreted, others are passed over. */
    method InterpretTop(s: NginxConfigStatement, tables: ServerPaths, used: set<string>,
                        ghost value: Stmt, ghost heap: set<object>, ghost done: seq<Stmt>,
                        ghost apiKey0: string, ghost chatgptUrl0: string)
      returns (outcome: Outcome, newTables: ServerPaths, newUsed: set<string>)
      requires IsStmt(s, value, heap) && this !in heap
      requires At(done, tables, used, apiKey0, chatgptUrl0)
      modifies this`apiKey, this`chatgptUrl
      ensures var locations := if Starts(value, "server") then done + Named(BodyOf(value), "location") else done;
        && (outcome.Accepts? <==> ServerIsLegal(value) && Legal(locations))
        && (outcome.Accepts? ==> At(locations, newTables, newUsed, apiKey0, chatgptUrl0))
    {
      newTables, newUsed := tables, used;
      if s.tokens == [] {
        return Throws(OutOfRange), newTables, newUsed;
      }
      if s.tokens[0] == "server" {
        if s.childBlock == null {
          return Throws(MissingBlock), newTables, newUsed;
        }
        outcome, newTables, newUsed := InterpretServer(s.childBlock, tables, used, BodyOf(value), heap,
                                                       done, apiKey0, chatgptUrl0);
        return;
      }
      outcome := Accepts;
    }

    /**
      Succeeds exactly on the accepted configurations, and then the tables are
      those of the location statements; a configuration that is not accepted
      leaves the tables as they were.
      */
    method SetServerPaths(config: NginxConfig, ghost value: seq<Stmt>, ghost heap: set<object>)
      returns (outcome: Outcome)
      requires IsTree(config, value, heap) && this !in heap
      modifies this
      ensures outcome.Accepts? <==> Accepted(value)
      ensures Accepted(value) ==>
        && serverPaths == Tables(LocationsIn(value))
        && apiKey == LastAppValue(LocationsIn(value), "api_key", old(apiKey))
        && chatgptUrl == LastAppValue(LocationsIn(value), "chatgpt_url", old(chatgptUrl))
      ensures !Accepted(value) ==> serverPaths == old(serverPaths)
    {
      var tables := ServerPaths([], map[], map[], [], [], []);
      var used := {};
      for i := 0 to |config.statements|
        invariant serverPaths == old(serverPaths)
        invariant ServersAreLegal(value[..i])
        invariant At(LocationsIn(value[..i]), tables, used, old(apiKey), old(chatgptUrl))
      {
        assert IsStmt(config.statements[i], value[i], heap);
        ConfigStep(value, i);
        outcome, tables, used := InterpretTop(config.statements[i], tables, used, value[i], heap,
                                              LocationsIn(value[..i]), old(apiKey), old(chatgptUrl));
        if outcome.Throws? {
          return;
        }
      }
      assert value[..|value|] == value;
      serverPaths := tables;
      outcome := Accepts;
    }
  }

  function ValueOr(f: Finding, default: string): string {
    if f.Value? then f.value else default
  }

  // ----- Steps of the three loops -----

  /** What one location statement adds to the tables. */
  function WithLocation(t: ServerPaths, s: Stmt): ServerPaths
    requires |s.tokens| >= 3
  {
    match KindOfStmt(s)
    case Echo => t.(echo := t.echo + [s.tokens[1]])
    case Static => t.(static_ := WithValue(t.static_, s, Static, "root"))
    case CRUD => t.(crud := WithValue(t.crud, s, CRUD, "data_path"))
    case Health => t.(health := t.health + [s.tokens[1]])
    case Sleep => t.(sleep := t.sleep + [s.tokens[1]])
    case App => t.(app := t.app + [s.tokens[1]])
    case None => t
  }

  function AppValueAfter(s: Stmt, key: string, before: string): string
    requires |s.tokens| >= 3
  {
    if KindOfStmt(s) == App then ValueOr(Find(BodyOf(s), key), before) else before
  }

  function LocationsOf(locations: seq<Stmt>): set<string>
    requires HasTokens(locations, 3)
  {
    set i | 0 <= i < |locations| :: locations[i].tokens[1]
  }

  lemma FindStep(body: seq<Stmt>, i: nat, key: string)
    requires i < |body|
    ensures Find(body[..i + 1], key) == FindNext(Find(body[..i], key), body[i], key)
    ensures Find(body[..i + 1], key) == Faulty ==> Find(body, key) == Faulty
  {
    assert body[..i + 1][..i] == body[..i];
    if Find(body[..i + 1], key) == Faulty {
      FaultyStays(body, i + 1, key);
    }
  }

  lemma LegalityByFind(s: Stmt)
    requires |s.tokens| >= 3
    ensures LocationIsLegal(s) <==>
      && (NeedsBlock(KindOfStmt(s)) ==> s.Block?)
      && (KindOfStmt(s) == Static ==> Find(BodyOf(s), "root") != Faulty)
      && (KindOfStmt(s) == CRUD ==> Find(BodyOf(s), "data_path") != Faulty)
      && (KindOfStmt(s) == App ==> Find(BodyOf(s), "api_key") != Faulty && Find(BodyOf(s), "chatgpt_url") != Faulty)
  {
    FindMeans(BodyOf(s), "root");
    FindMeans(BodyOf(s), "data_path");
    FindMeans(BodyOf(s), "api_key");
    FindMeans(BodyOf(s), "chatgpt_url");
  }

  lemma LegalSnoc(done: seq<Stmt>, s: Stmt)
    requires Legal(done) && HasTokens(done, 3)
    ensures Legal(done + [s]) <==> LocationIsLegal(s) && s.tokens[1] !in LocationsOf(done)
  {
    var all := done + [s];
    assert all[|done|] == s && forall i | 0 <= i < |done| :: all[i] == done[i];
    if Legal(all) {
      assert LocationIsLegal(all[|done|]);
    }
  }

  lemma LocationStep(done: seq<Stmt>, s: Stmt, apiKey0: string, chatgptUrl0: string)
    requires HasTokens(done, 3)
    ensures |s.tokens| >= 3 ==>
      && HasTokens(done + [s], 3)
      && Tables(done + [s]) == WithLocation(Tables(done), s)
      && LocationsOf(done + [s]) == LocationsOf(done) + {s.tokens[1]}
      && LastAppValue(done + [s], "api_key", apiKey0)
         == AppValueAfter(s, "api_key", LastAppValue(done, "api_key", apiKey0))
      && LastAppValue(done + [s], "chatgpt_url", chatgptUrl0)
         == AppValueAfter(s, "chatgpt_url", LastAppValue(done, "chatgpt_url", chatgptUrl0))
  {
    if |s.tokens| >= 3 {
      var all := done + [s];
      assert all[..|all| - 1] == done && all[|done|] == s;
      assert forall i | 0 <= i < |done| :: all[i] == done[i];
      TablesSnoc(done, s);
      LocationsSnoc(done, s);
    }
  }

  lemma TablesSnoc(done: seq<Stmt>, s: Stmt)
    requires HasTokens(done, 3) && HasTokens(done + [s], 3) && |s.tokens| >= 3
    ensures Tables(done + [s]) == WithLocation(Tables(done), s)
  {
    var all := done + [s];
    assert all[..|all| - 1] == done && all[|all| - 1] == s;
  }

  lemma LocationsSnoc(done: seq<Stmt>, s: Stmt)
    requires HasTokens(done, 3) && HasTokens(done + [s], 3) && |s.tokens| >= 3
    ensures LocationsOf(done + [s]) == LocationsOf(done) + {s.tokens[1]}
  {
    var all := done + [s];
    assert all[|done|] == s;
    forall p | p in LocationsOf(done) + {s.tokens[1]}
      ensures p in LocationsOf(all)
    {
      if p in LocationsOf(done) {
        var i :| 0 <= i < |done| && done[i].tokens[1] == p;
        assert all[i].tokens[1] == p;
      }
    }
  }

  lemma {:induction false} NamedOfPrefix(body: seq<Stmt>, i: nat, key: string)
    requires i <= |body|
    ensures Named(body[..i], key) <= Named(body, key)
    decreases |body| - i
  {
    if i == |body| {
      assert body[..i] == body;
    } else {
      assert body[..i + 1][..i] == body[..i];
      NamedOfPrefix(body, i + 1, key);
    }
  }

  lemma LegalPrefix(done: seq<Stmt>, few: seq<Stmt>, many: seq<Stmt>)
    requires few <= many && Legal(done + many)
    ensures Legal(done + few)
  {
    assert forall i | 0 <= i < |done + few| :: (done + few)[i] == (done + many)[i];
  }

  /** The next statement of a `server` block; a block with an illegal beginning is illegal. */
  lemma ServerStep(done: seq<Stmt>, body: seq<Stmt>, i: nat)
    requires i < |body|
    ensures HasTokens(body, 1) ==> body[i].tokens != []
    ensures HasTokens(body[..i + 1], 1) <==> HasTokens(body[..i], 1) && body[i].tokens != []
    ensures done + Named(body[..i + 1], "location")
      == WithNamed(done + Named(body[..i], "location"), body[i], "location")
    ensures Legal(done + Named(body, "location")) ==> Legal(done + Named(body[..i + 1], "location"))
  {
    NamedStep(done, body, i, "location");
    LegalBeginning(done, body, i + 1, "location");
  }

  lemma NamedStep(done: seq<Stmt>, body: seq<Stmt>, i: nat, word: string)
    requires i < |body|
    ensures HasTokens(body[..i + 1], 1) <==> HasTokens(body[..i], 1) && body[i].tokens != []
    ensures done + Named(body[..i + 1], word) == WithNamed(done + Named(body[..i], word), body[i], word)
  {
    assert body[..i + 1] == body[..i] + [body[i]];
    NamedSnoc(body[..i], body[i], word);
    WithNamedAfter(done, Named(body[..i], word), body[i], word);
  }

  lemma LegalBeginning(done: seq<Stmt>, body: seq<Stmt>, i: nat, word: string)
    requires i <= |body|
    ensures Legal(done + Named(body, word)) ==> Legal(done + Named(body[..i], word))
  {
    NamedOfPrefix(body, i, word);
    if Legal(done + Named(body, word)) {
      LegalPrefix(done, Named(body[..i], word), Named(body, word));
    }
  }

  lemma WithNamedAfter(done: seq<Stmt>, named: seq<Stmt>, s: Stmt, word: string)
    ensures done + WithNamed(named, s, word) == WithNamed(done + named, s, word)
  {
    assert done + (named + [s]) == (done + named) + [s];
  }

  lemma {:induction false} LocationsOfPrefix(t: seq<Stmt>, i: nat)
    requires i <= |t|
    ensures LocationsIn(t[..i]) <= LocationsIn(t)
    decreases |t| - i
  {
    if i == |t| {
      assert t[..i] == t;
    } else {
      assert t[..i + 1][..i] == t[..i];
      LocationsOfPrefix(t, i + 1);
    }
  }

  /** The next top-level statement; a configuration with an illegal beginning is illegal. */
  lemma ConfigStep(t: seq<Stmt>, i: nat)
    requires i < |t|
    ensures LocationsIn(t[..i + 1])
      == if Starts(t[i], "server") then LocationsIn(t[..i]) + Named(BodyOf(t[i]), "location") else LocationsIn(t[..i])
    ensures ServersAreLegal(t[..i + 1]) <==> ServersAreLegal(t[..i]) && ServerIsLegal(t[i])
    ensures Accepted(t) ==> ServerIsLegal(t[i]) && Legal(LocationsIn(t[..i + 1]))
  {
    assert t[..i + 1][..i] == t[..i];
    LegalStep(t[..i], t[i], t[..i + 1]);
    if Accepted(t) {
      AcceptedBeginning(t, i + 1);
    }
  }

  lemma LegalStep(front: seq<Stmt>, s: Stmt, all: seq<Stmt>)
    requires all == front + [s]
    ensures ServersAreLegal(all) <==> ServersAreLegal(front) && ServerIsLegal(s)
  {
    assert forall j | 0 <= j < |front| :: all[j] == front[j];
    assert all[|front|] == s;
  }

  lemma AcceptedBeginning(t: seq<Stmt>, k: nat)
    requires k <= |t| && Legal(LocationsIn(t))
    ensures Legal(LocationsIn(t[..k]))
  {
    LocationsOfPrefix(t, k);
    LegalPrefix([], LocationsIn(t[..k]), LocationsIn(t));
    assert [] + LocationsIn(t) == LocationsIn(t) && [] + LocationsIn(t[..k]) == LocationsIn(t[..k]);
  }
}
