/**
  What an accepted configuration puts into the tables, in terms of the words that
  stand in it.
  */
module ConfigTables {
  import opened ConfigTree
  import opened ConfigInterpreters
  import opened Routing

  /** A `location` statement directly inside a top-level `server`. */
  ghost predicate IsLocation(t: seq<Stmt>, s: Stmt) {
    && s.tokens != [] && s.tokens[0] == "location"
    && exists i | 0 <= i < |t| :: t[i].tokens != [] && t[i].tokens[0] == "server" && t[i].Block? && s in t[i].body
  }

  /** The statement assigns the location to the handler. */
  predicate Assigns(s: Stmt, location: string, handler: string) {
    |s.tokens| >= 3 && s.tokens[1] == location && s.tokens[2] == handler
  }

  /** A statement in the block gives the key that value. */
  predicate Sets(body: seq<Stmt>, key: string, value: string) {
    exists j | 0 <= j < |body| :: |body[j].tokens| >= 2 && body[j].tokens[0] == key && body[j].tokens[1] == value
  }

  // ----- Finding the statements -----

  lemma {:induction false} NamedAreThere(body: seq<Stmt>, word: string, s: Stmt)
    ensures s in Named(body, word) <==> s in body && s.tokens != [] && s.tokens[0] == word
    decreases body
  {
    if body != [] {
      NamedAreThere(body[..|body| - 1], word, s);
      assert body == body[..|body| - 1] + [body[|body| - 1]];
    }
  }

  lemma {:induction false} LocationsAreThere(t: seq<Stmt>, s: Stmt)
    ensures s in LocationsIn(t) <==> IsLocation(t, s)
    decreases t
  {
    if t != [] {
      var front, last := t[..|t| - 1], t[|t| - 1];
      assert t == front + [last];
      LocationsAreThere(front, s);
      NamedAreThere(BodyOf(last), "location", s);
      LocationOfLast(front, last, s);
    }
  }

  lemma LocationOfLast(front: seq<Stmt>, last: Stmt, s: Stmt)
    ensures IsLocation(front + [last], s) <==>
      IsLocation(front, s) || (s.tokens != [] && s.tokens[0] == "location" &&
                               last.tokens != [] && last.tokens[0] == "server" && last.Block? && s in last.body)
  {
    var t := front + [last];
    assert t[|front|] == last && forall i | 0 <= i < |front| :: t[i] == front[i];
  }

  // ----- Filling the tables -----

  /** Some location statement of a server assigns the location to the handler. */
  ghost predicate IsAssigned(t: seq<Stmt>, location: string, handler: string) {
    exists s :: IsLocation(t, s) && Assigns(s, location, handler)
  }

  /** The same, and its block gives the key that value. */
  ghost predicate IsAssignedWith(t: seq<Stmt>, location: string, handler: string, key: string, value: string) {
    exists s :: IsLocation(t, s) && Assigns(s, location, handler) && Sets(BodyOf(s), key, value)
  }

  lemma UsedIsAssigned(t: seq<Stmt>, location: string, kind: Kind, handler: string)
    requires Accepted(t)
    requires forall name :: HandlerKind(name) == kind <==> name == handler
    ensures UsedAs(LocationsIn(t), location, kind) <==> IsAssigned(t, location, handler)
  {
    var ls := LocationsIn(t);
    if UsedAs(ls, location, kind) {
      var i :| 0 <= i < |ls| && ls[i].tokens[1] == location && KindOfStmt(ls[i]) == kind;
      LocationsAreThere(t, ls[i]);
      assert IsLocation(t, ls[i]) && Assigns(ls[i], location, handler);
    }
    if s :| IsLocation(t, s) && Assigns(s, location, handler) {
      LocationsAreThere(t, s);
    }
  }

  /** A list table has exactly the locations assigned to its handler. */
  lemma ListsHoldAssigned(t: seq<Stmt>, location: string)
    requires Accepted(t)
    ensures var tables := Tables(LocationsIn(t));
      && (location in tables.echo <==> IsAssigned(t, location, "EchoHandler"))
      && (location in tables.health <==> IsAssigned(t, location, "HealthHandler"))
      && (location in tables.sleep <==> IsAssigned(t, location, "SleepHandler"))
      && (location in tables.app <==> IsAssigned(t, location, "AppHandler"))
  {
    ListHoldsAssigned(t, location, Echo, "EchoHandler");
    ListHoldsAssigned(t, location, Health, "HealthHandler");
    ListHoldsAssigned(t, location, Sleep, "SleepHandler");
    ListHoldsAssigned(t, location, App, "AppHandler");
  }

  lemma ListHoldsAssigned(t: seq<Stmt>, location: string, kind: Kind, handler: string)
    requires Accepted(t)
    requires forall name :: HandlerKind(name) == kind <==> name == handler
    ensures location in OfKind(LocationsIn(t), kind) <==> IsAssigned(t, location, handler)
  {
    OfKindComesFrom(LocationsIn(t), kind);
    UsedIsAssigned(t, location, kind, handler);
  }

  /** A path table has exactly the locations assigned to its handler whose block gives a path, with that path. */
  lemma PathsAreThoseSet(t: seq<Stmt>, location: string, path: string)
    requires Accepted(t)
    ensures var tables := Tables(LocationsIn(t));
      && (location in tables.static_ && tables.static_[location] == path <==>
            IsAssignedWith(t, location, "StaticHandler", "root", path))
      && (location in tables.crud && tables.crud[location] == path <==>
            IsAssignedWith(t, location, "CrudHandler", "data_path", path))
  {
    PathIsSet(t, location, path, Static, "StaticHandler", "root");
    PathIsSet(t, location, path, CRUD, "CrudHandler", "data_path");
  }

  /** The two kinds of location whose block gives a path. */
  predicate GivesPath(kind: Kind, handler: string, key: string) {
    || (kind == Static && handler == "StaticHandler" && key == "root")
    || (kind == CRUD && handler == "CrudHandler" && key == "data_path")
  }

  lemma PathIsSet(t: seq<Stmt>, location: string, path: string, kind: Kind, handler: string, key: string)
    requires Accepted(t) && GivesPath(kind, handler, key)
    ensures var table := Values(LocationsIn(t), kind, key);
      location in table && table[location] == path <==> IsAssignedWith(t, location, handler, key, path)
  {
    if location in Values(LocationsIn(t), kind, key) {
      var s := StatementOf(LocationsIn(t), location, kind, handler, key);
      StatementGives(t, s, path, kind, handler, key);
    }
    if IsAssignedWith(t, location, handler, key, path) {
      var s :| IsLocation(t, s) && Assigns(s, location, handler) && Sets(BodyOf(s), key, path);
      StatementGives(t, s, path, kind, handler, key);
    }
  }

  lemma StatementOf(ls: seq<Stmt>, location: string, kind: Kind, handler: string, key: string) returns (s: Stmt)
    requires HasTokens(ls, 3) && GivesPath(kind, handler, key) && location in Values(ls, kind, key)
    ensures s in ls && Assigns(s, location, handler)
  {
    ValuesComeFrom(ls, kind, key);
    var i :| 0 <= i < |ls| && ls[i].tokens[1] == location && KindOfStmt(ls[i]) == kind;
    s := ls[i];
  }

  lemma StatementGives(t: seq<Stmt>, s: Stmt, path: string, kind: Kind, handler: string, key: string)
    requires Accepted(t) && GivesPath(kind, handler, key)
    requires |s.tokens| >= 3 && s.tokens[2] == handler && (s in LocationsIn(t) || IsLocation(t, s))
    ensures var table, location := Values(LocationsIn(t), kind, key), s.tokens[1];
      && IsLocation(t, s)
      && (location in table && table[location] == path <==> Sets(BodyOf(s), key, path))
  {
    LocationsAreThere(t, s);
    var ls := LocationsIn(t);
    var i :| 0 <= i < |ls| && ls[i] == s;
    ValueIsSet(ls, path, kind, key, i);
  }

  lemma ValueIsSet(ls: seq<Stmt>, path: string, kind: Kind, key: string, i: nat)
    requires HasTokens(ls, 3) && Legal(ls) && i < |ls| && KindOfStmt(ls[i]) == kind && KeyIsLegal(BodyOf(ls[i]), key)
    ensures var table, location := Values(ls, kind, key), ls[i].tokens[1];
      location in table && table[location] == path <==> Sets(BodyOf(ls[i]), key, path)
  {
    ValueOfLocation(ls, kind, key, i);
    SetByNamed(BodyOf(ls[i]), key, path);
  }

  /** In a legal block, the value that the only statement with the key has is the one that is set. */
  lemma SetByNamed(body: seq<Stmt>, key: string, value: string)
    requires KeyIsLegal(body, key)
    ensures Sets(body, key, value) <==> Named(body, key) != [] && Named(body, key)[0].tokens[1] == value
  {
    var named := Named(body, key);
    if named != [] {
      NamedAreThere(body, key, named[0]);
      var j :| 0 <= j < |body| && body[j] == named[0];
      assert named[0] in named && |body[j].tokens| >= 2;
    }
    if Sets(body, key, value) {
      var j :| 0 <= j < |body| && |body[j].tokens| >= 2 && body[j].tokens[0] == key && body[j].tokens[1] == value;
      NamedAreThere(body, key, body[j]);
    }
  }

  // ----- What makes a location statement legal -----

  /** A block whose statements all have a word, and at most one of which has the key, with a value behind it. */
  predicate SetsAtMostOnce(body: seq<Stmt>, key: string) {
    && (forall j | 0 <= j < |body| :: |body[j].tokens| >= 1 && (body[j].tokens[0] == key ==> |body[j].tokens| >= 2))
    && forall j, k | 0 <= j < k < |body| :: !(body[j].tokens[0] == key && body[k].tokens[0] == key)
  }

  lemma {:induction false} LegalIsAtMostOnce(body: seq<Stmt>, key: string)
    ensures KeyIsLegal(body, key) <==> SetsAtMostOnce(body, key)
    decreases body
  {
    if body != [] {
      var front, last := body[..|body| - 1], body[|body| - 1];
      LegalIsAtMostOnce(front, key);
      LegalWithLast(front, last, key);
      OnceWithLast(front, last, key);
      assert body == front + [last];
    }
  }

  predicate NoneHas(body: seq<Stmt>, key: string) {
    forall s | s in body :: s.tokens != [] ==> s.tokens[0] != key
  }

  lemma NamedIsNone(body: seq<Stmt>, key: string)
    ensures Named(body, key) == [] <==> NoneHas(body, key)
  {
    forall s
      ensures s in Named(body, key) <==> s in body && s.tokens != [] && s.tokens[0] == key
    {
      NamedAreThere(body, key, s);
    }
    if Named(body, key) != [] {
      assert Named(body, key)[0] in Named(body, key);
    }
  }

  lemma LegalWithLast(front: seq<Stmt>, last: Stmt, key: string)
    ensures KeyIsLegal(front + [last], key) <==>
      KeyIsLegal(front, key) && last.tokens != [] &&
      (last.tokens[0] == key ==> |last.tokens| >= 2 && NoneHas(front, key))
  {
    NamedSnoc(front, last, key);
    NamedIsNone(front, key);
    OneNamed(Named(front, key), last, key);
  }

  lemma OneNamed(named: seq<Stmt>, last: Stmt, key: string)
    ensures var all := WithNamed(named, last, key);
      |all| <= 1 && HasTokens(all, 2) <==>
        |named| <= 1 && HasTokens(named, 2) && (Starts(last, key) ==> named == [] && |last.tokens| >= 2)
  {
    assert Starts(last, key) ==> (named + [last])[|named|] == last;
  }

  lemma OnceWithLast(front: seq<Stmt>, last: Stmt, key: string)
    ensures SetsAtMostOnce(front + [last], key) <==>
      SetsAtMostOnce(front, key) && last.tokens != [] &&
      (last.tokens[0] == key ==> |last.tokens| >= 2 && NoneHas(front, key))
  {
    var all := front + [last];
    assert all[|front|] == last && forall j | 0 <= j < |front| :: all[j] == front[j];
  }

  /** Which blocks each handler asks for. */
  lemma HandlersAskFor(s: Stmt)
    requires |s.tokens| >= 3
    ensures var handler := s.tokens[2];
      && (handler == "StaticHandler" ==> (LocationIsLegal(s) <==> s.Block? && SetsAtMostOnce(s.body, "root")))
      && (handler == "CrudHandler" ==> (LocationIsLegal(s) <==> s.Block? && SetsAtMostOnce(s.body, "data_path")))
      && (handler == "AppHandler" ==>
            (LocationIsLegal(s) <==>
              s.Block? && SetsAtMostOnce(s.body, "api_key") && SetsAtMostOnce(s.body, "chatgpt_url")))
      && (handler != "StaticHandler" && handler != "CrudHandler" && handler != "AppHandler" ==> LocationIsLegal(s))
  {
    if s.Block? {
      LegalIsAtMostOnce(s.body, "root");
      LegalIsAtMostOnce(s.body, "data_path");
      LegalIsAtMostOnce(s.body, "api_key");
      LegalIsAtMostOnce(s.body, "chatgpt_url");
    }
  }

  /** Every statement that is looked at has a word, and every server has a block. */
  predicate ServersAreReadable(t: seq<Stmt>) {
    && (forall i | 0 <= i < |t| :: t[i].tokens != [])
    && forall i | 0 <= i < |t| && t[i].tokens[0] == "server" ::
         t[i].Block? && forall j | 0 <= j < |t[i].body| :: t[i].body[j].tokens != []
  }

  predicate NoneTwice(ls: seq<Stmt>) {
    forall i, j | 0 <= i < j < |ls| && |ls[i].tokens| >= 2 && |ls[j].tokens| >= 2 :: ls[i].tokens[1] != ls[j].tokens[1]
  }

  /** What a configuration needs to be accepted; what its location statements need, HandlersAskFor says. */
  lemma AcceptedMeans(t: seq<Stmt>)
    ensures Accepted(t) <==>
      ServersAreReadable(t) && (forall s | IsLocation(t, s) :: LocationIsLegal(s)) && NoneTwice(LocationsIn(t))
  {
    ReadableMeans(t);
    LegalMeans(t);
  }

  lemma ReadableMeans(t: seq<Stmt>)
    ensures ServersAreLegal(t) <==> ServersAreReadable(t)
  {
    if ServersAreLegal(t) {
      assert forall i | 0 <= i < |t| :: ServerIsLegal(t[i]);
    }
  }

  lemma LegalMeans(t: seq<Stmt>)
    ensures Legal(LocationsIn(t)) <==> (forall s | IsLocation(t, s) :: LocationIsLegal(s)) && NoneTwice(LocationsIn(t))
  {
    forall s
      ensures s in LocationsIn(t) <==> IsLocation(t, s)
    {
      LocationsAreThere(t, s);
    }
    LegalIsEach(LocationsIn(t));
  }

  lemma LegalIsEach(ls: seq<Stmt>)
    ensures Legal(ls) <==> (forall s | s in ls :: LocationIsLegal(s)) && NoneTwice(ls)
  {
    assert (forall s | s in ls :: LocationIsLegal(s)) <==> forall i | 0 <= i < |ls| :: LocationIsLegal(ls[i]);
  }

  // ----- The settings of the language model -----

  /** The last app location whose block gives the key decides its value; without one it stays. */
  lemma {:induction false} LastAppDecides(locations: seq<Stmt>, key: string, initial: string, k: nat, value: string)
    requires Legal(locations) && (key == "api_key" || key == "chatgpt_url")
    requires k <= |locations|
    requires forall m, v | k <= m < |locations| && locations[m].tokens[2] == "AppHandler" ::
      !Sets(BodyOf(locations[m]), key, v)
    ensures k == 0 ==> LastAppValue(locations, key, initial) == initial
    ensures k > 0 && locations[k - 1].tokens[2] == "AppHandler" && Sets(BodyOf(locations[k - 1]), key, value) ==>
      LastAppValue(locations, key, initial) == value
    decreases |locations|
  {
    if locations != [] {
      var front, last := locations[..|locations| - 1], locations[|locations| - 1];
      LegalFront(locations);
      AppFinding(last, key);
      if k < |locations| {
        assert forall m | k <= m < |front| :: front[m] == locations[m];
        LastAppDecides(front, key, initial, k, value);
      }
    }
  }

  lemma AppFinding(s: Stmt, key: string)
    requires LocationIsLegal(s) && (key == "api_key" || key == "chatgpt_url")
    ensures KindOfStmt(s) == App <==> s.tokens[2] == "AppHandler"
    ensures s.tokens[2] == "AppHandler" ==> forall v :: Find(BodyOf(s), key) == Value(v) <==> Sets(BodyOf(s), key, v)
  {
    if s.tokens[2] == "AppHandler" {
      FindMeans(BodyOf(s), key);
      forall v
        ensures Find(BodyOf(s), key) == Value(v) <==> Sets(BodyOf(s), key, v)
      {
        SetByNamed(BodyOf(s), key, v);
      }
    }
  }
}
