/**
  Which handler a target is for. Three functions of the dispatcher normalise the
  target and look for the longest location that begins it, each over its own
  tables and in its own order.
  */
module Routing {
  import opened CrudPaths
  import opened Regroup

  datatype ServerPaths = ServerPaths(
    echo: seq<string>, static_: map<string, string>, crud: map<string, string>,
    health: seq<string>, sleep: seq<string>, app: seq<string>)

  datatype Kind = Static | Echo | None | CRUD | Health | Sleep | App

  const NO_ADDRESS := CrudPath("", "", "")

  // ----- Normalisation -----

  /** Drops every slash that follows a slash. */
  function Collapse(s: string, afterSlash: bool): string {
    if s == "" then ""
    else if s[0] == '/' && afterSlash then Collapse(s[1..], true)
    else [s[0]] + Collapse(s[1..], s[0] == '/')
  }

  /** Drops trailing slashes, but not the first character. */
  function Strip(s: string): string {
    if |s| > 1 && s[|s| - 1] == '/' then Strip(s[..|s| - 1]) else s
  }

  function Normalize(target: string): string {
    Strip(Collapse(target, false))
  }

  /** The loops at the head of all three routing functions; a target is never empty. */
  method NormalizeTarget(target: string) returns (result: string)
    requires target != ""
    ensures result == Normalize(target) && result != ""
  {
    result := "";
    var isPrevSlash := false;
    for i := 0 to |target|
      invariant Collapse(target, false) == result + Collapse(target[i..], isPrevSlash)
      invariant result == "" ==> !isPrevSlash && i == 0
    {
      var c := target[i];
      assert target[i..][1..] == target[i + 1..];
      if c == '/' && isPrevSlash {
        continue;
      }
      assert result + ([c] + Collapse(target[i + 1..], c == '/')) == result + [c] + Collapse(target[i + 1..], c == '/');
      result := result + [c];
      isPrevSlash := c == '/';
    }
    assert target[|target|..] == "" && result + "" == result;
    while result[|result| - 1] == '/' && |result| > 1
      invariant result != "" && Strip(result) == Normalize(target)
    {
      result := result[..|result| - 1];
    }
  }

  lemma {:induction false} CollapseHasNoDoubleSlash(s: string, afterSlash: bool)
    ensures NoDoubleSlash(Collapse(s, afterSlash))
    ensures afterSlash && Collapse(s, afterSlash) != "" ==> Collapse(s, afterSlash)[0] != '/'
    decreases s
  {
    if s != "" {
      CollapseHasNoDoubleSlash(s[1..], s[0] == '/');
    }
  }

  lemma {:induction false} CollapseKeeps(s: string, afterSlash: bool)
    requires NoDoubleSlash(s) && (afterSlash && s != "" ==> s[0] != '/')
    ensures Collapse(s, afterSlash) == s
    decreases s
  {
    if s != "" {
      assert NoDoubleSlash(s[1..]) by {
        assert forall i | 0 <= i < |s| - 1 :: s[1..][i] == s[i + 1];
      }
      CollapseKeeps(s[1..], s[0] == '/');
    }
  }

  lemma {:induction false} StripIsPrefix(s: string)
    ensures Strip(s) <= s
    ensures |Strip(s)| > 1 ==> Strip(s)[|Strip(s)| - 1] != '/'
    ensures Strip(s) == "" <==> s == ""
    decreases s
  {
    if |s| > 1 && s[|s| - 1] == '/' {
      StripIsPrefix(s[..|s| - 1]);
    }
  }

  /** A normalised target has no double slash, no trailing slash unless it is `/`, and stays as it is. */
  lemma NormalForm(target: string)
    ensures var r := Normalize(target);
      && NoDoubleSlash(r)
      && (|r| > 1 ==> r[|r| - 1] != '/')
      && Normalize(r) == r
  {
    var c := Collapse(target, false);
    CollapseHasNoDoubleSlash(target, false);
    StripIsPrefix(c);
    CollapseKeeps(Strip(c), false);
  }

  // ----- Normalisation as splitting and rejoining -----

  /** The non-empty segments between slashes, when the characters of `w` have just been read. */
  function SegmentsFrom(w: string, s: string): seq<string>
    decreases |s|
  {
    if s == "" then
      if w == "" then [] else [w]
    else if s[0] == '/' then
      (if w == "" then [] else [w]) + SegmentsFrom("", s[1..])
    else
      SegmentsFrom(w + [s[0]], s[1..])
  }

  function Segments(s: string): seq<string> {
    SegmentsFrom("", s)
  }

  function Rejoin(segments: seq<string>): string {
    if segments == [] then "" else "/" + segments[0] + Rejoin(segments[1..])
  }

  lemma {:induction false} StripConcat(a: string, b: string)
    requires a != "" && b != "" && b[0] != '/'
    ensures Strip(a + b) == a + Strip(b)
    decreases b
  {
    if b[|b| - 1] == '/' {
      assert (a + b)[..|a + b| - 1] == a + b[..|b| - 1];
      StripConcat(a, b[..|b| - 1]);
    }
  }

  lemma {:induction false} SegmentsAreNotEmpty(w: string, s: string)
    ensures forall i | 0 <= i < |SegmentsFrom(w, s)| :: SegmentsFrom(w, s)[i] != ""
    ensures w != "" ==> SegmentsFrom(w, s) != []
    decreases |s|
  {
    if s != "" {
      SegmentsAreNotEmpty(if s[0] == '/' then "" else w + [s[0]], s[1..]);
    }
  }

  /** Collapsing and stripping after a slash, and inside a word, against the segments. */
  lemma {:induction false} CollapseRejoins(w: string, s: string)
    requires '/' !in w
    ensures w == "" ==> Strip("/" + Collapse(s, true)) == if Segments(s) == [] then "/" else Rejoin(Segments(s))
    ensures w != "" ==> Strip("/" + (w + Collapse(s, false))) == Rejoin(SegmentsFrom(w, s))
    decreases |s|
  {
    if s == "" {
      assert w + "" == w && "/" + "" == "/" && "/" + w + "" == "/" + w;
    } else if s[0] == '/' {
      CollapseRejoins("", s[1..]);
      if w != "" {
        WordThenSlash(w, s[1..]);
      } else {
        assert Segments(s) == Segments(s[1..]);
      }
    } else {
      var v := w + [s[0]];
      CollapseRejoins(v, s[1..]);
      SegmentsAreNotEmpty(v, s[1..]);
      assert w + ([s[0]] + Collapse(s[1..], false)) == v + Collapse(s[1..], false);
      assert w == "" ==> v == [s[0]];
    }
  }

  lemma WordThenSlash(w: string, s: string)
    requires '/' !in w && w != ""
    requires Strip("/" + Collapse(s, true)) == if Segments(s) == [] then "/" else Rejoin(Segments(s))
    ensures Strip("/" + (w + ("/" + Collapse(s, true)))) == Rejoin([w] + Segments(s))
  {
    var c := Collapse(s, true);
    CollapseHasNoDoubleSlash(s, true);
    SegmentsAreNotEmpty("", s);
    RejoinIsLong(Segments(s));
    assert ([w] + Segments(s))[1..] == Segments(s);
    if c == "" {
      TrailingSlash(w);
      assert Segments(s) == [];
      assert "/" + w + "" == "/" + w;
    } else {
      WordThenMore(w, c);
      assert Segments(s) != [];
    }
  }

  lemma RejoinIsLong(segments: seq<string>)
    requires forall i | 0 <= i < |segments| :: segments[i] != ""
    ensures segments != [] ==> |Rejoin(segments)| > 1
  {
  }

  lemma WordThenMore(w: string, c: string)
    requires w != "" && c != "" && c[0] != '/'
    ensures Strip("/" + (w + ("/" + c))) == "/" + w + Strip("/" + c)
    ensures |Strip("/" + c)| > 1
  {
    var head := "/" + w + "/";
    StripConcat("/", c);
    StripConcat(head, c);
    StripIsPrefix(c);
    Right4("/", w, "/", c);
    Right3("/" + w, "/", Strip(c));
  }

  lemma TrailingSlash(w: string)
    requires '/' !in w && w != ""
    ensures Strip("/" + (w + ("/" + ""))) == "/" + w
  {
    assert "/" + (w + ("/" + "")) == "/" + w + "/";
    assert ("/" + w + "/")[..|w| + 1] == "/" + w;
  }

  /** For an absolute target, normalising is splitting at slashes, dropping empty segments, and rejoining. */
  lemma NormalizeRejoins(target: string)
    requires target != "" && target[0] == '/'
    ensures Normalize(target) == if Segments(target) == [] then "/" else Rejoin(Segments(target))
  {
    CollapseRejoins("", target[1..]);
    assert Segments(target) == Segments(target[1..]);
    assert ["/"[0]] + Collapse(target[1..], true) == "/" + Collapse(target[1..], true);
  }

  // ----- The longest location that begins the target -----

  /** The reference: shorten the target until it is a location. */
  function Best(locations: set<string>, r: string): (best: string)
    decreases r
  {
    if r == "" || r in locations then r else Best(locations, r[..|r| - 1])
  }

  /** `best` is the longest non-empty location that begins `r`; empty if there is none. */
  ghost predicate IsBest(best: string, locations: set<string>, r: string) {
    && best <= r
    && (best != "" ==> best in locations)
    && forall p | p in locations && p <= r :: |p| <= |best|
  }

  lemma {:induction false} BestIsBest(locations: set<string>, r: string)
    ensures IsBest(Best(locations, r), locations, r)
    decreases r
  {
    if r != "" && r !in locations {
      BestIsBest(locations, r[..|r| - 1]);
      forall p | p in locations && p <= r
        ensures p <= r[..|r| - 1]
      {
        assert p != r;
      }
    }
  }

  /** Prefixes of one string of equal length are equal, so there is only one best location. */
  lemma BestIsUnique(best: string, locations: set<string>, r: string)
    requires IsBest(best, locations, r)
    ensures best == Best(locations, r)
  {
    BestIsBest(locations, r);
    var b := Best(locations, r);
    assert |b| == |best|;
    assert b == r[..|b|] && best == r[..|best|];
  }

  /** Fewer locations give the same answer if the best one is among them. */
  lemma BestOfFewer(few: set<string>, many: set<string>, r: string)
    requires few <= many
    requires Best(many, r) == "" || Best(many, r) in few
    ensures Best(few, r) == Best(many, r)
  {
    BestIsBest(many, r);
    BestIsUnique(Best(many, r), few, r);
  }

  /** The state of the search: the best location so far, with its length kept beside it. */
  method ScanKeys(result: string, locations: set<string>, longestPath: string, ghost seen: set<string>)
    returns (best: string, hit: bool)
    requires IsBest(longestPath, seen, result)
    ensures IsBest(best, seen + locations, result)
    ensures hit <==> best != longestPath
    ensures hit ==> best in locations && best !in seen
  {
    var longestSize := |longestPath|;
    best, hit := longestPath, false;
    var left := locations;
    while left != {}
      invariant left <= locations
      invariant longestSize == |best| && IsBest(best, seen + (locations - left), result)
      invariant if hit then best in locations && |best| > |longestPath| else best == longestPath
      decreases left
    {
      var path :| path in left;
      left := left - {path};
      if path <= result && |path| > longestSize {
        longestSize, best, hit := |path|, path, true;
      }
    }
    assert seen + (locations - left) == seen + locations;
  }

  method ScanList(result: string, locations: seq<string>, longestPath: string, ghost seen: set<string>)
    returns (best: string, hit: bool)
    requires IsBest(longestPath, seen, result)
    ensures IsBest(best, seen + Listed(locations), result)
    ensures hit <==> best != longestPath
    ensures hit ==> best in Listed(locations) && best !in seen
  {
    var longestSize := |longestPath|;
    best, hit := longestPath, false;
    for i := 0 to |locations|
      invariant longestSize == |best| && IsBest(best, seen + Listed(locations[..i]), result)
      invariant if hit then best in locations && |best| > |longestPath| else best == longestPath
    {
      var path := locations[i];
      assert Listed(locations[..i + 1]) == Listed(locations[..i]) + {path};
      if path <= result && |path| > longestSize {
        longestSize, best, hit := |path|, path, true;
      }
    }
    assert locations[..|locations|] == locations;
  }

  function Listed(locations: seq<string>): set<string> {
    set p | p in locations
  }

  // ----- The three routing functions, as functions of the normalised target -----

  function AllLocations(t: ServerPaths): set<string> {
    t.static_.Keys + t.crud.Keys + Listed(t.echo) + Listed(t.health) + Listed(t.sleep) + Listed(t.app)
  }

  /** The kind of a location: the first table that has it, in the order `getRequestType` scans them. */
  function KindOf(t: ServerPaths, location: string): Kind {
    if location == "" then None
    else if location in t.static_ then Static
    else if location in t.crud then CRUD
    else if location in Listed(t.echo) then Echo
    else if location in Listed(t.health) then Health
    else if location in Listed(t.sleep) then Sleep
    else if location in Listed(t.app) then App
    else None
  }

  function FileFor(t: ServerPaths, location: string, r: string): string
    requires location in t.static_ && location <= r
  {
    t.static_[location] + r[|location|..]
  }

  /** The location that a normalised target belongs to, over all six tables. */
  function Location(t: ServerPaths, r: string): (l: string)
    ensures l <= r
  {
    BestIsBest(AllLocations(t), r);
    Best(AllLocations(t), r)
  }

  function RequestType(t: ServerPaths, opens: string -> bool, r: string): Kind {
    var l := Location(t, r);
    if KindOf(t, l) == Static && !opens(FileFor(t, l, r)) then None else KindOf(t, l)
  }

  function StaticLocation(t: ServerPaths, r: string): string {
    Best(t.static_.Keys + Listed(t.echo), r)
  }

  function StaticFilePath(t: ServerPaths, r: string): string {
    var l := StaticLocation(t, r);
    BestIsBest(t.static_.Keys + Listed(t.echo), r);
    if l != "" && l in t.static_ then FileFor(t, l, r) else ""
  }

  function CrudLocation(t: ServerPaths, r: string): string {
    Best(t.static_.Keys + Listed(t.echo) + t.crud.Keys, r)
  }

  /** Whether `getCrudEntityPath` takes a location for a crud one: it scans static and echo first. */
  predicate TakenForCrud(t: ServerPaths, l: string) {
    l != "" && l in t.crud && l !in t.static_ && l !in Listed(t.echo)
  }

  /** The first slash at or after `from`; the length if there is none. */
  function FindSlash(s: string, from: nat): (k: nat)
    ensures from < |s| ==> from <= k <= |s|
    ensures k < |s| ==> s[k] == '/'
    ensures forall i | from <= i < k && i < |s| :: s[i] != '/'
    ensures from >= |s| ==> k == |s|
    decreases |s| - from
  {
    if from >= |s| then |s| else if s[from] == '/' then from else FindSlash(s, from + 1)
  }

  /** Entity name and id from what follows the location, whose first character is skipped. */
  function SplitEntity(rest: string): (string, string) {
    var k := FindSlash(rest, 1);
    if k < |rest| then (rest[1..k], rest[k + 1..])
    else if |rest| > 1 then (rest[1..], "")
    else ("", "")
  }

  function CrudEntityPath(t: ServerPaths, r: string): CrudPath {
    var l := CrudLocation(t, r);
    BestIsBest(t.static_.Keys + Listed(t.echo) + t.crud.Keys, r);
    if TakenForCrud(t, l) then
      var (name, id) := SplitEntity(r[|l|..]);
      CrudPath(t.crud[l], name, id)
    else NO_ADDRESS
  }

  // ----- The routing methods -----

  method GetRequestType(t: ServerPaths, target: string, opens: string -> bool) returns (requestType: Kind)
    requires target != ""
    ensures requestType == RequestType(t, opens, Normalize(target))
  {
    var result := NormalizeTarget(target);
    var longestPath;
    longestPath, requestType := ScanAll(t, result);
    if requestType == Static && !opens(t.static_[longestPath] + result[|longestPath|..]) {
      requestType := None;
    }
  }

  /** The six scans, each going on from the longest match of those before. */
  method ScanAll(t: ServerPaths, result: string) returns (longestPath: string, requestType: Kind)
    ensures longestPath == Location(t, result) && requestType == KindOf(t, longestPath)
  {
    requestType := None;
    var hit;
    ghost var seen: set<string> := {};
    longestPath, hit := ScanKeys(result, t.static_.Keys, "", seen);
    requestType := if hit then Static else requestType;
    seen := seen + t.static_.Keys;
    longestPath, hit := ScanKeys(result, t.crud.Keys, longestPath, seen);
    requestType := if hit then CRUD else requestType;
    seen := seen + t.crud.Keys;
    longestPath, hit := ScanList(result, t.echo, longestPath, seen);
    requestType := if hit then Echo else requestType;
    seen := seen + Listed(t.echo);
    longestPath, hit := ScanList(result, t.health, longestPath, seen);
    requestType := if hit then Health else requestType;
    seen := seen + Listed(t.health);
    longestPath, hit := ScanList(result, t.sleep, longestPath, seen);
    requestType := if hit then Sleep else requestType;
    seen := seen + Listed(t.sleep);
    longestPath, hit := ScanList(result, t.app, longestPath, seen);
    requestType := if hit then App else requestType;
    seen := seen + Listed(t.app);
    assert seen == AllLocations(t);
    BestIsUnique(longestPath, AllLocations(t), result);
  }

  method GetStaticFilePath(t: ServerPaths, target: string) returns (filePath: string)
    requires target != ""
    ensures filePath == StaticFilePath(t, Normalize(target))
  {
    var result := NormalizeTarget(target);
    var requestType := None;
    var longestPath, hit := ScanKeys(result, t.static_.Keys, "", {});
    requestType := if hit then Static else requestType;
    longestPath, hit := ScanList(result, t.echo, longestPath, {} + t.static_.Keys);
    requestType := if hit then Echo else requestType;
    assert {} + t.static_.Keys == t.static_.Keys;
    BestIsUnique(longestPath, t.static_.Keys + Listed(t.echo), result);
    if requestType != Static {
      return "";
    }
    filePath := t.static_[longestPath] + result[|longestPath|..];
  }

  method GetCrudEntityPath(t: ServerPaths, target: string) returns (address: CrudPath)
    requires target != ""
    ensures address == CrudEntityPath(t, Normalize(target))
  {
    var result := NormalizeTarget(target);
    var requestType := None;
    var longestPath, hit := ScanKeys(result, t.static_.Keys, "", {});
    requestType := if hit then Static else requestType;
    assert {} + t.static_.Keys == t.static_.Keys;
    longestPath, hit := ScanList(result, t.echo, longestPath, t.static_.Keys);
    requestType := if hit then Echo else requestType;
    longestPath, hit := ScanKeys(result, t.crud.Keys, longestPath, t.static_.Keys + Listed(t.echo));
    requestType := if hit then CRUD else requestType;
    BestIsUnique(longestPath, t.static_.Keys + Listed(t.echo) + t.crud.Keys, result);
    if requestType != CRUD {
      return NO_ADDRESS;
    }
    var entityPath := result[|longestPath|..];
    var splitIndex := FindSlash(entityPath, 1);
    var entityName, entityId := "", "";
    if splitIndex != |entityPath| {
      entityName := entityPath[1..splitIndex];
      entityId := entityPath[splitIndex + 1..];
    } else if |entityPath| > 1 {
      entityName := entityPath[1..];
    }
    address := CrudPath(t.crud[longestPath], entityName, entityId);
  }

  // ----- What each table is for -----

  predicate InSomeTable(t: ServerPaths, p: string) {
    p in t.static_ || p in t.crud || p in t.echo || p in t.health || p in t.sleep || p in t.app
  }

  /** The location begins the target, and no longer location of any table does. */
  ghost predicate Decides(t: ServerPaths, p: string, r: string) {
    p != "" && p <= r && InSomeTable(t, p) && forall q | InSomeTable(t, q) && q <= r :: |q| <= |p|
  }

  lemma DecidingLocation(t: ServerPaths, p: string, r: string)
    requires Decides(t, p, r)
    ensures Location(t, r) == p
  {
    BestIsUnique(p, AllLocations(t), r);
  }

  /**
    The table of the deciding location gives the kind of request; a location in
    several tables is static first, then crud, echo, health, sleep and app.
    */
  lemma TableGivesKind(t: ServerPaths, opens: string -> bool, p: string, r: string)
    requires Decides(t, p, r)
    ensures var kind := RequestType(t, opens, r);
      && (p in t.static_ ==> kind == if opens(t.static_[p] + r[|p|..]) then Static else None)
      && (p in t.crud && p !in t.static_ ==> kind == CRUD)
      && (p in t.echo && p !in t.static_ && p !in t.crud ==> kind == Echo)
      && (p in t.health && p !in t.static_ && p !in t.crud && p !in t.echo ==> kind == Health)
      && (p in t.sleep && p !in t.static_ && p !in t.crud && p !in t.echo && p !in t.health ==> kind == Sleep)
      && (p in t.app && p !in t.static_ && p !in t.crud && p !in t.echo && p !in t.health && p !in t.sleep ==>
            kind == App)
  {
    DecidingLocation(t, p, r);
  }

  /** A target that no location begins is not found. */
  lemma UnknownIsNone(t: ServerPaths, opens: string -> bool, r: string)
    requires forall q | InSomeTable(t, q) && q <= r :: q == ""
    ensures RequestType(t, opens, r) == None
  {
    assert forall q | q in AllLocations(t) :: InSomeTable(t, q);
    BestIsUnique("", AllLocations(t), r);
  }

  /** The file of a static location is looked up behind its root, by what follows the location. */
  lemma RootReplacesLocation(t: ServerPaths, p: string, rest: string)
    requires p != "" && p in t.static_
    requires forall q | (q in t.static_ || q in t.echo) && q <= p + rest :: |q| <= |p|
    ensures StaticFilePath(t, p + rest) == t.static_[p] + rest
  {
    BestIsUnique(p, t.static_.Keys + Listed(t.echo), p + rest);
    assert (p + rest)[|p|..] == rest;
  }

  /** No file is looked up for a target whose longest static or echo location is an echo location, or that has none. */
  lemma NoFileForEcho(t: ServerPaths, p: string, r: string)
    requires p <= r && (p == "" || (p in t.echo && p !in t.static_))
    requires forall q | (q in t.static_ || q in t.echo) && q <= r :: |q| <= |p|
    ensures StaticFilePath(t, r) == ""
  {
    BestIsUnique(p, t.static_.Keys + Listed(t.echo), r);
  }

  /** No static, echo or crud location that begins the target is longer. */
  ghost predicate DecidesForCrud(t: ServerPaths, p: string, r: string) {
    p <= r && forall q | (q in t.static_ || q in t.echo || q in t.crud) && q <= r :: |q| <= |p|
  }

  /**
    The address of a crud location: its data path; after one more character, which
    is dropped, the name up to the next slash; and what follows that as the id.
    */
  lemma AddressIsCut(t: ServerPaths, p: string, c: char, name: string, id: string)
    requires p != "" && p in t.crud && p !in t.static_ && p !in t.echo && '/' !in name
    ensures DecidesForCrud(t, p, p + ([c] + name)) ==>
      CrudEntityPath(t, p + ([c] + name)) == CrudPath(t.crud[p], name, "")
    ensures DecidesForCrud(t, p, p + ([c] + name + "/" + id)) ==>
      CrudEntityPath(t, p + ([c] + name + "/" + id)) == CrudPath(t.crud[p], name, id)
    ensures DecidesForCrud(t, p, p) ==> CrudEntityPath(t, p) == CrudPath(t.crud[p], "", "")
  {
    RestIsCut(c, name, id);
    RestDecides(t, p, [c] + name);
    RestDecides(t, p, [c] + name + "/" + id);
    RestDecides(t, p, "");
    assert p + "" == p;
  }

  lemma RestDecides(t: ServerPaths, p: string, rest: string)
    requires p != "" && p in t.crud && p !in t.static_ && p !in t.echo
    ensures DecidesForCrud(t, p, p + rest) ==>
      var (name, id) := SplitEntity(rest); CrudEntityPath(t, p + rest) == CrudPath(t.crud[p], name, id)
  {
    if DecidesForCrud(t, p, p + rest) {
      BestIsUnique(p, t.static_.Keys + Listed(t.echo) + t.crud.Keys, p + rest);
      assert (p + rest)[|p|..] == rest;
    }
  }

  lemma RestIsCut(c: char, name: string, id: string)
    requires '/' !in name
    ensures SplitEntity([c] + name) == (name, "") && SplitEntity([c] + name + "/" + id) == (name, id)
    ensures SplitEntity("") == ("", "")
  {
    var few, all := [c] + name, [c] + name + "/" + id;
    assert all[|few|] == '/' && all[|few| + 1..] == id && all[1..|few|] == name && few[1..] == name;
    assert forall i | 1 <= i < |few| :: few[i] == name[i - 1] && all[i] == name[i - 1];
    assert FindSlash(few, 1) == |few| && FindSlash(all, 1) == |few|;
  }

  /** There is no address at a location of another kind, nor where no location begins the target. */
  lemma NoAddressElsewhere(t: ServerPaths, p: string, r: string)
    requires DecidesForCrud(t, p, r) && (p == "" || p in t.static_ || p in t.echo)
    ensures CrudEntityPath(t, r) == CrudPath("", "", "")
  {
    BestIsUnique(p, t.static_.Keys + Listed(t.echo) + t.crud.Keys, r);
  }

  // ----- Do they agree? -----

  /** The six tables name pairwise different locations, and no list names one twice. */
  predicate DistinctLocations(t: ServerPaths) {
    && t.static_.Keys !! t.crud.Keys !! Listed(t.echo) !! Listed(t.health) !! Listed(t.sleep) !! Listed(t.app)
    && NoRepeats(t.echo) && NoRepeats(t.health) && NoRepeats(t.sleep) && NoRepeats(t.app)
  }

  predicate NoRepeats(s: seq<string>) {
    forall i, j | 0 <= i < j < |s| :: s[i] != s[j]
  }

  /**
    If a request is for a static file, the file handler selects the same location
    and the very path whose opening was tested, whatever the tables are.
    */
  lemma StaticRoutesAgree(t: ServerPaths, opens: string -> bool, r: string)
    requires RequestType(t, opens, r) == Static
    ensures StaticLocation(t, r) == Location(t, r)
    ensures StaticFilePath(t, r) == FileFor(t, Location(t, r), r) && opens(StaticFilePath(t, r))
  {
    BestOfFewer(t.static_.Keys + Listed(t.echo), AllLocations(t), r);
  }

  /**
    If a request is for the CRUD handler, it selects the same location; it takes it
    for a crud location exactly when that is not an echo location as well, since
    the two functions scan these tables in opposite order.
    */
  lemma CrudRoutesAgree(t: ServerPaths, opens: string -> bool, r: string)
    requires RequestType(t, opens, r) == CRUD
    ensures CrudLocation(t, r) == Location(t, r)
    ensures TakenForCrud(t, CrudLocation(t, r)) <==> Location(t, r) !in Listed(t.echo)
  {
    BestOfFewer(t.static_.Keys + Listed(t.echo) + t.crud.Keys, AllLocations(t), r);
  }

  /** Targets with the same segments are routed alike by all three functions. */
  lemma SameSegmentsSameRoute(t: ServerPaths, opens: string -> bool, a: string, b: string)
    requires a != "" && a[0] == '/' && b != "" && b[0] == '/' && Segments(a) == Segments(b)
    ensures RequestType(t, opens, Normalize(a)) == RequestType(t, opens, Normalize(b))
    ensures StaticFilePath(t, Normalize(a)) == StaticFilePath(t, Normalize(b))
    ensures CrudEntityPath(t, Normalize(a)) == CrudEntityPath(t, Normalize(b))
  {
    NormalizeRejoins(a);
    NormalizeRejoins(b);
  }

  // ----- Does the order of the tables matter? -----

  /** Some of the locations of one kind, as one loop scans them. */
  datatype Table = Table(kind: Kind, locations: set<string>)

  /** One table after the other, keeping the longest location so far and its kind. */
  function ScanTables(tables: seq<Table>, r: string): (string, Kind) {
    if tables == [] then ("", None)
    else
      var best, t := ScanTables(tables[..|tables| - 1], r), tables[|tables| - 1];
      if |Best(t.locations, r)| > |best.0| then (Best(t.locations, r), t.kind) else best
  }

  function AllIn(tables: seq<Table>): set<string> {
    if tables == [] then {} else AllIn(tables[..|tables| - 1]) + tables[|tables| - 1].locations
  }

  /** The kind of the first table that has the location. */
  function FirstKind(tables: seq<Table>, location: string): Kind {
    if tables == [] || location == "" then None
    else
      var front, t := tables[..|tables| - 1], tables[|tables| - 1];
      if location in AllIn(front) then FirstKind(front, location)
      else if location in t.locations then t.kind
      else None
  }

  predicate Holds(tables: seq<Table>, kind: Kind, location: string) {
    exists i | 0 <= i < |tables| :: tables[i].kind == kind && location in tables[i].locations
  }

  /** The same locations under the same kinds, in whatever order and however split into tables. */
  ghost predicate SameTables(a: seq<Table>, b: seq<Table>) {
    forall kind, p :: Holds(a, kind, p) <==> Holds(b, kind, p)
  }

  lemma LongerOfTwo(best: string, b: string, seen: set<string>, more: set<string>, r: string)
    requires IsBest(best, seen, r) && IsBest(b, more, r)
    ensures IsBest(if |b| > |best| then b else best, seen + more, r)
    ensures |b| > |best| ==> b !in seen
  {
  }

  /** Scanning selects the longest location of all tables, with the kind of the first table that has it. */
  lemma {:induction false} ScanSelects(tables: seq<Table>, r: string)
    ensures ScanTables(tables, r) == (Best(AllIn(tables), r), FirstKind(tables, Best(AllIn(tables), r)))
    decreases tables
  {
    if tables == [] {
      BestIsUnique("", {}, r);
    } else {
      var front, t := tables[..|tables| - 1], tables[|tables| - 1];
      ScanSelects(front, r);
      BestIsBest(AllIn(front), r);
      BestIsBest(t.locations, r);
      var best, b := Best(AllIn(front), r), Best(t.locations, r);
      LongerOfTwo(best, b, AllIn(front), t.locations, r);
      BestIsUnique(if |b| > |best| then b else best, AllIn(tables), r);
    }
  }

  lemma {:induction false} AllInHolds(tables: seq<Table>, p: string)
    ensures p in AllIn(tables) <==> exists kind :: Holds(tables, kind, p)
    ensures p in AllIn(tables) && p != "" ==> Holds(tables, FirstKind(tables, p), p)
    decreases tables
  {
    if tables != [] {
      var front, t := tables[..|tables| - 1], tables[|tables| - 1];
      AllInHolds(front, p);
      forall kind
        ensures Holds(tables, kind, p) <==> Holds(front, kind, p) || (t.kind == kind && p in t.locations)
      {
        assert tables == front + [t];
        HoldsSnoc(front, t, kind, p);
      }
      assert p in t.locations ==> Holds(tables, t.kind, p);
    }
  }

  lemma HoldsSnoc(front: seq<Table>, t: Table, kind: Kind, p: string)
    ensures Holds(front + [t], kind, p) <==> Holds(front, kind, p) || (t.kind == kind && p in t.locations)
  {
    var all := front + [t];
    assert all[|front|] == t && forall i | 0 <= i < |front| :: all[i] == front[i];
  }

  lemma SameTablesSameLocations(a: seq<Table>, b: seq<Table>)
    requires SameTables(a, b)
    ensures AllIn(a) == AllIn(b)
  {
    forall p
      ensures p in AllIn(a) <==> p in AllIn(b)
    {
      AllInHolds(a, p);
      AllInHolds(b, p);
    }
  }

  /** A location of one kind only is given that kind, however the tables are arranged. */
  lemma OneKindAnyOrder(a: seq<Table>, b: seq<Table>, r: string)
    requires SameTables(a, b)
    requires var l := Best(AllIn(a), r);
      l != "" ==> forall j, k | Holds(a, j, l) && Holds(a, k, l) :: j == k
    ensures ScanTables(b, r) == ScanTables(a, r)
  {
    ScanSelects(a, r);
    ScanSelects(b, r);
    SameTablesSameLocations(a, b);
    var l := Best(AllIn(a), r);
    BestIsBest(AllIn(a), r);
    AllInHolds(a, l);
    AllInHolds(b, l);
    assert FirstKind(a, "") == FirstKind(b, "") == None;
  }

  /** Putting a location of some table in front changes nothing but which kind is found first. */
  lemma InFront(a: seq<Table>, kind: Kind, l: string)
    requires Holds(a, kind, l) && l != ""
    ensures SameTables(a, [Table(kind, {l})] + a)
    ensures FirstKind([Table(kind, {l})] + a, l) == kind && l in AllIn([Table(kind, {l})] + a)
  {
    var t := Table(kind, {l});
    forall k, p
      ensures Holds([t] + a, k, p) <==> Holds(a, k, p)
    {
      HoldsCons(t, a, k, p);
    }
    FirstInFront(t, a, l);
  }

  lemma HoldsCons(t: Table, a: seq<Table>, kind: Kind, p: string)
    ensures Holds([t] + a, kind, p) <==> Holds(a, kind, p) || (t.kind == kind && p in t.locations)
  {
    var all := [t] + a;
    assert all[0] == t && forall i | 0 <= i < |a| :: all[i + 1] == a[i];
    if Holds(all, kind, p) {
      var i :| 0 <= i < |all| && all[i].kind == kind && p in all[i].locations;
      assert i > 0 ==> all[i] == a[i - 1];
    }
  }

  lemma {:induction false} FirstInFront(t: Table, a: seq<Table>, l: string)
    requires l in t.locations && l != ""
    ensures FirstKind([t] + a, l) == t.kind && l in AllIn([t] + a)
    decreases a
  {
    var all := [t] + a;
    if a == [] {
      assert all == [t] && all[..0] == [];
    } else {
      FirstInFront(t, a[..|a| - 1], l);
      assert all[..|all| - 1] == [t] + a[..|a| - 1];
    }
  }

  /**
    The outcome of the search does not depend on the order of the tables, nor on how
    the locations of a kind are split into tables, exactly when the location it
    selects is of one kind only.
    */
  lemma OrderIsFreeExactly(a: seq<Table>, r: string)
    ensures (forall b | SameTables(a, b) :: ScanTables(b, r) == ScanTables(a, r))
       <==> var l := Best(AllIn(a), r);
            l != "" ==> forall j, k | Holds(a, j, l) && Holds(a, k, l) :: j == k
  {
    var l := Best(AllIn(a), r);
    if l == "" || forall j, k | Holds(a, j, l) && Holds(a, k, l) :: j == k {
      forall b | SameTables(a, b)
        ensures ScanTables(b, r) == ScanTables(a, r)
      {
        OneKindAnyOrder(a, b, r);
      }
    } else {
      var j, k :| Holds(a, j, l) && Holds(a, k, l) && j != k;
      var b := TwoKindsTwoOutcomes(a, r, j, k);
    }
  }

  lemma TwoKindsTwoOutcomes(a: seq<Table>, r: string, j: Kind, k: Kind) returns (b: seq<Table>)
    requires var l := Best(AllIn(a), r); l != "" && Holds(a, j, l) && Holds(a, k, l) && j != k
    ensures SameTables(a, b) && ScanTables(b, r) != ScanTables(a, r)
  {
    var l := Best(AllIn(a), r);
    PutInFront(a, r, j);
    PutInFront(a, r, k);
    b := if ScanTables(a, r) == (l, j) then [Table(k, {l})] + a else [Table(j, {l})] + a;
  }

  lemma PutInFront(a: seq<Table>, r: string, kind: Kind)
    requires var l := Best(AllIn(a), r); l != "" && Holds(a, kind, l)
    ensures var b := [Table(kind, {Best(AllIn(a), r)})] + a;
      SameTables(a, b) && ScanTables(b, r) == (Best(AllIn(a), r), kind)
  {
    var l := Best(AllIn(a), r);
    InFront(a, kind, l);
    SameTablesSameLocations(a, [Table(kind, {l})] + a);
    ScanSelects([Table(kind, {l})] + a, r);
  }

  /** The tables in the order in which `getRequestType` scans them. */
  function SixTables(t: ServerPaths): seq<Table> {
    [Table(Static, t.static_.Keys), Table(CRUD, t.crud.Keys), Table(Echo, Listed(t.echo)),
     Table(Health, Listed(t.health)), Table(Sleep, Listed(t.sleep)), Table(App, Listed(t.app))]
  }

  lemma SixTablesScan(t: ServerPaths, r: string)
    ensures AllIn(SixTables(t)) == AllLocations(t)
    ensures ScanTables(SixTables(t), r) == (Location(t, r), KindOf(t, Location(t, r)))
  {
    var six := SixTables(t);
    var five, four, three, two, one := six[..5], six[..4], six[..3], six[..2], six[..1];
    assert six[..5] == five && five[..4] == four && four[..3] == three;
    assert three[..2] == two && two[..1] == one && one[..0] == [];
    assert AllIn(one) == t.static_.Keys;
    assert AllIn(two) == AllIn(one) + t.crud.Keys;
    assert AllIn(three) == AllIn(two) + Listed(t.echo);
    assert AllIn(four) == AllIn(three) + Listed(t.health);
    assert AllIn(five) == AllIn(four) + Listed(t.sleep);
    assert AllIn(six) == AllIn(five) + Listed(t.app);
    ScanSelects(six, r);
    BestIsBest(AllLocations(t), r);
    var l := Location(t, r);
    assert FirstKind(one, l) == if l != "" && l in t.static_ then Static else None;
    assert FirstKind(two, l) == if l in AllIn(one) then FirstKind(one, l)
      else if l != "" && l in t.crud then CRUD else None;
    assert FirstKind(three, l) == if l in AllIn(two) then FirstKind(two, l)
      else if l != "" && l in t.echo then Echo else None;
    assert FirstKind(four, l) == if l in AllIn(three) then FirstKind(three, l)
      else if l != "" && l in t.health then Health else None;
    assert FirstKind(five, l) == if l in AllIn(four) then FirstKind(four, l)
      else if l != "" && l in t.sleep then Sleep else None;
  }

  /**
    With distinct locations, scanning the tables in any other order, or split or
    joined in any way, selects the same location with the same kind.
    */
  lemma KindIsOrderFree(t: ServerPaths, tables: seq<Table>, r: string)
    requires DistinctLocations(t) && SameTables(SixTables(t), tables)
    ensures ScanTables(tables, r) == (Location(t, r), KindOf(t, Location(t, r)))
  {
    SixTablesScan(t, r);
    forall p, j, k | Holds(SixTables(t), j, p) && Holds(SixTables(t), k, p)
      ensures j == k
    {
      DistinctMeansOneKind(t, p, j, k);
    }
    OneKindAnyOrder(SixTables(t), tables, r);
  }

  lemma DistinctMeansOneKind(t: ServerPaths, p: string, j: Kind, k: Kind)
    requires DistinctLocations(t) && Holds(SixTables(t), j, p) && Holds(SixTables(t), k, p)
    ensures j == k
  {
  }
}
