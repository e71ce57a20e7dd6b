/**
  The answers of the CRUD service word for word, and what a client reads out of them.
  */
module CrudReplies {
  import opened CrudPaths
  import opened CrudRuns
  import opened CrudStore
  import opened Regroup
  import opened Text

  // ----- The listing is read back -----

  /** The pieces between the separators, when `piece` has just been read. */
  function Pieces(piece: string, s: string): (pieces: seq<string>)
    ensures pieces != []
    decreases |s|
  {
    if s == "" then [piece]
    else if ", " <= s then [piece] + Pieces("", s[2..])
    else Pieces(piece + [s[0]], s[1..])
  }

  /** A client's reading of a listing: brackets around names that are separated by a comma and a space. */
  function ReadList(text: string): Option<seq<string>> {
    if |text| < 2 || text[0] != '[' || text[|text| - 1] != ']' then Option.None
    else if text == "[]" then Some([])
    else Some(Pieces("", text[1..|text| - 1]))
  }

  predicate HasSeparator(name: string) {
    exists k | 0 <= k < |name| - 1 :: name[k] == ',' && name[k + 1] == ' '
  }

  lemma {:induction false} OnePiece(piece: string, name: string)
    ensures !HasSeparator(name) ==> Pieces(piece, name) == [piece + name]
    ensures HasSeparator(name) ==> |Pieces(piece, name)| > 1
    decreases |name|
  {
    if name == "" {
      assert piece + name == piece;
    } else if ", " <= name {
      assert name[0] == ',' && name[1] == ' ';
    } else {
      OnePiece(piece + [name[0]], name[1..]);
      assert piece + [name[0]] + name[1..] == piece + name;
      SeparatorOfTail(name);
    }
  }

  lemma SeparatorInFront(name: string)
    ensures ", " <= name <==> |name| >= 2 && name[0] == ',' && name[1] == ' '
  {
    assert |name| >= 2 ==> name[..2] == [name[0], name[1]];
  }

  lemma SeparatorOfTail(name: string)
    requires name != "" && !(", " <= name)
    ensures HasSeparator(name) <==> HasSeparator(name[1..])
  {
    var tail := name[1..];
    SeparatorInFront(name);
    if HasSeparator(name) {
      var k :| 0 <= k < |name| - 1 && name[k] == ',' && name[k + 1] == ' ';
      assert tail[k - 1] == ',' && tail[k - 1 + 1] == ' ';
    }
    if HasSeparator(tail) {
      var k :| 0 <= k < |tail| - 1 && tail[k] == ',' && tail[k + 1] == ' ';
      assert name[k + 1] == ',' && name[k + 1 + 1] == ' ';
    }
  }

  lemma {:induction false} PiecesConcat(piece: string, a: string, b: string)
    ensures Pieces(piece, a + (", " + b)) == Pieces(piece, a) + Pieces("", b)
    decreases |a|
  {
    var all := a + (", " + b);
    if a == "" {
      assert all == ", " + b && all[2..] == b;
    } else if ", " <= a {
      assert all[..2] == a[..2] && all[2..] == a[2..] + (", " + b);
      PiecesConcat("", a[2..], b);
      Right3([piece], Pieces("", a[2..]), Pieces("", b));
    } else {
      assert all[0] == a[0] && all[1..] == a[1..] + (", " + b);
      assert |a| == 1 ==> all[1] == ',';
      assert |a| > 1 ==> all[..2] == a[..2];
      PiecesConcat(piece + [a[0]], a[1..], b);
    }
  }

  lemma {:induction false} PiecesOfNames(names: seq<string>)
    requires names != []
    ensures |Pieces("", JoinNames(names))| >= |names|
    ensures Pieces("", JoinNames(names)) == names <==> forall n | n in names :: !HasSeparator(n)
    ensures (exists n | n in names :: HasSeparator(n)) ==> |Pieces("", JoinNames(names))| > |names|
    decreases |names|
  {
    var front, last := names[..|names| - 1], names[|names| - 1];
    assert names == front + [last];
    OnePiece("", last);
    assert "" + last == last;
    if front != [] {
      PiecesOfNames(front);
      Right3(JoinNames(front), ", ", last);
      PiecesConcat("", JoinNames(front), last);
    }
  }

  /** A listing gives its names back exactly if no name holds the separator, unless its only name is empty. */
  lemma ListIsReadBack(names: seq<string>)
    requires names != [""]
    ensures ReadList(ListBody(names)) == Some(names) <==> forall n | n in names :: !HasSeparator(n)
    ensures ListBody([]) == "[]"
  {
    var text := ListBody(names);
    if names != [] {
      PiecesOfNames(names);
      NamesAreWritten(names);
      assert text[1..|text| - 1] == JoinNames(names);
      assert |text| > 2;
    }
  }

  lemma NamesAreWritten(names: seq<string>)
    requires names != [] && names != [""]
    ensures JoinNames(names) != ""
  {
    if |names| == 1 {
      assert names == [names[0]];
    }
  }

  /** What a client reads out of the listing of an entity: exactly the ids that hold a body. */
  lemma ListingIsRead(reqs: seq<Request>, e: string, body: string)
    requires e != "" && forall i | i in Ids(Run(reqs), e) :: !HasSeparator(i)
    ensures var a := Answer(Run(reqs), Request(Get, e, "", body));
      && a.Response? && a.status == 200 && a.contentType == "application/json"
      && ReadList(a.body).Some?
      && Increasing(ReadList(a.body).value)
      && forall i | i != "" :: i in ReadList(a.body).value <==> LastBody(reqs, e, i).Some?
  {
    var names := Sorted(Ids(Run(reqs), e));
    assert forall n | n in names :: n in Elements(names);
    ObjectIdsHaveNoSlash(reqs);
    assert "" !in names;
    ListIsReadBack(names);
    forall i | i != ""
      ensures i in names <==> LastBody(reqs, e, i).Some?
    {
      ListingFollowsHistory(reqs, e, names, i);
    }
  }

  /** The first difference of two texts, where the first one has the smaller character. */
  predicate IsSmallerAt(a: string, b: string, k: nat) {
    k < |a| && k < |b| && a[..k] == b[..k] && a[k] < b[k]
  }

  predicate IsProperPrefix(a: string, b: string) {
    |a| < |b| && b[..|a|] == a
  }

  /** Lexicographic order: at the first difference the smaller character, or the end, comes first. */
  lemma {:induction false} LessMeans(a: string, b: string)
    ensures Less(a, b) <==> IsProperPrefix(a, b) || exists k: nat :: IsSmallerAt(a, b, k)
    decreases a
  {
    if a == "" || b == "" {
      assert b[..0] == "";
    } else if a[0] == b[0] {
      LessMeans(a[1..], b[1..]);
      TailsDiffer(a, b);
    } else {
      HeadsDiffer(a, b);
    }
  }

  lemma HeadsDiffer(a: string, b: string)
    requires a != "" && b != "" && a[0] != b[0]
    ensures !IsProperPrefix(a, b)
    ensures (exists k: nat :: IsSmallerAt(a, b, k)) <==> a[0] < b[0]
  {
    assert |a| < |b| ==> b[..|a|][0] == b[0];
    forall k: nat | 0 < k < |a| && k < |b|
      ensures a[..k] != b[..k]
    {
      assert a[..k][0] == a[0] && b[..k][0] == b[0];
    }
    assert IsSmallerAt(a, b, 0) <==> a[0] < b[0];
  }

  lemma TailsDiffer(a: string, b: string)
    requires a != "" && b != "" && a[0] == b[0]
    ensures IsProperPrefix(a, b) <==> IsProperPrefix(a[1..], b[1..])
    ensures (exists k: nat :: IsSmallerAt(a, b, k)) <==> exists k: nat :: IsSmallerAt(a[1..], b[1..], k)
  {
    if |a| < |b| {
      SameTails(a, b[..|a|]);
      assert b[..|a|][1..] == b[1..][..|a| - 1];
    }
    if k: nat :| IsSmallerAt(a, b, k) {
      SmallerInTail(a, b, k - 1);
    }
    if k: nat :| IsSmallerAt(a[1..], b[1..], k) {
      SmallerInTail(a, b, k);
    }
  }

  lemma SameTails(a: string, b: string)
    requires a != "" && b != "" && a[0] == b[0]
    ensures a == b <==> a[1..] == b[1..]
  {
    assert a == [a[0]] + a[1..] && b == [b[0]] + b[1..];
  }

  lemma SmallerInTail(a: string, b: string, k: nat)
    requires a != "" && b != "" && a[0] == b[0]
    ensures IsSmallerAt(a, b, k + 1) <==> IsSmallerAt(a[1..], b[1..], k)
  {
    if k + 1 < |a| && k + 1 < |b| {
      SameTails(a[..k + 1], b[..k + 1]);
      assert a[..k + 1][1..] == a[1..][..k] && b[..k + 1][1..] == b[1..][..k];
    }
  }

  // ----- The ids that POSTs are given -----

  /** The store after POSTs of the bodies, one after the other. */
  function Posted(s: Store, e: string, bodies: seq<string>): Store {
    if bodies == [] then s
    else Next(Posted(s, e, bodies[..|bodies| - 1]), Request(Post, e, "", bodies[|bodies| - 1]))
  }

  /** POSTs to a new entity count up from 1. */
  lemma {:induction false} PostsCountUp(s: Store, e: string, bodies: seq<string>, body: string)
    requires e != "" && e !in s.maxIds && |bodies| < 0xFFFF_FFFF_FFFF_FFFF
    ensures var t := Posted(s, e, bodies);
      && (bodies != [] ==> e in t.maxIds && t.maxIds[e] == |bodies|) && (bodies == [] ==> t == s)
      && Answer(t, Request(Post, e, "", body))
         == Response(201, "text/plain", "{ \"id\": \"" + Decimal(|bodies| + 1) + "\" }")
    decreases |bodies|
  {
    if bodies != [] {
      var front := bodies[..|bodies| - 1];
      PostsCountUp(s, e, front, bodies[|bodies| - 1]);
      var t := Posted(s, e, front);
      assert NextId(t, e) == |bodies|;
      StoullDecimal(|bodies|);
      DecimalIsId(|bodies|);
      assert Recorded(t, e) <= |bodies|;
      WriteRecords(t, Request(Post, e, "", bodies[|bodies| - 1]));
    }
  }

  /** A POST to a known entity is given the number after its record; after 2^64-1 that is 0. */
  lemma PostContinues(s: Store, e: string, body: string)
    requires e != "" && e in s.maxIds && s.maxIds[e] <= 0xFFFF_FFFF_FFFF_FFFF
    ensures Answer(s, Request(Post, e, "", body)) == Response(201, "text/plain", "{ \"id\": \"" +
      Decimal(if s.maxIds[e] == 0xFFFF_FFFF_FFFF_FFFF then 0 else s.maxIds[e] + 1) + "\" }")
  {
  }

  /** What a POST has stored is read back at the id it answers. */
  lemma PostIsReadBack(reqs: seq<Request>, r: Request, body: string)
    requires r.verb == Post && r.name != "" && r.id == ""
    ensures var i := Decimal(NextId(Run(reqs), r.name));
      && Answer(Run(reqs), r) == Response(201, "text/plain", "{ \"id\": \"" + i + "\" }")
      && Answer(Run(reqs + [r]), Request(Get, r.name, i, body)) == Response(200, "application/json", r.body)
  {
    RunsKeepInvariants(reqs);
    UsedSnoc(reqs, r, r.name);
    var s := Run(reqs);
    StoullDecimal(NextId(s, r.name));
    DecimalIsId(NextId(s, r.name));
    StoredIsServed(Next(s, r), r.name, Decimal(NextId(s, r.name)), body);
  }

  lemma StoredIsServed(s: Store, e: string, i: string, body: string)
    requires e != "" && SlashFree(i) && IsId(i) && e in s.maxIds && (e, i) in s.objects
    ensures Answer(s, Request(Get, e, i, body)) == Response(200, "application/json", s.objects[(e, i)])
  {
    PlainLanding(s.maxIds.Keys, e, i);
  }

  /** What a DELETE has removed is not found. */
  lemma DeletedIsNotFound(reqs: seq<Request>, r: Request, body: string)
    requires r.verb == Delete && r.name != "" && IsId(r.id)
    ensures Answer(Run(reqs + [r]), Request(Get, r.name, r.id, body))
         == Response(404, "text/plain", "404 Not Found\r\n\r\n")
  {
    UsedSnoc(reqs, r, r.name);
    PlainLanding(Run(reqs).maxIds.Keys, r.name, r.id);
    PlainLanding(Run(reqs + [r]).maxIds.Keys, r.name, r.id);
  }

  /**
    A PUT to an id that is no number raises an error, but the entity is recorded
    before: if it was new, its first POST is given 2.
    */
  lemma RefusedIdIsRecorded(s: Store, r: Request, body: string)
    requires r.verb == Put && r.name != "" && r.id != "" && !Stoull(r.id).Number?
    ensures Answer(s, r) == Threw && Next(s, r).objects == s.objects
    ensures r.name in s.maxIds ==> Next(s, r) == s
    ensures r.name !in s.maxIds ==>
      && Next(s, r).maxIds == s.maxIds[r.name := 1]
      && Answer(Next(s, r), Request(Post, r.name, "", body)) == Response(201, "text/plain", "{ \"id\": \"2\" }")
  {
    assert Decimal(2) == "2";
  }

  /** A GET that dots lead to a directory is answered with an empty text; one that leads nowhere, with 404. */
  lemma DirectoriesAreEmpty(s: Store, r: Request)
    requires r.verb == Get && r.name != "" && r.id != ""
    ensures SpotOf(s, r) == AtData ==> Answer(s, r) == Response(200, "application/json", "")
    ensures SpotOf(s, r).AtEntity? && SpotOf(s, r).name in s.maxIds ==>
      Answer(s, r) == Response(200, "application/json", "")
    ensures SpotOf(s, r).AtEntity? && SpotOf(s, r).name !in s.maxIds ==>
      Answer(s, r) == Response(404, "text/plain", "404 Not Found\r\n\r\n")
    ensures SpotOf(s, r) == Nowhere ==> Answer(s, r) == Response(404, "text/plain", "404 Not Found\r\n\r\n")
  {
  }

  /** Requests that lack a name or an id, or have another method, are refused and change nothing. */
  lemma RefusedRequests(s: Store, r: Request)
    ensures r.verb == Other ==> Answer(s, r) == Response(400, "text/plain",
      "400 Bad Request\r\nRequest method must be one of POST/GET/PUT/DELETE \r\n\r\n")
    ensures r.verb != Other && r.name == "" ==> Answer(s, r) == Response(400, "text/plain",
      "400 Bad Request\r\nRequest must contain Entity name \r\n\r\n")
    ensures (r.verb == Put || r.verb == Delete) && r.name != "" && r.id == "" ==>
      Answer(s, r) == Response(400, "text/plain", "400 Bad Request \r\n\r\n")
    ensures r.verb == Post && r.name != "" && r.id != "" ==>
      Answer(s, r) == Response(400, "text/plain", "400 Bad Request \r\n\r\n")
    ensures Answer(s, r).Response? && Answer(s, r).status == 400 ==> Next(s, r) == s
  {
  }
}
