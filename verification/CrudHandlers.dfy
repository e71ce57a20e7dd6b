/**
  The request handlers: each gives the answer the store prescribes and leaves a
  disk that represents the store after the request.
  */
module CrudHandlers {
  import opened Text
  import opened CrudPaths
  import opened CrudStore
  import opened CrudRuns
  import opened CrudFiles
  import opened CrudFileManagers
  import opened FileSystem

  class CrudHandler {
    const fileManager: CrudFileManager

    constructor (fileManager: CrudFileManager)
      ensures this.fileManager == fileManager
    {
      this.fileManager := fileManager;
    }

    /** The disk represents `s` under the data path of the request, and the mutex is free. */
    ghost predicate Serves(d: string, s: Store)
      reads this, fileManager, fileManager.disk
    {
      !fileManager.locked && Represents(fileManager.disk.nodes, d, s)
    }

    method HandlePost(path: CrudPath, body: string, ghost s: Store) returns (r: Response)
      requires Serves(path.dataPath, s) && IsName(path.entityName) && ToldApart(s.maxIds.Keys + {path.entityName})
      modifies fileManager, fileManager.disk
      ensures Serves(path.dataPath, Next(s, Request(Post, path.entityName, path.entityId, body)))
      ensures r == Answer(s, Request(Post, path.entityName, path.entityId, body))
      ensures KeptOutside(old(fileManager.disk.nodes), fileManager.disk.nodes, path.dataPath)
    {
      if path.entityId != "" {
        return BAD_REQUEST;
      }
      var newId := fileManager.GenerateEntityId(path, s);
      ghost var nodes1 := fileManager.disk.nodes;
      NextIdFits(nodes1, path.dataPath, s, path.entityName);
      PostMeans(s, path.entityName, body);
      var target := path.(entityId := Decimal(Stoull(newId).value));
      var _ := fileManager.WriteObject(target, body, s);
      KeptTwice(old(fileManager.disk.nodes), nodes1, fileManager.disk.nodes, path.dataPath);
      r := Response(201, "text/plain", "{ \"id\": \"" + newId + "\" }");
    }

    method HandleList(path: CrudPath, ghost s: Store) returns (r: Response)
      requires Serves(path.dataPath, s) && (path.entityName == "" || IsName(path.entityName))
      ensures r == if path.entityName == "" then BAD_REQUEST else Answer(s, Request(Get, path.entityName, "", ""))
    {
      if path.entityName == "" {
        return BAD_REQUEST;
      }
      var names := fileManager.ListObjects(path, s);
      IncreasingIsUnique(names, Sorted(Ids(s, path.entityName)));
      var text := ListText(names);
      r := Response(200, "application/json", text);
    }

    static method ListText(names: seq<string>) returns (text: string)
      ensures text == "[" + JoinNames(names) + "]"
    {
      text := "[";
      for i := 0 to |names|
        invariant text == "[" + JoinNames(names[..i]) + if 0 < i < |names| then ", " else ""
      {
        assert names[..i + 1][..i] == names[..i];
        text := text + names[i];
        if i < |names| - 1 {
          text := text + ", ";
        }
      }
      assert names[..|names|] == names;
      text := text + "]";
    }

    method HandleGet(path: CrudPath, body: string, ghost s: Store) returns (r: Response)
      requires Serves(path.dataPath, s) && IsName(path.entityName) && (path.entityId == "" || IsRouted(path.entityId))
      ensures var q := Request(Get, path.entityName, path.entityId, body); !Escapes(s, q) ==> r == Answer(s, q)
    {
      if path.entityId == "" {
        r := HandleList(path, s);
      } else {
        r := HandleObject(path, s);
      }
    }

    method HandleObject(path: CrudPath, ghost s: Store) returns (r: Response)
      requires Serves(path.dataPath, s) && IsName(path.entityName) && IsRouted(path.entityId)
      ensures var spot := Land(s.maxIds.Keys, AtEntity(path.entityName), path.entityId);
        !Leaves(s, Get, spot, path.entityId) ==> r == ObjectResponse(ReadAt(s, spot))
    {
      var ok, contents := fileManager.ReadObject(path, s);
      if !ok {
        return Response(404, "text/plain", "404 Not Found\r\n\r\n");
      }
      r := Response(200, "application/json", contents);
    }

    method HandlePut(path: CrudPath, body: string, ghost s: Store) returns (r: Response)
      requires Serves(path.dataPath, s)
      requires (path.entityName == "" || IsName(path.entityName)) && (path.entityId == "" || IsRouted(path.entityId))
      requires ToldApart(s.maxIds.Keys + {path.entityName})
      modifies fileManager, fileManager.disk
      ensures Serves(path.dataPath, Next(s, Request(Put, path.entityName, path.entityId, body)))
      ensures r == if path.entityName == "" then BAD_REQUEST
                   else Answer(s, Request(Put, path.entityName, path.entityId, body))
      ensures KeptOutside(old(fileManager.disk.nodes), fileManager.disk.nodes, path.dataPath)
    {
      if path.entityName == "" || path.entityId == "" {
        return BAD_REQUEST;
      }
      if Stoull(path.entityId).Number? {
        NumbersAreIds(path.entityId);
      }
      var entityExists := fileManager.ExistsObject(path, s);
      var o := fileManager.WriteObject(path, body, s);
      if o.Thrown? {
        return Threw;
      }
      if !entityExists {
        r := Response(201, "text/plain", "{ \"id\": \"" + path.entityId + "\" }");
      } else {
        r := Response(200, "text/plain", "Successful update.");
      }
    }

    method HandleDel(path: CrudPath, body: string, ghost s: Store) returns (r: Response)
      requires Serves(path.dataPath, s)
      requires (path.entityName == "" || IsName(path.entityName)) && (path.entityId == "" || IsRouted(path.entityId))
      modifies fileManager, fileManager.disk
      ensures !fileManager.locked
      ensures path.entityName == "" ==> r == BAD_REQUEST && Serves(path.dataPath, s)
      ensures var q := Request(Delete, path.entityName, path.entityId, body);
        path.entityName != "" && !Escapes(s, q) ==>
          && Serves(path.dataPath, Next(s, q)) && r == Answer(s, q)
          && KeptOutside(old(fileManager.disk.nodes), fileManager.disk.nodes, path.dataPath)
    {
      DeleteMeans(s, path.entityName, path.entityId, body);
      if path.entityName == "" || path.entityId == "" {
        return BAD_REQUEST;
      }
      var objectExisted := fileManager.DeleteObject(path, s);
      if objectExisted {
        r := Response(200, "text/plain", "Successful delete.");
      } else {
        r := Response(204, "text/plain", "");
      }
    }

    /**
      The dispatch on the method of the request, whose target routing has already
      split: unless the request escapes the store, it is answered and carried out as
      the store says.
      */
    method HandleRequest(verb: Verb, path: CrudPath, body: string, ghost s: Store) returns (r: Response)
      requires Serves(path.dataPath, s)
      requires Admits(s, Request(verb, path.entityName, path.entityId, body))
      modifies fileManager, fileManager.disk
      ensures !fileManager.locked
      ensures var q := Request(verb, path.entityName, path.entityId, body);
        !Escapes(s, q) ==>
          && Serves(path.dataPath, Next(s, q)) && r == Answer(s, q)
          && KeptOutside(old(fileManager.disk.nodes), fileManager.disk.nodes, path.dataPath)
    {
      if verb != Get && verb != Post && verb != Put && verb != Delete {
        return BAD_METHOD;
      } else if path.entityName == "" {
        return NO_NAME;
      }
      r := Dispatch(verb, path, body, s);
    }

    method Dispatch(verb: Verb, path: CrudPath, body: string, ghost s: Store) returns (r: Response)
      requires Serves(path.dataPath, s) && verb != Other && path.entityName != ""
      requires Admits(s, Request(verb, path.entityName, path.entityId, body))
      modifies fileManager, fileManager.disk
      ensures !fileManager.locked
      ensures var q := Request(verb, path.entityName, path.entityId, body);
        !Escapes(s, q) ==>
          && Serves(path.dataPath, Next(s, q)) && r == Answer(s, q)
          && KeptOutside(old(fileManager.disk.nodes), fileManager.disk.nodes, path.dataPath)
    {
      if verb == Post {
        r := HandlePost(path, body, s);
      } else if verb == Get {
        r := HandleGet(path, body, s);
      } else if verb == Put {
        r := HandlePut(path, body, s);
      } else {
        r := HandleDel(path, body, s);
      }
    }

    /**
      A whole run of requests to one data path, from an empty disk: every answer is
      the one the store gives, and the disk ends up representing the store.
      */
    method ServeAll(d: string, reqs: seq<Request>) returns (answers: seq<Response>)
      requires Serves(d, EMPTY) && Served(reqs)
      modifies fileManager, fileManager.disk
      ensures Serves(d, Run(reqs)) && answers == Answers(reqs)
    {
      answers := [];
      for k := 0 to |reqs|
        invariant Serves(d, Run(reqs[..k])) && answers == Answers(reqs[..k])
      {
        var q := reqs[k];
        RunPrefix(reqs, k);
        var r := HandleRequest(q.verb, CrudPath(d, q.name, q.id), q.body, Run(reqs[..k]));
        answers := answers + [r];
      }
      assert reqs[..|reqs|] == reqs;
    }

    /**
      Requests to several data paths, none inside another, in any order: each data
      path is served as if the requests to the others had not happened.
      */
    method ServeLocations(reqs: seq<(string, Request)>, ghost paths: set<string>) returns (answers: seq<Response>)
      requires forall d | d in paths :: Serves(d, EMPTY)
      requires AllApart(paths)
      requires AllServed(reqs, paths)
      modifies fileManager, fileManager.disk
      ensures forall d | d in paths :: Serves(d, Run(To(reqs, d)))
      ensures AnsweredApart(reqs, answers)
    {
      answers := [];
      for k := 0 to |reqs|
        invariant forall d | d in paths :: Serves(d, Run(To(reqs[..k], d)))
        invariant AnsweredApart(reqs[..k], answers)
      {
        var (d, q) := reqs[k];
        ghost var nodes0 := fileManager.disk.nodes;
        ServedNow(reqs, paths, k);
        var r := HandleRequest(q.verb, CrudPath(d, q.name, q.id), q.body, Run(To(reqs[..k], d)));
        AnsweredNext(reqs, k, answers, r);
        answers := answers + [r];
        AllStillRepresented(nodes0, fileManager.disk.nodes, reqs, k, paths);
      }
      assert reqs[..|reqs|] == reqs;
    }
  }

  lemma PostMeans(s: Store, e: string, body: string)
    requires e != "" && NextId(s, e) <= MAX_ID
    ensures var q, i := Request(Post, e, "", body), Decimal(NextId(s, e));
      && Stoull(i) == Number(NextId(s, e)) && IsRouted(i)
      && Next(s, q) == Written(s, e, i, body)
      && Answer(s, q) == Response(201, "text/plain", "{ \"id\": \"" + i + "\" }")
  {
    StoullDecimal(NextId(s, e));
    DecimalIsId(NextId(s, e));
  }

  lemma DeleteMeans(s: Store, e: string, i: string, body: string)
    ensures var q, spot := Request(Delete, e, i, body), Land(s.maxIds.Keys, AtEntity(e), i);
      && (e != "" && i == "" ==> Next(s, q) == s && Answer(s, q) == BAD_REQUEST)
      && (e != "" && i != "" ==>
            && Next(s, q) == Deleted(s, spot)
            && Answer(s, q) == (if HasObject(s, spot) then Response(200, "text/plain", "Successful delete.")
                                else Response(204, "text/plain", ""))
            && (Escapes(s, q) <==> Leaves(s, Delete, spot, i)))
  {
  }

  /** The requests that go to one data path, in order. */
  function To(reqs: seq<(string, Request)>, d: string): seq<Request> {
    if reqs == [] then []
    else
      var front, last := To(reqs[..|reqs| - 1], d), reqs[|reqs| - 1];
      if last.0 == d then front + [last.1] else front
  }

  predicate AllApart(paths: set<string>) {
    forall d, f | d in paths && f in paths && d != f :: Apart(d, f)
  }

  /** Each request goes to one of the data paths, and the store there determines its outcome. */
  predicate AllServed(reqs: seq<(string, Request)>, paths: set<string>) {
    forall k | 0 <= k < |reqs| :: reqs[k].0 in paths && ServedAt(Run(To(reqs[..k], reqs[k].0)), reqs[k].1)
  }

  /** The answer of the store of its own data path, after the requests that went there before. */
  ghost function AnswerAt(reqs: seq<(string, Request)>, k: nat): Response
    requires k < |reqs|
  {
    Answer(Run(To(reqs[..k], reqs[k].0)), reqs[k].1)
  }

  lemma ServedNow(reqs: seq<(string, Request)>, paths: set<string>, k: nat)
    requires AllServed(reqs, paths) && k < |reqs|
    ensures reqs[k].0 in paths && ServedAt(Run(To(reqs[..k], reqs[k].0)), reqs[k].1)
  {
  }

  ghost predicate AnsweredApart(reqs: seq<(string, Request)>, answers: seq<Response>) {
    && |answers| == |reqs|
    && forall k | 0 <= k < |reqs| :: answers[k] == AnswerAt(reqs, k)
  }

  lemma AnswerAtPrefix(reqs: seq<(string, Request)>, n: nat, k: nat)
    requires k < n <= |reqs|
    ensures AnswerAt(reqs[..n], k) == AnswerAt(reqs, k)
  {
    assert reqs[..n][..k] == reqs[..k];
  }

  lemma AnsweredNext(reqs: seq<(string, Request)>, n: nat, answers: seq<Response>, r: Response)
    requires n < |reqs| && AnsweredApart(reqs[..n], answers)
    requires r == AnswerAt(reqs, n)
    ensures AnsweredApart(reqs[..n + 1], answers + [r])
  {
    forall k | 0 <= k <= n
      ensures (answers + [r])[k] == AnswerAt(reqs[..n + 1], k)
    {
      AnswerAtPrefix(reqs, n + 1, k);
      if k < n {
        AnswerAtPrefix(reqs, n, k);
      }
    }
  }

  lemma ToPrefix(reqs: seq<(string, Request)>, k: nat, d: string)
    requires k < |reqs|
    ensures Run(To(reqs[..k + 1], d))
         == if reqs[k].0 == d then Next(Run(To(reqs[..k], d)), reqs[k].1) else Run(To(reqs[..k], d))
  {
    assert reqs[..k + 1][..k] == reqs[..k];
    var front := To(reqs[..k], d);
    assert (front + [reqs[k].1])[..|front|] == front;
  }

  lemma AllStillRepresented(nodes: map<string, Node>, nodes': map<string, Node>, reqs: seq<(string, Request)>,
                            k: nat, paths: set<string>)
    requires k < |reqs| && reqs[k].0 in paths
    requires AllApart(paths)
    requires forall f | f in paths :: Represents(nodes, f, Run(To(reqs[..k], f)))
    requires Represents(nodes', reqs[k].0, Next(Run(To(reqs[..k], reqs[k].0)), reqs[k].1))
    requires KeptOutside(nodes, nodes', reqs[k].0)
    ensures forall f | f in paths :: Represents(nodes', f, Run(To(reqs[..k + 1], f)))
  {
    var d := reqs[k].0;
    forall f | f in paths
      ensures Represents(nodes', f, Run(To(reqs[..k + 1], f)))
    {
      ToPrefix(reqs, k, f);
      if f != d {
        OtherDataPathKept(nodes, nodes', d, Next(Run(To(reqs[..k], d)), reqs[k].1), f, Run(To(reqs[..k], f)));
      }
    }
  }

  lemma RunPrefix(reqs: seq<Request>, k: nat)
    requires k < |reqs|
    ensures Run(reqs[..k + 1]) == Next(Run(reqs[..k]), reqs[k])
    ensures Answers(reqs[..k + 1]) == Answers(reqs[..k]) + [Answer(Run(reqs[..k]), reqs[k])]
  {
    assert reqs[..k + 1][..k] == reqs[..k];
  }
}
