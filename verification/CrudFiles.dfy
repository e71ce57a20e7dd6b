/**
  How files and directories represent a store, and which changes to the disk keep
  or update the representation.
  */
module CrudFiles {
  import opened CrudPaths
  import opened Text
  import opened CrudStore
  import opened EntityIds
  import opened FileSystem
  import opened Regroup

  const TEMP_FILE := "temp"

  function EntityPath(d: string, e: string): string {
    d + "/" + e
  }

  function ObjectPath(d: string, e: string, i: string): string {
    d + "/" + e + "/" + i
  }

  function MaxIdsPath(d: string): string {
    d + "/maxEntityIds"
  }

  /** A data path that does not keep the temporary file from being written. */
  predicate IsBase(d: string) {
    d != "" && TEMP_FILE !in Ancestors(d)
  }

  /**
    Once the data directory is there, the temporary file can be written exactly if
    it is not itself the data directory or one of its ancestors.
    */
  lemma TempIsWritableExactlyForBases(nodes: map<string, Node>, d: string)
    requires d != "" && !IsDirectory(nodes, "temp")
    requires forall a | a in Ancestors(d) :: !IsFile(nodes, a)
    ensures CanWrite(WithDirectories(nodes, d), "temp") <==> IsBase(d)
  {
    Parents(d, "x", "x");
  }

  // ----- Paths do not collide -----

  predicate Inside(d: string, p: string) {
    |p| > |d| && p[..|d|] == d && p[|d|] == '/'
  }

  lemma PathsInside(d: string, e: string, i: string)
    ensures Inside(d, EntityPath(d, e)) && EntityPath(d, e)[|d| + 1..] == e
    ensures Inside(d, ObjectPath(d, e, i)) && ObjectPath(d, e, i)[|d| + 1..] == e + "/" + i
    ensures Inside(d, MaxIdsPath(d)) && MaxIdsPath(d)[|d| + 1..] == "maxEntityIds"
  {
    assert "/maxEntityIds"[1..] == "maxEntityIds";
    assert MaxIdsPath(d)[|d| + 1..] == "/maxEntityIds"[1..];
  }

  lemma SplitIsUnique(e: string, i: string, e': string, i': string)
    requires SlashFree(e) && SlashFree(e')
    requires e + "/" + i == e' + "/" + i'
    ensures e == e' && i == i'
  {
    var p := e + "/" + i;
    assert p[|e|] == '/' && p[|e'|] == '/';
    assert forall k | 0 <= k < |e| :: p[k] == e[k];
    assert forall k | 0 <= k < |e'| :: p[k] == e'[k];
    assert |e| == |e'|;
    assert p[..|e|] == e && p[..|e'|] == e';
    assert p[|e| + 1..] == i && p[|e'| + 1..] == i';
  }

  lemma ObjectPathsDiffer(d: string, e: string, i: string, e': string, i': string)
    requires SlashFree(e) && SlashFree(e')
    requires ObjectPath(d, e, i) == ObjectPath(d, e', i')
    ensures e == e' && i == i'
  {
    PathsInside(d, e, i);
    PathsInside(d, e', i');
    SplitIsUnique(e, i, e', i');
  }

  lemma ObjectPathIsNew(d: string, e: string, i: string, f: string)
    requires SlashFree(f)
    ensures ObjectPath(d, e, i) != EntityPath(d, f)
    ensures ObjectPath(d, e, i) != MaxIdsPath(d)
  {
    PathsInside(d, e, i);
    PathsInside(d, f, i);
    assert (e + "/" + i)[|e|] == '/';
  }

  lemma EntityPathsDiffer(d: string, e: string, f: string)
    requires IsName(e) && IsName(f)
    ensures EntityPath(d, e) == EntityPath(d, f) ==> e == f
    ensures EntityPath(d, e) != MaxIdsPath(d)
  {
    PathsInside(d, e, "");
    PathsInside(d, f, "");
  }

  lemma InsideIsNotAncestor(d: string, p: string)
    requires Inside(d, p)
    ensures p !in Ancestors(d)
    ensures p != TEMP_FILE
  {
    assert p[|d|] == '/';
  }

  lemma LastSlashAt(p: string, k: nat)
    requires k < |p| && p[k] == '/' && '/' !in p[k + 1..]
    ensures LastSlash(p) == k
  {
    assert forall i | k < i < |p| :: p[i] == p[k + 1..][i - k - 1];
  }

  lemma Parents(d: string, e: string, i: string)
    requires d != "" && SlashFree(e) && SlashFree(i)
    ensures Parent(EntityPath(d, e)) == d && Parent(MaxIdsPath(d)) == d
    ensures Parent(ObjectPath(d, e, i)) == EntityPath(d, e)
    ensures Parent(TEMP_FILE) == ""
  {
    PathsInside(d, e, i);
    LastSlashAt(EntityPath(d, e), |d|);
    LastSlashAt(MaxIdsPath(d), |d|);
    var p := ObjectPath(d, e, i);
    assert p[|EntityPath(d, e)|] == '/' && p[|EntityPath(d, e)| + 1..] == i;
    LastSlashAt(p, |EntityPath(d, e)|);
    assert p[..|EntityPath(d, e)|] == EntityPath(d, e);
    if LastSlash(TEMP_FILE) >= 0 {
      assert TEMP_FILE[LastSlash(TEMP_FILE)] == '/';
    }
  }

  lemma EntityAncestors(d: string, e: string)
    requires SlashFree(e) && d != ""
    ensures Ancestors(EntityPath(d, e)) == Ancestors(d) + {EntityPath(d, e)}
  {
    var p := EntityPath(d, e);
    assert forall k | |d| < k < |p| :: p[k] == e[k - |d| - 1];
    forall a
      ensures a in Ancestors(p) <==> a in Ancestors(d) + {p}
    {
      if a in Ancestors(p) {
        var k :| 0 < k <= |p| && (k == |p| || p[k] == '/') && a == p[..k];
        if k < |p| {
          assert a == d[..k];
        }
      }
      if a in Ancestors(d) {
        var k :| 0 < k <= |d| && (k == |d| || d[k] == '/') && a == d[..k];
        assert a == p[..k] && p[k] == '/';
      }
      assert p == p[..|p|];
    }
  }

  // ----- The representation -----

  ghost predicate ObjectFits(nodes: map<string, Node>, d: string, e: string, i: string,
                             objects: map<(string, string), string>)
  {
    && (ObjectPath(d, e, i) in nodes <==> (e, i) in objects)
    && ((e, i) in objects ==> nodes[ObjectPath(d, e, i)] == File(objects[(e, i)]))
  }

  ghost predicate ObjectsFit(nodes: map<string, Node>, d: string, objects: map<(string, string), string>) {
    forall e, i | IsName(e) && i != "" :: ObjectFits(nodes, d, e, i, objects)
  }

  ghost predicate EntityFits(nodes: map<string, Node>, d: string, e: string, dirs: set<string>) {
    && (EntityPath(d, e) in nodes <==> e in dirs)
    && (e in dirs ==> nodes[EntityPath(d, e)] == Directory)
  }

  ghost predicate EntitiesFit(nodes: map<string, Node>, d: string, dirs: set<string>) {
    forall e | IsName(e) :: EntityFits(nodes, d, e, dirs)
  }

  function IdText(nodes: map<string, Node>, d: string): string {
    if IsFile(nodes, MaxIdsPath(d)) then nodes[MaxIdsPath(d)].content else ""
  }

  ghost predicate IdsFit(nodes: map<string, Node>, d: string, ids: map<string, nat>) {
    && !IsDirectory(nodes, MaxIdsPath(d))
    && Denote(Words(IdText(nodes, d)), ids)
  }

  ghost predicate BaseFits(nodes: map<string, Node>, d: string, dirs: set<string>) {
    && IsBase(d)
    && (forall a | a in Ancestors(d) :: !IsFile(nodes, a))
    && !IsDirectory(nodes, TEMP_FILE)
    && (d !in nodes ==> dirs == {} && MaxIdsPath(d) !in nodes)
  }

  predicate KeysFit(objects: map<(string, string), string>, dirs: set<string>) {
    && (forall k | k in objects :: SlashFree(k.1) && k.0 in dirs)
    && (forall e | e in dirs :: IsName(e))
  }

  /** Objects are files, entities are directories, and the id file has a word for each of `ids`. */
  ghost predicate Fits(nodes: map<string, Node>, d: string, objects: map<(string, string), string>,
                       dirs: set<string>, ids: map<string, nat>) {
    && BaseFits(nodes, d, dirs)
    && ObjectsFit(nodes, d, objects)
    && EntitiesFit(nodes, d, dirs)
    && IdsFit(nodes, d, ids)
    && KeysFit(objects, dirs)
  }

  /** Between requests, an entity has a directory exactly when it has a word in the id file. */
  ghost predicate Represents(nodes: map<string, Node>, d: string, s: Store) {
    Fits(nodes, d, s.objects, s.maxIds.Keys, s.maxIds)
  }

  lemma EmptyDiskRepresentsEmpty(d: string)
    requires IsBase(d)
    ensures Represents(map[], d, EMPTY)
  {
  }

  // ----- Changes -----

  /** The two disks hold the same under `d`, except at `changed`. */
  ghost predicate SameInside(nodes: map<string, Node>, nodes': map<string, Node>, d: string, changed: string) {
    forall p | Inside(d, p) && p != changed :: Same(nodes, nodes', p)
  }

  /** Nothing is changed away from `d`, its ancestors and the temporary file. */
  ghost predicate KeptOutside(nodes: map<string, Node>, nodes': map<string, Node>, d: string) {
    forall p | !Inside(d, p) && p !in Ancestors(d) && p != TEMP_FILE :: Same(nodes, nodes', p)
  }

  lemma KeptTwice(nodes: map<string, Node>, nodes1: map<string, Node>, nodes2: map<string, Node>, d: string)
    requires KeptOutside(nodes, nodes1, d) && KeptOutside(nodes1, nodes2, d)
    ensures KeptOutside(nodes, nodes2, d)
  {
    forall p | !Inside(d, p) && p !in Ancestors(d) && p != TEMP_FILE
      ensures Same(nodes, nodes2, p)
    {
      assert Same(nodes, nodes1, p) && Same(nodes1, nodes2, p);
    }
  }

  predicate Same(nodes: map<string, Node>, nodes': map<string, Node>, p: string) {
    (p in nodes <==> p in nodes') && (p in nodes ==> nodes[p] == nodes'[p])
  }

  lemma KeepObjects(nodes: map<string, Node>, nodes': map<string, Node>, d: string, changed: string,
                    objects: map<(string, string), string>)
    requires ObjectsFit(nodes, d, objects) && SameInside(nodes, nodes', d, changed)
    requires changed == MaxIdsPath(d) || exists f :: SlashFree(f) && changed == EntityPath(d, f)
    ensures ObjectsFit(nodes', d, objects)
  {
    forall e, i | IsName(e) && i != ""
      ensures ObjectFits(nodes', d, e, i, objects)
    {
      assert ObjectFits(nodes, d, e, i, objects);
      PathsInside(d, e, i);
      if changed != MaxIdsPath(d) {
        var f :| SlashFree(f) && changed == EntityPath(d, f);
        ObjectPathIsNew(d, e, i, f);
      } else {
        ObjectPathIsNew(d, e, i, e);
      }
      assert Same(nodes, nodes', ObjectPath(d, e, i));
    }
  }

  lemma KeepEntities(nodes: map<string, Node>, nodes': map<string, Node>, d: string, changed: string, dirs: set<string>)
    requires EntitiesFit(nodes, d, dirs) && SameInside(nodes, nodes', d, changed)
    requires changed == MaxIdsPath(d) || exists e, i :: changed == ObjectPath(d, e, i)
    ensures EntitiesFit(nodes', d, dirs)
  {
    forall f | IsName(f)
      ensures EntityFits(nodes', d, f, dirs)
    {
      assert EntityFits(nodes, d, f, dirs);
      PathsInside(d, f, "");
      if changed != MaxIdsPath(d) {
        var e, i :| changed == ObjectPath(d, e, i);
        ObjectPathIsNew(d, e, i, f);
      } else {
        EntityPathsDiffer(d, f, f);
      }
      assert Same(nodes, nodes', EntityPath(d, f));
    }
  }

  /** A new text of the id file changes only what the text denotes. */
  lemma NewIdText(nodes: map<string, Node>, nodes': map<string, Node>, d: string,
                  objects: map<(string, string), string>, dirs: set<string>,
                  ids: map<string, nat>, ids': map<string, nat>)
    requires Fits(nodes, d, objects, dirs, ids)
    requires SameInside(nodes, nodes', d, MaxIdsPath(d))
    requires BaseFits(nodes', d, dirs) && IdsFit(nodes', d, ids')
    ensures Fits(nodes', d, objects, dirs, ids')
  {
    KeepObjects(nodes, nodes', d, MaxIdsPath(d), objects);
    KeepEntities(nodes, nodes', d, MaxIdsPath(d), dirs);
  }

  /** The data directory and an empty id file can be made without any effect. */
  lemma DataDirectoryMade(nodes: map<string, Node>, d: string, objects: map<(string, string), string>,
                          dirs: set<string>, ids: map<string, nat>)
    requires Fits(nodes, d, objects, dirs, ids)
    ensures Fits(WithDirectories(nodes, d), d, objects, dirs, ids)
    ensures IsDirectory(WithDirectories(nodes, d), d)
    ensures KeptOutside(nodes, WithDirectories(nodes, d), d)
  {
    var nodes' := WithDirectories(nodes, d);
    assert d == d[..|d|] && d in Ancestors(d);
    forall p | Inside(d, p)
      ensures Same(nodes, nodes', p)
    {
      InsideIsNotAncestor(d, p);
    }
    PathsInside(d, "", "");
    assert Same(nodes, nodes', MaxIdsPath(d));
    NewIdText(nodes, nodes', d, objects, dirs, ids, ids);
  }

  lemma IdFileWritten(nodes: map<string, Node>, d: string, objects: map<(string, string), string>,
                      dirs: set<string>, ids: map<string, nat>, text: string, ids': map<string, nat>)
    requires Fits(nodes, d, objects, dirs, ids) && IsDirectory(nodes, d)
    requires Denote(Words(text), ids')
    ensures CanWrite(nodes, MaxIdsPath(d))
    ensures Fits(nodes[MaxIdsPath(d) := File(text)], d, objects, dirs, ids')
    ensures KeptOutside(nodes, nodes[MaxIdsPath(d) := File(text)], d)
  {
    IdFileAlone(nodes, d, dirs, text);
    NewIdText(nodes, nodes[MaxIdsPath(d) := File(text)], d, objects, dirs, ids, ids');
  }

  lemma IdFileAlone(nodes: map<string, Node>, d: string, dirs: set<string>, text: string)
    requires BaseFits(nodes, d, dirs) && IsDirectory(nodes, d) && !IsDirectory(nodes, MaxIdsPath(d))
    ensures CanWrite(nodes, MaxIdsPath(d))
    ensures var nodes' := nodes[MaxIdsPath(d) := File(text)];
      && BaseFits(nodes', d, dirs) && SameInside(nodes, nodes', d, MaxIdsPath(d)) && KeptOutside(nodes, nodes', d)
      && IsFile(nodes', MaxIdsPath(d)) && IdText(nodes', d) == text
  {
    PathsInside(d, "", "");
    Parents(d, "x", "x");
    InsideIsNotAncestor(d, MaxIdsPath(d));
  }

  /** The temporary file comes and goes without effect. */
  lemma TempWritten(nodes: map<string, Node>, d: string, objects: map<(string, string), string>,
                    dirs: set<string>, ids: map<string, nat>, text: string)
    requires Fits(nodes, d, objects, dirs, ids)
    ensures CanWrite(nodes, TEMP_FILE)
    ensures Fits(nodes[TEMP_FILE := File(text)], d, objects, dirs, ids)
    ensures Fits(nodes - {TEMP_FILE}, d, objects, dirs, ids)
  {
    TempCanBeWritten(nodes);
    OnlyTempChanges(nodes, text);
    TempChanged(nodes, nodes[TEMP_FILE := File(text)], d, objects, dirs, ids);
    TempChanged(nodes, nodes - {TEMP_FILE}, d, objects, dirs, ids);
  }

  lemma TempCanBeWritten(nodes: map<string, Node>)
    requires !IsDirectory(nodes, TEMP_FILE)
    ensures CanWrite(nodes, TEMP_FILE)
  {
    Parents("x", "x", "x");
  }

  lemma OnlyTempChanges(nodes: map<string, Node>, text: string)
    ensures AllButTempSame(nodes, nodes[TEMP_FILE := File(text)])
    ensures AllButTempSame(nodes, nodes - {TEMP_FILE})
  {
  }

  ghost predicate AllButTempSame(nodes: map<string, Node>, nodes': map<string, Node>) {
    forall p | p != TEMP_FILE :: Same(nodes, nodes', p)
  }

  lemma TempChanged(nodes: map<string, Node>, nodes': map<string, Node>, d: string,
                    objects: map<(string, string), string>, dirs: set<string>, ids: map<string, nat>)
    requires Fits(nodes, d, objects, dirs, ids)
    requires AllButTempSame(nodes, nodes') && !IsDirectory(nodes', TEMP_FILE)
    ensures Fits(nodes', d, objects, dirs, ids)
  {
    assert d == d[..|d|] && d in Ancestors(d);
    forall p | Inside(d, p)
      ensures Same(nodes, nodes', p)
    {
      InsideIsNotAncestor(d, p);
    }
    PathsInside(d, "", "");
    assert Same(nodes, nodes', MaxIdsPath(d)) && Same(nodes, nodes', d);
    assert forall a | a in Ancestors(d) :: Same(nodes, nodes', a);
    NewIdText(nodes, nodes', d, objects, dirs, ids, ids);
  }

  lemma EntityMade(nodes: map<string, Node>, d: string, objects: map<(string, string), string>,
                   dirs: set<string>, ids: map<string, nat>, e: string)
    requires Fits(nodes, d, objects, dirs, ids) && IsDirectory(nodes, d)
    requires IsName(e) && e !in dirs
    ensures Fits(WithDirectories(nodes, EntityPath(d, e)), d, objects, dirs + {e}, ids)
    ensures KeptOutside(nodes, WithDirectories(nodes, EntityPath(d, e)), d)
  {
    var p := EntityPath(d, e);
    var nodes' := WithDirectories(nodes, p);
    EntityAncestors(d, e);
    assert EntityFits(nodes, d, e, dirs);
    PathsInside(d, e, "");
    InsideIsNotAncestor(d, p);
    forall q | Inside(d, q) && q != p
      ensures Same(nodes, nodes', q)
    {
      InsideIsNotAncestor(d, q);
    }
    KeepObjects(nodes, nodes', d, p, objects);
    OneMoreEntity(nodes, nodes', d, dirs, e);
    EntityPathsDiffer(d, e, e);
    assert Same(nodes, nodes', MaxIdsPath(d));
  }

  lemma OneMoreEntity(nodes: map<string, Node>, nodes': map<string, Node>, d: string, dirs: set<string>, e: string)
    requires EntitiesFit(nodes, d, dirs) && SameInside(nodes, nodes', d, EntityPath(d, e))
    requires IsName(e) && IsDirectory(nodes', EntityPath(d, e))
    ensures EntitiesFit(nodes', d, dirs + {e})
  {
    forall f | IsName(f)
      ensures EntityFits(nodes', d, f, dirs + {e})
    {
      assert EntityFits(nodes, d, f, dirs);
      PathsInside(d, f, "");
      EntityPathsDiffer(d, e, f);
      if f != e {
        assert Same(nodes, nodes', EntityPath(d, f));
      }
    }
  }

  lemma ObjectWritten(nodes: map<string, Node>, d: string, objects: map<(string, string), string>,
                      dirs: set<string>, ids: map<string, nat>, e: string, i: string, body: string)
    requires Fits(nodes, d, objects, dirs, ids) && IsName(e) && e in dirs && SlashFree(i)
    ensures CanWrite(nodes, ObjectPath(d, e, i))
    ensures Fits(nodes[ObjectPath(d, e, i) := File(body)], d, objects[(e, i) := body], dirs, ids)
    ensures KeptOutside(nodes, nodes[ObjectPath(d, e, i) := File(body)], d)
  {
    PathsInside(d, e, i);
    var p := ObjectPath(d, e, i);
    Parents(d, e, i);
    assert EntityFits(nodes, d, e, dirs) && ObjectFits(nodes, d, e, i, objects);
    ObjectChanged(nodes, nodes[p := File(body)], d, objects, objects[(e, i) := body], dirs, ids, e, i);
  }

  /** Below an object there is no directory, so an id with a slash names a file that cannot be written. */
  lemma SlashedIdIsClosed(nodes: map<string, Node>, d: string, objects: map<(string, string), string>,
                          dirs: set<string>, ids: map<string, nat>, e: string, i: string)
    requires Fits(nodes, d, objects, dirs, ids) && IsName(e) && IsId(i) && '/' in i
    ensures !CanWrite(nodes, ObjectPath(d, e, i)) && (e, i) !in objects
  {
    SlashedParent(d, e, i);
    assert ObjectFits(nodes, d, e, i[..LastSlash(i)], objects);
  }

  lemma SlashedParent(d: string, e: string, i: string)
    requires i != "" && i[0] != '/' && '/' in i
    ensures LastSlash(i) > 0
    ensures Parent(ObjectPath(d, e, i)) == ObjectPath(d, e, i[..LastSlash(i)]) != ""
  {
    var k := LastSlash(i);
    SplitAtSlash(i, k);
    Right3(EntityPath(d, e) + "/", i[..k], "/" + i[k + 1..]);
    ParentOf(ObjectPath(d, e, i[..k]), i[k + 1..]);
  }

  lemma ParentOf(dir: string, name: string)
    requires '/' !in name
    ensures Parent(dir + ("/" + name)) == dir
  {
    var p := dir + ("/" + name);
    assert p[|dir|] == '/' && p[|dir| + 1..] == name && p[..|dir|] == dir;
    LastSlashAt(p, |dir|);
  }

  // ----- Following paths on the disk -----

  /** The path of a spot that the store knows. */
  function PathOf(d: string, spot: Spot): string {
    match spot
    case AtIds => MaxIdsPath(d)
    case AtEntity(e) => EntityPath(d, e)
    case AtObject(e, i) => ObjectPath(d, e, i)
    case _ => d
  }

  /** A spot that a walk from the directory of an entity can come to. */
  predicate IsSpot(spot: Spot, dirs: set<string>) {
    match spot
    case AtEntity(e) => IsName(e)
    case AtObject(e, i) => IsName(e) && e in dirs && SlashFree(i)
    case AtData => dirs != {}
    case _ => true
  }

  lemma DataIsDirectory(nodes: map<string, Node>, d: string, dirs: set<string>)
    requires BaseFits(nodes, d, dirs) && dirs != {}
    ensures IsDirectory(nodes, d)
  {
    assert d == d[..|d|] && d in Ancestors(d);
  }

  lemma DownFromEntity(d: string, e: string, segment: string)
    requires d != "" && SlashFree(e) && SlashFree(segment)
    ensures Down(EntityPath(d, e), segment) == PathOf(d, FromEntity(e, segment))
  {
    Parents(d, e, e);
  }

  lemma DownFromData(d: string, segment: string)
    requires SlashFree(segment)
    ensures FromData(segment) != Beyond ==> Down(d, segment) == PathOf(d, FromData(segment))
  {
    assert d + "/" + "maxEntityIds" == MaxIdsPath(d);
  }

  /** What the disk has under `d`, but for the text of the id file. */
  ghost predicate TreeFits(nodes: map<string, Node>, d: string, objects: map<(string, string), string>,
                           dirs: set<string>)
  {
    && BaseFits(nodes, d, dirs) && ObjectsFit(nodes, d, objects) && EntitiesFit(nodes, d, dirs)
    && !IsDirectory(nodes, MaxIdsPath(d))
  }

  /** The place on the disk that a spot of the store stands for; beyond the data path, any. */
  predicate IsAt(d: string, spot: Spot, place: Place) {
    spot != Beyond ==> place == if spot == Nowhere then Lost else Found(PathOf(d, spot))
  }

  /** Following a path on the disk leads where it leads in the store. */
  lemma {:induction false} WalkLands(nodes: map<string, Node>, d: string, objects: map<(string, string), string>,
                                     dirs: set<string>, spot: Spot, path: string)
    requires TreeFits(nodes, d, objects, dirs) && IsSpot(spot, dirs) && (path == "" || IsRouted(path))
    ensures IsSpot(Land(dirs, spot, path), dirs)
    ensures spot != Beyond && spot != Nowhere ==>
      IsAt(d, Land(dirs, spot, path), Walk(nodes, PathOf(d, spot), path))
    decreases |path|
  {
    if path != "" {
      RoutedSegments(path);
      var segment, more := FirstSegment(path), BehindSegment(path);
      if spot.AtEntity? && spot.name in dirs {
        EntityIsPassed(nodes, d, dirs, spot.name, path);
        WalkLands(nodes, d, objects, dirs, FromEntity(spot.name, segment), more);
      } else if spot == AtData {
        DataIsPassed(nodes, d, dirs, path);
        WalkLands(nodes, d, objects, dirs, FromData(segment), more);
        BeyondIsFinal(dirs, more);
      } else {
        ClosedIsLost(nodes, d, objects, dirs, spot, path);
      }
    }
  }

  lemma BeyondIsFinal(dirs: set<string>, path: string)
    ensures Land(dirs, Beyond, path) == Beyond
  {
  }

  lemma EntityIsPassed(nodes: map<string, Node>, d: string, dirs: set<string>, e: string, path: string)
    requires d != "" && EntitiesFit(nodes, d, dirs) && IsName(e) && e in dirs && IsRouted(path)
    ensures var next := FromEntity(e, FirstSegment(path));
      && Land(dirs, AtEntity(e), path) == Land(dirs, next, BehindSegment(path))
      && Walk(nodes, EntityPath(d, e), path) == Walk(nodes, PathOf(d, next), BehindSegment(path))
      && IsSpot(next, dirs) && next != Beyond && next != Nowhere
  {
    assert EntityFits(nodes, d, e, dirs);
    RoutedSegments(path);
    DownFromEntity(d, e, FirstSegment(path));
  }

  lemma DataIsPassed(nodes: map<string, Node>, d: string, dirs: set<string>, path: string)
    requires BaseFits(nodes, d, dirs) && dirs != {} && IsRouted(path)
    ensures var next := FromData(FirstSegment(path));
      && IsSpot(next, dirs) && next != Nowhere
      && Land(dirs, AtData, path) == Land(dirs, next, BehindSegment(path))
      && (next != Beyond ==> Walk(nodes, d, path) == Walk(nodes, PathOf(d, next), BehindSegment(path)))
  {
    DataIsDirectory(nodes, d, dirs);
    RoutedSegments(path);
    DownFromData(d, FirstSegment(path));
  }

  /** No path leads through what is not a directory. */
  lemma ClosedIsLost(nodes: map<string, Node>, d: string, objects: map<(string, string), string>,
                     dirs: set<string>, spot: Spot, path: string)
    requires ObjectsFit(nodes, d, objects) && EntitiesFit(nodes, d, dirs) && !IsDirectory(nodes, MaxIdsPath(d))
    requires IsSpot(spot, dirs) && path != "" && spot != AtData && !(spot.AtEntity? && spot.name in dirs)
    ensures Land(dirs, spot, path) == if spot == Beyond then Beyond else Nowhere
    ensures spot != Beyond && spot != Nowhere ==> Walk(nodes, PathOf(d, spot), path) == Lost
  {
    match spot
    case AtEntity(e) =>
      assert EntityFits(nodes, d, e, dirs);
    case AtObject(e, i) =>
      assert ObjectFits(nodes, d, e, i, objects);
    case _ =>
  }

  /** Reading where a path leads yields what the store has there. */
  lemma ReadLands(nodes: map<string, Node>, d: string, s: Store, e: string, path: string)
    requires Represents(nodes, d, s) && IsName(e) && IsRouted(path)
    ensures var spot := Land(s.maxIds.Keys, AtEntity(e), path);
      var place := Walk(nodes, EntityPath(d, e), path);
      !Leaves(s, Get, spot, path) ==>
        && (IsThere(nodes, place) <==> ReadAt(s, spot).Some?)
        && (IsThere(nodes, place) ==> TextAt(nodes, place) == ReadAt(s, spot).value)
  {
    var spot := Land(s.maxIds.Keys, AtEntity(e), path);
    WalkLands(nodes, d, s.objects, s.maxIds.Keys, AtEntity(e), path);
    match spot
    case AtObject(f, i) =>
      assert ObjectFits(nodes, d, f, i, s.objects);
    case AtEntity(f) =>
      assert EntityFits(nodes, d, f, s.maxIds.Keys);
    case AtData =>
      DataIsDirectory(nodes, d, s.maxIds.Keys);
    case _ =>
  }

  /** An id without dots leads to something exactly if the object is there. */
  lemma PlainIsThere(nodes: map<string, Node>, d: string, s: Store, e: string, i: string)
    requires Represents(nodes, d, s) && IsName(e) && IsId(i)
    ensures IsThere(nodes, Walk(nodes, EntityPath(d, e), i)) <==> (e, i) in s.objects
  {
    ReadLands(nodes, d, s, e, i);
    PlainRead(s, e, i);
  }

  lemma PlainRead(s: Store, e: string, i: string)
    requires KeysFit(s.objects, s.maxIds.Keys) && IsId(i)
    ensures var spot := Land(s.maxIds.Keys, AtEntity(e), i);
      !Leaves(s, Get, spot, i) && (ReadAt(s, spot).Some? <==> (e, i) in s.objects)
  {
    PlainLanding(s.maxIds.Keys, e, i);
    assert (e, i) in s.objects ==> SlashFree((e, i).1) && (e, i).0 in s.maxIds.Keys;
  }

  /** The directory of an entity with an object, and the data directory with an entity, are not empty. */
  lemma NotEmpty(nodes: map<string, Node>, d: string, s: Store, e: string)
    requires Represents(nodes, d, s) && IsName(e) && e in s.maxIds
    ensures !IsEmptyDirectory(nodes, d)
    ensures Ids(s, e) != {} ==> !IsEmptyDirectory(nodes, EntityPath(d, e))
  {
    assert EntityFits(nodes, d, e, s.maxIds.Keys);
    assert d + "/" <= EntityPath(d, e);
    if Ids(s, e) != {} {
      var i :| i in Ids(s, e);
      assert (e, i) in s.objects && ObjectFits(nodes, d, e, i, s.objects);
      assert EntityPath(d, e) + "/" <= ObjectPath(d, e, i);
    }
  }

  /** Unless a DELETE escapes the store, it removes the object that the path leads to, and nothing else. */
  lemma DeleteLands(nodes: map<string, Node>, d: string, s: Store, e: string, path: string)
    requires Represents(nodes, d, s) && IsName(e) && IsRouted(path)
    requires !Leaves(s, Delete, Land(s.maxIds.Keys, AtEntity(e), path), path)
    ensures var spot := Land(s.maxIds.Keys, AtEntity(e), path);
      var place := Walk(nodes, EntityPath(d, e), path);
      && (CanRemove(nodes, place, path) <==> HasObject(s, spot))
      && (HasObject(s, spot) ==>
            && place == Found(ObjectPath(d, spot.owner, spot.id))
            && IsName(spot.owner) && spot.owner in s.maxIds && SlashFree(spot.id))
  {
    var spot := Land(s.maxIds.Keys, AtEntity(e), path);
    WalkLands(nodes, d, s.objects, s.maxIds.Keys, AtEntity(e), path);
    match spot
    case AtObject(f, i) =>
      assert ObjectFits(nodes, d, f, i, s.objects);
    case AtEntity(f) =>
      assert EntityFits(nodes, d, f, s.maxIds.Keys);
      if f in s.maxIds {
        NotEmpty(nodes, d, s, f);
      }
    case AtData =>
      DataIsDirectory(nodes, d, s.maxIds.Keys);
      var f :| f in s.maxIds;
      NotEmpty(nodes, d, s, f);
    case _ =>
  }

  lemma ObjectRemoved(nodes: map<string, Node>, d: string, objects: map<(string, string), string>,
                      dirs: set<string>, ids: map<string, nat>, e: string, i: string)
    requires Fits(nodes, d, objects, dirs, ids) && IsName(e) && e in dirs && SlashFree(i)
    ensures Fits(nodes - {ObjectPath(d, e, i)}, d, objects - {(e, i)}, dirs, ids)
    ensures KeptOutside(nodes, nodes - {ObjectPath(d, e, i)}, d)
  {
    PathsInside(d, e, i);
    ObjectChanged(nodes, nodes - {ObjectPath(d, e, i)}, d, objects, objects - {(e, i)}, dirs, ids, e, i);
  }

  lemma ObjectChanged(nodes: map<string, Node>, nodes': map<string, Node>, d: string,
                      objects: map<(string, string), string>, objects': map<(string, string), string>,
                      dirs: set<string>, ids: map<string, nat>, e: string, i: string)
    requires Fits(nodes, d, objects, dirs, ids) && IsName(e) && e in dirs && SlashFree(i)
    requires forall p | p != ObjectPath(d, e, i) :: Same(nodes, nodes', p)
    requires forall k | k != (e, i) :: (k in objects <==> k in objects') && (k in objects ==> objects[k] == objects'[k])
    requires ObjectFits(nodes', d, e, i, objects')
    ensures Fits(nodes', d, objects', dirs, ids)
  {
    var p := ObjectPath(d, e, i);
    PathsInside(d, e, i);
    InsideIsNotAncestor(d, p);
    ObjectPathIsNew(d, e, i, e);
    forall f, j | IsName(f) && j != ""
      ensures ObjectFits(nodes', d, f, j, objects')
    {
      assert ObjectFits(nodes, d, f, j, objects);
      if (f, j) != (e, i) {
        if ObjectPath(d, f, j) == p {
          ObjectPathsDiffer(d, e, i, f, j);
        }
        assert Same(nodes, nodes', ObjectPath(d, f, j));
      }
    }
    KeepEntities(nodes, nodes', d, p, dirs);
    assert Same(nodes, nodes', MaxIdsPath(d)) && Same(nodes, nodes', TEMP_FILE) && Same(nodes, nodes', d);
    forall a | a in Ancestors(d)
      ensures !IsFile(nodes', a)
    {
      assert Same(nodes, nodes', a);
    }
  }

  // ----- Several data paths on one disk -----

  /** Neither data path lies in the other. */
  predicate Apart(d: string, f: string) {
    d != f && !Inside(d, f) && !Inside(f, d)
  }

  lemma InsideBoth(d: string, f: string, p: string)
    ensures Inside(d, p) && Inside(f, p) ==> d == f || Inside(d, f) || Inside(f, d)
  {
    if Inside(d, p) && Inside(f, p) {
      assert |d| < |f| ==> f[..|d|] == p[..|f|][..|d|] == d && f[|d|] == p[|d|];
      assert |f| < |d| ==> d[..|f|] == p[..|d|][..|f|] == f && d[|f|] == p[|f|];
    }
  }

  lemma InsideAncestor(d: string, f: string, p: string)
    ensures Inside(f, p) && p in Ancestors(d) ==> Inside(f, d)
    ensures Inside(d, p) && p in Ancestors(f) ==> Inside(d, f)
    ensures p in Ancestors(d) ==> p == d || Inside(p, d)
  {
    if p in Ancestors(d) {
      var k :| 0 < k <= |d| && (k == |d| || d[k] == '/') && p == d[..k];
      assert |f| < k ==> d[..|f|] == p[..|f|] && d[|f|] == p[|f|];
    }
    if p in Ancestors(f) {
      var k :| 0 < k <= |f| && (k == |f| || f[k] == '/') && p == f[..k];
      assert |d| < k ==> f[..|d|] == p[..|d|] && f[|d|] == p[|d|];
    }
  }

  lemma InsideOfApart(d: string, f: string, p: string)
    requires Apart(d, f) && Inside(f, p)
    ensures !Inside(d, p) && p !in Ancestors(d) && p != TEMP_FILE
  {
    InsideIsNotAncestor(f, p);
    InsideBoth(d, f, p);
    InsideAncestor(d, f, p);
  }

  lemma AncestorOfApart(d: string, f: string, a: string)
    requires Apart(d, f) && IsBase(f) && a in Ancestors(f)
    ensures !Inside(d, a) && a != TEMP_FILE
    ensures a == f ==> a !in Ancestors(d)
  {
    InsideAncestor(d, f, a);
  }

  lemma BaseKept(nodes: map<string, Node>, nodes': map<string, Node>, d: string, f: string,
                 dirs: set<string>, others: set<string>)
    requires BaseFits(nodes, f, dirs) && BaseFits(nodes', d, others) && KeptOutside(nodes, nodes', d) && Apart(d, f)
    ensures BaseFits(nodes', f, dirs)
  {
    forall a | a in Ancestors(f)
      ensures !IsFile(nodes', a)
    {
      AncestorOfApart(d, f, a);
      assert a !in Ancestors(d) ==> Same(nodes, nodes', a);
    }
    assert f == f[..|f|] && f in Ancestors(f);
    AncestorOfApart(d, f, f);
    PathsInside(f, "", "");
    InsideOfApart(d, f, MaxIdsPath(f));
    assert Same(nodes, nodes', f) && Same(nodes, nodes', MaxIdsPath(f));
  }

  /** A change that keeps everything outside one data path keeps what another one represents. */
  lemma OtherDataPathKept(nodes: map<string, Node>, nodes': map<string, Node>, d: string, s: Store, f: string, u: Store)
    requires Represents(nodes, f, u) && Represents(nodes', d, s) && KeptOutside(nodes, nodes', d) && Apart(d, f)
    ensures Represents(nodes', f, u)
  {
    BaseKept(nodes, nodes', d, f, u.maxIds.Keys, s.maxIds.Keys);
    forall p | Inside(f, p)
      ensures Same(nodes, nodes', p)
    {
      InsideOfApart(d, f, p);
    }
    PathsInside(f, "", "");
    assert Same(nodes, nodes', MaxIdsPath(f));
    NewIdText(nodes, nodes', f, u.objects, u.maxIds.Keys, u.maxIds, u.maxIds);
  }
}
