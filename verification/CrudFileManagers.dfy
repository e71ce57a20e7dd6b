/**
  The file manager: every method turns a disk that represents a store into one
  that represents the store after the operation.
  */
module CrudFileManagers {
  import opened Text
  import opened CrudPaths
  import opened CrudStore
  import opened EntityIds
  import opened FileSystem
  import opened CrudFiles

  /** What a call does: it returns a flag, or a conversion throws. */
  datatype Outcome = Returned(ok: bool) | Thrown

  class CrudFileManager {
    const disk: Disk

    /** The mutex of the id file. */
    var locked: bool

    constructor (disk: Disk)
      ensures this.disk == disk && !locked
    {
      this.disk, locked := disk, false;
    }

    /** Opens whatever the path leads to; of what the store knows, the object that is there. */
    method ReadObject(path: CrudPath, ghost s: Store) returns (ok: bool, json: string)
      requires Represents(disk.nodes, path.dataPath, s)
      requires IsName(path.entityName) && IsRouted(path.entityId)
      ensures var spot := Land(s.maxIds.Keys, AtEntity(path.entityName), path.entityId);
        !Leaves(s, Get, spot, path.entityId) ==>
          && ok == ReadAt(s, spot).Some?
          && (ok ==> json == ReadAt(s, spot).value)
    {
      ReadLands(disk.nodes, path.dataPath, s, path.entityName, path.entityId);
      ok, json := disk.ReadAt(path.dataPath + "/" + path.entityName, path.entityId);
    }

    method ExistsObject(path: CrudPath, ghost s: Store) returns (found: bool)
      requires Represents(disk.nodes, path.dataPath, s)
      requires IsName(path.entityName) && IsRouted(path.entityId)
      ensures found == IsThere(disk.nodes, Walk(disk.nodes, EntityPath(path.dataPath, path.entityName), path.entityId))
      ensures IsId(path.entityId) ==> found == ((path.entityName, path.entityId) in s.objects)
    {
      if IsId(path.entityId) {
        PlainIsThere(disk.nodes, path.dataPath, s, path.entityName, path.entityId);
      }
      found := disk.ExistsAt(path.dataPath + "/" + path.entityName, path.entityId);
    }

    /** Removes whatever the path leads to; unless it escapes the store, the object that is there. */
    method DeleteObject(path: CrudPath, ghost s: Store) returns (ok: bool)
      requires Represents(disk.nodes, path.dataPath, s)
      requires IsName(path.entityName) && IsRouted(path.entityId)
      modifies disk
      ensures var spot := Land(s.maxIds.Keys, AtEntity(path.entityName), path.entityId);
        !Leaves(s, Delete, spot, path.entityId) ==>
        && ok == HasObject(s, spot)
        && Represents(disk.nodes, path.dataPath, Deleted(s, spot))
        && KeptOutside(old(disk.nodes), disk.nodes, path.dataPath)
    {
      ghost var spot := Land(s.maxIds.Keys, AtEntity(path.entityName), path.entityId);
      if !Leaves(s, Delete, spot, path.entityId) {
        DeleteLands(disk.nodes, path.dataPath, s, path.entityName, path.entityId);
        SpotRemoved(disk.nodes, path.dataPath, s, spot);
      }
      var found := ExistsObject(path, s);
      if !found {
        return false;
      }
      ok := disk.RemoveAt(path.dataPath + "/" + path.entityName, path.entityId);
    }

    /** The names of the objects of an entity, sorted; none if the entity has no directory. */
    method ListObjects(path: CrudPath, ghost s: Store) returns (names: seq<string>)
      requires Represents(disk.nodes, path.dataPath, s)
      requires IsName(path.entityName)
      ensures Increasing(names) && Elements(names) == Ids(s, path.entityName)
    {
      var ok, files := disk.FilesIn(path.dataPath + "/" + path.entityName);
      FilesAreIds(disk.nodes, path.dataPath, path.entityName, s, ok, files);
      names := InOrder(files);
    }

    /** Takes the names as they come, and keeps those taken sorted. */
    method InOrder(files: set<string>) returns (names: seq<string>)
      ensures Increasing(names) && Elements(names) == files
    {
      names := [];
      var rest := files;
      while rest != {}
        invariant rest <= files && Elements(names) == files - rest && Increasing(names)
        decreases |rest|
      {
        var n :| n in rest;
        assert n in names <==> n in Elements(names);
        rest := rest - {n};
        names := Insert(names, n);
      }
    }

    /** Puts a new name where it keeps the names sorted. */
    method Insert(names: seq<string>, n: string) returns (more: seq<string>)
      requires Increasing(names) && n !in names
      ensures Increasing(more) && Elements(more) == Elements(names) + {n}
    {
      var k := 0;
      while k < |names| && Less(names[k], n)
        invariant 0 <= k <= |names|
        invariant forall j | 0 <= j < k :: Less(names[j], n)
      {
        k := k + 1;
      }
      if k < |names| {
        LessTotal(names[k], n);
        assert names[k] in names;
        forall j | k <= j < |names|
          ensures Less(n, names[j])
        {
          if j > k {
            LessTransitive(n, names[k], names[j]);
          }
        }
      }
      more := names[..k] + [n] + names[k..];
      InsertedIsIncreasing(names, k, n);
      InsertedElements(names, k, n);
    }

    /** The id that a new object is to get. No path leaves the mutex locked. */
    method GenerateEntityId(path: CrudPath, ghost s: Store) returns (id: string)
      requires !locked && Represents(disk.nodes, path.dataPath, s)
      requires IsName(path.entityName) && ToldApart(s.maxIds.Keys + {path.entityName})
      modifies disk, this`locked
      ensures !locked && Represents(disk.nodes, path.dataPath, s)
      ensures KeptOutside(old(disk.nodes), disk.nodes, path.dataPath)
      ensures id == Decimal(NextId(s, path.entityName))
      ensures IsDirectory(disk.nodes, path.dataPath)
    {
      locked := true;
      var d, e := path.dataPath, path.entityName;
      var maxEntityIdsFile := d + "/maxEntityIds";
      ghost var nodes0 := disk.nodes;
      EnsureDataDirectory(d, s.objects, s.maxIds.Keys, s.maxIds);
      var found := disk.Exists(maxEntityIdsFile);
      if !found {
        ghost var nodes1 := disk.nodes;
        IdFileWritten(nodes1, d, s.objects, s.maxIds.Keys, s.maxIds, "", s.maxIds);
        var _ := disk.Write(maxEntityIdsFile, "");
        KeptTwice(nodes0, nodes1, disk.nodes, d);
      }
      var ok, text := disk.Read(maxEntityIdsFile);
      id := "1";
      if ok {
        id := NextOfText(text, e, s);
      }
      locked := false;
    }

    /** The id after the one that the file records for an entity, or 1. */
    method NextOfText(text: string, e: string, ghost s: Store) returns (id: string)
      requires Denote(Words(text), s.maxIds) && ToldApart(s.maxIds.Keys + {e})
      ensures id == Decimal(NextId(s, e))
    {
      var word := FindWord(text, e, s.maxIds);
      if word == "" {
        return "1";
      }
      StemIsExact(word, s.maxIds, e);
      StoullDecimal(s.maxIds[e]);
      var maxId := Stoull(word[|e| + 1..]);
      id := Decimal(Incremented(maxId.value));
    }

    method EnsureDataDirectory(d: string, ghost objects: map<(string, string), string>,
                               ghost dirs: set<string>, ghost ids: map<string, nat>)
      requires Fits(disk.nodes, d, objects, dirs, ids)
      modifies disk
      ensures Fits(disk.nodes, d, objects, dirs, ids) && IsDirectory(disk.nodes, d)
      ensures KeptOutside(old(disk.nodes), disk.nodes, d)
    {
      assert d == d[..|d|] && d in Ancestors(d);
      var found := disk.Exists(d);
      if !found {
        DataDirectoryMade(disk.nodes, d, objects, dirs, ids);
        var _ := disk.CreateDirectories(d);
      }
    }

    /** The word of an entity; the empty string if there is none. */
    method FindWord(text: string, e: string, ghost ids: map<string, nat>) returns (word: string)
      requires Denote(Words(text), ids) && ToldApart(ids.Keys + {e})
      ensures word == "" <==> e !in ids
      ensures word != "" ==> IsEntry(word, ids) && HasStem(word, e)
    {
      word := FindStem(text, e);
      StemOfKnown(Words(text), ids, e, word);
    }

    /** The loop over the words of the file, up to the first one with the stem. */
    method FindStem(text: string, e: string) returns (word: string)
      ensures word == "" ==> NoneHasStem(Words(text), e)
      ensures word != "" ==> word in Words(text) && HasStem(word, e)
    {
      var reader := new WordReader(text);
      ghost var ws, k := Words(text), 0;
      assert text[0..] == text;
      while true
        invariant reader.Valid() && reader.text == text
        invariant 0 <= k <= |ws| && Words(text[reader.pos..]) == ws[k..]
        invariant NoneHasStem(ws[..k], e)
        decreases |text| - reader.pos
      {
        var ok, line := reader.Next();
        if !ok {
          assert ws[..k] == ws;
          return "";
        }
        assert line == ws[k] && ws[k..][1..] == ws[k + 1..];
        var stem := if |line| <= |e| + 1 then line else line[..|e| + 1];
        if stem == e + ":" {
          return line;
        }
        assert ws[..k + 1] == ws[..k] + [line];
        k := k + 1;
      }
    }

    /**
      Records a maximum: for an entity without a directory by appending a word, for
      one with a directory by rewriting the file through the temporary file.
      */
    method WriteEntityId(path: CrudPath, maxId: nat, ghost objects: map<(string, string), string>,
                         ghost dirs: set<string>, ghost ids: map<string, nat>)
      returns (ok: bool)
      requires !locked && Fits(disk.nodes, path.dataPath, objects, dirs, ids)
      requires IsName(path.entityName) && maxId <= MAX_ID
      requires path.entityName in dirs <==> path.entityName in ids
      requires ToldApart(ids.Keys + {path.entityName})
      modifies disk, this`locked
      ensures !locked && ok
      ensures KeptOutside(old(disk.nodes), disk.nodes, path.dataPath)
      ensures Fits(disk.nodes, path.dataPath, objects, dirs, ids[path.entityName := maxId])
      ensures IsDirectory(disk.nodes, path.dataPath)
    {
      locked := true;
      var d, e := path.dataPath, path.entityName;
      var maxEntityIdsFile := d + "/maxEntityIds";
      var dirPath := d + "/" + e;
      ghost var nodes0 := disk.nodes;
      EnsureDataDirectory(d, objects, dirs, ids);
      assert EntityFits(disk.nodes, d, e, dirs);
      var found := disk.Exists(dirPath);
      ghost var nodes1 := disk.nodes;
      if !found {
        WordAppended(nodes1, d, objects, dirs, ids, e, maxId);
        ok := disk.Append(maxEntityIdsFile, "\n" + e + ":" + Decimal(maxId));
        KeptTwice(nodes0, nodes1, disk.nodes, d);
        locked := false;
        return;
      }
      ok := RewriteEntityId(path, maxId, objects, dirs, ids);
      KeptTwice(nodes0, nodes1, disk.nodes, d);
    }

    /** Replaces the maximum of a known entity, word by word, in a copy that then becomes the file. */
    method RewriteEntityId(path: CrudPath, maxId: nat, ghost objects: map<(string, string), string>,
                           ghost dirs: set<string>, ghost ids: map<string, nat>)
      returns (ok: bool)
      requires locked && Fits(disk.nodes, path.dataPath, objects, dirs, ids)
      requires IsDirectory(disk.nodes, path.dataPath)
      requires path.entityName in ids && maxId <= MAX_ID
      modifies disk, this`locked
      ensures !locked && ok
      ensures KeptOutside(old(disk.nodes), disk.nodes, path.dataPath)
      ensures Fits(disk.nodes, path.dataPath, objects, dirs, ids[path.entityName := maxId])
      ensures IsDirectory(disk.nodes, path.dataPath)
    {
      var d, e := path.dataPath, path.entityName;
      var maxEntityIdsFile := d + "/maxEntityIds";
      var inOk, text := disk.Read(maxEntityIdsFile);
      KnownIdHasText(disk.nodes, d, ids, e);
      var out := ReplaceWords(text, e, maxId);
      IdFileRewritten(disk.nodes, d, objects, dirs, ids, e, maxId);
      var outOk := disk.Write("temp", out);
      var _ := disk.Write(maxEntityIdsFile, out);
      var _ := disk.Remove("temp");
      locked := false;
      ok := inOk && outOk;
    }

    /** The loop that copies the words, one to a line. */
    method ReplaceWords(text: string, e: string, maxId: nat) returns (out: string)
      ensures out == Lines(Replaced(Words(text), e, maxId))
    {
      var reader := new WordReader(text);
      ghost var ws, k := Words(text), 0;
      assert text[0..] == text;
      out := "";
      while true
        invariant reader.Valid() && reader.text == text
        invariant 0 <= k <= |ws| && Words(text[reader.pos..]) == ws[k..]
        invariant out == Lines(Replaced(ws[..k], e, maxId))
        decreases |text| - reader.pos
      {
        var ok, line := reader.Next();
        if !ok {
          assert ws[..k] == ws;
          return;
        }
        assert line == ws[k] && ws[k..][1..] == ws[k + 1..];
        var stem := if |line| <= |e| + 1 then line else line[..|e| + 1];
        ReplacedSnoc(ws, k, e, maxId);
        if stem == e + ":" {
          out := out + (e + ":" + Decimal(maxId)) + "\n";
        } else {
          out := out + line + "\n";
        }
        k := k + 1;
      }
    }

    /**
      Writes an object, recording its entity and, where it is greater, its id. For an
      id with a slash only the record is made.
      */
    method WriteObject(path: CrudPath, json: string, ghost s: Store) returns (o: Outcome)
      requires !locked && Represents(disk.nodes, path.dataPath, s)
      requires IsName(path.entityName) && IsRouted(path.entityId) && ToldApart(s.maxIds.Keys + {path.entityName})
      modifies disk, this`locked
      ensures !locked
      ensures KeptOutside(old(disk.nodes), disk.nodes, path.dataPath)
      ensures Represents(disk.nodes, path.dataPath, Written(s, path.entityName, path.entityId, json))
      ensures o == if Stoull(path.entityId).Number? then Returned(SlashFree(path.entityId)) else Thrown
    {
      var d, e, i := path.dataPath, path.entityName, path.entityId;
      EnsureEntity(path, s);
      ghost var t, nodes1 := WithEntity(s, e), disk.nodes;
      var id := Stoull(i);
      if !id.Number? {
        return Thrown;
      }
      StoullRange(i);
      NumbersAreIds(i);
      var ok := RecordAndWrite(path, json, id.value, t);
      KeptTwice(old(disk.nodes), nodes1, disk.nodes, d);
      o := Returned(ok);
    }

    /** What is left of a write once its entity is known and its number read. */
    method RecordAndWrite(path: CrudPath, json: string, n: nat, ghost t: Store) returns (ok: bool)
      requires !locked && Represents(disk.nodes, path.dataPath, t)
      requires path.entityName in t.maxIds && IsId(path.entityId) && n <= MAX_ID
      modifies disk, this`locked
      ensures !locked && ok == SlashFree(path.entityId)
      ensures KeptOutside(old(disk.nodes), disk.nodes, path.dataPath)
      ensures Represents(disk.nodes, path.dataPath, WithObject(t, path.entityName, path.entityId, n, json))
    {
      ghost var ids := RecordIfGreater(path, n, t);
      ghost var nodes1 := disk.nodes;
      ok := WriteFile(path, json, t.objects, t.maxIds.Keys, ids);
      KeptTwice(old(disk.nodes), nodes1, disk.nodes, path.dataPath);
    }

    method WriteFile(path: CrudPath, json: string, ghost objects: map<(string, string), string>,
                     ghost dirs: set<string>, ghost ids: map<string, nat>)
      returns (ok: bool)
      requires Fits(disk.nodes, path.dataPath, objects, dirs, ids)
      requires IsName(path.entityName) && path.entityName in dirs && IsId(path.entityId)
      modifies disk
      ensures ok == SlashFree(path.entityId)
      ensures KeptOutside(old(disk.nodes), disk.nodes, path.dataPath)
      ensures var key := (path.entityName, path.entityId);
        Fits(disk.nodes, path.dataPath, if ok then objects[key := json] else objects, dirs, ids)
    {
      var d, e, i := path.dataPath, path.entityName, path.entityId;
      if SlashFree(i) {
        ObjectWritten(disk.nodes, d, objects, dirs, ids, e, i, json);
      } else {
        SlashedIdIsClosed(disk.nodes, d, objects, dirs, ids, e, i);
      }
      ok := disk.Write(d + "/" + e + "/" + i, json);
    }

    /** Records a number that is at least the id the entity would be given next. */
    method RecordIfGreater(path: CrudPath, n: nat, ghost t: Store) returns (ghost ids: map<string, nat>)
      requires !locked && Represents(disk.nodes, path.dataPath, t)
      requires path.entityName in t.maxIds && n <= MAX_ID
      modifies disk, this`locked
      ensures !locked && Fits(disk.nodes, path.dataPath, t.objects, t.maxIds.Keys, ids)
      ensures KeptOutside(old(disk.nodes), disk.nodes, path.dataPath)
      ensures ids == if n >= NextId(t, path.entityName) then t.maxIds[path.entityName := n] else t.maxIds
      ensures ids.Keys == t.maxIds.Keys
    {
      assert t.maxIds.Keys + {path.entityName} == t.maxIds.Keys;
      var next := GenerateEntityId(path, t);
      NextIdFits(disk.nodes, path.dataPath, t, path.entityName);
      StoullDecimal(NextId(t, path.entityName));
      ids := t.maxIds;
      if n >= Stoull(next).value {
        ghost var nodes1 := disk.nodes;
        var _ := WriteEntityId(path, n, t.objects, t.maxIds.Keys, t.maxIds);
        ids := t.maxIds[path.entityName := n];
        KeptTwice(old(disk.nodes), nodes1, disk.nodes, path.dataPath);
      }
    }

    /** The first write to an entity records the id 1 and makes its directory. */
    method EnsureEntity(path: CrudPath, ghost s: Store)
      requires !locked && Represents(disk.nodes, path.dataPath, s)
      requires IsName(path.entityName) && ToldApart(s.maxIds.Keys + {path.entityName})
      modifies disk, this`locked
      ensures !locked && Represents(disk.nodes, path.dataPath, WithEntity(s, path.entityName))
      ensures KeptOutside(old(disk.nodes), disk.nodes, path.dataPath)
    {
      var d, e := path.dataPath, path.entityName;
      assert EntityFits(disk.nodes, d, e, s.maxIds.Keys);
      var found := disk.Exists(d + "/" + e);
      if !found {
        ghost var nodes0 := disk.nodes;
        var _ := WriteEntityId(path, 1, s.objects, s.maxIds.Keys, s.maxIds);
        ghost var nodes1 := disk.nodes;
        EntityMade(nodes1, d, s.objects, s.maxIds.Keys, s.maxIds[e := 1], e);
        assert s.maxIds[e := 1].Keys == s.maxIds.Keys + {e};
        var _ := disk.CreateDirectories(d + "/" + e);
        KeptTwice(nodes0, nodes1, disk.nodes, d);
      }
    }
  }

  lemma SpotRemoved(nodes: map<string, Node>, d: string, s: Store, spot: Spot)
    requires Represents(nodes, d, s)
    requires HasObject(s, spot) ==> IsName(spot.owner) && spot.owner in s.maxIds && SlashFree(spot.id)
    ensures HasObject(s, spot) ==>
      var nodes' := nodes - {ObjectPath(d, spot.owner, spot.id)};
      Represents(nodes', d, Deleted(s, spot)) && KeptOutside(nodes, nodes', d)
    ensures !HasObject(s, spot) ==> Deleted(s, spot) == s && KeptOutside(nodes, nodes, d)
  {
    if HasObject(s, spot) {
      ObjectRemoved(nodes, d, s.objects, s.maxIds.Keys, s.maxIds, spot.owner, spot.id);
    } else if spot.AtObject? {
      assert s.objects - {(spot.owner, spot.id)} == s.objects;
    }
  }

  predicate NoneHasStem(ws: seq<string>, e: string) {
    forall w | w in ws :: !HasStem(w, e)
  }

  /** Among the words of names told apart, one with the stem is found exactly for a known entity. */
  lemma StemOfKnown(ws: seq<string>, ids: map<string, nat>, e: string, word: string)
    requires Denote(ws, ids) && ToldApart(ids.Keys + {e})
    ensures NoneHasStem(ws, e) ==> e !in ids
    ensures word in ws && HasStem(word, e) ==> e in ids && IsEntry(word, ids)
  {
    if e in ids {
      assert HasWord(ws, e);
      var k :| 0 <= k < |ws| && NameOf(ws[k]) == e;
      StemIsExact(ws[k], ids, e);
    }
    if word in ws && HasStem(word, e) {
      StemIsExact(word, ids, e);
    }
  }

  lemma ReplacedSnoc(ws: seq<string>, k: nat, e: string, maxId: nat)
    requires k < |ws|
    ensures Lines(Replaced(ws[..k + 1], e, maxId))
      == Lines(Replaced(ws[..k], e, maxId)) + (if HasStem(ws[k], e) then IdWord(e, maxId) else ws[k]) + "\n"
  {
    var copied, w := Replaced(ws[..k], e, maxId), if HasStem(ws[k], e) then IdWord(e, maxId) else ws[k];
    assert ws[..k + 1][..k] == ws[..k];
    assert Replaced(ws[..k + 1], e, maxId) == copied + [w];
    assert (copied + [w])[..k] == copied;
  }

  /** The files in the directory of an entity are its ids. */
  lemma FilesAreIds(nodes: map<string, Node>, d: string, e: string, s: Store, ok: bool, files: set<string>)
    requires Represents(nodes, d, s) && IsName(e)
    requires ok == IsDirectory(nodes, EntityPath(d, e))
    requires forall n :: n in files <==> ok && n != "" && '/' !in n && IsFile(nodes, EntityPath(d, e) + "/" + n)
    ensures files == Ids(s, e)
  {
    assert EntityFits(nodes, d, e, s.maxIds.Keys);
    forall n
      ensures n in files <==> n in Ids(s, e)
    {
      if n in Ids(s, e) {
        assert (e, n) in s.objects;
      }
      if SlashFree(n) {
        assert ObjectFits(nodes, d, e, n, s.objects);
        if (e, n) in s.objects {
          assert (e, n).1 in Ids(s, e);
        }
      }
    }
  }

  lemma InsertedIsIncreasing(names: seq<string>, k: nat, n: string)
    requires Increasing(names) && k <= |names|
    requires forall j | 0 <= j < k :: Less(names[j], n)
    requires forall j | k <= j < |names| :: Less(n, names[j])
    ensures Increasing(names[..k] + [n] + names[k..])
  {
    var more := names[..k] + [n] + names[k..];
    forall i, j | 0 <= i < j < |more|
      ensures Less(more[i], more[j])
    {
      assert more[i] == if i < k then names[i] else if i == k then n else names[i - 1];
      assert more[j] == if j < k then names[j] else if j == k then n else names[j - 1];
    }
  }

  lemma InsertedElements(names: seq<string>, k: nat, n: string)
    requires k <= |names|
    ensures Elements(names[..k] + [n] + names[k..]) == Elements(names) + {n}
  {
    forall x
      ensures x in Elements(names[..k] + [n] + names[k..]) <==> x in Elements(names) + {n}
    {
      assert names == names[..k] + names[k..];
    }
  }

  lemma KnownIdHasText(nodes: map<string, Node>, d: string, ids: map<string, nat>, e: string)
    requires IdsFit(nodes, d, ids) && e in ids
    ensures IsFile(nodes, MaxIdsPath(d))
  {
    assert HasWord(Words(IdText(nodes, d)), e);
    assert Words("") == [];
  }

  lemma ReplacedText(ws: seq<string>, ids: map<string, nat>, e: string, m: nat)
    requires Denote(Replaced(ws, e, m), ids[e := m])
    ensures Words(Lines(Replaced(ws, e, m))) == Replaced(ws, e, m)
  {
    var vs := Replaced(ws, e, m);
    DenotedWordsAreWords(vs, ids[e := m]);
    WordsOfLines(vs, "");
    assert Lines(vs) + "" == Lines(vs) && vs + Words("") == vs;
  }

  /** Appending the word of a new entity adds one key. */
  lemma WordAppended(nodes: map<string, Node>, d: string, objects: map<(string, string), string>,
                     dirs: set<string>, ids: map<string, nat>, e: string, m: nat)
    requires Fits(nodes, d, objects, dirs, ids) && IsDirectory(nodes, d)
    requires IsName(e) && e !in ids && m <= MAX_ID && ToldApart(ids.Keys + {e})
    ensures CanWrite(nodes, MaxIdsPath(d))
    ensures var nodes' := nodes[MaxIdsPath(d) := File(IdText(nodes, d) + ("\n" + e + ":" + Decimal(m)))];
      Fits(nodes', d, objects, dirs, ids[e := m]) && KeptOutside(nodes, nodes', d)
  {
    var text := IdText(nodes, d);
    AppendedText(text, ids, e, m);
    IdFileWritten(nodes, d, objects, dirs, ids, text + ("\n" + e + ":" + Decimal(m)), ids[e := m]);
  }

  lemma {:induction false} AppendedText(text: string, ids: map<string, nat>, e: string, m: nat)
    requires Denote(Words(text), ids) && IsName(e) && e !in ids && m <= MAX_ID && ToldApart(ids.Keys + {e})
    ensures Denote(Words(text + ("\n" + e + ":" + Decimal(m))), ids[e := m])
  {
    IdWordIsWord(e, m);
    WordsAppend(text, IdWord(e, m));
    AppendDenotes(Words(text), ids, e, m);
    assert "\n" + e + ":" + Decimal(m) == "\n" + IdWord(e, m);
  }

  /** Copying the replaced words over the id file, through the temporary file, updates one key. */
  lemma IdFileRewritten(nodes: map<string, Node>, d: string, objects: map<(string, string), string>,
                        dirs: set<string>, ids: map<string, nat>, e: string, m: nat)
    requires Fits(nodes, d, objects, dirs, ids) && IsDirectory(nodes, d) && e in ids && m <= MAX_ID
    ensures var out := Lines(Replaced(Words(IdText(nodes, d)), e, m));
      var copied := nodes[TEMP_FILE := File(out)];
      && CanWrite(nodes, TEMP_FILE) && CanWrite(copied, MaxIdsPath(d))
      && IsFile(copied[MaxIdsPath(d) := File(out)], TEMP_FILE)
      && Fits(copied[MaxIdsPath(d) := File(out)] - {TEMP_FILE}, d, objects, dirs, ids[e := m])
      && IsDirectory(copied[MaxIdsPath(d) := File(out)] - {TEMP_FILE}, d)
      && KeptOutside(nodes, copied[MaxIdsPath(d) := File(out)] - {TEMP_FILE}, d)
  {
    var ws := Words(IdText(nodes, d));
    ReplaceDenotes(ws, ids, e, m);
    ReplacedText(ws, ids, e, m);
    FileReplaced(nodes, d, objects, dirs, ids, Lines(Replaced(ws, e, m)), ids[e := m]);
  }

  lemma FileReplaced(nodes: map<string, Node>, d: string, objects: map<(string, string), string>,
                     dirs: set<string>, ids: map<string, nat>, out: string, ids': map<string, nat>)
    requires Fits(nodes, d, objects, dirs, ids) && IsDirectory(nodes, d) && Denote(Words(out), ids')
    ensures var copied := nodes[TEMP_FILE := File(out)];
      && CanWrite(nodes, TEMP_FILE) && CanWrite(copied, MaxIdsPath(d))
      && IsFile(copied[MaxIdsPath(d) := File(out)], TEMP_FILE)
      && Fits(copied[MaxIdsPath(d) := File(out)] - {TEMP_FILE}, d, objects, dirs, ids')
      && IsDirectory(copied[MaxIdsPath(d) := File(out)] - {TEMP_FILE}, d)
      && KeptOutside(nodes, copied[MaxIdsPath(d) := File(out)] - {TEMP_FILE}, d)
  {
    TempIsNotBase(d);
    PathsInside(d, "", "");
    TempWritten(nodes, d, objects, dirs, ids, out);
    var copied := nodes[TEMP_FILE := File(out)];
    IdFileWritten(copied, d, objects, dirs, ids, out, ids');
    TempWritten(copied[MaxIdsPath(d) := File(out)], d, objects, dirs, ids', out);
  }

  lemma TempIsNotBase(d: string)
    requires IsBase(d)
    ensures d != TEMP_FILE && MaxIdsPath(d) != TEMP_FILE
  {
    assert d == d[..|d|] && d in Ancestors(d);
    PathsInside(d, "", "");
    InsideIsNotAncestor(d, MaxIdsPath(d));
  }

  lemma NextIdFits(nodes: map<string, Node>, d: string, s: Store, e: string)
    requires Represents(nodes, d, s)
    ensures NextId(s, e) <= MAX_ID
  {
  }
}
