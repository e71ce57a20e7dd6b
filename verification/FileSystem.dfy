/**
  A file system as the CRUD service uses it: nodes under the paths that the code
  spells out, with operations that succeed whenever the nodes allow them.
  */
module FileSystem {
  import opened CrudPaths

  datatype Node = Directory | File(content: string)

  /** The prefixes of a path that end at a slash or at its end. */
  function Ancestors(p: string): set<string> {
    set i | 0 < i <= |p| && (i == |p| || p[i] == '/') :: p[..i]
  }

  function LastSlash(p: string): (k: int)
    ensures -1 <= k < |p|
    ensures k >= 0 ==> p[k] == '/'
    ensures forall i | k < i < |p| :: p[i] != '/'
  {
    if p == "" then -1
    else if p[|p| - 1] == '/' then |p| - 1
    else LastSlash(p[..|p| - 1])
  }

  /** The directory of a path; empty for the root and the working directory. */
  function Parent(p: string): string {
    if LastSlash(p) < 0 then "" else p[..LastSlash(p)]
  }

  predicate IsDirectory(nodes: map<string, Node>, p: string) {
    p in nodes && nodes[p].Directory?
  }

  predicate IsFile(nodes: map<string, Node>, p: string) {
    p in nodes && nodes[p].File?
  }

  predicate CanWrite(nodes: map<string, Node>, p: string) {
    !IsDirectory(nodes, p) && (Parent(p) == "" || IsDirectory(nodes, Parent(p)))
  }

  function WithDirectories(nodes: map<string, Node>, p: string): map<string, Node> {
    if exists a :: a in Ancestors(p) && IsFile(nodes, a) then nodes
    else nodes + (map a | a in Ancestors(p) && a !in nodes :: Directory)
  }

  // ----- Paths with dots -----

  datatype Place = Lost | Found(path: string)

  /** Resolving a path below a directory: every segment but the last has to lead to a directory. */
  function Walk(nodes: map<string, Node>, dir: string, path: string): Place
    decreases |path|
  {
    if path == "" then Found(dir)
    else if !IsDirectory(nodes, dir) then Lost
    else Walk(nodes, Down(dir, FirstSegment(path)), BehindSegment(path))
  }

  function Down(dir: string, segment: string): string {
    if segment == "" || segment == "." then dir
    else if segment == ".." then Parent(dir)
    else dir + "/" + segment
  }

  predicate IsThere(nodes: map<string, Node>, place: Place) {
    place.Found? && place.path in nodes
  }

  function TextAt(nodes: map<string, Node>, place: Place): string {
    if place.Found? && IsFile(nodes, place.path) then nodes[place.path].content else ""
  }

  predicate IsEmptyDirectory(nodes: map<string, Node>, p: string) {
    IsDirectory(nodes, p) && forall q | q in nodes :: !(p + "/" <= q)
  }

  /** A file can be removed, and so can an empty directory, unless the path to it ends in dots. */
  predicate CanRemove(nodes: map<string, Node>, place: Place, path: string) {
    place.Found? && (IsFile(nodes, place.path) || (IsEmptyDirectory(nodes, place.path) && !IsDots(LastSegment(path))))
  }

  class Disk {
    var nodes: map<string, Node>

    constructor ()
      ensures nodes == map[]
    {
      nodes := map[];
    }

    method Exists(p: string) returns (found: bool)
      ensures found == (p in nodes)
    {
      found := p in nodes;
    }

    method ExistsAt(dir: string, path: string) returns (found: bool)
      ensures found == IsThere(nodes, Walk(nodes, dir, path))
    {
      found := IsThere(nodes, Walk(nodes, dir, path));
    }

    method ReadAt(dir: string, path: string) returns (ok: bool, content: string)
      ensures ok == IsThere(nodes, Walk(nodes, dir, path))
      ensures content == TextAt(nodes, Walk(nodes, dir, path))
    {
      ok := IsThere(nodes, Walk(nodes, dir, path));
      content := TextAt(nodes, Walk(nodes, dir, path));
    }

    method RemoveAt(dir: string, path: string) returns (ok: bool)
      modifies this
      ensures var place := Walk(old(nodes), dir, path);
        && ok == CanRemove(old(nodes), place, path)
        && nodes == if ok then old(nodes) - {place.path} else old(nodes)
    {
      var place := Walk(nodes, dir, path);
      ok := CanRemove(nodes, place, path);
      if ok {
        nodes := nodes - {place.path};
      }
    }

    /** Fails, creating nothing, when a file is in the way. */
    method CreateDirectories(p: string) returns (ok: bool)
      modifies this
      ensures nodes == WithDirectories(old(nodes), p)
    {
      ok := !exists a :: a in Ancestors(p) && IsFile(nodes, a);
      nodes := WithDirectories(nodes, p);
    }

    /** An input stream opens on anything that exists; a directory yields no text. */
    method Read(p: string) returns (ok: bool, content: string)
      ensures ok == (p in nodes)
      ensures content == if IsFile(nodes, p) then nodes[p].content else ""
    {
      ok := p in nodes;
      content := if p in nodes && nodes[p].File? then nodes[p].content else "";
    }

    /** An output stream, which truncates or creates the file. */
    method Write(p: string, content: string) returns (ok: bool)
      modifies this
      ensures ok == CanWrite(old(nodes), p)
      ensures nodes == if ok then old(nodes)[p := File(content)] else old(nodes)
    {
      ok := CanWrite(nodes, p);
      if ok {
        nodes := nodes[p := File(content)];
      }
    }

    /** An output stream that appends, and creates the file if it is missing. */
    method Append(p: string, content: string) returns (ok: bool)
      modifies this
      ensures ok == CanWrite(old(nodes), p)
      ensures var before := if IsFile(old(nodes), p) then old(nodes)[p].content else "";
        nodes == if ok then old(nodes)[p := File(before + content)] else old(nodes)
    {
      ok := CanWrite(nodes, p);
      if ok {
        nodes := nodes[p := File((if p in nodes && nodes[p].File? then nodes[p].content else "") + content)];
      }
    }

    /** Removes a file by its own path. */
    method Remove(p: string) returns (ok: bool)
      modifies this
      ensures ok == IsFile(old(nodes), p)
      ensures nodes == if ok then old(nodes) - {p} else old(nodes)
    {
      ok := p in nodes && nodes[p].File?;
      if ok {
        nodes := nodes - {p};
      }
    }

    /** The names of the regular files directly inside a directory, in no particular order. */
    method FilesIn(dir: string) returns (ok: bool, names: set<string>)
      ensures ok == IsDirectory(nodes, dir)
      ensures forall n :: n in names <==> ok && n != "" && '/' !in n && IsFile(nodes, dir + "/" + n)
    {
      ok := IsDirectory(nodes, dir);
      names := {};
      if ok {
        names := set p | p in nodes && nodes[p].File? && |p| > |dir| + 1
                         && p[..|dir| + 1] == dir + "/" && '/' !in p[|dir| + 1..]
                 :: p[|dir| + 1..];
      }
      forall n
        ensures n in names <==> ok && n != "" && '/' !in n && IsFile(nodes, dir + "/" + n)
      {
        var p := dir + "/" + n;
        assert p[|dir| + 1..] == n && p[..|dir| + 1] == dir + "/";
        if n in names {
          var q :| q in nodes && |q| > |dir| + 1
                   && q[..|dir| + 1] == dir + "/" && q[|dir| + 1..] == n && nodes[q].File? && '/' !in n;
          assert q == q[..|dir| + 1] + q[|dir| + 1..];
        }
      }
    }
  }
}
