/** A CRUD address, written with any number of slashes, is split back into its parts. */
module CrudAddresses {
  import opened CrudPaths
  import opened Routing
  import opened Regroup

  function Slashes(n: nat): string {
    if n == 0 then "" else "/" + Slashes(n - 1)
  }

  /** The target for an object: location, name and id, with the given numbers of slashes. */
  function Target(location: string, name: string, id: string, a: nat, b: nat, c: nat): string {
    location + (Slashes(a) + (name + (Slashes(b) + (id + Slashes(c)))))
  }

  // ----- Collapsing piece by piece -----

  predicate EndsInSlash(s: string, before: bool) {
    if s == "" then before else s[|s| - 1] == '/'
  }

  lemma {:induction false} CollapseConcat(a: string, b: string, before: bool)
    ensures Collapse(a + b, before) == Collapse(a, before) + Collapse(b, EndsInSlash(a, before))
    decreases a
  {
    if a == "" {
      assert a + b == b;
    } else {
      assert (a + b)[1..] == a[1..] + b;
      CollapseConcat(a[1..], b, a[0] == '/');
    }
  }

  lemma {:induction false} CollapseSlashes(n: nat, before: bool)
    ensures Collapse(Slashes(n), before) == if n == 0 || before then "" else "/"
    ensures n > 0 ==> EndsInSlash(Slashes(n), before)
    decreases n
  {
    if n > 0 {
      assert Slashes(n)[1..] == Slashes(n - 1);
      CollapseSlashes(n - 1, true);
    }
  }

  lemma CollapseSegment(w: string, before: bool)
    requires SlashFree(w)
    ensures Collapse(w, before) == w && !EndsInSlash(w, before)
  {
    CollapseKeeps(w, before);
  }

  /** A run of slashes and the segment after it. */
  lemma CollapseRun(n: nat, w: string, rest: string, before: bool)
    requires n > 0 && SlashFree(w)
    ensures Collapse(Slashes(n) + (w + rest), before) == (if before then "" else "/") + (w + Collapse(rest, false))
  {
    CollapseConcat(Slashes(n), w + rest, before);
    CollapseSlashes(n, before);
    CollapseConcat(w, rest, true);
    CollapseSegment(w, true);
  }

  function Separator(location: string): string {
    if EndsInSlash(location, false) then "" else "/"
  }

  /** The normal form of an address: each run of slashes becomes one, and the last goes. */
  lemma NormalizeTargetOf(location: string, name: string, id: string, a: nat, b: nat, c: nat)
    requires location != "" && Collapse(location, false) == location
    requires SlashFree(name) && SlashFree(id) && a > 0 && b > 0
    ensures Normalize(Target(location, name, id, a, b, c)) == location + (Separator(location) + (name + ("/" + id)))
  {
    var t4 := Slashes(b) + (id + Slashes(c));
    CollapseConcat(location, Slashes(a) + (name + t4), false);
    CollapseRun(a, name, t4, EndsInSlash(location, false));
    CollapseRun(b, id, Slashes(c), false);
    CollapseSlashes(c, false);
    var tail := if c == 0 then "" else "/";
    Right4(Separator(location), name, "/", id + tail);
    RegroupAddress(location, Separator(location), name, id, tail);
    StripOne(location + (Separator(location) + (name + ("/" + id))), tail);
  }

  lemma RegroupAddress(location: string, separator: string, name: string, id: string, tail: string)
    ensures location + (separator + (name + ("/" + (id + tail)))) == location + (separator + (name + ("/" + id))) + tail
  {
    Right3(location, separator + (name + ("/" + id)), tail);
    Right3(separator, name + ("/" + id), tail);
    Right3(name, "/" + id, tail);
    Right3("/", id, tail);
  }

  /** The normal form of the address of a whole entity. */
  lemma NormalizeEntityTarget(location: string, name: string, a: nat, c: nat)
    requires location != "" && Collapse(location, false) == location && SlashFree(name) && a > 0
    ensures Normalize(location + (Slashes(a) + (name + Slashes(c)))) == location + (Separator(location) + name)
  {
    CollapseConcat(location, Slashes(a) + (name + Slashes(c)), false);
    CollapseRun(a, name, Slashes(c), EndsInSlash(location, false));
    CollapseSlashes(c, false);
    var tail := if c == 0 then "" else "/";
    Right3(location, Separator(location) + name, tail);
    Right3(Separator(location), name, tail);
    StripOne(location + (Separator(location) + name), tail);
  }

  lemma StripOne(head: string, tail: string)
    requires |head| > 1 && head[|head| - 1] != '/' && (tail == "" || tail == "/")
    ensures Strip(head + tail) == head
  {
    assert head + "" == head;
    assert (head + "/")[..|head|] == head;
  }

  lemma FindSlashAt(s: string, from: nat, k: nat)
    requires from <= k < |s| && s[k] == '/' && forall i | from <= i < k :: s[i] != '/'
    ensures FindSlash(s, from) == k
    decreases |s| - from
  {
  }

  lemma SplitWithSlash(name: string, id: string)
    requires SlashFree(name) && SlashFree(id)
    ensures SplitEntity("/" + (name + ("/" + id))) == (name, id)
  {
    var p := "/" + (name + ("/" + id));
    assert p[|name| + 1] == '/' && p[1..|name| + 1] == name && p[|name| + 2..] == id;
    assert forall i | 1 <= i <= |name| :: p[i] == name[i - 1];
    FindSlashAt(p, 1, |name| + 1);
  }

  lemma SplitWithoutSlash(name: string, id: string)
    requires SlashFree(name) && SlashFree(id)
    ensures SplitEntity(name + ("/" + id)) == (name[1..], id)
  {
    var p := name + ("/" + id);
    assert p[|name|] == '/' && p[1..|name|] == name[1..] && p[|name| + 1..] == id;
    assert forall i | 1 <= i < |name| :: p[i] == name[i];
    FindSlashAt(p, 1, |name|);
  }

  /**
    An address whose location is selected is split back into data path, name and id,
    whatever the numbers of slashes, exactly when the location does not end in a
    slash; after one that does, as after `/`, the name loses its first character.
    */
  lemma {:induction false} AddressRoundTrip(t: ServerPaths, location: string, name: string, id: string,
                                            a: nat, b: nat, c: nat)
    requires location != "" && Collapse(location, false) == location
    requires SlashFree(name) && SlashFree(id) && a > 0 && b > 0
    requires var r := Normalize(Target(location, name, id, a, b, c));
      CrudLocation(t, r) == location && TakenForCrud(t, location)
    ensures var address := CrudEntityPath(t, Normalize(Target(location, name, id, a, b, c)));
      && (address == CrudPath(t.crud[location], name, id) <==> location[|location| - 1] != '/')
      && (location[|location| - 1] == '/' ==> address == CrudPath(t.crud[location], name[1..], id))
  {
    NormalizeTargetOf(location, name, id, a, b, c);
    var rest := Separator(location) + (name + ("/" + id));
    assert (location + rest)[|location|..] == rest;
    assert "" + (name + ("/" + id)) == name + ("/" + id);
    SplitWithSlash(name, id);
    SplitWithoutSlash(name, id);
  }

  /** The same for the address of an entity, which has no id. */
  lemma {:induction false} EntityRoundTrip(t: ServerPaths, location: string, name: string, a: nat, c: nat)
    requires location != "" && Collapse(location, false) == location && SlashFree(name) && a > 0
    requires var r := Normalize(location + (Slashes(a) + (name + Slashes(c))));
      CrudLocation(t, r) == location && TakenForCrud(t, location)
    ensures var address := CrudEntityPath(t, Normalize(location + (Slashes(a) + (name + Slashes(c)))));
      address == CrudPath(t.crud[location], name, "") <==> location[|location| - 1] != '/'
  {
    NormalizeEntityTarget(location, name, a, c);
    var rest := Separator(location) + name;
    assert (location + rest)[|location|..] == rest;
    assert forall i | 1 <= i < |rest| :: rest[i] != '/';
    NoSlashFound(rest, 1);
  }

  lemma NoSlashFound(s: string, from: nat)
    requires forall i | from <= i < |s| :: s[i] != '/'
    ensures FindSlash(s, from) == |s|
    decreases |s| - from
  {
  }

  // ----- From the address back to the target -----

  function ScannedForCrud(t: ServerPaths): set<string> {
    t.static_.Keys + Listed(t.echo) + t.crud.Keys
  }

  /** A location is selected exactly when it begins the target and no longer scanned location does. */
  lemma LocationIsSelected(t: ServerPaths, location: string, r: string)
    requires location != ""
    ensures CrudLocation(t, r) == location
       <==> location in ScannedForCrud(t) && location <= r
            && forall p | p in ScannedForCrud(t) && p <= r :: |p| <= |location|
  {
    BestIsBest(ScannedForCrud(t), r);
    if location in ScannedForCrud(t) && location <= r &&
       forall p | p in ScannedForCrud(t) && p <= r :: |p| <= |location| {
      BestIsUnique(location, ScannedForCrud(t), r);
    }
  }

  /** The target that a location and an address spell out. */
  function Rebuilt(location: string, address: CrudPath): string {
    if address.entityName == "" && address.entityId == "" then location
    else if address.entityId == "" then location + ("/" + address.entityName)
    else location + ("/" + (address.entityName + ("/" + address.entityId)))
  }

  lemma BehindIsNormal(s: string, k: nat)
    requires NoDoubleSlash(s) && k <= |s|
    ensures NoDoubleSlash(s[k..])
  {
    var behind := s[k..];
    forall i | 0 <= i < |behind| - 1
      ensures !(behind[i] == '/' && behind[i + 1] == '/')
    {
      assert behind[i] == s[k + i] && behind[i + 1] == s[k + i + 1];
    }
  }

  /** What the split makes of the text behind the location, in normal form. */
  lemma SplitParts(rest: string)
    requires NoDoubleSlash(rest) && rest != "" && rest[|rest| - 1] != '/'
    ensures var (name, id) := SplitEntity(rest);
      && '/' !in name
      && (id == "" || IsRouted(id))
      && rest[1..] == if id == "" then name else name + ("/" + id)
  {
    var k := FindSlash(rest, 1);
    if k < |rest| {
      assert rest[k] == '/' && rest[k + 1] != '/';
      BehindIsNormal(rest, k + 1);
      assert rest[1..] == rest[1..k] + ("/" + rest[k + 1..]);
    }
  }

  lemma RestIsNormal(location: string, r: string)
    requires NoDoubleSlash(r) && (|r| > 1 ==> r[|r| - 1] != '/')
    requires location != "" && location <= r && |location| < |r|
    ensures var rest := r[|location|..]; NoDoubleSlash(rest) && rest != "" && rest[|rest| - 1] != '/'
  {
    BehindIsNormal(r, |location|);
  }

  /** Whatever the target, the name it yields has no slash, and the id only single ones between its segments. */
  lemma RoutedParts(t: ServerPaths, target: string)
    ensures var address := CrudEntityPath(t, Normalize(target));
      '/' !in address.entityName && (address.entityId == "" || IsRouted(address.entityId))
  {
    var r, l := Normalize(target), CrudLocation(t, Normalize(target));
    NormalForm(target);
    BestIsBest(ScannedForCrud(t), r);
    if TakenForCrud(t, l) && |l| < |r| {
      RestIsNormal(l, r);
      SplitParts(r[|l|..]);
    }
  }

  /**
    The address of a target determines the target exactly when a slash, or nothing,
    follows the location.
    */
  lemma AddressDeterminesTarget(t: ServerPaths, target: string)
    requires TakenForCrud(t, CrudLocation(t, Normalize(target)))
    ensures var r := Normalize(target);
      var l := CrudLocation(t, r);
      Rebuilt(l, CrudEntityPath(t, r)) == r <==> r == l || (|l| < |r| && r[|l|] == '/')
  {
    var r, l := Normalize(target), CrudLocation(t, Normalize(target));
    NormalForm(target);
    BestIsBest(ScannedForCrud(t), r);
    var rest := r[|l|..];
    assert r == l + rest;
    if rest != "" {
      RestIsNormal(l, r);
      SplitParts(rest);
      assert rest == [rest[0]] + rest[1..] && rest[0] == r[|l|];
      RebuiltBehind(l, CrudEntityPath(t, r), rest);
    }
  }

  lemma RebuiltBehind(l: string, address: CrudPath, rest: string)
    requires rest != "" && rest[|rest| - 1] != '/'
    requires rest[1..] == if address.entityId == "" then address.entityName
                          else address.entityName + ("/" + address.entityId)
    ensures Rebuilt(l, address) == l + rest <==> rest[0] == '/'
  {
    var parts := if address.entityId == "" then address.entityName else address.entityName + ("/" + address.entityId);
    assert rest == [rest[0]] + parts;
    if parts == "" {
      assert |Rebuilt(l, address)| < |l + rest|;
    } else {
      assert Rebuilt(l, address) == l + ("/" + parts);
      assert (l + ("/" + parts))[|l|] == '/' && (l + rest)[|l|] == rest[0];
      assert rest[0] == '/' ==> rest == "/" + parts;
    }
  }

  /** The character that follows the location is dropped, whatever it is. */
  lemma FollowingCharacterIsDropped(t: ServerPaths, location: string, c: char, d: char, x: string)
    requires CrudLocation(t, location + ([c] + x)) == CrudLocation(t, location + ([d] + x)) == location
    ensures CrudEntityPath(t, location + ([c] + x)) == CrudEntityPath(t, location + ([d] + x))
  {
    assert (location + ([c] + x))[|location|..] == [c] + x && (location + ([d] + x))[|location|..] == [d] + x;
    SameSlash([c] + x, [d] + x, 1);
    assert forall k | 1 <= k <= |x| + 1 :: ([c] + x)[1..k] == ([d] + x)[1..k];
    assert forall k | 1 <= k <= |x| + 1 :: ([c] + x)[k..] == ([d] + x)[k..];
  }

  lemma {:induction false} SameSlash(a: string, b: string, from: nat)
    requires |a| == |b| && forall i | from <= i < |a| :: a[i] == b[i]
    ensures FindSlash(a, from) == FindSlash(b, from)
    decreases |a| - from
  {
    if from < |a| {
      SameSlash(a, b, from + 1);
    }
  }
}
