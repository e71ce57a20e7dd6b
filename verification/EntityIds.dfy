/**
  The id file: one word `name:max` for each entity, found by its stem, and the map
  that the words stand for.
  */
module EntityIds {
  import opened Text
  import opened CrudStore
  import opened Regroup

  function IdWord(e: string, m: nat): string {
    e + ":" + Decimal(m)
  }

  /** `word.substr(0, |e| + 1) == e + ":"`. */
  predicate HasStem(w: string, e: string) {
    (if |w| <= |e| + 1 then w else w[..|e| + 1]) == e + ":"
  }

  /** What is in front of the last colon: the number behind it has none, though the name may. */
  function NameOf(w: string): string {
    if w == "" then ""
    else
      var front := w[..|w| - 1];
      if w[|w| - 1] == ':' then front else NameOf(front)
  }

  /** The words are the entries of the map, each name once; stems tell the names apart. */
  predicate Denote(ws: seq<string>, ids: map<string, nat>) {
    && (forall k | 0 <= k < |ws| :: IsEntry(ws[k], ids))
    && Distinct(ws)
    && (forall e | e in ids.Keys :: HasWord(ws, e))
    && Legal(ids)
    && ToldApart(ids.Keys)
  }

  predicate Legal(ids: map<string, nat>) {
    forall e | e in ids :: IsName(e) && ids[e] <= MAX_ID
  }

  lemma LegalUpdate(ids: map<string, nat>, e: string, m: nat)
    requires Legal(ids) && IsName(e) && m <= MAX_ID
    ensures Legal(ids[e := m])
  {
  }

  predicate Distinct(ws: seq<string>) {
    forall j, k | 0 <= j < k < |ws| :: NameOf(ws[j]) != NameOf(ws[k])
  }

  predicate HasWord(ws: seq<string>, e: string) {
    exists k | 0 <= k < |ws| :: NameOf(ws[k]) == e
  }

  predicate IsEntry(w: string, ids: map<string, nat>) {
    NameOf(w) in ids && w == IdWord(NameOf(w), ids[NameOf(w)])
  }

  lemma {:induction false} NameBehindDigits(e: string, digits: string)
    requires ':' !in digits
    ensures NameOf(e + ":" + digits) == e
    decreases digits
  {
    var w := e + ":" + digits;
    if digits == "" {
      assert w[..|w| - 1] == e;
    } else {
      assert w[..|w| - 1] == e + ":" + digits[..|digits| - 1];
      NameBehindDigits(e, digits[..|digits| - 1]);
    }
  }

  lemma NameOfWord(e: string, m: nat)
    ensures NameOf(IdWord(e, m)) == e
  {
    DecimalRoundTrip(m);
    assert ':' !in Decimal(m);
    NameBehindDigits(e, Decimal(m));
  }

  lemma IdWordIsWord(e: string, m: nat)
    requires IsName(e)
    ensures IdWord(e, m) != "" && NoSpace(IdWord(e, m))
  {
    DecimalRoundTrip(m);
  }

  /**
    The word of an entity `f` is taken for that of `e` exactly when the two are the
    same or `f` continues `e` after a colon.
    */
  lemma ColonConfusesStems(f: string, m: nat, e: string)
    ensures HasStem(IdWord(f, m), e) <==> f == e || Continues(e, f)
  {
    var w := IdWord(f, m);
    DecimalRoundTrip(m);
    assert w[..|f|] == f && w[|f|] == ':';
    assert forall k | |f| < k < |w| :: w[k] == Decimal(m)[k - |f| - 1] && IsDigit(w[k]);
    if HasStem(w, e) {
      StemEndsInColon(w, e);
      assert |e| <= |f|;
      assert |e| < |f| ==> w[..|e| + 1] == f[..|e| + 1];
      assert |e| == |f| ==> w[..|e| + 1][..|e|] == f && (e + ":")[..|e|] == e;
    }
    if e + ":" <= f {
      assert w[..|e| + 1] == f[..|e| + 1] == e + ":";
    }
    if f == e {
      assert w[..|e| + 1] == e + ":";
    }
  }

  lemma StemEndsInColon(w: string, e: string)
    requires HasStem(w, e)
    ensures |w| > |e| && w[..|e| + 1] == e + ":" && w[|e|] == ':'
  {
    assert |w| <= |e| + 1 ==> w[..|w|] == w;
    assert (e + ":")[|e|] == ':';
  }

  /** Stems tell the names of a set apart, whatever their numbers, exactly when none continues another after a colon. */
  lemma ToldApartExactly(names: set<string>)
    ensures (forall e, f, m | e in names && f in names && HasStem(IdWord(f, m), e) :: e == f) <==> ToldApart(names)
  {
    forall e, f, m: nat
      ensures HasStem(IdWord(f, m), e) <==> f == e || Continues(e, f)
    {
      ColonConfusesStems(f, m, e);
    }
    forall e, f | e in names && f in names && Continues(e, f)
      ensures HasStem(IdWord(f, 0), e) && e != f
    {
      assert |f| > |e|;
    }
  }

  /**
    What a name that continues another after a colon and digits does: its word is
    taken for the word of the shorter name, and the digits for its number.
    */
  lemma ColonNameIsMisread(e: string, k: nat, m: nat)
    requires k < TWO_TO_THE_64
    ensures var w := IdWord(e + ":" + Decimal(k), m);
      HasStem(w, e) && Stoull(w[|e| + 1..]) == Number(k)
  {
    var w, digits := IdWord(e + ":" + Decimal(k), m), Decimal(k);
    assert Continues(e, e + ":" + digits);
    ColonConfusesStems(e + ":" + digits, m, e);
    Right3(e + ":" + digits, ":", Decimal(m));
    Right3(e + ":", digits, ":" + Decimal(m));
    BehindStem(e, digits + (":" + Decimal(m)));
    NumberThenColon(k, Decimal(m));
  }

  lemma BehindStem(e: string, rest: string)
    ensures (e + ":" + rest)[|e| + 1..] == rest
  {
  }

  lemma NumberThenColon(k: nat, rest: string)
    requires k < TWO_TO_THE_64
    ensures Stoull(Decimal(k) + (":" + rest)) == Number(k)
  {
    var s := Decimal(k) + (":" + rest);
    DecimalRoundTrip(k);
    DigitsThenColon(Decimal(k), rest);
    assert s[0] == Decimal(k)[0] && IsDigit(s[0]) && s[..|Decimal(k)|] == Decimal(k);
  }

  lemma {:induction false} DigitsThenColon(digits: string, rest: string)
    requires AllDigits(digits)
    ensures LeadingDigits(digits + (":" + rest)) == |digits|
    decreases digits
  {
    var s := digits + (":" + rest);
    if digits != "" {
      assert s[1..] == digits[1..] + (":" + rest);
      DigitsThenColon(digits[1..], rest);
    }
  }

  /** Among the words of names told apart, a stem finds the word of its entity, and behind it its number. */
  lemma StemIsExact(w: string, ids: map<string, nat>, e: string)
    requires IsEntry(w, ids) && ToldApart(ids.Keys + {e})
    ensures HasStem(w, e) <==> NameOf(w) == e
    ensures HasStem(w, e) ==> w[|e| + 1..] == Decimal(ids[e])
  {
    var n := NameOf(w);
    ColonConfusesStems(n, ids[n], e);
    assert n in ids.Keys + {e};
    if n == e {
      assert w[|e| + 1..] == Decimal(ids[e]);
    }
  }

  // ----- The two updates of the file -----

  /** A new entity is appended. */
  lemma AppendDenotes(ws: seq<string>, ids: map<string, nat>, e: string, m: nat)
    requires Denote(ws, ids) && IsName(e) && m <= MAX_ID && e !in ids && ToldApart(ids.Keys + {e})
    ensures Denote(ws + [IdWord(e, m)], ids[e := m])
  {
    assert ids[e := m].Keys == ids.Keys + {e};
    LegalUpdate(ids, e, m);
    AppendedEntries(ws, ids, e, m);
    AppendedNames(ws, IdWord(e, m), ids.Keys, e);
  }

  lemma AppendedEntries(ws: seq<string>, ids: map<string, nat>, e: string, m: nat)
    requires (forall k | 0 <= k < |ws| :: IsEntry(ws[k], ids)) && e !in ids
    ensures NameOf(IdWord(e, m)) == e
    ensures forall k | 0 <= k < |ws| :: NameOf(ws[k]) in ids
    ensures var vs := ws + [IdWord(e, m)]; forall k | 0 <= k < |vs| :: IsEntry(vs[k], ids[e := m])
  {
    NameOfWord(e, m);
    var vs := ws + [IdWord(e, m)];
    forall k | 0 <= k < |vs|
      ensures IsEntry(vs[k], ids[e := m])
    {
      assert k < |ws| ==> vs[k] == ws[k] && IsEntry(ws[k], ids);
    }
  }

  lemma AppendedNames(ws: seq<string>, w: string, names: set<string>, e: string)
    requires Distinct(ws) && NameOf(w) == e && e !in names && forall k | 0 <= k < |ws| :: NameOf(ws[k]) in names
    requires forall f | f in names :: HasWord(ws, f)
    ensures Distinct(ws + [w])
    ensures forall f | f in names + {e} :: HasWord(ws + [w], f)
  {
    var vs := ws + [w];
    forall f | f in names + {e}
      ensures HasWord(vs, f)
    {
      if f == e {
        assert NameOf(vs[|ws|]) == e;
      } else {
        var k :| 0 <= k < |ws| && NameOf(ws[k]) == f;
        assert NameOf(vs[k]) == f;
      }
    }
  }

  function Replaced(ws: seq<string>, e: string, m: nat): (vs: seq<string>)
    ensures |vs| == |ws|
    ensures forall k | 0 <= k < |ws| :: vs[k] == if HasStem(ws[k], e) then IdWord(e, m) else ws[k]
  {
    if ws == [] then []
    else
      var w := ws[|ws| - 1];
      Replaced(ws[..|ws| - 1], e, m) + [if HasStem(w, e) then IdWord(e, m) else w]
  }

  /** The word of a known entity is replaced where it stands. */
  lemma ReplaceDenotes(ws: seq<string>, ids: map<string, nat>, e: string, m: nat)
    requires Denote(ws, ids) && m <= MAX_ID && e in ids
    ensures Denote(Replaced(ws, e, m), ids[e := m])
  {
    assert ids[e := m].Keys == ids.Keys;
    LegalUpdate(ids, e, m);
    ReplacedEntries(ws, ids, e, m);
    SameNames(ws, Replaced(ws, e, m), ids.Keys);
  }

  lemma ReplacedEntries(ws: seq<string>, ids: map<string, nat>, e: string, m: nat)
    requires (forall k | 0 <= k < |ws| :: IsEntry(ws[k], ids)) && e in ids && ToldApart(ids.Keys)
    ensures forall k | 0 <= k < |ws| ::
      NameOf(Replaced(ws, e, m)[k]) == NameOf(ws[k]) && IsEntry(Replaced(ws, e, m)[k], ids[e := m])
  {
    forall k | 0 <= k < |ws|
      ensures NameOf(Replaced(ws, e, m)[k]) == NameOf(ws[k]) && IsEntry(Replaced(ws, e, m)[k], ids[e := m])
    {
      ReplacedEntry(ws[k], ids, e, m);
    }
  }

  lemma SameNames(ws: seq<string>, vs: seq<string>, names: set<string>)
    requires |vs| == |ws| && forall k | 0 <= k < |ws| :: NameOf(vs[k]) == NameOf(ws[k])
    ensures Distinct(ws) ==> Distinct(vs)
    ensures (forall e | e in names :: HasWord(ws, e)) ==> forall e | e in names :: HasWord(vs, e)
  {
    forall e | e in names && HasWord(ws, e)
      ensures HasWord(vs, e)
    {
      var k :| 0 <= k < |ws| && NameOf(ws[k]) == e;
      assert NameOf(vs[k]) == e;
    }
  }

  lemma ReplacedEntry(w: string, ids: map<string, nat>, e: string, m: nat)
    requires IsEntry(w, ids) && e in ids && ToldApart(ids.Keys)
    ensures var v := if HasStem(w, e) then IdWord(e, m) else w;
      NameOf(v) == NameOf(w) && IsEntry(v, ids[e := m])
  {
    assert ids.Keys + {e} == ids.Keys;
    StemIsExact(w, ids, e);
    NameOfWord(e, m);
  }

  lemma DenotedWordsAreWords(ws: seq<string>, ids: map<string, nat>)
    requires Denote(ws, ids)
    ensures forall k | 0 <= k < |ws| :: ws[k] != "" && NoSpace(ws[k])
  {
    forall k | 0 <= k < |ws|
      ensures ws[k] != "" && NoSpace(ws[k])
    {
      assert IsEntry(ws[k], ids);
      IdWordIsWord(NameOf(ws[k]), ids[NameOf(ws[k])]);
    }
  }
}
