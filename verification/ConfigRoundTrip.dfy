/**
  Printing and parsing undo each other, parsing normalises, and comments between
  tokens do not matter.
  */
module ConfigRoundTrip {
  import opened ConfigTree
  import opened ConfigLexer
  import opened ConfigGrammar
  import opened Regroup

  // ----- The printer, read back by the lexer -----

  lemma SignificantBlank(blank: string, rest: string)
    requires forall i | 0 <= i < |blank| :: IsBlank(blank[i])
    ensures Significant(blank + rest) == Significant(rest)
  {
    ScanBlank(blank, rest);
  }

  lemma {:induction false} IndentIsBlank(depth: int)
    ensures forall i | 0 <= i < |Indent(depth)| :: IsBlank(Indent(depth)[i])
    decreases depth
  {
    if depth > 0 {
      IndentIsBlank(depth - 1);
    }
  }

  lemma SignificantWord(w: string, rest: string)
    requires IsWord(w) && rest != "" && EndsWord(rest[0])
    ensures Significant(w + rest) == [Word(w)] + Significant(rest)
  {
    ScanWord(w, rest);
  }

  lemma JoinSplit(words: seq<string>, rest: string)
    requires |words| > 1
    ensures JoinWords(words) + rest == JoinWords(words[..|words| - 1]) + (" " + (words[|words| - 1] + rest))
  {
    Right4(JoinWords(words[..|words| - 1]), " ", words[|words| - 1], rest);
  }

  lemma {:induction false} SignificantWords(words: seq<string>, rest: string)
    requires words != [] && forall i | 0 <= i < |words| :: IsWord(words[i])
    requires rest != "" && EndsWord(rest[0])
    ensures Significant(JoinWords(words) + rest) == WordTokens(words) + Significant(rest)
    decreases words
  {
    var front, w := words[..|words| - 1], words[|words| - 1];
    SignificantWord(w, rest);
    if front == [] {
      assert WordTokens(words) == [Word(w)];
    } else {
      var tail := " " + (w + rest);
      SignificantWords(front, tail);
      SignificantBlank(" ", w + rest);
      JoinSplit(words, rest);
      Right3(WordTokens(front), [Word(w)], Significant(rest));
    }
  }

  lemma {:induction false} SignificantStmt(s: Stmt, depth: int, rest: string)
    requires WellFormedStmt(s) && WordsStmt(s)
    ensures Significant(PrintStmt(s, depth) + rest) == DerivationStmt(s) + Significant(rest)
    decreases s, 1
  {
    IndentIsBlank(depth);
    var indent, words := Indent(depth), s.tokens;
    var joined := JoinWords(words);
    if s.Simple? {
      var tail := ";" + ("\n" + rest);
      Right5(indent, joined, ";", "\n", rest);
      SignificantBlank(indent, joined + tail);
      SignificantWords(words, tail);
      SignificantDelimiter(';', Semicolon, rest);
      Right3(WordTokens(words), [Semicolon], Significant(rest));
    } else {
      var tail := BlockText(s.body, depth, rest);
      PrintBlock(s, depth, rest);
      SignificantBlank(indent, joined + tail);
      SignificantWords(words, tail);
      SignificantBody(s.body, depth, rest);
      Right4([Open], Derivation(s.body), [Close], Significant(rest));
      Right3(WordTokens(words), [Open] + Derivation(s.body) + [Close], Significant(rest));
    }
  }

  /** What is printed after the words of a block, and then `rest`. */
  function BlockText(body: seq<Stmt>, depth: int, rest: string): string {
    " " + ("{" + ("\n" + (Print(body, depth + 1) + (Indent(depth) + ("}" + ("\n" + rest))))))
  }

  lemma PrintBlock(s: Stmt, depth: int, rest: string)
    requires s.Block?
    ensures PrintStmt(s, depth) + rest == Indent(depth) + (JoinWords(s.tokens) + BlockText(s.body, depth, rest))
  {
    var indent, body := Indent(depth), Print(s.body, depth + 1);
    var block := " {\n" + body + indent + "}";
    Right5(indent, JoinWords(s.tokens), block, "\n", rest);
    var tail := "\n" + rest;
    Right3(" {\n" + body + indent, "}", tail);
    Right4(" {\n", body, indent, "}" + tail);
    assert " {\n" == " " + "{" + "\n";
    Right4(" ", "{", "\n", body + (indent + ("}" + tail)));
  }

  lemma {:induction false} SignificantBody(body: seq<Stmt>, depth: int, rest: string)
    requires Printable(body)
    ensures Significant(BlockText(body, depth, rest)) == [Open] + (Derivation(body) + ([Close] + Significant(rest)))
    decreases body, 1
  {
    IndentIsBlank(depth);
    var close := "}" + ("\n" + rest);
    var inner := Print(body, depth + 1) + (Indent(depth) + close);
    SignificantBlank(" ", "{" + ("\n" + inner));
    SignificantDelimiter('{', Open, inner);
    SignificantTree(body, depth + 1, Indent(depth) + close);
    SignificantBlank(Indent(depth), close);
    SignificantDelimiter('}', Close, rest);
  }

  lemma SignificantDelimiter(c: char, tok: Token, rest: string)
    requires (c == ';' && tok == Semicolon) || (c == '{' && tok == Open) || (c == '}' && tok == Close)
    ensures Significant([c] + ("\n" + rest)) == [tok] + Significant(rest)
  {
    assert ([c] + ("\n" + rest))[1..] == "\n" + rest;
    SignificantBlank("\n", rest);
  }

  lemma {:induction false} SignificantTree(t: seq<Stmt>, depth: int, rest: string)
    requires Printable(t)
    ensures Significant(Print(t, depth) + rest) == Derivation(t) + Significant(rest)
    decreases t, 0
  {
    if t == [] {
      assert Print(t, depth) + rest == rest;
    } else {
      var front, s := t[..|t| - 1], t[|t| - 1];
      Right3(Print(front, depth), PrintStmt(s, depth), rest);
      SignificantTree(front, depth, PrintStmt(s, depth) + rest);
      SignificantStmt(s, depth, rest);
      Right3(Derivation(front), DerivationStmt(s), Significant(rest));
    }
  }

  // ----- The words of a parsed tree -----

  predicate AllWords(toks: seq<Token>) {
    forall i | 0 <= i < |toks| && toks[i].Word? :: IsWord(toks[i].text)
  }

  lemma {:induction false} SignificantYieldsWords(s: string)
    ensures AllWords(Significant(s))
    decreases |s|
  {
    ScanYieldsWords(InitialWhitespace, "", s);
    var l := Scan(InitialWhitespace, "", s);
    if !Ends(l.kind) {
      SignificantYieldsWords(l.rest);
    }
  }

  lemma {:induction false} WordsOfTokens(words: seq<string>)
    requires AllWords(WordTokens(words))
    ensures forall i | 0 <= i < |words| :: IsWord(words[i])
    decreases words
  {
    if words != [] {
      var front := words[..|words| - 1];
      assert WordTokens(words)[..|WordTokens(front)|] == WordTokens(front);
      assert WordTokens(words)[|WordTokens(front)|] == Word(words[|words| - 1]);
      WordsOfTokens(front);
    }
  }

  lemma {:induction false} TreeOfWords(t: seq<Stmt>)
    requires AllWords(Derivation(t))
    ensures Words(t)
    decreases t
  {
    if t != [] {
      var front, s := t[..|t| - 1], t[|t| - 1];
      var n, m := |Derivation(front)|, |WordTokens(s.tokens)|;
      assert Derivation(t)[..n] == Derivation(front);
      TreeOfWords(front);
      assert Derivation(t)[n..][..m] == WordTokens(s.tokens);
      WordsOfTokens(s.tokens);
      if s.Block? {
        assert Derivation(t)[n..][m + 1..][..|Derivation(s.body)|] == Derivation(s.body);
        TreeOfWords(s.body);
      }
    }
  }

  // ----- Main results -----

  /**
    Printing a tree and parsing the text gives the tree back, at every starting
    depth, exactly when it is printable and has at least one statement.
    */
  lemma RoundTrip(t: seq<Stmt>, depth: int)
    ensures ParseText(Print(t, depth)) == Accept(t) <==> Printable(t) && t != []
  {
    if Printable(t) && t != [] {
      SignificantTree(t, depth, "");
      assert Print(t, depth) + "" == Print(t, depth);
      assert Significant("") == [End];
      SignificantTerminated(Print(t, depth));
      AcceptsExactlyDerivations(Significant(Print(t, depth)), t);
    }
    if ParseText(Print(t, depth)) == Accept(t) {
      ParsedTreesArePrintable(Print(t, depth), t);
    }
  }

  lemma ParsedTreesArePrintable(s: string, t: seq<Stmt>)
    requires ParseText(s) == Accept(t)
    ensures Printable(t) && t != []
  {
    SignificantTerminated(s);
    AcceptsExactlyDerivations(Significant(s), t);
    SignificantYieldsWords(s);
    assert Significant(s)[..|Derivation(t)|] == Derivation(t);
    TreeOfWords(t);
  }

  /** Printing what was parsed is a normal form: it parses to the same tree, whose text it already is. */
  lemma ParsingNormalises(s: string, t: seq<Stmt>, depth: int)
    requires ParseText(s) == Accept(t)
    ensures ParseText(Print(t, depth)) == Accept(t)
    ensures forall u :: ParseText(Print(t, depth)) == Accept(u) ==> Print(u, depth) == Print(t, depth)
  {
    ParsedTreesArePrintable(s, t);
    RoundTrip(t, depth);
  }

  /** A text parses to `t` exactly when its comment-free tokens derive `t` from `stmt+`. */
  lemma {:induction false} ParsesExactlyTheGrammar(s: string, t: seq<Stmt>)
    ensures ParseText(s) == Accept(t) <==> Significant(s) == Derivation(t) + [End] && t != [] && WellFormed(t)
  {
    SignificantTerminated(s);
    AcceptsExactlyDerivations(Significant(s), t);
  }

  // ----- Comments -----

  /** The state the lexer is in after reading `s`, whatever follows. */
  function StateAfter(state: LexState, s: string): LexState
    decreases |s|
  {
    if s == "" then state
    else
      var c, t := s[0], s[1..];
      match state
      case InSingleQuote => StateAfter(if c == '\'' then InitialWhitespace else state, t)
      case InDoubleQuote => StateAfter(if c == '"' then InitialWhitespace else state, t)
      case InComment => StateAfter(if c == '\n' || c == '\r' then InitialWhitespace else state, t)
      case InNormal => StateAfter(if EndsWord(c) then InitialWhitespace else state, t)
      case InitialWhitespace =>
        if c == '#' then StateAfter(InComment, t)
        else if c == '"' then StateAfter(InDoubleQuote, t)
        else if c == '\'' then StateAfter(InSingleQuote, t)
        else if StartsWord(c) then StateAfter(InNormal, t)
        else StateAfter(state, t)
  }

  /** The token that starts in `a` also ends in `a`, before `a[cut..]`, whatever text follows. */
  ghost predicate CutAt(state: LexState, value: string, a: string, cut: nat, kind: TokenType, text: string) {
    && cut <= |a|
    && !Ends(kind)
    && StateAfter(InitialWhitespace, a[cut..]) == InitialWhitespace
    && forall x :: Scan(state, value, a + x) == Lexeme(kind, text, a[cut..] + x)
  }

  lemma {:induction false} FindCut(state: LexState, value: string, a: string)
    returns (cut: nat, kind: TokenType, text: string)
    requires StateAfter(state, a) == InitialWhitespace
    requires state == InitialWhitespace ==> exists i :: 0 <= i < |a| && !IsBlank(a[i])
    ensures CutAt(state, value, a, cut, kind, text)
    decreases |a|
  {
    var c, t := a[0], a[1..];
    assert forall x :: (a + x)[1..] == t + x && (a + x)[0] == c;
    assert a[0..] == a && a[1..] == t;
    var next, grown := state, value + [c];
    match state {
      case InSingleQuote =>
        if c == '\'' { return 1, Normal, grown; }
      case InDoubleQuote =>
        if c == '"' { return 1, Normal, grown; }
      case InComment =>
        if c == '\n' || c == '\r' { return 1, Comment, value; }
      case InNormal =>
        if EndsWord(c) { return 0, Normal, value; }
      case InitialWhitespace =>
        if c == '{' { return 1, StartBlock, [c]; }
        if c == '}' { return 1, EndBlock, [c]; }
        if c == ';' { return 1, StatementEnd, [c]; }
        if c == '#' { next, grown := InComment, [c]; }
        else if c == '"' { next, grown := InDoubleQuote, [c]; }
        else if c == '\'' { next, grown := InSingleQuote, [c]; }
        else if IsBlank(c) {
          grown := value;
          var i :| 0 <= i < |a| && !IsBlank(a[i]);
          assert t[i - 1] == a[i];
        }
        else { next := InNormal; }
    }
    var cut';
    cut', kind, text := FindCut(next, grown, t);
    cut := cut' + 1;
    assert a[cut..] == t[cut'..];
  }

  /**
    A comment line put anywhere the lexer is between tokens, even in the middle of
    a statement, changes neither the tokens nor the outcome of the parse.
    */
  lemma {:induction false} CommentsDoNotMatter(a: string, comment: string, b: string)
    requires StateAfter(InitialWhitespace, a) == InitialWhitespace
    requires '\n' !in comment && '\r' !in comment
    ensures Significant(a + ("#" + comment + "\n") + b) == Significant(a + b)
    ensures ParseText(a + ("#" + comment + "\n") + b) == ParseText(a + b)
    decreases |a|
  {
    var line := "#" + comment + "\n";
    assert a + line + b == a + (line + b);
    if exists i :: 0 <= i < |a| && !IsBlank(a[i]) {
      var cut, kind, text := FindCut(InitialWhitespace, "", a);
      var rest := a[cut..];
      SignificantCut(a, b, cut, kind, text);
      SignificantCut(a, line + b, cut, kind, text);
      assert |rest + b| < |a + b|;
      assert rest + line + b == rest + (line + b);
      CommentsDoNotMatter(rest, comment, b);
    } else {
      SignificantBlank(a, b);
      SignificantBlank(a, line + b);
      SignificantComment(comment, b);
    }
  }

  lemma SignificantCut(a: string, x: string, cut: nat, kind: TokenType, text: string)
    requires CutAt(InitialWhitespace, "", a, cut, kind, text)
    ensures |a[cut..] + x| < |a + x|
    ensures Significant(a + x)
      == (if kind == Comment then [] else [TokenOf(Lexeme(kind, text, ""))]) + Significant(a[cut..] + x)
  {
    assert Scan(InitialWhitespace, "", a + x) == Lexeme(kind, text, a[cut..] + x);
  }

  lemma SignificantComment(comment: string, b: string)
    requires '\n' !in comment && '\r' !in comment
    ensures Significant("#" + comment + "\n" + b) == Significant(b)
  {
    ScanComment("#", comment, b);
    assert ("#" + comment + "\n" + b)[1..] == comment + ("\n" + b);
  }

  lemma {:induction false} ScanComment(value: string, comment: string, rest: string)
    requires '\n' !in comment && '\r' !in comment
    ensures Scan(InComment, value, comment + ("\n" + rest)) == Lexeme(Comment, value + comment, rest)
    decreases comment
  {
    if comment == "" {
      assert comment + ("\n" + rest) == "\n" + rest && ("\n" + rest)[1..] == rest;
      assert value + comment == value;
    } else {
      assert (comment + ("\n" + rest))[1..] == comment[1..] + ("\n" + rest);
      ScanComment(value + [comment[0]], comment[1..], rest);
      assert value + [comment[0]] + comment[1..] == value + comment;
    }
  }

  // ----- Text cut off by the end of the file -----

  lemma {:induction false} ScanOpenWord(state: LexState, value: string, w: string)
    requires state == InNormal || state == InComment
    requires state == InNormal ==> forall i | 0 <= i < |w| :: !EndsWord(w[i])
    requires state == InComment ==> '\n' !in w && '\r' !in w
    ensures Scan(state, value, w).kind == Eof
    decreases w
  {
    if w != "" {
      ScanOpenWord(state, value + [w[0]], w[1..]);
    }
  }

  /**
    A bare word or a comment that the end of the file cuts off is dropped without
    an error: the text is accepted or rejected as if it were not there.
    */
  lemma {:induction false} CutOffTailIsDropped(a: string, tail: string)
    requires StateAfter(InitialWhitespace, a) == InitialWhitespace
    requires IsBare(tail) || (tail != "" && tail[0] == '#' && '\n' !in tail && '\r' !in tail)
    ensures ParseText(a + tail) == ParseText(a)
    ensures Significant(a + tail) == Significant(a)
    decreases |a|
  {
    assert a + "" == a;
    if exists i :: 0 <= i < |a| && !IsBlank(a[i]) {
      var cut, kind, text := FindCut(InitialWhitespace, "", a);
      SignificantCut(a, tail, cut, kind, text);
      SignificantCut(a, "", cut, kind, text);
      assert a[cut..] + "" == a[cut..];
      CutOffTailIsDropped(a[cut..], tail);
    } else {
      SignificantBlank(a, tail);
      SignificantBlank(a, "");
      if tail[0] == '#' {
        ScanOpenWord(InComment, [tail[0]], tail[1..]);
      } else {
        ScanOpenWord(InNormal, "" + [tail[0]], tail[1..]);
      }
    }
  }
}
