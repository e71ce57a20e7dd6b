/**
  The parser as a pushdown automaton over the comment-free token stream, and its
  two partners: the grammar it accepts, and the printer it undoes.
  */
module ConfigGrammar {
  import opened ConfigTree
  import opened ConfigLexer
  import opened Regroup

  datatype Token = Word(text: string) | Semicolon | Open | Close | End | Broken

  /** The tokens of a text with the comments dropped, up to the end or an open quote. */
  function Significant(s: string): (toks: seq<Token>)
    decreases |s|
  {
    var l := Scan(InitialWhitespace, "", s);
    if l.kind == Eof then [End]
    else if l.kind == Error then [Broken]
    else if l.kind == Comment then Significant(l.rest)
    else [TokenOf(l)] + Significant(l.rest)
  }

  /** `End` or `Broken` comes last, and only last. */
  predicate Terminated(toks: seq<Token>) {
    toks != [] && forall i | 0 <= i < |toks| :: (toks[i] == End || toks[i] == Broken) <==> i == |toks| - 1
  }

  lemma {:induction false} SignificantTerminated(s: string)
    ensures Terminated(Significant(s))
    decreases |s|
  {
    var l := Scan(InitialWhitespace, "", s);
    if !Ends(l.kind) {
      SignificantTerminated(l.rest);
    }
  }

  function TokenOf(l: Lexeme): Token {
    match l.kind
    case Normal => Word(l.value)
    case StatementEnd => Semicolon
    case StartBlock => Open
    case EndBlock => Close
    case _ => Broken
  }

  // ----- The automaton -----

  /** A configuration below the top of the stack: its closed statements, and the words of the open block. */
  datatype Frame = Frame(done: seq<Stmt>, words: seq<string>)

  /**
    The closed statements of the configuration on top of the stack, and the words
    of the statement it is collecting, if any.
    */
  datatype PState = PState(below: seq<Frame>, done: seq<Stmt>, words: seq<string>, last: TokenType)

  predicate AfterStatement(last: TokenType) {
    last == StatementEnd || last == EndBlock
  }

  predicate Valid(p: PState) {
    && p.last in {Start, Normal, StartBlock, EndBlock, StatementEnd}
    && (p.last == Normal <==> p.words != [])
    && (AfterStatement(p.last) ==> p.done != [])
  }

  datatype Outcome = Continue(next: PState) | Accept(tree: seq<Stmt>) | Reject

  /** One token. A `}` that would pop the root is a rejection. */
  function Step(p: PState, tok: Token): (o: Outcome)
    requires Valid(p)
    ensures o.Continue? ==> Valid(o.next)
  {
    match tok
    case Word(w) =>
      Continue(p.(words := p.words + [w], last := Normal))
    case Semicolon =>
      if p.last != Normal then Reject
      else Continue(PState(p.below, p.done + [Simple(p.words)], [], StatementEnd))
    case Open =>
      if p.last != Normal then Reject
      else Continue(PState(p.below + [Frame(p.done, p.words)], [], [], StartBlock))
    case Close =>
      if !AfterStatement(p.last) && p.last != StartBlock then Reject
      else if p.below == [] then Reject
      else
        var f := p.below[|p.below| - 1];
        Continue(PState(p.below[..|p.below| - 1], f.done + [Block(f.words, p.done)], [], EndBlock))
    case End =>
      if p.below != [] || !AfterStatement(p.last) then Reject else Accept(p.done)
    case Broken => Reject
  }

  function Run(p: PState, toks: seq<Token>): (o: Outcome)
    requires Valid(p)
    ensures !o.Continue?
    decreases toks
  {
    if toks == [] then Reject
    else
      match Step(p, toks[0])
      case Continue(q) => Run(q, toks[1..])
      case done => done
  }

  lemma RunHead(p: PState, tok: Token, rest: seq<Token>)
    requires Valid(p)
    ensures var o := Step(p, tok);
      Run(p, [tok] + rest) == if o.Continue? then Run(o.next, rest) else o
  {
  }

  /** The start of a parse into a configuration that already holds some statements. */
  function StartOn(initial: seq<Stmt>): (p: PState)
    ensures Valid(p)
  {
    PState([], initial, [], Start)
  }

  function ParseText(s: string): Outcome {
    Run(StartOn([]), Significant(s))
  }

  // ----- The grammar: stmt+ with stmt := word+ ';' | word+ '{' stmt* '}' -----

  function WordTokens(words: seq<string>): seq<Token> {
    if words == [] then [] else WordTokens(words[..|words| - 1]) + [Word(words[|words| - 1])]
  }

  /** The token string that a tree derives. */
  function Derivation(t: seq<Stmt>): seq<Token>
    decreases t
  {
    if t == [] then []
    else
      var front := t[..|t| - 1];
      Derivation(front) + DerivationStmt(t[|t| - 1])
  }

  function DerivationStmt(s: Stmt): seq<Token>
    decreases s
  {
    WordTokens(s.tokens) +
    match s
    case Simple(_) => [Semicolon]
    case Block(_, body) => [Open] + Derivation(body) + [Close]
  }

  lemma DerivationSnoc(t: seq<Stmt>, s: Stmt)
    ensures Derivation(t + [s]) == Derivation(t) + DerivationStmt(s)
  {
    assert (t + [s])[..|t|] == t;
  }

  // ----- Soundness: what has been consumed is what the frames derive -----

  function BelowTokens(below: seq<Frame>): seq<Token> {
    if below == [] then []
    else
      var f := below[|below| - 1];
      BelowTokens(below[..|below| - 1]) + (Derivation(f.done) + WordTokens(f.words) + [Open])
  }

  /** The tokens that lead from the start to `p`, read off its frames. */
  function Consumed(p: PState): seq<Token> {
    BelowTokens(p.below) + (Derivation(p.done) + WordTokens(p.words))
  }

  lemma StepExtendsConsumed(p: PState, tok: Token)
    requires Valid(p)
    requires Step(p, tok).Continue?
    ensures Consumed(Step(p, tok).next) == Consumed(p) + [tok]
  {
    match tok
    case Word(w) =>
      WordExtends(p, w);
    case Semicolon =>
      SemicolonExtends(p);
    case Open =>
      OpenExtends(p);
    case Close =>
      CloseExtends(p);
  }

  lemma WordExtends(p: PState, w: string)
    requires Valid(p)
    ensures Consumed(Step(p, Word(w)).next) == Consumed(p) + [Word(w)]
  {
    var b, d, ws := BelowTokens(p.below), Derivation(p.done), WordTokens(p.words);
    assert (p.words + [w])[..|p.words|] == p.words;
    assert WordTokens(p.words + [w]) == ws + [Word(w)];
    Right3(d, ws, [Word(w)]);
    Right3(b, d + ws, [Word(w)]);
  }

  lemma SemicolonExtends(p: PState)
    requires Valid(p) && p.last == Normal
    ensures Consumed(Step(p, Semicolon).next) == Consumed(p) + [Semicolon]
  {
    var b, d, ws := BelowTokens(p.below), Derivation(p.done), WordTokens(p.words);
    DerivationSnoc(p.done, Simple(p.words));
    Empty(d + (ws + [Semicolon]));
    Right3(d, ws, [Semicolon]);
    Right3(b, d + ws, [Semicolon]);
  }

  lemma OpenExtends(p: PState)
    requires Valid(p) && p.last == Normal
    ensures Consumed(Step(p, Open).next) == Consumed(p) + [Open]
  {
    var b, d, ws := BelowTokens(p.below), Derivation(p.done), WordTokens(p.words);
    var below := p.below + [Frame(p.done, p.words)];
    assert below[..|p.below|] == p.below;
    assert BelowTokens(below) == b + (d + ws + [Open]);
    Empty(BelowTokens(below));
    Right3(b, d + ws, [Open]);
  }

  lemma CloseExtends(p: PState)
    requires Valid(p) && Step(p, Close).Continue?
    ensures Consumed(Step(p, Close).next) == Consumed(p) + [Close]
  {
    var f := p.below[|p.below| - 1];
    DerivationSnoc(f.done, Block(f.words, p.done));
    var b, d, ws := BelowTokens(p.below[..|p.below| - 1]), Derivation(f.done), WordTokens(f.words);
    RegroupBlock(b, d, ws, Derivation(p.done));
  }

  lemma RegroupBlock(b: seq<Token>, d: seq<Token>, ws: seq<Token>, body: seq<Token>)
    ensures b + (d + (ws + ([Open] + body + [Close])) + []) == b + (d + ws + [Open]) + (body + []) + [Close]
  {
    Empty(d + (ws + ([Open] + body + [Close])));
    Empty(body);
    Right5(d, ws, [Open], body, [Close]);
    Right3([Open], body, [Close]);
    Right4(b, d + ws + [Open], body, [Close]);
    Right3(d + ws + [Open], body, [Close]);
  }

  /** Every statement collected so far has its words. */
  predicate WordsKept(p: PState) {
    && WellFormed(p.done)
    && forall i | 0 <= i < |p.below| :: WellFormed(p.below[i].done) && p.below[i].words != []
  }

  lemma StepKeepsWords(p: PState, tok: Token)
    requires Valid(p) && WordsKept(p) && Step(p, tok).Continue?
    ensures WordsKept(Step(p, tok).next)
  {
  }

  lemma {:induction false} RunSound(p: PState, body: seq<Token>)
    requires Valid(p) && WordsKept(p)
    requires End !in body && Run(p, body + [End]).Accept?
    ensures var t := Run(p, body + [End]).tree;
      Derivation(t) == Consumed(p) + body && WellFormed(t) && t != []
    decreases body
  {
    if body != [] {
      assert (body + [End])[1..] == body[1..] + [End];
      StepExtendsConsumed(p, body[0]);
      var c := Consumed(p);
      assert c + [body[0]] + body[1..] == c + body;
      StepKeepsWords(p, body[0]);
      RunSound(Step(p, body[0]).next, body[1..]);
    }
  }

  lemma {:induction false} NoAcceptWithoutEnd(p: PState, toks: seq<Token>)
    requires Valid(p) && End !in toks
    ensures Run(p, toks).Reject?
    decreases toks
  {
    if toks != [] && Step(p, toks[0]).Continue? {
      NoAcceptWithoutEnd(Step(p, toks[0]).next, toks[1..]);
    }
  }

  // ----- Completeness: a derivation drives the automaton to its tree -----

  lemma {:induction false} RunWords(p: PState, words: seq<string>, toks: seq<Token>)
    requires Valid(p)
    ensures words != [] ==>
      Run(p, WordTokens(words) + toks) == Run(p.(words := p.words + words, last := Normal), toks)
    decreases words
  {
    if words != [] {
      var front, w := words[..|words| - 1], words[|words| - 1];
      Right3(WordTokens(front), [Word(w)], toks);
      RunWords(p, front, [Word(w)] + toks);
      var q := if front == [] then p else p.(words := p.words + front, last := Normal);
      assert front == [] ==> WordTokens(front) + ([Word(w)] + toks) == [Word(w)] + toks;
      RunHead(q, Word(w), toks);
      assert q.words + [w] == p.words + words;
    }
  }

  /** The token type the automaton has last seen after the statements `t`. */
  function LastAfter(t: seq<Stmt>, last: TokenType): TokenType {
    if t == [] then last else if t[|t| - 1].Simple? then StatementEnd else EndBlock
  }

  lemma {:induction false} RunStmt(p: PState, s: Stmt, toks: seq<Token>)
    requires Valid(p) && p.last != Normal
    requires WellFormedStmt(s)
    ensures Run(p, DerivationStmt(s) + toks) == Run(p.(done := p.done + [s], last := LastAfter([s], p.last)), toks)
    decreases s, 1
  {
    RunNamed(p, s, toks);
    var named := p.(words := s.tokens, last := Normal);
    match s
    case Simple(_) =>
      RunHead(named, Semicolon, toks);
    case Block(_, body) =>
      var inside := PState(p.below + [Frame(p.done, s.tokens)], [], [], StartBlock);
      RunHead(named, Open, Derivation(body) + ([Close] + toks));
      RunTree(inside, body, [Close] + toks);
      Empty(body);
      RunClose(p, s, inside.(done := body, last := LastAfter(body, StartBlock)), toks);
  }

  lemma RunClose(p: PState, s: Stmt, full: PState, toks: seq<Token>)
    requires Valid(p) && p.last != Normal && Valid(full) && full.last != Normal && full.last != Start
    requires s.Block? && full.below == p.below + [Frame(p.done, s.tokens)] && full.done == s.body
    ensures Run(full, [Close] + toks) == Run(p.(done := p.done + [s], last := EndBlock), toks)
  {
    RunHead(full, Close, toks);
    assert full.below[..|p.below|] == p.below;
  }

  /** The words of a statement, then what is left of its derivation. */
  lemma RunNamed(p: PState, s: Stmt, toks: seq<Token>)
    requires Valid(p) && p.last != Normal && s.tokens != []
    ensures Run(p, DerivationStmt(s) + toks)
         == Run(p.(words := s.tokens, last := Normal),
                if s.Simple? then [Semicolon] + toks else [Open] + (Derivation(s.body) + ([Close] + toks)))
  {
    Empty(s.tokens);
    match s
    case Simple(_) =>
      Right3(WordTokens(s.tokens), [Semicolon], toks);
      RunWords(p, s.tokens, [Semicolon] + toks);
    case Block(_, body) =>
      Right4([Open], Derivation(body), [Close], toks);
      Right3(WordTokens(s.tokens), [Open] + Derivation(body) + [Close], toks);
      RunWords(p, s.tokens, [Open] + (Derivation(body) + ([Close] + toks)));
  }

  lemma {:induction false} RunTree(p: PState, t: seq<Stmt>, toks: seq<Token>)
    requires Valid(p) && p.last != Normal
    requires WellFormed(t)
    ensures Run(p, Derivation(t) + toks) == Run(p.(done := p.done + t, last := LastAfter(t, p.last)), toks)
    decreases t, 0
  {
    if t == [] {
      assert Derivation(t) + toks == toks && p.done + t == p.done;
    } else {
      var front, s := t[..|t| - 1], t[|t| - 1];
      Right3(Derivation(front), DerivationStmt(s), toks);
      RunTree(p, front, DerivationStmt(s) + toks);
      RunStmt(p.(done := p.done + front, last := LastAfter(front, p.last)), s, toks);
      assert p.done + front + [s] == p.done + t;
    }
  }

  /**
    The automaton accepts exactly the token strings that `stmt+` derives, and the
    tree it returns is that derivation (which is therefore unique).
    */
  lemma AcceptsExactlyDerivations(toks: seq<Token>, t: seq<Stmt>)
    requires Terminated(toks)
    ensures Run(StartOn([]), toks) == Accept(t)
       <==> toks == Derivation(t) + [End] && t != [] && WellFormed(t)
  {
    if Run(StartOn([]), toks) == Accept(t) {
      AcceptedIsDerivation(toks, t);
    }
    if toks == Derivation(t) + [End] && t != [] && WellFormed(t) {
      DerivationIsAccepted(t);
    }
  }

  lemma AtTheEnd(p: PState)
    requires Valid(p) && p.below == [] && AfterStatement(p.last)
    ensures Run(p, [End]) == Accept(p.done)
  {
  }

  lemma DerivationIsAccepted(t: seq<Stmt>)
    requires t != [] && WellFormed(t)
    ensures Run(StartOn([]), Derivation(t) + [End]) == Accept(t)
  {
    RunTree(StartOn([]), t, [End]);
    Empty(t);
    AtTheEnd(PState([], t, [], LastAfter(t, Start)));
  }

  lemma AcceptedIsDerivation(toks: seq<Token>, t: seq<Stmt>)
    requires Terminated(toks)
    requires Run(StartOn([]), toks) == Accept(t)
    ensures toks == Derivation(t) + [End] && t != [] && WellFormed(t)
  {
    if End !in toks {
      NoAcceptWithoutEnd(StartOn([]), toks);
    }
    var body := toks[..|toks| - 1];
    assert toks == body + [End];
    RunSound(StartOn([]), body);
    Empty(body);
  }

  // ----- The stack -----

  function Count(toks: seq<Token>, tok: Token): nat {
    if toks == [] then 0 else Count(toks[1..], tok) + if toks[0] == tok then 1 else 0
  }

  /** The state after the tokens `toks`, none of which ended the parse. */
  ghost predicate Reaches(p: PState, toks: seq<Token>, q: PState)
    requires Valid(p)
    decreases toks
  {
    if toks == [] then p == q
    else Step(p, toks[0]).Continue? && Reaches(Step(p, toks[0]).next, toks[1..], q)
  }

  /** The configurations on the stack, the root included. */
  function Depth(p: PState): nat {
    |p.below| + 1
  }

  lemma {:induction false} DepthCountsBraces(p: PState, toks: seq<Token>, q: PState)
    requires Valid(p) && Reaches(p, toks, q)
    ensures Depth(q) == Depth(p) + Count(toks, Open) - Count(toks, Close)
    decreases toks
  {
    if toks != [] {
      DepthCountsBraces(Step(p, toks[0]).next, toks[1..], q);
    }
  }

  // ----- Parsing into a configuration that is not empty -----

  function Rebased(initial: seq<Stmt>, p: PState): PState {
    if p.below == [] then p.(done := initial + p.done)
    else p.(below := p.below[0 := p.below[0].(done := initial + p.below[0].done)])
  }

  lemma {:induction false} RunRebased(initial: seq<Stmt>, p: PState, toks: seq<Token>)
    requires Valid(p)
    ensures Valid(Rebased(initial, p))
    ensures var o := Run(p, toks);
      Run(Rebased(initial, p), toks) == if o.Accept? then Accept(initial + o.tree) else o
    decreases toks
  {
    if toks != [] {
      StepRebased(initial, p, toks[0]);
      if Step(p, toks[0]).Continue? {
        RunRebased(initial, Step(p, toks[0]).next, toks[1..]);
      }
    }
  }

  lemma StepRebased(initial: seq<Stmt>, p: PState, tok: Token)
    requires Valid(p)
    ensures Valid(Rebased(initial, p))
    ensures Step(Rebased(initial, p), tok) ==
      match Step(p, tok)
      case Continue(q) => Continue(Rebased(initial, q))
      case Accept(t) => Accept(initial + t)
      case Reject => Reject
  {
    match tok
    case Semicolon =>
      Right3(initial, p.done, [Simple(p.words)]);
    case Open =>
      OpenRebased(initial, p.below, Frame(p.done, p.words));
    case Close =>
      if Step(p, Close).Continue? {
        CloseRebased(initial, p);
      }
    case _ =>
  }

  lemma OpenRebased(initial: seq<Stmt>, below: seq<Frame>, f: Frame)
    ensures below == [] ==> (below + [f])[0 := f.(done := initial + f.done)] == [] + [f.(done := initial + f.done)]
    ensures below != [] ==>
      var g := below[0].(done := initial + below[0].done);
      (below + [f])[0 := g] == below[0 := g] + [f]
  {
  }

  lemma CloseRebased(initial: seq<Stmt>, p: PState)
    requires Valid(p) && p.below != [] && Step(p, Close).Continue?
    ensures Step(Rebased(initial, p), Close) == Continue(Rebased(initial, Step(p, Close).next))
  {
    var n := |p.below|;
    var f := p.below[n - 1];
    Right3(initial, f.done, [Block(f.words, p.done)]);
    if n > 1 {
      var g := p.below[0].(done := initial + p.below[0].done);
      assert p.below[0 := g][..n - 1] == p.below[..n - 1][0 := g];
    }
  }
}
