/**
  The parser proper: it reads tokens off a stream and grows the tree in place,
  through a stack of the configurations that are still open.
  */
module ConfigParser {
  import opened ConfigTree
  import opened ConfigLexer
  import opened ConfigGrammar
  import opened ConfigObjects

  /** The first `|done|` statements of `c` are finished and lie in `closed`. */
  ghost predicate Finished(c: NginxConfig, done: seq<Stmt>, closed: set<object>)
    reads c, closed
  {
    && c !in closed
    && |done| <= |c.statements|
    && forall i | 0 <= i < |done| :: IsStmt(c.statements[i], done[i], closed)
  }

  /** After those, `c` has one more statement, made and still open, with the given words and block. */
  ghost predicate HasOpen(c: NginxConfig, done: seq<Stmt>, words: seq<string>, block: NginxConfig?,
                          closed: set<object>, made: set<object>)
    reads c, made
  {
    && |c.statements| == |done| + 1
    && var s := c.statements[|done|];
       s in made && s !in closed && s.tokens == words && s.childBlock == block
  }

  ghost predicate Collects(c: NginxConfig, f: Frame, block: NginxConfig, closed: set<object>, made: set<object>)
    reads c, closed, made
  {
    Finished(c, f.done, closed) && HasOpen(c, f.done, f.words, block, closed, made)
  }

  /** The objects on the stack are at the point that the automaton state `p` describes. */
  ghost predicate AtState(stack: seq<NginxConfig>, p: PState, closed: set<object>, made: set<object>)
    reads stack, closed, made
  {
    && |stack| == Depth(p)
    && (forall i | 1 <= i < |stack| :: stack[i] in made)
    && (forall i, j | 0 <= i < j < |stack| :: stack[i] != stack[j])
    && (forall i | 0 <= i < |p.below| :: Collects(stack[i], p.below[i], stack[i + 1], closed, made))
    && var top := stack[|p.below|];
       && Finished(top, p.done, closed)
       && (p.words == [] ==> |top.statements| == |p.done|)
       && (p.words != [] ==> HasOpen(top, p.done, p.words, null, closed, made))
  }

  class NginxConfigParser {

    /**
      Parses the stream into `config`, whose statements are appended to. It answers
      as the automaton does on the comment-free tokens of the text, and on success
      the objects hold the statements that were there followed by the parsed tree.
      */
    method Parse(input: InputStream, config: NginxConfig, ghost initial: seq<Stmt>, ghost heap: set<object>)
      returns (ok: bool, ghost newHeap: set<object>)
      requires input.Valid()
      requires Finished(config, initial, heap) && |config.statements| == |initial|
      requires input !in heap && input as object != config
      modifies input, config
      ensures ok == ParseText(old(input.Rest())).Accept?
      ensures ok ==> IsTree(config, initial + ParseText(old(input.Rest())).tree, newHeap)
      ensures fresh(newHeap - heap - {config})
    {
      ParseInto(initial, input.Rest());
      ghost var outcome := Run(StartOn(initial), Significant(input.Rest()));
      ghost var closed, made: set<object>, p := heap, {}, StartOn(initial);
      var stack: seq<NginxConfig> := [config];
      var last := Start;
      ok, newHeap := false, heap;
      while true
        invariant input.Valid()
        invariant Valid(p) && last == p.last
        invariant AtState(stack, p, closed, made)
        invariant stack[0] == config && input !in closed + made
        invariant heap <= closed <= heap + made && fresh(made)
        invariant outcome == Run(p, Significant(input.Rest()))
        decreases |input.data| - input.pos
      {
        var kind, moved;
        kind, moved, stack, p, closed, made := TakeToken(input, stack, last, p, closed, made);
        if kind == Eof {
          if |stack| == 1 && (last == StatementEnd || last == EndBlock) {
            ok, newHeap := true, closed + {config};
            EndIsTree(stack, p, closed, made);
          }
          break;
        }
        if !moved {
          break;
        }
        if kind != Comment {
          last := kind;
        }
      }
    }
  }

  /** One round of the loop: a token is read and, if it is neither a comment nor the end, the stack moved on. */
  method TakeToken(input: InputStream, stack: seq<NginxConfig>, last: TokenType,
                   ghost p: PState, ghost closed: set<object>, ghost made: set<object>)
    returns (kind: TokenType, moved: bool, newStack: seq<NginxConfig>, ghost next: PState,
             ghost newClosed: set<object>, ghost newMade: set<object>)
    requires input.Valid() && Valid(p) && last == p.last && AtState(stack, p, closed, made)
    requires input !in closed + made && input as object != stack[0]
    modifies input, stack[|stack| - 1], made
    ensures kind == Eof ==> (newStack, next, newClosed, newMade) == (stack, p, closed, made)
    ensures kind == Eof || moved ==> input.Valid() && Valid(next) && AtState(newStack, next, newClosed, newMade)
    ensures kind == Eof || moved ==> newStack[0] == stack[0]
    ensures closed <= newClosed <= closed + made && made <= newMade && fresh(newMade - made)
    ensures kind != Eof && moved ==> old(input.pos) < input.pos && next.last == if kind == Comment then last else kind
    ensures Run(p, Significant(old(input.Rest()))) ==
      if kind == Eof then (if p.below == [] && AfterStatement(p.last) then Accept(p.done) else Reject)
      else if moved then Run(next, Significant(input.Rest()))
      else Reject
  {
    var token;
    newStack, next, newClosed, newMade := stack, p, closed, made;
    kind, token := ReadToken(input, p);
    moved := kind == Comment;
    if kind != Comment && kind != Eof && kind != Error {
      moved, newStack, next, newClosed, newMade := Advance(stack, last, kind, token, p, closed, made);
    }
  }

  lemma ParseInto(initial: seq<Stmt>, s: string)
    ensures Run(StartOn(initial), Significant(s))
         == if ParseText(s).Accept? then Accept(initial + ParseText(s).tree) else ParseText(s)
  {
    RunRebased(initial, StartOn([]), Significant(s));
    assert initial + [] == initial;
  }

  /** One call of the lexer, and what its token means for the run of the automaton from `p`. */
  method ReadToken(input: InputStream, ghost p: PState) returns (kind: TokenType, token: string)
    requires input.Valid() && Valid(p)
    modifies input
    ensures input.Valid() && kind != Start
    ensures kind != Eof && kind != Error ==> old(input.pos) < input.pos
    ensures Run(p, Significant(old(input.Rest()))) ==
      if kind == Eof then (if p.below == [] && AfterStatement(p.last) then Accept(p.done) else Reject)
      else if kind == Error then Reject
      else if kind == Comment then Run(p, Significant(input.Rest()))
      else
        var o := Step(p, TokenOf(Lexeme(kind, token, "")));
        if o.Continue? then Run(o.next, Significant(input.Rest())) else o
  {
    kind, token := ParseToken(input, "");
    RunHead(p, TokenOf(Lexeme(kind, token, "")), Significant(input.Rest()));
  }

  /** One token that is neither a comment nor the end: the stack follows the automaton or the parse fails. */
  method Advance(stack: seq<NginxConfig>, last: TokenType, kind: TokenType, token: string,
                 ghost p: PState, ghost closed: set<object>, ghost made: set<object>)
    returns (moved: bool, newStack: seq<NginxConfig>, ghost next: PState,
             ghost newClosed: set<object>, ghost newMade: set<object>)
    requires kind == Normal || kind == StatementEnd || kind == StartBlock || kind == EndBlock
    requires Valid(p) && last == p.last && AtState(stack, p, closed, made)
    modifies stack[|stack| - 1], made
    ensures Step(p, TokenOf(Lexeme(kind, token, ""))) == if moved then Continue(next) else Reject
    ensures moved ==> Valid(next) && next.last == kind
    ensures moved ==> newStack != [] && newStack[0] == stack[0] && AtState(newStack, next, newClosed, newMade)
    ensures closed <= newClosed <= closed + made && made <= newMade && fresh(newMade - made)
  {
    moved, newStack, next, newClosed, newMade := false, stack, p, closed, made;
    var n := |stack|;
    if kind == Normal {
      newMade := AddWord(stack, last, token, p, closed, made);
    } else if kind == StatementEnd {
      if last != Normal {
        return;
      }
      StatementEnds(stack, p, closed, made);
      newClosed := closed + {stack[n - 1].statements[|p.done|]};
    } else if kind == StartBlock {
      if last != Normal {
        return;
      }
      newStack, newMade := AddBlock(stack, p, closed, made);
    } else {
      if last != StatementEnd && last != EndBlock && last != StartBlock {
        return;
      }
      if n == 1 {
        return;
      }
      BlockEnds(stack, p, closed, made);
      assert Collects(stack[n - 2], p.below[n - 2], stack[n - 1], closed, made);
      newClosed := closed + {stack[n - 1], stack[n - 2].statements[|p.below[n - 2].done|]};
      newStack := stack[..n - 1];
    }
    moved, next := true, Step(p, TokenOf(Lexeme(kind, token, ""))).next;
  }

  /** A word starts a statement on the top of the stack, or joins the open one. */
  method AddWord(stack: seq<NginxConfig>, last: TokenType, token: string,
                 ghost p: PState, ghost closed: set<object>, ghost made: set<object>)
    returns (ghost newMade: set<object>)
    requires Valid(p) && last == p.last && AtState(stack, p, closed, made)
    modifies stack[|stack| - 1], made
    ensures AtState(stack, Step(p, Word(token)).next, closed, newMade)
    ensures made <= newMade && fresh(newMade - made)
  {
    var top := stack[|stack| - 1];
    newMade := made;
    if last != Normal {
      var s := new NginxConfigStatement();
      newMade := newMade + {s};
      top.statements := top.statements + [s];
    }
    var s := top.statements[|top.statements| - 1];
    s.tokens := s.tokens + [token];
  }

  /** A `{` gives the open statement an empty block, which goes on the stack. */
  method AddBlock(stack: seq<NginxConfig>, ghost p: PState, ghost closed: set<object>, ghost made: set<object>)
    returns (newStack: seq<NginxConfig>, ghost newMade: set<object>)
    requires Valid(p) && p.last == Normal && AtState(stack, p, closed, made)
    modifies made
    ensures AtState(newStack, Step(p, Open).next, closed, newMade)
    ensures stack <= newStack
    ensures made <= newMade && fresh(newMade - made)
  {
    var top := stack[|stack| - 1];
    var block := new NginxConfig();
    var s := top.statements[|top.statements| - 1];
    s.childBlock := block;
    newStack, newMade := stack + [block], made + {block};
  }

  lemma StillFinished(c: NginxConfig, done: seq<Stmt>, closed: set<object>, larger: set<object>)
    requires Finished(c, done, closed) && closed <= larger && c !in larger
    ensures Finished(c, done, larger)
  {
    forall i | 0 <= i < |done|
      ensures IsStmt(c.statements[i], done[i], larger)
    {
      StmtInLargerHeap(c.statements[i], done[i], closed, larger);
    }
  }

  lemma StillCollects(c: NginxConfig, f: Frame, block: NginxConfig,
                      closed: set<object>, made: set<object>, larger: set<object>)
    requires Collects(c, f, block, closed, made)
    requires closed <= larger && c !in larger && c.statements[|f.done|] !in larger
    ensures Collects(c, f, block, larger, made)
  {
    StillFinished(c, f.done, closed, larger);
  }

  /** A `;` finishes the open statement without touching an object. */
  lemma StatementEnds(stack: seq<NginxConfig>, p: PState, closed: set<object>, made: set<object>)
    requires Valid(p) && p.last == Normal && AtState(stack, p, closed, made)
    ensures AtState(stack, Step(p, Semicolon).next, closed + {stack[|p.below|].statements[|p.done|]}, made)
  {
    var n := |p.below|;
    var s := stack[n].statements[|p.done|];
    var larger: set<object> := closed + {s};
    assert HasOpen(stack[n], p.done, p.words, null, closed, made);
    forall i | 0 <= i < n
      ensures Collects(stack[i], p.below[i], stack[i + 1], larger, made)
    {
      StillCollects(stack[i], p.below[i], stack[i + 1], closed, made, larger);
    }
    StillFinished(stack[n], p.done, closed, larger);
    assert IsStmt(s, Simple(p.words), larger);
  }

  /** A `}` finishes the block on top of the stack and the statement it belongs to. */
  lemma BlockEnds(stack: seq<NginxConfig>, p: PState, closed: set<object>, made: set<object>)
    requires Valid(p) && p.last != Normal && p.last != Start && p.below != []
    requires AtState(stack, p, closed, made)
    ensures var n := |p.below|;
      AtState(stack[..n], Step(p, Close).next,
              closed + {stack[n], stack[n - 1].statements[|p.below[n - 1].done|]}, made)
  {
    var n := |p.below|;
    var under, f := stack[n - 1], p.below[n - 1];
    var s := under.statements[|f.done|];
    var larger: set<object> := closed + {stack[n], s};
    assert Collects(under, f, stack[n], closed, made);
    forall i | 0 <= i < n - 1
      ensures Collects(stack[i], p.below[i], stack[i + 1], larger, made)
    {
      StillCollects(stack[i], p.below[i], stack[i + 1], closed, made, larger);
    }
    StillFinished(under, f.done, closed, larger);
    FinishedIsTree(stack[n], p.done, closed, closed + {stack[n]});
    TreeInLargerHeap(stack[n], p.done, closed + {stack[n]}, larger);
    assert IsStmt(s, Block(f.words, p.done), larger);
  }

  /** With a finished statement last and nothing but the root on the stack, the root holds the tree. */
  lemma EndIsTree(stack: seq<NginxConfig>, p: PState, closed: set<object>, made: set<object>)
    requires Valid(p) && AfterStatement(p.last) && AtState(stack, p, closed, made) && |stack| == 1
    ensures IsTree(stack[0], p.done, closed + {stack[0]})
  {
    FinishedIsTree(stack[0], p.done, closed, closed + {stack[0]});
  }

  lemma FinishedIsTree(c: NginxConfig, value: seq<Stmt>, closed: set<object>, larger: set<object>)
    requires Finished(c, value, closed) && |c.statements| == |value|
    requires larger == closed + {c}
    ensures IsTree(c, value, larger)
  {
    forall i | 0 <= i < |value|
      ensures IsStmt(c.statements[i], value[i], larger)
    {
      StmtInLargerHeap(c.statements[i], value[i], closed, larger);
    }
  }
}
