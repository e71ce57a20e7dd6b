/**
  The configuration as the program holds it: a tree of mutable objects, built in
  place through a stack of pointers, and printed by walking it.
  */
module ConfigObjects {
  import opened ConfigTree

  class NginxConfigStatement {
    var tokens: seq<string>
    var childBlock: NginxConfig?

    constructor ()
      ensures tokens == [] && childBlock == null
    {
      tokens, childBlock := [], null;
    }

    method ToString(depth: int, ghost value: Stmt, ghost heap: set<object>) returns (text: string)
      requires IsStmt(this, value, heap)
      ensures text == PrintStmt(value, depth)
      decreases value
    {
      text := AppendIndent("", depth);
      text := AppendTokens(text);
      ghost var head := text;
      assert head == Indent(depth) + JoinWords(value.tokens);
      if childBlock != null {
        text := text + " {\n";
        var body := childBlock.ToString(depth + 1, value.body, heap);
        text := text + body;
        text := AppendIndent(text, depth);
        text := text + "}";
        assert text == head + (" {\n" + body + Indent(depth) + "}");
      } else {
        text := text + ";";
      }
      text := text + "\n";
    }

    method AppendIndent(prefix: string, depth: int) returns (text: string)
      ensures text == prefix + Indent(depth)
    {
      text := prefix;
      var i := 0;
      while i < depth
        invariant text == prefix + Indent(i) && i <= if depth < 0 then 0 else depth
      {
        text, i := text + "  ", i + 1;
      }
    }

    method AppendTokens(prefix: string) returns (text: string)
      ensures text == prefix + JoinWords(tokens)
    {
      text := prefix;
      for j := 0 to |tokens|
        invariant text == prefix + JoinWords(tokens[..j])
      {
        assert tokens[..j + 1][..j] == tokens[..j];
        if j != 0 {
          text := text + " ";
        }
        text := text + tokens[j];
      }
      assert tokens[..|tokens|] == tokens;
    }
  }

  class NginxConfig {
    var statements: seq<NginxConfigStatement>

    constructor ()
      ensures statements == []
    {
      statements := [];
    }

    method ToString(depth: int, ghost value: seq<Stmt>, ghost heap: set<object>) returns (text: string)
      requires IsTree(this, value, heap)
      ensures text == Print(value, depth)
      decreases value
    {
      text := "";
      for i := 0 to |statements|
        invariant text == Print(value[..i], depth)
      {
        var s := statements[i].ToString(depth, value[i], heap);
        assert value[..i + 1][..i] == value[..i];
        text := text + s;
      }
      assert value[..|value|] == value;
    }
  }

  // ----- What the objects mean -----

  /** The objects under `c`, all in `heap`, hold the statements `value`. */
  ghost predicate IsTree(c: NginxConfig, value: seq<Stmt>, heap: set<object>)
    reads heap
    decreases value
  {
    && c in heap
    && |c.statements| == |value|
    && forall i | 0 <= i < |value| :: IsStmt(c.statements[i], value[i], heap)
  }

  ghost predicate IsStmt(s: NginxConfigStatement, value: Stmt, heap: set<object>)
    reads heap
    decreases value
  {
    && s in heap
    && s.tokens == value.tokens
    && match value
       case Simple(_) => s.childBlock == null
       case Block(_, body) => s.childBlock != null && IsTree(s.childBlock, body, heap)
  }

  lemma {:induction false} TreeInLargerHeap(c: NginxConfig, value: seq<Stmt>, heap: set<object>, larger: set<object>)
    requires IsTree(c, value, heap) && heap <= larger
    ensures IsTree(c, value, larger)
    decreases value
  {
    forall i | 0 <= i < |value|
      ensures IsStmt(c.statements[i], value[i], larger)
    {
      StmtInLargerHeap(c.statements[i], value[i], heap, larger);
    }
  }

  lemma {:induction false} StmtInLargerHeap(s: NginxConfigStatement, value: Stmt,
                                            heap: set<object>, larger: set<object>)
    requires IsStmt(s, value, heap) && heap <= larger
    ensures IsStmt(s, value, larger)
    decreases value
  {
    if value.Block? {
      TreeInLargerHeap(s.childBlock, value.body, heap, larger);
    }
  }
}
