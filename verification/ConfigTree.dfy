/**
  The value of a configuration, and the text the printer gives it.

  A statement is a list of words, ended by `;` or followed by a block of
  statements. The classes in `ConfigObjects` are the mutable tree of the program;
  the values here are what such a tree means.
  */
module ConfigTree {

  datatype Stmt =
    | Simple(tokens: seq<string>)
    | Block(tokens: seq<string>, body: seq<Stmt>)

  // ----- Words that survive printing -----

  predicate IsBlank(c: char) {
    c == ' ' || c == '\t' || c == '\n' || c == '\r'
  }

  /** The characters that end a bare word. Carriage return is not one of them. */
  predicate EndsWord(c: char) {
    c == ' ' || c == '\t' || c == '\n' || c == ';' || c == '{' || c == '}'
  }

  predicate StartsWord(c: char) {
    !IsBlank(c) && c != '{' && c != '}' && c != '#' && c != '"' && c != '\'' && c != ';'
  }

  predicate IsBare(w: string) {
    w != "" && StartsWord(w[0]) && forall i | 1 <= i < |w| :: !EndsWord(w[i])
  }

  predicate IsQuoted(w: string, quote: char) {
    |w| >= 2 && w[0] == quote && w[|w| - 1] == quote && forall i | 1 <= i < |w| - 1 :: w[i] != quote
  }

  predicate IsWord(w: string) {
    IsBare(w) || IsQuoted(w, '"') || IsQuoted(w, '\'')
  }

  predicate WellFormed(t: seq<Stmt>) {
    forall i | 0 <= i < |t| :: WellFormedStmt(t[i])
  }

  /** Every statement, at every depth, has at least one word. */
  predicate WellFormedStmt(s: Stmt) {
    && s.tokens != []
    && (s.Block? ==> WellFormed(s.body))
  }

  predicate Words(t: seq<Stmt>) {
    forall i | 0 <= i < |t| :: WordsStmt(t[i])
  }

  /** Every token, at every depth, is a word the lexer can produce. */
  predicate WordsStmt(s: Stmt) {
    && (forall i | 0 <= i < |s.tokens| :: IsWord(s.tokens[i]))
    && (s.Block? ==> Words(s.body))
  }

  predicate Printable(t: seq<Stmt>) {
    WellFormed(t) && Words(t)
  }

  // ----- The printer -----

  function Indent(depth: int): string
    decreases depth
  {
    if depth <= 0 then "" else Indent(depth - 1) + "  "
  }

  function JoinWords(words: seq<string>): string {
    if words == [] then ""
    else if |words| == 1 then words[0]
    else JoinWords(words[..|words| - 1]) + " " + words[|words| - 1]
  }

  function Print(t: seq<Stmt>, depth: int): string
    decreases t
  {
    if t == [] then ""
    else
      var front := t[..|t| - 1];
      Print(front, depth) + PrintStmt(t[|t| - 1], depth)
  }

  function PrintStmt(s: Stmt, depth: int): string
    decreases s
  {
    Indent(depth) + JoinWords(s.tokens) +
    (match s
     case Simple(_) => ";"
     case Block(_, body) => " {\n" + Print(body, depth + 1) + Indent(depth) + "}") + "\n"
  }
}
