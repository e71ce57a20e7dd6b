/**
  The configuration language character by character: which characters separate
  words, which stand for themselves, and which the printer writes.
  */
module ConfigCharacters {
  import opened ConfigTree
  import opened ConfigLexer
  import opened ConfigGrammar
  import opened ConfigRoundTrip
  import opened Regroup

  // ----- Reading -----

  /** A bare word ends in front of a blank, a line feed, a semicolon or a brace; a blank is dropped. */
  lemma WordIsRead(w: string, c: char, rest: string)
    requires w != "" && w[0] !in " \t\n\r{}#\"';" && forall i | 1 <= i < |w| :: w[i] !in " \t\n;{}"
    requires c in " \t\n;{}"
    ensures Significant(w + ([c] + rest)) == [Word(w)] + Significant([c] + rest)
    ensures c in " \t\n" ==> Significant(w + ([c] + rest)) == [Word(w)] + Significant(rest)
  {
    assert StartsWord(w[0]) && forall i | 1 <= i < |w| :: !EndsWord(w[i]);
    SignificantWord(w, [c] + rest);
    if c in " \t\n" {
      BlankIsSkipped(c, rest);
    }
  }

  /** Blanks, tabs, line feeds and carriage returns between tokens mean nothing. */
  lemma BlankIsSkipped(c: char, rest: string)
    requires c in " \t\n\r"
    ensures Significant([c] + rest) == Significant(rest)
  {
    SignificantBlank([c], rest);
  }

  /** Semicolons and braces are tokens of their own. */
  lemma DelimitersAreRead(rest: string)
    ensures Significant(";" + rest) == [Semicolon] + Significant(rest)
    ensures Significant("{" + rest) == [Open] + Significant(rest)
    ensures Significant("}" + rest) == [Close] + Significant(rest)
  {
    DelimiterIsRead(';', Semicolon, rest);
    DelimiterIsRead('{', Open, rest);
    DelimiterIsRead('}', Close, rest);
  }

  lemma DelimiterIsRead(c: char, token: Token, rest: string)
    requires (c == ';' && token == Semicolon) || (c == '{' && token == Open) || (c == '}' && token == Close)
    ensures Significant([c] + rest) == [token] + Significant(rest)
  {
    assert ([c] + rest)[1..] == rest;
  }

  /** Between two quotes of one kind everything but that quote belongs to the word, and so do the quotes. */
  lemma QuotedIsRead(text: string, rest: string)
    ensures '"' !in text ==> Significant("\"" + text + "\"" + rest) == [Word("\"" + text + "\"")] + Significant(rest)
    ensures '\'' !in text ==> Significant("'" + text + "'" + rest) == [Word("'" + text + "'")] + Significant(rest)
  {
    if '"' !in text {
      QuoteCloses(InDoubleQuote, '"', text, rest);
    }
    if '\'' !in text {
      QuoteCloses(InSingleQuote, '\'', text, rest);
    }
  }

  lemma QuoteCloses(state: LexState, quote: char, text: string, rest: string)
    requires if quote == '\'' then state == InSingleQuote else quote == '"' && state == InDoubleQuote
    requires quote !in text
    ensures Significant([quote] + text + [quote] + rest) == [Word([quote] + text + [quote])] + Significant(rest)
  {
    var s := [quote] + text + [quote] + rest;
    assert s[1..] == text + [quote] + rest;
    assert [quote] + (text + [quote]) == [quote] + text + [quote];
    ScanQuoted(state, quote, [quote], text + [quote], rest);
  }

  /** A comment goes on to the next line feed or carriage return. */
  lemma CommentIsSkipped(comment: string, c: char, rest: string)
    requires '\n' !in comment && '\r' !in comment && (c == '\n' || c == '\r')
    ensures Significant("#" + comment + [c] + rest) == Significant(rest)
  {
    CommentIsScanned(comment, c, rest);
  }

  lemma CommentIsScanned(comment: string, c: char, rest: string)
    requires '\n' !in comment && '\r' !in comment && (c == '\n' || c == '\r')
    ensures Scan(InitialWhitespace, "", "#" + comment + [c] + rest) == Lexeme(Comment, "#" + comment, rest)
  {
    CommentCloses("#", comment, c, rest);
    assert ("#" + comment + [c] + rest)[1..] == comment + ([c] + rest);
  }

  lemma {:induction false} CommentCloses(value: string, comment: string, c: char, rest: string)
    requires '\n' !in comment && '\r' !in comment && (c == '\n' || c == '\r')
    ensures Scan(InComment, value, comment + ([c] + rest)) == Lexeme(Comment, value + comment, rest)
    decreases comment
  {
    if comment == "" {
      assert comment + ([c] + rest) == [c] + rest && ([c] + rest)[1..] == rest;
      assert value + comment == value;
    } else {
      assert (comment + ([c] + rest))[1..] == comment[1..] + ([c] + rest);
      CommentCloses(value + [comment[0]], comment[1..], c, rest);
      assert value + [comment[0]] + comment[1..] == value + comment;
    }
  }

  /** A quote that is still open at the end of the text breaks the parse. */
  lemma OpenQuoteIsBroken(text: string)
    ensures '"' !in text ==> Significant("\"" + text) == [Broken]
    ensures '\'' !in text ==> Significant("'" + text) == [Broken]
  {
    assert ("\"" + text)[1..] == text && ("'" + text)[1..] == text;
    QuoteStaysOpen("\"", text);
    QuoteStaysOpen("'", text);
  }

  /** A comment or a bare word that is still open there is dropped. */
  lemma OpenCommentIsDropped(text: string)
    requires '\n' !in text && '\r' !in text
    ensures Significant("#" + text) == [End]
  {
    assert ("#" + text)[1..] == text;
    ScanOpenWord(InComment, "#", text);
  }

  lemma OpenWordIsDropped(w: string)
    requires w != "" && w[0] !in " \t\n\r{}#\"';" && forall i | 1 <= i < |w| :: w[i] !in " \t\n;{}"
    ensures Significant(w) == [End]
  {
    assert StartsWord(w[0]) && forall i | 1 <= i < |w| :: !EndsWord(w[i]);
    ScanOpenWord(InNormal, "" + [w[0]], w[1..]);
  }

  lemma {:induction false} QuoteStaysOpen(value: string, text: string)
    ensures '"' !in text ==> Scan(InDoubleQuote, value, text).kind == Error
    ensures '\'' !in text ==> Scan(InSingleQuote, value, text).kind == Error
    decreases text
  {
    if text != "" {
      QuoteStaysOpen(value + [text[0]], text[1..]);
    }
  }

  // ----- Printing -----

  /** Two spaces for each level. */
  lemma {:induction false} IndentIsSpaces(depth: int)
    ensures |Indent(depth)| == if depth > 0 then 2 * depth else 0
    ensures forall i | 0 <= i < |Indent(depth)| :: Indent(depth)[i] == ' '
    decreases depth
  {
    if depth > 0 {
      IndentIsSpaces(depth - 1);
    }
  }

  /** One space between words. */
  lemma {:induction false} WordsAreSpaced(w: string, words: seq<string>)
    ensures JoinWords([w]) == w
    ensures words != [] ==> JoinWords([w] + words) == w + " " + JoinWords(words)
    decreases words
  {
    var all := [w] + words;
    if |words| == 1 {
      assert all[..1] == [w] && all == [w, words[0]];
      assert JoinWords(all) == JoinWords(all[..1]) + " " + words[0];
    } else if |words| > 1 {
      var front, last := words[..|words| - 1], words[|words| - 1];
      WordsAreSpaced(w, front);
      assert all[..|all| - 1] == [w] + front && all[|all| - 1] == last;
      Right5(w, " ", JoinWords(front), " ", last);
      Right3(JoinWords(front), " ", last);
      Right3(w, " ", JoinWords(words));
    }
  }

  /** A statement takes a line; a block takes one for its head, those of its body, and one for its end. */
  lemma StatementIsALine(words: seq<string>, body: seq<Stmt>, depth: int)
    ensures PrintStmt(Simple(words), depth) == Indent(depth) + JoinWords(words) + ";\n"
    ensures PrintStmt(Block(words, body), depth)
         == Indent(depth) + JoinWords(words) + " {\n" + Print(body, depth + 1) + Indent(depth) + "}\n"
  {
    var head, inner := Indent(depth) + JoinWords(words), Print(body, depth + 1);
    assert ";" + "\n" == ";\n" && "}" + "\n" == "}\n";
    Right3(head, ";", "\n");
    Right4(" {\n", inner, Indent(depth), "}");
    Right5(head, " {\n", inner, Indent(depth), "}\n");
    Right3(head, " {\n" + inner + Indent(depth) + "}", "\n");
    Right5(" {\n", inner, Indent(depth), "}", "\n");
  }

  /** Statements are printed one after the other. */
  lemma {:induction false} TreeIsPrintedInOrder(t: seq<Stmt>, u: seq<Stmt>, depth: int)
    ensures Print(t + u, depth) == Print(t, depth) + Print(u, depth)
    decreases |u|
  {
    if u == [] {
      assert t + u == t && Print(u, depth) == "";
      Empty(Print(t, depth));
    } else {
      var front, last := u[..|u| - 1], u[|u| - 1];
      TreeIsPrintedInOrder(t, front, depth);
      assert (t + u)[..|t + u| - 1] == t + front && (t + u)[|t + u| - 1] == last;
      Right3(Print(t, depth), Print(front, depth), PrintStmt(last, depth));
    }
  }
}
