/**
  The character-level lexer of the configuration parser: a state machine over a
  stream with one character of pushback.
  */
module ConfigLexer {
  import opened ConfigTree

  datatype TokenType = Start | Normal | StartBlock | EndBlock | Comment | StatementEnd | Eof | Error

  datatype LexState = InitialWhitespace | InSingleQuote | InDoubleQuote | InComment | InNormal

  /** What one call of the lexer yields: the token, its text, and the input left. */
  datatype Lexeme = Lexeme(kind: TokenType, value: string, rest: string)

  predicate Ends(kind: TokenType) {
    kind == Eof || kind == Error
  }

  /** The run of the state machine from `state`, having collected `value`. */
  function Scan(state: LexState, value: string, s: string): (l: Lexeme)
    ensures |l.rest| <= |s|
    ensures state == InitialWhitespace && !Ends(l.kind) ==> |l.rest| < |s|
    ensures l.kind != Start
    ensures Ends(l.kind) ==> l.rest == ""
    decreases |s|
  {
    if s == "" then
      Lexeme(if state.InSingleQuote? || state.InDoubleQuote? then Error else Eof, value, "")
    else
      var c, t := s[0], s[1..];
      match state
      case InitialWhitespace =>
        if c == '{' then Lexeme(StartBlock, [c], t)
        else if c == '}' then Lexeme(EndBlock, [c], t)
        else if c == '#' then Scan(InComment, [c], t)
        else if c == '"' then Scan(InDoubleQuote, [c], t)
        else if c == '\'' then Scan(InSingleQuote, [c], t)
        else if c == ';' then Lexeme(StatementEnd, [c], t)
        else if IsBlank(c) then Scan(InitialWhitespace, value, t)
        else Scan(InNormal, value + [c], t)
      case InSingleQuote =>
        if c == '\'' then Lexeme(Normal, value + [c], t) else Scan(state, value + [c], t)
      case InDoubleQuote =>
        if c == '"' then Lexeme(Normal, value + [c], t) else Scan(state, value + [c], t)
      case InComment =>
        if c == '\n' || c == '\r' then Lexeme(Comment, value, t) else Scan(state, value + [c], t)
      case InNormal =>
        if EndsWord(c) then Lexeme(Normal, value, s) else Scan(state, value + [c], t)
  }

  // ----- The stream and the lexer that reads it -----

  class InputStream {
    const data: string
    var pos: nat
    var good: bool

    ghost predicate Valid()
      reads this
    {
      pos <= |data| && (!good ==> pos == |data|)
    }

    /** The characters still to be read. */
    ghost function Rest(): string
      requires Valid()
      reads this
    {
      data[pos..]
    }

    constructor (text: string)
      ensures Valid() && Rest() == text
    {
      data, pos, good := text, 0, true;
    }

    /** Reads one character; at the end of the data the stream stops being good. */
    method Get() returns (c: char)
      requires Valid() && good
      modifies this
      ensures Valid()
      ensures good == (old(pos) < |data|)
      ensures good ==> c == data[old(pos)] && pos == old(pos) + 1
      ensures !good ==> pos == old(pos)
    {
      if pos < |data| {
        c, pos := data[pos], pos + 1;
      } else {
        c, good := 255 as char, false;
      }
    }

    /** Pushes the last character read back. */
    method Unget()
      requires Valid() && good && pos > 0
      modifies this
      ensures Valid() && good && pos == old(pos) - 1
    {
      pos := pos - 1;
    }
  }

  /**
    Reads one token, appending its text to `initial`. Unless it reports the end
    of the input or an open quote, it has consumed at least one character.
    */
  method ParseToken(input: InputStream, initial: string) returns (kind: TokenType, value: string)
    requires input.Valid()
    modifies input
    ensures input.Valid()
    ensures Lexeme(kind, value, input.Rest()) == Scan(InitialWhitespace, initial, old(input.Rest()))
    ensures !Ends(kind) ==> old(input.pos) < input.pos
  {
    value := initial;
    var state := InitialWhitespace;
    while input.good
      invariant input.Valid()
      invariant Scan(state, value, input.Rest()) == Scan(InitialWhitespace, initial, old(input.Rest()))
      invariant old(input.pos) <= input.pos
      invariant state.InNormal? ==> old(input.pos) < input.pos
      decreases |input.data| - input.pos, input.good
    {
      ghost var before := input.Rest();
      var c := input.Get();
      if !input.good {
        break;
      }
      assert before[0] == c && before[1..] == input.Rest();
      match state
      case InitialWhitespace =>
        if c == '{' {
          value := [c];
          return StartBlock, value;
        } else if c == '}' {
          value := [c];
          return EndBlock, value;
        } else if c == '#' {
          value, state := [c], InComment;
        } else if c == '"' {
          value, state := [c], InDoubleQuote;
        } else if c == '\'' {
          value, state := [c], InSingleQuote;
        } else if c == ';' {
          value := [c];
          return StatementEnd, value;
        } else if c == ' ' || c == '\t' || c == '\n' || c == '\r' {
        } else {
          value, state := value + [c], InNormal;
        }
      case InSingleQuote =>
        value := value + [c];
        if c == '\'' {
          return Normal, value;
        }
      case InDoubleQuote =>
        value := value + [c];
        if c == '"' {
          return Normal, value;
        }
      case InComment =>
        if c == '\n' || c == '\r' {
          return Comment, value;
        }
        value := value + [c];
      case InNormal =>
        if c == ' ' || c == '\t' || c == '\n' || c == ';' || c == '{' || c == '}' {
          input.Unget();
          assert input.Rest() == before;
          return Normal, value;
        }
        value := value + [c];
    }
    assert input.Rest() == "";
    kind := if state.InSingleQuote? || state.InDoubleQuote? then Error else Eof;
  }

  // ----- What the lexer yields on printed text -----

  lemma {:induction false} ScanBlank(blank: string, rest: string)
    requires forall i | 0 <= i < |blank| :: IsBlank(blank[i])
    ensures Scan(InitialWhitespace, "", blank + rest) == Scan(InitialWhitespace, "", rest)
  {
    if blank == "" {
      assert blank + rest == rest;
    } else {
      ScanBlank(blank[1..], rest);
      assert (blank + rest)[1..] == blank[1..] + rest;
    }
  }

  lemma {:induction false} ScanBare(value: string, w: string, rest: string)
    requires forall i | 0 <= i < |w| :: !EndsWord(w[i])
    requires rest != "" && EndsWord(rest[0])
    ensures Scan(InNormal, value, w + rest) == Lexeme(Normal, value + w, rest)
    decreases w
  {
    if w == "" {
      assert w + rest == rest && value + w == value;
    } else {
      ScanBare(value + [w[0]], w[1..], rest);
      assert (w + rest)[1..] == w[1..] + rest;
      assert value + [w[0]] + w[1..] == value + w;
    }
  }

  lemma {:induction false} ScanQuoted(state: LexState, quote: char, value: string, w: string, rest: string)
    requires if quote == '\'' then state == InSingleQuote else quote == '"' && state == InDoubleQuote
    requires w != "" && w[|w| - 1] == quote && forall i | 0 <= i < |w| - 1 :: w[i] != quote
    ensures Scan(state, value, w + rest) == Lexeme(Normal, value + w, rest)
    decreases w
  {
    assert (w + rest)[1..] == w[1..] + rest;
    if |w| == 1 {
      assert w == [quote] && w[1..] + rest == rest;
    } else {
      ScanQuoted(state, quote, value + [w[0]], w[1..], rest);
      assert value + [w[0]] + w[1..] == value + w;
    }
  }

  /** A word followed by a delimiter is read back as that word, nothing more. */
  lemma ScanWord(w: string, rest: string)
    requires IsWord(w)
    requires rest != "" && EndsWord(rest[0])
    ensures Scan(InitialWhitespace, "", w + rest) == Lexeme(Normal, w, rest)
  {
    assert (w + rest)[1..] == w[1..] + rest;
    assert [w[0]] + w[1..] == w;
    if IsQuoted(w, '"') {
      ScanQuoted(InDoubleQuote, '"', [w[0]], w[1..], rest);
    } else if IsQuoted(w, '\'') {
      ScanQuoted(InSingleQuote, '\'', [w[0]], w[1..], rest);
    } else {
      assert "" + [w[0]] == [w[0]];
      ScanBare([w[0]], w[1..], rest);
    }
  }

  // ----- Every word the lexer yields is printable -----

  /** What has been collected so far, state by state. */
  predicate Collected(state: LexState, value: string) {
    match state
    case InitialWhitespace => value == ""
    case InComment => true
    case InNormal => IsBare(value)
    case InSingleQuote => value != "" && value[0] == '\'' && forall i | 1 <= i < |value| :: value[i] != '\''
    case InDoubleQuote => value != "" && value[0] == '"' && forall i | 1 <= i < |value| :: value[i] != '"'
  }

  lemma {:induction false} ScanYieldsWords(state: LexState, value: string, s: string)
    requires Collected(state, value)
    ensures Scan(state, value, s).kind == Normal ==> IsWord(Scan(state, value, s).value)
    decreases |s|
  {
    if s != "" {
      var c, t := s[0], s[1..];
      match state
      case InitialWhitespace =>
        if c == '#' {
          ScanYieldsWords(InComment, [c], t);
        } else if c == '"' {
          ScanYieldsWords(InDoubleQuote, [c], t);
        } else if c == '\'' {
          ScanYieldsWords(InSingleQuote, [c], t);
        } else if IsBlank(c) {
          ScanYieldsWords(state, value, t);
        } else if StartsWord(c) {
          ScanYieldsWords(InNormal, value + [c], t);
        }
      case InSingleQuote =>
        if c == '\'' {
          assert IsQuoted(value + [c], '\'');
        } else {
          ScanYieldsWords(state, value + [c], t);
        }
      case InDoubleQuote =>
        if c == '"' {
          assert IsQuoted(value + [c], '"');
        } else {
          ScanYieldsWords(state, value + [c], t);
        }
      case InComment =>
        ScanYieldsWords(state, value + [c], t);
      case InNormal =>
        if !EndsWord(c) {
          ScanYieldsWords(state, value + [c], t);
        }
    }
  }
}
