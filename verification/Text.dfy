/**
  Text as the C++ standard library reads and writes it: words separated by white
  space, decimal numbers, and the conversions between strings and 64-bit numbers.
  */
module Text {

  const TWO_TO_THE_64: nat := 0x1_0000_0000_0000_0000

  // ----- Words, as `stream >> word` extracts them -----

  predicate IsSpace(c: char) {
    c == ' ' || c == '\t' || c == '\n' || c == '\r' || c == 11 as char || c == 12 as char
  }

  predicate NoSpace(w: string) {
    forall i | 0 <= i < |w| :: !IsSpace(w[i])
  }

  /** The words of `s`, when the characters of `w` have just been read. */
  function WordsFrom(w: string, s: string): seq<string>
    decreases |s|
  {
    if s == "" then
      if w == "" then [] else [w]
    else if IsSpace(s[0]) then
      (if w == "" then [] else [w]) + WordsFrom("", s[1..])
    else
      WordsFrom(w + [s[0]], s[1..])
  }

  function Words(s: string): seq<string> {
    WordsFrom("", s)
  }

  lemma {:induction false} WordsFromWord(w: string, v: string, rest: string)
    requires NoSpace(v)
    ensures WordsFrom(w, v + rest) == WordsFrom(w + v, rest)
    decreases v
  {
    if v == "" {
      assert v + rest == rest && w + v == w;
    } else {
      assert (v + rest)[1..] == v[1..] + rest;
      WordsFromWord(w + [v[0]], v[1..], rest);
      assert w + [v[0]] + v[1..] == w + v;
    }
  }

  lemma {:induction false} WordsFromConcat(w: string, a: string, b: string)
    requires b != "" && IsSpace(b[0])
    ensures WordsFrom(w, a + b) == WordsFrom(w, a) + WordsFrom("", b)
    decreases a
  {
    if a == "" {
      assert a + b == b;
    } else {
      assert (a + b)[1..] == a[1..] + b;
      WordsFromConcat(if IsSpace(a[0]) then "" else w + [a[0]], a[1..], b);
    }
  }

  /** Appending a line break and a word to a text appends the word to its words. */
  lemma WordsAppend(s: string, w: string)
    requires w != "" && NoSpace(w)
    ensures Words(s + ("\n" + w)) == Words(s) + [w]
  {
    WordsFromConcat("", s, "\n" + w);
    assert ("\n" + w)[1..] == w && w + "" == w && "" + w == w;
    WordsFromWord("", w, "");
  }

  /** Blanks, tabs, line feeds, carriage returns and the codes 11 and 12 end a word, and nothing else does. */
  lemma WordsAreSeparated(w: string, c: char, rest: string)
    requires forall i | 0 <= i < |w| :: w[i] !in " \t\n\r" && w[i] != 11 as char && w[i] != 12 as char
    requires c in " \t\n\r" || c == 11 as char || c == 12 as char
    ensures Words(w + ([c] + rest)) == (if w == "" then [] else [w]) + Words(rest)
    ensures Words(w) == if w == "" then [] else [w]
  {
    assert "" + w == w && w + "" == w && ([c] + rest)[1..] == rest;
    WordsFromWord("", w, [c] + rest);
    WordsFromWord("", w, "");
  }

  function Lines(ws: seq<string>): string {
    if ws == [] then "" else Lines(ws[..|ws| - 1]) + ws[|ws| - 1] + "\n"
  }

  lemma {:induction false} WordsOfLines(ws: seq<string>, rest: string)
    requires forall i | 0 <= i < |ws| :: ws[i] != "" && NoSpace(ws[i])
    ensures Words(Lines(ws) + rest) == ws + Words(rest)
    decreases ws
  {
    if ws == [] {
      assert Lines(ws) + rest == rest;
    } else {
      var front, w := ws[..|ws| - 1], ws[|ws| - 1];
      var tail := "\n" + rest;
      assert Lines(ws) + rest == Lines(front) + (w + tail);
      WordsOfLines(front, w + tail);
      WordsFromWord("", w, tail);
      assert "" + w == w && tail[1..] == rest;
      assert front + ([w] + Words(rest)) == ws + Words(rest);
    }
  }

  /** The stream that a file is read from, word by word. */
  class WordReader {
    const text: string
    var pos: nat

    ghost predicate Valid()
      reads this
    {
      pos <= |text|
    }

    constructor (text: string)
      ensures Valid() && this.text == text && pos == 0
    {
      this.text, pos := text, 0;
    }

    /** Extracts the next word; fails when only white space is left. */
    method Next() returns (ok: bool, word: string)
      requires Valid()
      modifies this
      ensures Valid()
      ensures Words(old(text[pos..])) == if ok then [word] + Words(text[pos..]) else []
      ensures ok ==> pos > old(pos)
    {
      word := "";
      while pos < |text| && (word == "" || !IsSpace(text[pos]))
        invariant Valid() && old(pos) <= pos && NoSpace(word)
        invariant word != "" ==> pos > old(pos)
        invariant WordsFrom(word, text[pos..]) == Words(old(text[pos..]))
        decreases |text| - pos
      {
        assert text[pos..][1..] == text[pos + 1..];
        if !IsSpace(text[pos]) {
          word := word + [text[pos]];
        }
        pos := pos + 1;
      }
      ok := word != "";
      if pos < |text| {
        assert WordsFrom("", text[pos..]) == WordsFrom("", text[pos..][1..]);
      }
    }
  }

  // ----- Numbers -----

  function Digit(d: nat): char
    requires d < 10
  {
    "0123456789"[d]
  }

  predicate IsDigit(c: char) {
    '0' <= c <= '9'
  }

  function Decimal(n: nat): string {
    if n < 10 then [Digit(n)] else Decimal(n / 10) + [Digit(n % 10)]
  }

  predicate AllDigits(s: string) {
    forall i | 0 <= i < |s| :: IsDigit(s[i])
  }

  function DigitsValue(s: string): nat
    requires AllDigits(s)
  {
    if s == "" then 0 else 10 * DigitsValue(s[..|s| - 1]) + (s[|s| - 1] as int - '0' as int)
  }

  lemma {:induction false} DecimalRoundTrip(n: nat)
    ensures Decimal(n) != "" && AllDigits(Decimal(n)) && DigitsValue(Decimal(n)) == n
  {
    if n >= 10 {
      DecimalRoundTrip(n / 10);
      assert Decimal(n)[..|Decimal(n)| - 1] == Decimal(n / 10);
    } else {
      assert Decimal(n)[..0] == "";
    }
  }

  lemma DecimalInjective(m: nat, n: nat)
    requires Decimal(m) == Decimal(n)
    ensures m == n
  {
    DecimalRoundTrip(m);
    DecimalRoundTrip(n);
  }

  /** The usual numeral: at least one digit, and no zero in front of another. */
  predicate IsNumeral(s: string) {
    s != "" && AllDigits(s) && (|s| > 1 ==> s[0] != '0')
  }

  lemma {:induction false} DecimalIsNumeral(n: nat)
    ensures IsNumeral(Decimal(n)) && (n > 0 ==> Decimal(n)[0] != '0')
  {
    DecimalRoundTrip(n);
    if n >= 10 {
      DecimalIsNumeral(n / 10);
    }
  }

  /** There is one numeral for each number. */
  lemma NumeralIsUnique(s: string, n: nat)
    requires s != "" && (forall i | 0 <= i < |s| :: '0' <= s[i] <= '9') && (|s| > 1 ==> s[0] != '0')
    ensures s == Decimal(n) <==> DigitsValue(s) == n
  {
    DecimalRoundTrip(n);
    if DigitsValue(s) == n {
      NumeralIsDecimal(s);
    }
  }

  lemma {:induction false} NumeralIsDecimal(s: string)
    requires IsNumeral(s)
    ensures s == Decimal(DigitsValue(s)) && (s[0] != '0' ==> DigitsValue(s) > 0)
    decreases s
  {
    var front, last := s[..|s| - 1], s[|s| - 1] as int - '0' as int;
    assert "0123456789"[last] == s[|s| - 1] && s == front + [s[|s| - 1]];
    if front != "" {
      NumeralIsDecimal(front);
      TensAndOnes(DigitsValue(s), DigitsValue(front), last);
    }
  }

  lemma TensAndOnes(n: nat, tens: nat, ones: nat)
    requires n == 10 * tens + ones && ones < 10
    ensures n / 10 == tens && n % 10 == ones
  {
  }

  datatype Parsed = Number(value: nat) | InvalidArgument | OutOfRange

  function LeadingDigits(s: string): (n: nat)
    ensures n <= |s| && AllDigits(s[..n])
    ensures n < |s| ==> !IsDigit(s[n])
  {
    if s == "" || !IsDigit(s[0]) then 0
    else
      var n := LeadingDigits(s[1..]);
      assert s[1..][..n] == s[..n + 1][1..];
      n + 1
  }

  /**
    `std::stoull` in base ten: white space, an optional sign, then the longest run
    of digits; what follows is ignored, and a minus sign negates modulo 2^64.
    */
  function Stoull(s: string): Parsed {
    if s == "" then InvalidArgument
    else if IsSpace(s[0]) then Stoull(s[1..])
    else
      var signed := s[0] == '-' || s[0] == '+';
      var t := if signed then s[1..] else s;
      var n := LeadingDigits(t);
      if n == 0 then InvalidArgument
      else
        var v := DigitsValue(t[..n]);
        if v >= TWO_TO_THE_64 then OutOfRange
        else if s[0] == '-' then Number((TWO_TO_THE_64 - v) % TWO_TO_THE_64)
        else Number(v)
  }

  /** White space as the conversions skip it. */
  predicate IsWhite(blank: string) {
    forall i | 0 <= i < |blank| :: blank[i] in " \t\n\r" || blank[i] == 11 as char || blank[i] == 12 as char
  }

  lemma {:induction false} StoullSkips(blank: string, s: string)
    requires IsWhite(blank)
    ensures Stoull(blank + s) == Stoull(s)
    decreases blank
  {
    if blank == "" {
      assert blank + s == s;
    } else {
      assert (blank + s)[1..] == blank[1..] + s;
      StoullSkips(blank[1..], s);
    }
  }

  lemma {:induction false} LeadingAre(digits: string, rest: string)
    requires AllDigits(digits) && (rest != "" ==> !IsDigit(rest[0]))
    ensures LeadingDigits(digits + rest) == |digits| && (digits + rest)[..|digits|] == digits
    decreases digits
  {
    if digits == "" {
      assert digits + rest == rest;
    } else {
      assert (digits + rest)[1..] == digits[1..] + rest;
      LeadingAre(digits[1..], rest);
    }
  }

  /** What `std::stoull` makes of white space, a sign, digits, and something that is no digit. */
  lemma StoullMeans(blank: string, sign: string, digits: string, rest: string)
    requires IsWhite(blank) && (sign == "" || sign == "+" || sign == "-")
    requires digits != "" && forall i | 0 <= i < |digits| :: '0' <= digits[i] <= '9'
    requires rest != "" ==> !('0' <= rest[0] <= '9')
    ensures AllDigits(digits)
    ensures var v := DigitsValue(digits);
      Stoull(blank + (sign + (digits + rest))) ==
        if v >= 0x1_0000_0000_0000_0000 then OutOfRange
        else if sign == "-" && v > 0 then Number(0x1_0000_0000_0000_0000 - v)
        else Number(v)
  {
    StoullSkips(blank, sign + (digits + rest));
    SignedDigits(sign, digits, rest);
  }

  lemma SignedDigits(sign: string, digits: string, rest: string)
    requires sign == "" || sign == "+" || sign == "-"
    requires digits != "" && AllDigits(digits) && (rest != "" ==> !IsDigit(rest[0]))
    ensures var v := DigitsValue(digits);
      Stoull(sign + (digits + rest)) ==
        if v >= TWO_TO_THE_64 then OutOfRange
        else if sign == "-" && v > 0 then Number(TWO_TO_THE_64 - v)
        else Number(v)
  {
    var s := sign + (digits + rest);
    LeadingAre(digits, rest);
    assert sign == "" ==> s == digits + rest && IsDigit(s[0]);
    assert sign != "" ==> s[1..] == digits + rest && s[0] == sign[0];
  }

  /** Where no digit follows the white space and the sign, the conversion is refused. */
  lemma StoullRefuses(blank: string, sign: string, rest: string)
    requires IsWhite(blank) && (sign == "" || sign == "+" || sign == "-")
    requires rest != "" ==> !('0' <= rest[0] <= '9')
    requires sign == "" && rest != "" ==> !IsWhite([rest[0]]) && rest[0] != '+' && rest[0] != '-'
    ensures Stoull(blank + (sign + rest)) == InvalidArgument
  {
    StoullSkips(blank, sign + rest);
    if sign == "" {
      assert sign + rest == rest;
    } else {
      assert (sign + rest)[1..] == rest;
    }
  }

  lemma StoullRange(s: string)
    ensures Stoull(s).Number? ==> Stoull(s).value < TWO_TO_THE_64
  {
    if s != "" && IsSpace(s[0]) {
      StoullRange(s[1..]);
    }
  }

  /** `std::stoull` undoes `std::to_string`. */
  lemma StoullDecimal(n: nat)
    requires n < TWO_TO_THE_64
    ensures Stoull(Decimal(n)) == Number(n)
  {
    DecimalRoundTrip(n);
    var s := Decimal(n);
    assert IsDigit(s[0]) && LeadingDigits(s) == |s| by {
      AllLeading(s);
    }
    assert s[..|s|] == s;
  }

  lemma {:induction false} AllLeading(s: string)
    requires AllDigits(s)
    ensures LeadingDigits(s) == |s|
  {
    if s != "" {
      AllLeading(s[1..]);
    }
  }
}
