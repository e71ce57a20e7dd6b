/**
  The JSON reply of the app handler: the loop that escapes the caption, and what a
  JSON reader (RFC 8259, section 7) makes of the reply.
  */
module AppReplies {
  import opened Regroup
  import opened Text

  // ----- The handler -----

  function EscapeChar(c: char): string {
    if c == '"' then "\\\""
    else if c == '\\' then "\\\\"
    else if c != '\n' && c != '\r' && c != '\t' then [c]
    else ""
  }

  function Escape(caption: string): string {
    if caption == "" then "" else EscapeChar(caption[0]) + Escape(caption[1..])
  }

  method EscapeCaption(caption: string) returns (escaped: string)
    ensures escaped == Escape(caption)
  {
    escaped := "";
    for i := 0 to |caption|
      invariant Escape(caption) == escaped + Escape(caption[i..])
    {
      var c := caption[i];
      assert caption[i..][0] == c && caption[i..][1..] == caption[i + 1..];
      Right3(escaped, EscapeChar(c), Escape(caption[i + 1..]));
      if c == '"' {
        escaped := escaped + "\\\"";
      } else if c == '\\' {
        escaped := escaped + "\\\\";
      } else if c != '\n' && c != '\r' && c != '\t' {
        escaped := escaped + [c];
      } else {
        Empty(escaped);
      }
    }
    Empty(escaped);
  }

  const CAPTION_OPENS := "{\"caption\":\""
  const INDEX_NAME := "\"best_image_index\":"
  const ERROR_CAPTION := "An error occured while selecting an image"

  /** `std::to_string` of an `int`. */
  function ToString(i: int): string {
    if i < 0 then "-" + Decimal(-i) else Decimal(i)
  }

  function ReplyText(escaped: string, comma: string, index: int): string {
    CAPTION_OPENS + escaped + "\"" + comma + INDEX_NAME + ToString(index) + "}"
  }

  /** The reply with its keys written out. */
  lemma ReplyIsWritten(escaped: string, comma: string, index: int)
    ensures ReplyText(escaped, comma, index)
         == "{\"caption\":\"" + escaped + "\"" + comma + "\"best_image_index\":" + ToString(index) + "}"
    ensures ERROR_CAPTION == "An error occured while selecting an image"
    ensures index < 0 ==> ToString(index) == "-" + Decimal(-index)
    ensures index >= 0 ==> ToString(index) == Decimal(index)
  {
  }

  /** Quotes and backslashes get a backslash, line ends and tabs are dropped, and every other character stays. */
  lemma {:induction false} CharacterIsEscaped(a: string, c: char, b: string)
    ensures Escape("") == ""
    ensures var escaped := if c == '"' then "\\\"" else if c == '\\' then "\\\\" else if c in "\n\r\t" then "" else [c];
      Escape(a + ([c] + b)) == Escape(a) + (escaped + Escape(b))
    decreases a
  {
    if a == "" {
      assert a + ([c] + b) == [c] + b && ([c] + b)[1..] == b;
      Empty(EscapeChar(c) + Escape(b));
    } else {
      assert (a + ([c] + b))[1..] == a[1..] + ([c] + b);
      CharacterIsEscaped(a[1..], c, b);
      Right3(EscapeChar(a[0]), Escape(a[1..]), EscapeChar(c) + Escape(b));
    }
  }

  // ----- A JSON reader -----

  datatype Decoded = Decoded(text: string, rest: string) | Malformed

  predicate IsHex(c: char) {
    '0' <= c <= '9' || 'a' <= c <= 'f' || 'A' <= c <= 'F'
  }

  function HexDigit(c: char): (d: nat)
    requires IsHex(c)
    ensures d < 16
  {
    if c <= '9' then c as int - '0' as int
    else if c <= 'F' then c as int - 'A' as int + 10
    else c as int - 'a' as int + 10
  }

  /** The character a four-digit escape stands for; surrogates stand for none on their own. */
  function HexChar(s: string): string
    requires |s| == 4 && IsHex(s[0]) && IsHex(s[1]) && IsHex(s[2]) && IsHex(s[3])
  {
    var code := ((HexDigit(s[0]) * 16 + HexDigit(s[1])) * 16 + HexDigit(s[2])) * 16 + HexDigit(s[3]);
    if code < 0xD800 || 0xE000 <= code then [code as char] else ""
  }

  /** The character a two-character escape stands for; none for other characters. */
  function ShortEscape(c: char): string {
    match c
    case '"' => "\""
    case '\\' => "\\"
    case '/' => "/"
    case 'b' => [8 as char]
    case 'f' => [12 as char]
    case 'n' => "\n"
    case 'r' => "\r"
    case 't' => "\t"
    case _ => ""
  }

  function Push(text: string, d: Decoded): Decoded {
    if d.Malformed? || text == "" then Malformed else Decoded(text + d.text, d.rest)
  }

  /** Reads a string from behind its opening quote to its closing quote. */
  function Decode(s: string): Decoded
    decreases |s|
  {
    if s == "" then Malformed
    else if s[0] == '"' then Decoded("", s[1..])
    else if s[0] == '\\' then
      if |s| >= 6 && s[1] == 'u' && IsHex(s[2]) && IsHex(s[3]) && IsHex(s[4]) && IsHex(s[5])
      then Push(HexChar(s[2..6]), Decode(s[6..]))
      else if |s| >= 2 then Push(ShortEscape(s[1]), Decode(s[2..]))
      else Malformed
    else if s[0] < ' ' then Malformed
    else Push([s[0]], Decode(s[1..]))
  }

  // ----- The caption comes back -----

  predicate IsDropped(c: char) {
    c == '\n' || c == '\r' || c == '\t'
  }

  function Cleaned(caption: string): string {
    if caption == "" then ""
    else if IsDropped(caption[0]) then Cleaned(caption[1..])
    else [caption[0]] + Cleaned(caption[1..])
  }

  predicate HasOtherControls(caption: string) {
    exists i | 0 <= i < |caption| :: caption[i] < ' ' && !IsDropped(caption[i])
  }

  lemma DecodeOne(c: char, rest: string)
    requires !IsDropped(c)
    ensures Decode(EscapeChar(c) + rest) == if c < ' ' then Malformed else Push([c], Decode(rest))
  {
    var s := EscapeChar(c) + rest;
    assert s[|EscapeChar(c)|..] == rest;
  }

  /**
    The reader stops at the quote the handler adds and has the caption without
    line ends and tabs; it rejects the reply exactly when the caption has another
    control character.
    */
  lemma {:induction false} CaptionComesBack(caption: string, rest: string)
    ensures Decode(Escape(caption) + ("\"" + rest))
      == if HasOtherControls(caption) then Malformed else Decoded(Cleaned(caption), rest)
    decreases caption
  {
    if caption == "" {
      Empty("\"" + rest);
      assert ("\"" + rest)[1..] == rest;
    } else {
      var c, others := caption[0], caption[1..];
      ControlsOfTail(caption);
      CaptionComesBack(others, rest);
      if IsDropped(c) {
        Empty(Escape(others));
      } else {
        Right3(EscapeChar(c), Escape(others), "\"" + rest);
        DecodeOne(c, Escape(others) + ("\"" + rest));
      }
    }
  }

  lemma ControlsOfTail(caption: string)
    requires caption != ""
    ensures HasOtherControls(caption)
       <==> (caption[0] < ' ' && !IsDropped(caption[0])) || HasOtherControls(caption[1..])
  {
    if HasOtherControls(caption[1..]) {
      var i :| 0 <= i < |caption[1..]| && caption[1..][i] < ' ' && !IsDropped(caption[1..][i]);
      assert caption[i + 1] == caption[1..][i];
    }
    if HasOtherControls(caption) {
      var i :| 0 <= i < |caption| && caption[i] < ' ' && !IsDropped(caption[i]);
      assert i > 0 ==> caption[1..][i - 1] == caption[i];
    }
  }

  /** Line feeds, carriage returns and tabs are dropped, and every other character is kept. */
  lemma {:induction false} CleanedKeepsOthers(a: string, b: string, c: char)
    ensures Cleaned("") == ""
    ensures Cleaned(a + ([c] + b)) == Cleaned(a) + ((if c in "\n\r\t" then "" else [c]) + Cleaned(b))
    decreases a
  {
    if a == "" {
      assert a + ([c] + b) == [c] + b && ([c] + b)[1..] == b;
      Empty(Cleaned(b));
      Empty((if c in "\n\r\t" then "" else [c]) + Cleaned(b));
    } else {
      assert (a + ([c] + b))[1..] == a[1..] + ([c] + b);
      CleanedKeepsOthers(a[1..], b, c);
      Right3([a[0]], Cleaned(a[1..]), (if c in "\n\r\t" then "" else [c]) + Cleaned(b));
    }
  }

  /** The other control characters are those below the space. */
  lemma OtherControlsAre(caption: string)
    ensures HasOtherControls(caption) <==> exists c | c in caption :: (c as int) < 32 && c !in "\n\r\t"
  {
    if c :| c in caption && (c as int) < 32 && c !in "\n\r\t" {
      var i :| 0 <= i < |caption| && caption[i] == c;
      assert caption[i] < ' ' && !IsDropped(caption[i]);
    }
    if HasOtherControls(caption) {
      var i :| 0 <= i < |caption| && caption[i] < ' ' && !IsDropped(caption[i]);
      assert caption[i] in caption;
    }
  }

  // ----- The whole reply comes back -----

  datatype Reply = Reply(caption: string, index: int) | Unreadable

  function SkipSpaces(s: string): string {
    if s != "" && s[0] == ' ' then SkipSpaces(s[1..]) else s
  }

  /** Reads what follows the caption: a comma, the name of the index, a number and the end of the object. */
  function ReadIndex(caption: string, s: string): Reply {
    var named := if s != "" && s[0] == ',' then SkipSpaces(s[1..]) else "";
    var key := "\"best_image_index\":";
    if key <= named then ReadNumber(caption, named[|key|..]) else Unreadable
  }

  /** A number has no zero in front of another digit (RFC 8259, section 6). */
  function ReadNumber(caption: string, s: string): Reply {
    var negative := s != "" && s[0] == '-';
    var t := if negative then s[1..] else s;
    var n := LeadingDigits(t);
    if n == 0 || (n > 1 && t[0] == '0') || t[n..] != "}" then Unreadable
    else
      var v: int := DigitsValue(t[..n]);
      Reply(caption, if negative then -v else v)
  }

  function ReadReply(json: string): Reply {
    var opening := "{\"caption\":\"";
    if !(opening <= json) then Unreadable
    else
      match Decode(json[|opening|..])
      case Malformed => Unreadable
      case Decoded(caption, rest) => ReadIndex(caption, rest)
  }

  lemma {:induction false} DigitsThenEnd(s: string)
    requires AllDigits(s)
    ensures LeadingDigits(s + "}") == |s|
    decreases s
  {
    if s != "" {
      DigitsThenEnd(s[1..]);
      assert (s + "}")[1..] == s[1..] + "}";
    }
  }

  lemma DigitsSplit(digits: string)
    requires AllDigits(digits)
    ensures LeadingDigits(digits + "}") == |digits|
    ensures (digits + "}")[..|digits|] == digits && (digits + "}")[|digits|..] == "}"
  {
    DigitsThenEnd(digits);
  }

  lemma PositiveReads(caption: string, digits: string)
    requires IsNumeral(digits)
    ensures ReadNumber(caption, digits + "}") == Reply(caption, DigitsValue(digits))
  {
    DigitsSplit(digits);
    assert IsDigit((digits + "}")[0]);
  }

  lemma SignedReads(caption: string, s: string, digits: string)
    requires s != "" && s[0] == '-' && s[1..] == digits + "}" && IsNumeral(digits)
    requires LeadingDigits(s[1..]) == |digits| && s[1..][..|digits|] == digits && s[1..][|digits|..] == "}"
    ensures var v: int := DigitsValue(digits); ReadNumber(caption, s) == Reply(caption, -v)
  {}

  lemma NegativeReads(caption: string, digits: string)
    requires IsNumeral(digits)
    ensures var v: int := DigitsValue(digits); ReadNumber(caption, "-" + digits + "}") == Reply(caption, -v)
  {
    var s := "-" + digits + "}";
    assert s[0] == '-' && s[1..] == digits + "}";
    DigitsSplit(digits);
    SignedReads(caption, s, digits);
  }

  lemma NumberReads(caption: string, i: int)
    ensures ReadNumber(caption, ToString(i) + "}") == Reply(caption, i)
  {
    var n := if i < 0 then -i else i;
    DecimalRoundTrip(n);
    DecimalIsNumeral(n);
    if i < 0 {
      NegativeReads(caption, Decimal(n));
    } else {
      PositiveReads(caption, Decimal(n));
    }
  }

  lemma CommaReads(comma: string, named: string)
    requires comma == "," || comma == ", "
    requires named != "" && named[0] != ' '
    ensures comma + named != "" && (comma + named)[0] == ',' && SkipSpaces((comma + named)[1..]) == named
  {
    var s := comma + named;
    if comma == "," {
      assert s[1..] == named;
    } else {
      assert s[1..][0] == ' ' && s[1..][1..] == named;
    }
  }

  lemma IndexReads(caption: string, comma: string, i: int)
    requires comma == "," || comma == ", "
    ensures ReadIndex(caption, comma + (INDEX_NAME + (ToString(i) + "}"))) == Reply(caption, i)
  {
    var number := ToString(i) + "}";
    var named := INDEX_NAME + number;
    assert named[0] == '"';
    CommaReads(comma, named);
    assert named[|INDEX_NAME|..] == number;
    NumberReads(caption, i);
  }

  /** Characters that the handler would leave as they are. */
  predicate IsPlain(s: string) {
    forall c | c in s :: c >= ' ' && c != '"' && c != '\\'
  }

  lemma {:induction false} PlainStays(s: string)
    requires IsPlain(s)
    ensures Escape(s) == s
    decreases s
  {
    if s != "" {
      assert s[0] in s && forall c | c in s[1..] :: c in s;
      PlainStays(s[1..]);
      assert s == [s[0]] + s[1..];
    }
  }

  lemma {:induction false} PlainIsClean(s: string)
    requires IsPlain(s)
    ensures Cleaned(s) == s
    decreases s
  {
    if s != "" {
      assert s[0] in s && forall c | c in s[1..] :: c in s;
      PlainIsClean(s[1..]);
      assert s == [s[0]] + s[1..];
    }
  }

  lemma ErrorCaptionIsPlain()
    ensures IsPlain(ERROR_CAPTION)
  {}

  lemma ReplyReads(escaped: string, comma: string, i: int)
    requires comma == "," || comma == ", "
    ensures ReadReply(ReplyText(escaped, comma, i))
      == match Decode(escaped + ("\"" + (comma + (INDEX_NAME + (ToString(i) + "}")))))
         case Malformed => Unreadable
         case Decoded(caption, rest) => ReadIndex(caption, rest)
  {
    var number := ToString(i) + "}";
    var tail := comma + (INDEX_NAME + number);
    var json := ReplyText(escaped, comma, i);
    assert json == CAPTION_OPENS + (escaped + ("\"" + tail)) by {
      Right5(CAPTION_OPENS + escaped + "\"", comma, INDEX_NAME, ToString(i), "}");
      Right3(CAPTION_OPENS + escaped, "\"", tail);
      Right3(CAPTION_OPENS, escaped, "\"" + tail);
    }
    assert json[|CAPTION_OPENS|..] == escaped + ("\"" + tail);
  }

  /** What a reader of the reply learns: the caption without line ends and tabs, and the index. */
  lemma ReplyComesBack(caption: string, comma: string, i: int)
    requires comma == "," || comma == ", "
    ensures ReadReply(ReplyText(Escape(caption), comma, i))
      == if HasOtherControls(caption) then Unreadable else Reply(Cleaned(caption), i)
  {
    ReplyReads(Escape(caption), comma, i);
    CaptionComesBack(caption, comma + (INDEX_NAME + (ToString(i) + "}")));
    IndexReads(Cleaned(caption), comma, i);
  }

  lemma PlainReplyComesBack(caption: string, i: int)
    requires IsPlain(caption)
    ensures ReadReply(ReplyText(caption, ",", i)) == Reply(caption, i)
  {
    PlainStays(caption);
    PlainIsClean(caption);
    PlainHasNoControls(caption);
    ReplyComesBack(caption, ",", i);
  }

  lemma PlainHasNoControls(s: string)
    requires IsPlain(s)
    ensures !HasOtherControls(s)
  {
    assert forall i | 0 <= i < |s| :: s[i] in s;
  }

  lemma ErrorReplyComesBack(i: int)
    ensures ReadReply(ReplyText(ERROR_CAPTION, ",", i))
      == Reply(ERROR_CAPTION, i)
  {
    ErrorCaptionIsPlain();
    PlainReplyComesBack(ERROR_CAPTION, i);
  }

  /**
    The text of the reply, with the best index that was found and the caption that
    was generated: what a reader makes of it.
    */
  method ReplyTo(images: seq<string>, bestImageIndex: int, caption: string) returns (json: string)
    ensures ReadReply(json) ==
      if !(0 <= bestImageIndex < |images|)
      then Reply("An error occured while selecting an image", bestImageIndex)
      else if HasOtherControls(caption) then Unreadable
      else Reply(Cleaned(caption), bestImageIndex)
    ensures json ==
      if !(0 <= bestImageIndex < |images|) then ReplyText(ERROR_CAPTION, ",", bestImageIndex)
      else ReplyText(Escape(caption), ", ", bestImageIndex)
  {
    if bestImageIndex < 0 || bestImageIndex >= |images| {
      json := CAPTION_OPENS + ERROR_CAPTION + "\"" + "," + INDEX_NAME + ToString(bestImageIndex) + "}";
      ErrorReplyComesBack(bestImageIndex);
    } else {
      var escaped := EscapeCaption(caption);
      json := CAPTION_OPENS + escaped + "\"" + ", " + INDEX_NAME + ToString(bestImageIndex) + "}";
      ReplyComesBack(caption, ", ", bestImageIndex);
    }
  }
}
