/**
  The form encoding (RFC 7578, sections 4.2 and 4.3, over the multipart syntax of
  RFC 2046, section 5.1.1), and what the extraction finds in an encoded form.
  */
module FormEncoding {
  import opened Regroup
  import opened Text
  import opened FormExtraction

  // ----- The form encoding -----

  /** One part of a form: the name of the field and its value. */
  datatype Part = Part(name: string, value: string)

  function WithLine(line: string, rest: string): string {
    line + CRLF + rest
  }

  function HeaderLine(name: string): string {
    DISPOSITION + "\"" + name + "\""
  }

  /** The parts stand between boundary lines, or, as in the handler's own tests, one right after the other. */
  datatype Framing = Framed(boundary: string) | Bare

  function Opening(f: Framing): string {
    if f.Framed? then "--" + f.boundary + CRLF else ""
  }

  function Closing(f: Framing): string {
    if f.Framed? then WithLine("--" + f.boundary + "--", "") else ""
  }

  /** A header line, an empty line, the value, and what follows. */
  function PartLines(header: string, value: string, rest: string): string {
    WithLine(header, WithLine("", WithLine(value, rest)))
  }

  function PartBefore(f: Framing, p: Part, rest: string): string {
    Opening(f) + PartLines(HeaderLine(p.name), p.value, rest)
  }

  function FormText(f: Framing, parts: seq<Part>): string {
    if parts == [] then Closing(f) else PartBefore(f, parts[0], FormText(f, parts[1..]))
  }

  /** For each part a boundary line, a header line, an empty line and the value; then a closing line. */
  lemma FormIsWritten(f: Framing, p: Part, parts: seq<Part>)
    ensures var head := "Content-Disposition: form-data; name=\"" + p.name + "\"\r\n" + "\r\n" + p.value + "\r\n";
      FormText(f, [p] + parts) == (if f.Framed? then "--" + f.boundary + "\r\n" else "") + (head + FormText(f, parts))
    ensures FormText(f, []) == if f.Framed? then "--" + f.boundary + "--\r\n" else ""
  {
    var rest := FormText(f, parts);
    assert ([p] + parts)[1..] == parts;
    assert "Content-Disposition: form-data; name=" + "\"" == "Content-Disposition: form-data; name=\"";
    assert "\"" + "\r\n" == "\"\r\n";
    var named := "Content-Disposition: form-data; name=\"" + p.name;
    Right3(named, "\"", "\r\n");
    assert HeaderLine(p.name) + CRLF == named + "\"\r\n";
    assert "" + CRLF == CRLF;
    Right5(HeaderLine(p.name) + CRLF, CRLF, p.value, CRLF, rest);
    Right3(p.value, CRLF, rest);
    if f.Framed? {
      Right3("--" + f.boundary, "--", CRLF);
      Empty("--" + f.boundary + "--" + CRLF);
      assert "--" + CRLF == "--\r\n";
    }
  }

  /** A line holds no line end. */
  predicate IsLine(s: string) {
    forall i | 0 <= i < |s| - 1 :: !(s[i] == '\r' && s[i + 1] == '\n')
  }

  /** Quotes and line ends in field names are percent-encoded. */
  predicate IsName(s: string) {
    '"' !in s && '\r' !in s && '\n' !in s
  }

  /** Nothing is asked of the values: an encoder writes them as they are, line ends included. */
  predicate WellFormed(f: Framing, parts: seq<Part>) {
    && (f.Framed? ==> IsLine(f.boundary))
    && forall i | 0 <= i < |parts| :: IsName(parts[i].name)
  }

  /** The values of the parts with that name, in order. */
  function ValuesOf(parts: seq<Part>, name: string): seq<string> {
    if parts == [] then []
    else if parts[0].name == name then [parts[0].value] + ValuesOf(parts[1..], name)
    else ValuesOf(parts[1..], name)
  }

  // ----- Searching line by line -----

  predicate EndsWith(s: string, end: string) {
    |end| <= |s| && s[|s| - |end|..] == end
  }

  lemma {:induction false} FirstIs(s: string, pattern: string, from: nat, k: nat)
    requires pattern != "" && from <= k && OccursAt(s, pattern, k)
    requires forall j: nat | from <= j < k :: !OccursAt(s, pattern, j)
    ensures FirstAt(s, pattern, from) == k
    decreases k - from
  {
    if from < k {
      FirstIs(s, pattern, from + 1, k);
    }
  }

  lemma {:induction false} FirstSkips(s: string, pattern: string, from: nat, k: nat)
    requires pattern != "" && from <= k <= |s|
    requires forall j: nat | from <= j < k :: !OccursAt(s, pattern, j)
    ensures FirstAt(s, pattern, from) == FirstAt(s, pattern, k)
    decreases k - from
  {
    if from < k {
      FirstSkips(s, pattern, from + 1, k);
    }
  }

  function Shifted(k: int, start: nat): int {
    if k < 0 then -1 else start + k
  }

  lemma {:induction false} FirstShifts(a: string, b: string, pattern: string, from: nat)
    requires pattern != "" && from <= |b|
    ensures FirstAt(a + b, pattern, |a| + from) == Shifted(FirstAt(b, pattern, from), |a|)
    decreases |b| - from
  {
    OccursShifted(a, b, pattern, from);
    if from < |b| {
      FirstShifts(a, b, pattern, from + 1);
    }
  }

  lemma OccursShifted(a: string, b: string, pattern: string, k: nat)
    ensures OccursAt(a + b, pattern, |a| + k) <==> OccursAt(b, pattern, k)
  {
    if k + |pattern| <= |b| {
      assert (a + b)[|a| + k..|a| + k + |pattern|] == b[k..k + |pattern|];
    }
  }

  /** What a target looks like: a line, and after it an empty line. */
  function Lines(head: string): string {
    head + CRLF + CRLF
  }

  predicate IsHead(head: string) {
    && head != "" && IsLine(head)
    && head[0] != '\r' && head[0] != '\n' && head[|head| - 1] != '\r'
  }

  lemma CharsOfLines(head: string, k: int)
    requires 0 <= k < |head| + 4
    ensures |Lines(head)| == |head| + 4
    ensures Lines(head)[k] == if k < |head| then head[k] else if (k - |head|) % 2 == 0 then '\r' else '\n'
  {}

  lemma CharsOfWithLine(line: string, rest: string, k: int)
    requires 0 <= k < |line| + 2
    ensures |WithLine(line, rest)| == |line| + 2 + |rest|
    ensures WithLine(line, rest)[k] == if k < |line| then line[k] else if k == |line| then '\r' else '\n'
  {}

  lemma OccursChar(s: string, pattern: string, k: nat, i: nat)
    requires OccursAt(s, pattern, k) && i < |pattern|
    ensures k + i < |s| && s[k + i] == pattern[i]
  {
    assert s[k..k + |pattern|][i] == s[k + i];
  }

  /** A target that begins within a line ends with that line and an empty one. */
  lemma TargetEndsWithLine(line: string, rest: string, head: string, k: nat)
    requires IsLine(line) && IsHead(head) && k < |line| + 2
    requires OccursAt(WithLine(line, rest), Lines(head), k)
    ensures k + |head| == |line|
  {
    var text, target := WithLine(line, rest), Lines(head);
    CharsOfLines(head, 0);
    OccursChar(text, target, k, 0);
    CharsOfWithLine(line, rest, k);
    assert k < |line|;
    if k + |head| < |line| {
      LineHasNoTarget(line, rest, head, k);
    } else if k + |head| > |line| {
      HeadHasNoLineEnd(line, rest, head, k);
    }
  }

  lemma LineHasNoTarget(line: string, rest: string, head: string, k: nat)
    requires IsLine(line) && k + |head| < |line|
    ensures !OccursAt(WithLine(line, rest), Lines(head), k)
  {
    var text, target := WithLine(line, rest), Lines(head);
    if OccursAt(text, target, k) {
      CharsOfLines(head, |head|);
      CharsOfLines(head, |head| + 1);
      OccursChar(text, target, k, |head|);
      OccursChar(text, target, k, |head| + 1);
      CharsOfWithLine(line, rest, k + |head|);
      CharsOfWithLine(line, rest, k + |head| + 1);
      assert false;
    }
  }

  lemma HeadHasNoLineEnd(line: string, rest: string, head: string, k: nat)
    requires IsHead(head) && k < |line| < k + |head|
    ensures !OccursAt(WithLine(line, rest), Lines(head), k)
  {
    var text, target, i := WithLine(line, rest), Lines(head), |line| - k;
    if OccursAt(text, target, k) {
      CharsOfLines(head, i);
      CharsOfLines(head, i + 1);
      OccursChar(text, target, k, i);
      OccursChar(text, target, k, i + 1);
      CharsOfWithLine(line, rest, |line|);
      CharsOfWithLine(line, rest, |line| + 1);
      assert false;
    }
  }

  lemma TargetAtLineEnd(line: string, rest: string, head: string)
    requires |head| <= |line|
    ensures OccursAt(WithLine(line, rest), Lines(head), |line| - |head|) <==> EndsWith(line, head) && CRLF <= rest
  {
    var k := |line| - |head|;
    var before, end := line[..k], line[k..];
    assert line == before + end;
    Right3(before, end, CRLF);
    Right3(before, end + CRLF, rest);
    assert WithLine(line, rest) == before + WithLine(end, rest);
    OccursShifted(before, WithLine(end, rest), Lines(head), 0);
    TargetAtStart(end, rest, head);
  }

  lemma TargetAtStart(line: string, rest: string, head: string)
    requires |head| == |line|
    ensures OccursAt(WithLine(line, rest), Lines(head), 0) <==> line == head && CRLF <= rest
  {
    var text, target := WithLine(line, rest), Lines(head);
    Right3(line, CRLF, rest);
    if CRLF <= rest && line == head {
      assert rest == CRLF + rest[2..];
      Right3(head + CRLF, CRLF, rest[2..]);
      assert text == target + rest[2..];
    }
    if OccursAt(text, target, 0) {
      assert text[..|head|] == line && target[..|head|] == head;
      assert text[|head| + 2..|head| + 4] == rest[..2] && target[|head| + 2..] == CRLF;
    }
  }

  /** The search passes a line unless it is the one that is looked for. */
  lemma SearchLine(line: string, rest: string, head: string)
    requires IsLine(line) && IsHead(head)
    ensures FirstAt(WithLine(line, rest), Lines(head), 0)
      == if EndsWith(line, head) && CRLF <= rest then |line| - |head|
         else Shifted(FirstAt(rest, Lines(head), 0), |line| + 2)
  {
    var text, target := WithLine(line, rest), Lines(head);
    forall k: nat | k < |line| + 2 && OccursAt(text, target, k)
      ensures k + |head| == |line|
    {
      TargetEndsWithLine(line, rest, head, k);
    }
    if |head| <= |line| {
      TargetAtLineEnd(line, rest, head);
    }
    if EndsWith(line, head) && CRLF <= rest {
      FirstIs(text, target, 0, |line| - |head|);
    } else {
      assert forall k: nat | k < |line| + 2 :: !OccursAt(text, target, k);
      FirstSkips(text, target, 0, |line| + 2);
      FirstShifts(line + CRLF, rest, target, 0);
    }
  }

  /** The first line end after the beginning of a line is its end. */
  lemma SearchLineEnd(line: string, rest: string)
    requires IsLine(line)
    ensures FirstAt(WithLine(line, rest), CRLF, 0) == |line|
  {
    var text := WithLine(line, rest);
    forall k: nat | k < |line|
      ensures !OccursAt(text, CRLF, k)
    {
      CharsOfWithLine(line, rest, k);
      CharsOfWithLine(line, rest, k + 1);
      if OccursAt(text, CRLF, k) {
        OccursChar(text, CRLF, k, 0);
        OccursChar(text, CRLF, k, 1);
      }
    }
    assert OccursAt(text, CRLF, |line|) by {
      Right3(line, CRLF, rest);
      OccursShifted(line, CRLF + rest, CRLF, 0);
    }
    FirstIs(text, CRLF, 0, |line|);
  }

  // ----- Searching part by part -----

  /** The value does not spell out the header that is looked for, with an empty line after it. */
  predicate Clear(value: string, head: string) {
    FirstAt(value + CRLF, Lines(head), 0) == -1
  }

  lemma LinesAreClear(value: string, head: string)
    requires IsLine(value) && IsHead(head)
    ensures Clear(value, head)
  {
    Empty(value + CRLF);
    SearchLine(value, "", head);
    assert FirstAt("", Lines(head), 0) == -1;
  }

  lemma {:induction false} FirstMeans(s: string, pattern: string, from: nat)
    requires pattern != ""
    ensures var k := FirstAt(s, pattern, from);
      && (k == -1 ==> forall j: nat | from <= j :: !OccursAt(s, pattern, j))
      && (k >= 0 ==> OccursAt(s, pattern, k) && forall j: nat | from <= j < k :: !OccursAt(s, pattern, j))
    decreases |s| - from
  {
    if from + |pattern| <= |s| && !OccursAt(s, pattern, from) {
      FirstMeans(s, pattern, from + 1);
    }
  }

  lemma OccursInFront(a: string, b: string, pattern: string, k: nat)
    requires k + |pattern| <= |a|
    ensures OccursAt(a + b, pattern, k) <==> OccursAt(a, pattern, k)
  {
    assert (a + b)[k..k + |pattern|] == a[k..k + |pattern|];
  }

  /** An occurrence that reaches beyond a value and its line end would need an empty line there. */
  lemma TargetStaysInValue(value: string, rest: string, head: string, k: nat)
    requires IsHead(head) && !(CRLF <= rest) && k < |value| + 2 < k + |head| + 4
    ensures !OccursAt(WithLine(value, rest), Lines(head), k)
  {
    var text, target := WithLine(value, rest), Lines(head);
    if OccursAt(text, target, k) {
      CharsOfLines(head, 0);
      OccursChar(text, target, k, 0);
      CharsOfWithLine(value, rest, k);
      var i := |value| - k;
      CharsOfLines(head, i);
      CharsOfLines(head, i + 1);
      OccursChar(text, target, k, i);
      OccursChar(text, target, k, i + 1);
      CharsOfWithLine(value, rest, |value|);
      CharsOfWithLine(value, rest, |value| + 1);
      EmptyLineBehind(value, rest, head, k);
    }
  }

  lemma EmptyLineBehind(value: string, rest: string, head: string, k: nat)
    requires k + |head| == |value|
    ensures OccursAt(WithLine(value, rest), Lines(head), k) ==> CRLF <= rest
  {
    var text, target := WithLine(value, rest), Lines(head);
    if OccursAt(text, target, k) {
      CharsOfLines(head, |head| + 2);
      CharsOfLines(head, |head| + 3);
      OccursChar(text, target, k, |head| + 2);
      OccursChar(text, target, k, |head| + 3);
      assert text[|value| + 2] == rest[0] && text[|value| + 3] == rest[1];
      assert rest[..2] == [rest[0]] + [rest[1]];
    }
  }

  /** The search passes a value, of however many lines, that is clear of the header. */
  lemma SearchValue(value: string, rest: string, head: string)
    requires IsHead(head) && !(CRLF <= rest) && Clear(value, head)
    ensures FirstAt(WithLine(value, rest), Lines(head), 0) == Shifted(FirstAt(rest, Lines(head), 0), |value| + 2)
  {
    var text, target := WithLine(value, rest), Lines(head);
    CharsOfLines(head, 0);
    FirstMeans(value + CRLF, target, 0);
    forall k: nat | k < |value| + 2
      ensures !OccursAt(text, target, k)
    {
      if k + |head| + 4 <= |value| + 2 {
        OccursInFront(value + CRLF, rest, target, k);
      } else {
        TargetStaysInValue(value, rest, head, k);
      }
    }
    FirstSkips(text, target, 0, |value| + 2);
    FirstShifts(value + CRLF, rest, target, 0);
  }

  /** The search finds the header line that is looked for, and passes any other part whose value is clear of it. */
  lemma SearchPart(header: string, value: string, rest: string, head: string)
    requires IsLine(header) && IsHead(head) && !(CRLF <= rest)
    requires !EndsWith(header, head) ==> Clear(value, head)
    ensures FirstAt(PartLines(header, value, rest), Lines(head), 0)
      == if EndsWith(header, head) then |header| - |head|
         else Shifted(FirstAt(rest, Lines(head), 0), |header| + |value| + 6)
  {
    var afterValue := WithLine(value, rest);
    var afterHeader := WithLine("", afterValue);
    CharsOfWithLine("", afterValue, 0);
    CharsOfWithLine("", afterValue, 1);
    assert CRLF <= afterHeader;
    SearchLine(header, afterHeader, head);
    SearchLine("", afterValue, head);
    if !EndsWith(header, head) {
      SearchValue(value, rest, head);
    }
  }

  /** The search passes a boundary line. */
  lemma SearchOpening(f: Framing, text: string, head: string)
    requires (f.Framed? ==> IsLine(f.boundary)) && IsHead(head) && !(CRLF <= text)
    ensures FirstAt(Opening(f) + text, Lines(head), 0) == Shifted(FirstAt(text, Lines(head), 0), |Opening(f)|)
  {
    match f
    case Framed(b) =>
      DelimitersAreLines(b);
      SearchLine("--" + b, text, head);
    case Bare =>
      Empty(text);
  }

  lemma DelimitersAreLines(boundary: string)
    requires IsLine(boundary)
    ensures IsLine("--" + boundary) && IsLine("--" + boundary + "--")
  {}

  lemma CharsOfName(start: string, name: string)
    requires IsName(name)
    ensures var line := start + name + "\""; forall k | |start| <= k < |line| - 1 :: line[k] != '"'
  {
    assert forall k | |start| <= k < |start| + |name| :: (start + name + "\"")[k] == name[k - |start|];
  }

  /** One header line does not end with another, for different names. */
  lemma HeadersDiffer(start: string, name: string, other: string)
    requires start != "" && start[|start| - 1] == '"' && IsName(name)
    ensures EndsWith(start + name + "\"", start + other + "\"") <==> name == other
  {
    var line, head := start + name + "\"", start + other + "\"";
    if EndsWith(line, head) {
      var gap := |line| - |head|;
      assert line[gap..][|start| - 1] == line[gap + |start| - 1];
      assert head[|start| - 1] == '"';
      CharsOfName(start, name);
      assert gap <= 0;
      assert line[|start|..|line| - 1] == name && head[|start|..|head| - 1] == other;
    }
  }

  lemma DispositionIsName()
    ensures IsName(DISPOSITION)
  {
    DispositionLacks('"');
    DispositionLacks('\r');
    DispositionLacks('\n');
  }

  lemma DispositionLacks(c: char)
    requires c == '"' || c < ' '
    ensures c !in DISPOSITION
  {}

  lemma HeaderIsHead(name: string)
    requires IsName(name)
    ensures IsHead(HeaderLine(name)) && HeaderLine(name)[0] == 'C'
    ensures |Target(name)| == |HeaderLine(name)| + 4 && Target(name) == Lines(HeaderLine(name))
  {
    DispositionIsName();
    assert DISPOSITION[0] == 'C';
    QuotedIsHead(DISPOSITION, name);
  }

  lemma QuotedIsHead(start: string, name: string)
    requires start != "" && IsName(start) && IsName(name)
    ensures IsHead(start + "\"" + name + "\"") && (start + "\"" + name + "\"")[0] == start[0]
  {
    var line := start + "\"" + name + "\"";
    assert forall k | 0 <= k < |line| :: line[k] in start || line[k] in name || line[k] == '"';
    assert '\r' !in line && '\n' !in line;
    assert line[0] == start[0] && line[|line| - 1] == '"';
  }

  // ----- Where the first part with a name is -----

  /** The first target in the text comes after `before`; a value line and the rest follow it. */
  predicate Located(text: string, target: string, before: string, value: string, rest: string) {
    text == before + (target + WithLine(value, rest)) && FirstAt(text, target, 0) == |before|
  }

  /** The values with other names, as far as the search for `n` values reaches, are clear of its header. */
  predicate ClearTo(parts: seq<Part>, name: string, n: nat) {
    if n == 0 || parts == [] then true
    else if parts[0].name == name then ClearTo(parts[1..], name, n - 1)
    else Clear(parts[0].value, HeaderLine(name)) && ClearTo(parts[1..], name, n)
  }

  lemma PartThenRest(opening: string, header: string, value: string, rest: string)
    ensures opening + PartLines(header, value, rest) == opening + (Lines(header) + WithLine(value, rest))
    ensures opening + PartLines(header, value, rest) == (opening + (Lines(header) + (value + CRLF))) + rest
  {
    var afterHeader := WithLine("", WithLine(value, rest));
    Empty(CRLF);
    Right3(header, CRLF, afterHeader);
    Right3(CRLF, CRLF, WithLine(value, rest));
    assert WithLine(header, afterHeader) == Lines(header) + WithLine(value, rest) by {
      Right3(header, CRLF, CRLF);
      Right3(header, CRLF, CRLF + WithLine(value, rest));
      Right3(header, CRLF + CRLF, WithLine(value, rest));
    }
    Right3(Lines(header), value + CRLF, rest);
    Right3(opening, Lines(header) + (value + CRLF), rest);
  }

  lemma LocatedInPart(f: Framing, header: string, value: string, rest: string)
    requires (f.Framed? ==> IsLine(f.boundary)) && IsHead(header) && !(CRLF <= rest)
    ensures Located(Opening(f) + PartLines(header, value, rest), Lines(header), Opening(f), value, rest)
  {
    PartThenRest(Opening(f), header, value, rest);
    assert EndsWith(header, header);
    PartBegins(header, value, rest);
    SearchOpening(f, PartLines(header, value, rest), header);
    SearchPart(header, value, rest, header);
  }

  lemma LocatedFurther(part: string, text: string, target: string, before: string, value: string, rest: string)
    requires Located(text, target, before, value, rest)
    requires FirstAt(part + text, target, 0) == Shifted(FirstAt(text, target, 0), |part|)
    ensures Located(part + text, target, part + before, value, rest)
  {
    Right3(part, before, target + WithLine(value, rest));
  }

  lemma PartBegins(header: string, value: string, rest: string)
    requires IsHead(header)
    ensures PartLines(header, value, rest) != "" && PartLines(header, value, rest)[0] == header[0]
  {
    CharsOfWithLine(header, WithLine("", WithLine(value, rest)), 0);
  }

  /** No form begins with an empty line. */
  lemma FormBegins(f: Framing, parts: seq<Part>)
    requires WellFormed(f, parts)
    ensures !(CRLF <= FormText(f, parts))
  {
    if parts != [] {
      var p, rest := parts[0], FormText(f, parts[1..]);
      HeaderIsHead(p.name);
      PartBegins(HeaderLine(p.name), p.value, rest);
      BeginsWithOpening(f, PartLines(HeaderLine(p.name), p.value, rest));
    } else if f.Framed? {
      CharsOfWithLine("--" + f.boundary + "--", "", 0);
    }
  }

  lemma BeginsWithOpening(f: Framing, text: string)
    requires text != "" && text[0] != '\r'
    ensures !(CRLF <= Opening(f) + text)
  {
    assert (Opening(f) + text)[0] == if f.Framed? then '-' else text[0];
  }

  /** The parts behind the first one with a name. */
  function AfterFirst(parts: seq<Part>, name: string): (later: seq<Part>)
    requires ValuesOf(parts, name) != []
    ensures |later| < |parts|
  {
    if parts[0].name == name then parts[1..] else AfterFirst(parts[1..], name)
  }

  lemma {:induction false} ValuesAfterFirst(f: Framing, parts: seq<Part>, name: string, n: nat)
    requires WellFormed(f, parts) && ValuesOf(parts, name) != [] && n > 0 && ClearTo(parts, name, n)
    ensures WellFormed(f, AfterFirst(parts, name)) && ClearTo(AfterFirst(parts, name), name, n - 1)
    ensures ValuesOf(parts, name) == [ValuesOf(parts, name)[0]] + ValuesOf(AfterFirst(parts, name), name)
    decreases parts
  {
    if parts[0].name != name {
      ValuesAfterFirst(f, parts[1..], name, n);
    }
  }

  /** The first part with a name is found, behind parts that are clear of its header. */
  lemma {:induction false} FieldIsLocated(f: Framing, parts: seq<Part>, name: string, n: nat) returns (before: string)
    requires WellFormed(f, parts) && IsName(name) && ValuesOf(parts, name) != []
    requires n > 0 && ClearTo(parts, name, n)
    ensures Located(FormText(f, parts), Target(name), before,
                    ValuesOf(parts, name)[0], FormText(f, AfterFirst(parts, name)))
    decreases parts
  {
    var p, rest := parts[0], FormText(f, parts[1..]);
    FormBegins(f, parts[1..]);
    HeaderIsHead(name);
    if p.name == name {
      before := Opening(f);
      LocatedInPart(f, HeaderLine(name), p.value, rest);
    } else {
      before := FieldIsLocated(f, parts[1..], name, n);
      PassOver(f, p, rest, name);
      var part := Opening(f) + (Target(p.name) + (p.value + CRLF));
      LocatedFurther(part, rest, Target(name), before, ValuesOf(parts, name)[0], FormText(f, AfterFirst(parts, name)));
      before := part + before;
    }
  }

  /** The search for one name passes over a part with another. */
  lemma PassOver(f: Framing, p: Part, rest: string, name: string)
    requires WellFormed(f, [p]) && IsName(name) && p.name != name && !(CRLF <= rest) && Clear(p.value, HeaderLine(name))
    ensures var part := Opening(f) + (Target(p.name) + (p.value + CRLF));
      && PartBefore(f, p, rest) == part + rest
      && FirstAt(part + rest, Target(name), 0) == Shifted(FirstAt(rest, Target(name), 0), |part|)
  {
    assert [p][0] == p;
    HeaderIsHead(name);
    HeaderIsHead(p.name);
    HeadersDiffer(DISPOSITION + "\"", p.name, name);
    PassOverOther(f, HeaderLine(p.name), p.value, rest, HeaderLine(name));
  }

  lemma PassOverOther(f: Framing, header: string, value: string, rest: string, head: string)
    requires (f.Framed? ==> IsLine(f.boundary)) && IsHead(header) && IsHead(head) && Clear(value, head)
    requires !EndsWith(header, head) && !(CRLF <= rest)
    ensures var part := Opening(f) + (Lines(header) + (value + CRLF));
      && Opening(f) + PartLines(header, value, rest) == part + rest
      && FirstAt(part + rest, Lines(head), 0) == Shifted(FirstAt(rest, Lines(head), 0), |part|)
  {
    PartThenRest(Opening(f), header, value, rest);
    PartBegins(header, value, rest);
    SearchOpening(f, PartLines(header, value, rest), head);
    SearchPart(header, value, rest, head);
  }

  /** A form without the name, and clear of its header, does not contain the header at all. */
  lemma {:induction false} NothingToFind(f: Framing, parts: seq<Part>, name: string, n: nat)
    requires WellFormed(f, parts) && IsName(name) && ValuesOf(parts, name) == []
    requires n > 0 && ClearTo(parts, name, n)
    ensures FirstAt(FormText(f, parts), Target(name), 0) == -1
    decreases parts
  {
    HeaderIsHead(name);
    if parts == [] {
      ClosingHasNothing(f, HeaderLine(name));
    } else {
      NothingToFind(f, parts[1..], name, n);
      FormBegins(f, parts[1..]);
      PassOver(f, parts[0], FormText(f, parts[1..]), name);
    }
  }

  lemma ClosingHasNothing(f: Framing, head: string)
    requires (f.Framed? ==> IsLine(f.boundary)) && IsHead(head)
    ensures FirstAt(Closing(f), Lines(head), 0) == -1
  {
    assert FirstAt("", Lines(head), 0) == -1;
    if f.Framed? {
      DelimitersAreLines(f.boundary);
      SearchLine("--" + f.boundary + "--", "", head);
    }
  }
}
