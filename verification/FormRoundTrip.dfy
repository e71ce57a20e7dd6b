/**
  What the extraction makes of an encoded form: exactly when the images and the
  text come back, and what comes back when they do not.
  */
module FormRoundTrip {
  import opened Regroup
  import opened Text
  import opened FormExtraction
  import opened FormEncoding

  // ----- The first line of a text -----

  function FirstLine(s: string): string {
    var k := FirstAt(s, CRLF, 0);
    if k < 0 then s else s[..k]
  }

  lemma LineEndAt(s: string, k: nat)
    ensures OccursAt(s, CRLF, k) <==> k + 1 < |s| && s[k] == '\r' && s[k + 1] == '\n'
  {
    if k + 1 < |s| {
      assert s[k..k + 2] == [s[k]] + [s[k + 1]];
    }
  }

  lemma LineHasNoEnd(s: string)
    ensures IsLine(s) <==> FirstAt(s, CRLF, 0) == -1
  {
    FirstMeans(s, CRLF, 0);
    var k := FirstAt(s, CRLF, 0);
    if k >= 0 {
      LineEndAt(s, k);
      assert s[k] == '\r' && s[k + 1] == '\n';
    } else {
      forall i | 0 <= i < |s| - 1
        ensures !(s[i] == '\r' && s[i + 1] == '\n')
      {
        LineEndAt(s, i);
      }
    }
  }

  /** The first line is a line, and the whole text exactly if that is a line. */
  lemma FirstLineIsLine(s: string)
    ensures IsLine(FirstLine(s)) && FirstLine(s) <= s
    ensures FirstLine(s) == s <==> IsLine(s)
  {
    LineHasNoEnd(s);
    var k := FirstAt(s, CRLF, 0);
    if k >= 0 {
      FirstMeans(s, CRLF, 0);
      forall j | 0 <= j < k - 1
        ensures !(s[j] == '\r' && s[j + 1] == '\n')
      {
        LineEndAt(s, j);
      }
    }
  }

  lemma SplitAtLineEnd(s: string)
    requires !IsLine(s)
    ensures |FirstLine(s)| + 2 <= |s| && s == WithLine(FirstLine(s), s[|FirstLine(s)| + 2..])
  {
    LineHasNoEnd(s);
    FirstMeans(s, CRLF, 0);
    var k := FirstAt(s, CRLF, 0);
    assert s == s[..k] + s[k..k + 2] + s[k + 2..];
  }

  /** Only the first line of a value is in front of the first line end. */
  lemma FirstLineOfValue(value: string, rest: string)
    ensures FirstAt(WithLine(value, rest), CRLF, 0) == |FirstLine(value)|
    ensures FirstLine(WithLine(value, rest)) == FirstLine(value)
  {
    FirstLineIsLine(value);
    var line := FirstLine(value);
    if IsLine(value) {
      SearchLineEnd(value, rest);
      assert WithLine(value, rest)[..|value|] == value;
    } else {
      SplitAtLineEnd(value);
      var more := value[|line| + 2..];
      Right3(line + CRLF, more, CRLF);
      Right3(line + CRLF, more + CRLF, rest);
      assert WithLine(value, rest) == WithLine(line, WithLine(more, rest));
      SearchLineEnd(line, WithLine(more, rest));
      assert WithLine(line, WithLine(more, rest))[..|line|] == line;
    }
  }

  // ----- What one round of the loop cuts out of any body -----

  /** Where a value is taken to start: behind the header, or where `npos` leads if there is none. */
  function Index(body: string, target: string): nat
    requires target != ""
  {
    var k := FirstAt(body, target, 0);
    if k < 0 then |target| - 1 else k + |target|
  }

  /** What is left behind the line end after `index`; without one, `npos` plus two wraps around to 1. */
  function Behind(body: string, index: nat): string
    requires index <= |body| && body != ""
  {
    var k := FirstAt(body[index..], CRLF, 0);
    if k < 0 then body[1..] else body[index + k + 2..]
  }

  /** Small numbers survive the conversions between `int` and `size_t`. */
  lemma SmallNumbers(n: nat)
    requires n <= TWO_TO_THE_31
    ensures n % TWO_TO_THE_64 == n && ToSize(n) == n
    ensures n < TWO_TO_THE_31 ==> ToInt(n) == n
  {}

  lemma WrapsToOneLess(length: nat)
    requires 0 < length < TWO_TO_THE_31
    ensures (NPOS + length) % TWO_TO_THE_64 == length - 1
  {}

  lemma IndexIsTaken(body: string, target: string)
    requires |body| < TWO_TO_THE_31 && 0 < |target| < TWO_TO_THE_31
    ensures ValueIndex(body, target) == Index(body, target) < TWO_TO_THE_31
  {
    var k := FirstAt(body, target, 0);
    if k < 0 {
      assert StdFind(body, target, 0) == NPOS;
      WrapsToOneLess(|target|);
      SmallNumbers(|target| - 1);
    } else {
      SmallNumbers(k + |target|);
    }
  }

  lemma LineEndBehind(body: string, index: nat)
    requires index <= |body|
    ensures FirstAt(body, CRLF, index) == Shifted(FirstAt(body[index..], CRLF, 0), index)
  {
    assert body == body[..index] + body[index..];
    FirstShifts(body[..index], body[index..], CRLF, 0);
  }

  lemma NposWraps(index: nat)
    requires index < TWO_TO_THE_31
    ensures ToSize(NPOS - index) == NPOS - index && (NPOS + 2) % TWO_TO_THE_64 == 1
  {}

  lemma FieldAt(body: string, target: string, index: nat)
    requires |body| < TWO_TO_THE_31 && ValueIndex(body, target) == index < TWO_TO_THE_31
    ensures FieldOf(body, target) == if index > |body| then Raised(Error.OutOfRange) else Got(FirstLine(body[index..]))
  {
    SmallNumbers(index);
    NposWraps(index);
    if index <= |body| {
      LineEndBehind(body, index);
      var k := FirstAt(body[index..], CRLF, 0);
      if k >= 0 {
        SmallNumbers(k);
        assert body[index..][..k] == body[index..index + k];
      }
    }
  }

  lemma RestAt(body: string, target: string, index: nat)
    requires |body| < TWO_TO_THE_31 && ValueIndex(body, target) == index <= |body| && body != ""
    ensures RestAfter(body, target) == Got(Behind(body, index))
  {
    SmallNumbers(index);
    NposWraps(index);
    LineEndBehind(body, index);
    var k := FirstAt(body[index..], CRLF, 0);
    if k >= 0 {
      SmallNumbers(index + k + 2);
    }
  }

  /**
    Whatever the body: one round yields the first line behind the index and what is
    behind it, or raises an error exactly if the body ends before the index.
    */
  lemma CutOut(body: string, target: string)
    requires |body| < TWO_TO_THE_31 && 0 < |target| < TWO_TO_THE_31
    ensures var i := Index(body, target);
      && FieldOf(body, target) == (if i > |body| then Raised(Error.OutOfRange) else Got(FirstLine(body[i..])))
      && (i <= |body| && body != "" ==> RestAfter(body, target) == Got(Behind(body, i)))
  {
    IndexIsTaken(body, target);
    FieldAt(body, target, Index(body, target));
    if Index(body, target) <= |body| && body != "" {
      RestAt(body, target, Index(body, target));
    }
  }

  /** Nothing but lines is ever extracted, from any body. */
  lemma FieldIsALine(body: string, target: string)
    requires |body| < TWO_TO_THE_31 && 0 < |target| < TWO_TO_THE_31
    ensures FieldOf(body, target).Got? ==> IsLine(FieldOf(body, target).value)
  {
    CutOut(body, target);
    if Index(body, target) <= |body| {
      FirstLineIsLine(body[Index(body, target)..]);
    }
  }

  /** One round leaves a shorter body. */
  lemma BehindIsShorter(body: string, index: nat)
    requires 0 < index <= |body|
    ensures |Behind(body, index)| < |body|
  {
  }

  lemma {:induction false} TakenAreLines(body: string, target: string, n: int)
    requires |body| < TWO_TO_THE_31 && 1 < |target| < TWO_TO_THE_31
    ensures TakenFrom(body, target, n).Got? ==>
      forall i | 0 <= i < |TakenFrom(body, target, n).value| :: IsLine(TakenFrom(body, target, n).value[i])
    decreases n
  {
    if n > 0 && TakenFrom(body, target, n).Got? {
      CutOut(body, target);
      FieldIsALine(body, target);
      var i := Index(body, target);
      BehindIsShorter(body, i);
      TakenAreLines(Behind(body, i), target, n - 1);
    }
  }

  lemma {:induction false} TakenLength(body: string, target: string, n: nat)
    requires TakenFrom(body, target, n).Got?
    ensures |TakenFrom(body, target, n).value| == n
    decreases n
  {
    if n > 0 {
      TakenLength(RestAfter(body, target).value, target, n - 1);
    }
  }

  // ----- The extraction on encoded forms -----

  /** On a located value, one round yields its first line; and the rest behind the value, if that is a line. */
  lemma CutLocated(text: string, target: string, before: string, value: string, rest: string)
    requires Located(text, target, before, value, rest)
    requires |text| < TWO_TO_THE_31 && 0 < |target| < TWO_TO_THE_31
    ensures FieldOf(text, target) == Got(FirstLine(value))
    ensures IsLine(value) ==> RestAfter(text, target) == Got(rest)
  {
    LocatedText(text, target, before, value, rest);
    CutFound(text, target, |before| + |target|, value, rest);
  }

  lemma CutFound(text: string, target: string, i: nat, value: string, rest: string)
    requires |text| < TWO_TO_THE_31 && 0 < |target| < TWO_TO_THE_31
    requires Index(text, target) == i && i + |value| + 2 <= |text|
    requires text[i..] == WithLine(value, rest) && text[i + |value| + 2..] == rest
    ensures FieldOf(text, target) == Got(FirstLine(value))
    ensures IsLine(value) ==> RestAfter(text, target) == Got(rest)
  {
    ValueAt(text, i, value, rest);
    CutOut(text, target);
  }

  lemma ValueAt(text: string, i: nat, value: string, rest: string)
    requires i + |value| + 2 <= |text|
    requires text[i..] == WithLine(value, rest) && text[i + |value| + 2..] == rest
    ensures FirstLine(text[i..]) == FirstLine(value)
    ensures IsLine(value) ==> Behind(text, i) == rest
  {
    FirstLineOfValue(value, rest);
    if IsLine(value) {
      SearchLineEnd(value, rest);
    }
  }

  lemma LocatedText(text: string, target: string, before: string, value: string, rest: string)
    requires Located(text, target, before, value, rest) && target != ""
    ensures var i := |before| + |target|;
      && Index(text, target) == i && i + |value| + 2 <= |text|
      && text[i..] == WithLine(value, rest) && text[i + |value| + 2..] == rest
  {
    Right3(before, target, WithLine(value, rest));
    var front := before + target;
    assert text[|front|..] == WithLine(value, rest);
    assert text[|front| + |value| + 2..] == WithLine(value, rest)[|value| + 2..] == rest;
  }

  lemma RestIsShorter(text: string, target: string, before: string, value: string, rest: string)
    requires Located(text, target, before, value, rest)
    ensures |rest| < |text|
  {}

  lemma TargetIsShorter(text: string, target: string, before: string, value: string, rest: string)
    requires Located(text, target, before, value, rest)
    ensures |target| < |text|
  {}

  /** The first line of the first value with a name is cut out; behind a line remains a form with the later parts. */
  lemma CutFirst(f: Framing, parts: seq<Part>, name: string, n: nat)
    requires WellFormed(f, parts) && IsName(name) && ValuesOf(parts, name) != []
    requires n > 0 && ClearTo(parts, name, n) && |FormText(f, parts)| < TWO_TO_THE_31
    ensures var value, rest := ValuesOf(parts, name)[0], FormText(f, AfterFirst(parts, name));
      && |rest| < |FormText(f, parts)|
      && FieldOf(FormText(f, parts), Target(name)) == Got(FirstLine(value))
      && (IsLine(value) ==> RestAfter(FormText(f, parts), Target(name)) == Got(rest))
  {
    var before := FieldIsLocated(f, parts, name, n);
    HeaderIsHead(name);
    var value, text, rest := ValuesOf(parts, name)[0], FormText(f, parts), FormText(f, AfterFirst(parts, name));
    RestIsShorter(text, Target(name), before, value, rest);
    TargetIsShorter(text, Target(name), before, value, rest);
    CutLocated(text, Target(name), before, value, rest);
  }

  /**
    A field is found by its name, wherever it stands; of several with one name, the
    first. It comes back up to its first line end, and so exactly if it is a line.
    */
  lemma {:induction false} FieldComesBack(f: Framing, parts: seq<Part>, name: string)
    requires WellFormed(f, parts) && IsName(name) && ValuesOf(parts, name) != [] && ClearTo(parts, name, 1)
    requires |FormText(f, parts)| < TWO_TO_THE_31
    ensures var value, field := ValuesOf(parts, name)[0], FieldOf(FormText(f, parts), Target(name));
      field == Got(FirstLine(value)) && (field == Got(value) <==> IsLine(value))
  {
    CutFirst(f, parts, name, 1);
    FirstLineIsLine(ValuesOf(parts, name)[0]);
  }

  predicate AllLines(values: seq<string>) {
    forall i | 0 <= i < |values| :: IsLine(values[i])
  }

  /** Repeated cutting yields the values with one name, in order. */
  lemma {:induction false} ValuesComeBack(f: Framing, parts: seq<Part>, name: string, n: nat)
    requires WellFormed(f, parts) && IsName(name) && n <= |ValuesOf(parts, name)|
    requires ClearTo(parts, name, n) && AllLines(ValuesOf(parts, name)[..n])
    requires |FormText(f, parts)| < TWO_TO_THE_31
    ensures TakenFrom(FormText(f, parts), Target(name), n) == Got(ValuesOf(parts, name)[..n])
    decreases n
  {
    if n > 0 {
      var values, later := ValuesOf(parts, name), AfterFirst(parts, name);
      FirstOfLines(values, n);
      CutFirst(f, parts, name, n);
      FirstLineIsLine(values[0]);
      ValuesAfterFirst(f, parts, name, n);
      LinesOfLater(values, ValuesOf(later, name), n);
      ValuesComeBack(f, later, name, n - 1);
      TakeOne(FormText(f, parts), Target(name), FormText(f, later), n, values, ValuesOf(later, name));
    }
  }

  lemma FirstOfLines(values: seq<string>, n: nat)
    requires 0 < n <= |values| && AllLines(values[..n])
    ensures IsLine(values[0])
  {
    assert values[..n][0] == values[0];
  }

  lemma LinesOfLater(values: seq<string>, later: seq<string>, n: nat)
    requires 0 < n <= |values| && values == [values[0]] + later && AllLines(values[..n])
    ensures AllLines(later[..n - 1])
  {
    var few := later[..n - 1];
    forall i | 0 <= i < |few|
      ensures IsLine(few[i])
    {
      assert few[i] == values[..n][i + 1];
    }
  }

  lemma TakeOne(body: string, target: string, rest: string, n: nat, values: seq<string>, later: seq<string>)
    requires 0 < n <= |values| && values == [values[0]] + later
    requires FieldOf(body, target) == Got(values[0]) && RestAfter(body, target) == Got(rest)
    requires TakenFrom(rest, target, n - 1) == Got(later[..n - 1])
    ensures TakenFrom(body, target, n) == Got(values[..n])
  {
    assert values[..n] == [values[0]] + later[..n - 1];
  }

  lemma {:induction false} ValuesAreFewerThanChars(f: Framing, parts: seq<Part>, name: string)
    ensures |ValuesOf(parts, name)| <= |FormText(f, parts)|
    decreases parts
  {
    if parts != [] {
      ValuesAreFewerThanChars(f, parts[1..], name);
      PartThenRest(Opening(f), HeaderLine(parts[0].name), parts[0].value, FormText(f, parts[1..]));
    }
  }

  lemma NamesAreNames()
    ensures IsName(FILE_UPLOAD) && IsName(NUMBER_OF_IMAGES) && IsName(RELEVANT_INFO)
  {}

  /** For any field name: all its values come back exactly if their number was announced and all are lines. */
  lemma {:induction false} CountedValues(f: Framing, parts: seq<Part>, name: string, announced: nat)
    requires WellFormed(f, parts) && IsName(name) && |FormText(f, parts)| < TWO_TO_THE_31
    requires ClearTo(parts, name, |ValuesOf(parts, name)|)
    ensures var values, taken := ValuesOf(parts, name), TakenFrom(FormText(f, parts), Target(name), announced);
      && (announced <= |values| && AllLines(values[..announced]) ==> taken == Got(values[..announced]))
      && (taken == Got(values) <==> announced == |values| && AllLines(values))
  {
    var values := ValuesOf(parts, name);
    assert values[..|values|] == values;
    if announced <= |values| && AllLines(values[..announced]) {
      ClearToFewer(parts, name, |values|, announced);
      ValuesComeBack(f, parts, name, announced);
    }
    var taken := TakenFrom(FormText(f, parts), Target(name), announced);
    if taken.Got? {
      TakenLength(FormText(f, parts), Target(name), announced);
      if values != [] {
        HeaderFits(f, parts, name);
        TakenAreLines(FormText(f, parts), Target(name), announced);
      }
    }
  }

  lemma HeaderFits(f: Framing, parts: seq<Part>, name: string)
    requires WellFormed(f, parts) && IsName(name) && ValuesOf(parts, name) != []
    requires ClearTo(parts, name, |ValuesOf(parts, name)|)
    ensures 1 < |Target(name)| < |FormText(f, parts)|
  {
    ClearToFewer(parts, name, |ValuesOf(parts, name)|, 1);
    var before := FieldIsLocated(f, parts, name, 1);
    HeaderIsHead(name);
    TargetIsShorter(FormText(f, parts), Target(name), before,
                    ValuesOf(parts, name)[0], FormText(f, AfterFirst(parts, name)));
  }

  lemma {:induction false} ClearToFewer(parts: seq<Part>, name: string, n: nat, m: nat)
    requires ClearTo(parts, name, n) && m <= n
    ensures ClearTo(parts, name, m)
    decreases parts
  {
    if m > 0 && parts != [] {
      if parts[0].name == name {
        ClearToFewer(parts[1..], name, n - 1, m - 1);
      } else {
        ClearToFewer(parts[1..], name, n, m);
      }
    }
  }

  /**
    The images of a posted form come back in order, whatever other parts there are
    and in whatever order, exactly if the announced number is their number and each
    is a line; if fewer are announced, that many of them come back.
    */
  lemma ImagesComeBack(f: Framing, parts: seq<Part>, announced: nat)
    requires WellFormed(f, parts) && |FormText(f, parts)| < TWO_TO_THE_31
    requires ValuesOf(parts, NUMBER_OF_IMAGES) != [] && ValuesOf(parts, NUMBER_OF_IMAGES)[0] == Decimal(announced)
    requires ClearTo(parts, NUMBER_OF_IMAGES, 1) && ClearTo(parts, FILE_UPLOAD, |ValuesOf(parts, FILE_UPLOAD)|)
    ensures var images, result := ValuesOf(parts, FILE_UPLOAD), AllImages(FormText(f, parts));
      && (announced <= |images| && AllLines(images[..announced]) ==> result == Got(images[..announced]))
      && (result == Got(images) <==> announced == |images| && AllLines(images))
  {
    NumberComesBack(f, parts, announced);
    NamesAreNames();
    ValuesAreFewerThanChars(f, parts, FILE_UPLOAD);
    CountedValues(f, parts, FILE_UPLOAD, announced);
  }

  lemma DecimalIsLine(n: nat)
    ensures IsLine(Decimal(n))
  {
    DecimalRoundTrip(n);
    assert forall i | 0 <= i < |Decimal(n)| :: IsDigit(Decimal(n)[i]);
  }

  lemma NumberComesBack(f: Framing, parts: seq<Part>, announced: nat)
    requires WellFormed(f, parts) && |FormText(f, parts)| < TWO_TO_THE_31
    requires ValuesOf(parts, NUMBER_OF_IMAGES) != [] && ValuesOf(parts, NUMBER_OF_IMAGES)[0] == Decimal(announced)
    requires ClearTo(parts, NUMBER_OF_IMAGES, 1)
    ensures NumberOfImages(FormText(f, parts))
      == if announced < TWO_TO_THE_31 then Got(announced) else Raised(Error.OutOfRange)
  {
    NamesAreNames();
    FieldComesBack(f, parts, NUMBER_OF_IMAGES);
    DecimalIsLine(announced);
    StoiDecimal(announced);
  }

  // ----- The form of the landing page -----

  function Uploads(images: seq<string>): seq<Part> {
    if images == [] then [] else [Part(FILE_UPLOAD, images[0])] + Uploads(images[1..])
  }

  /** What the landing page posts: the images, their number, and the text. */
  function PageForm(images: seq<string>, info: string): seq<Part> {
    Uploads(images) + [Part(NUMBER_OF_IMAGES, Decimal(|images|)), Part(RELEVANT_INFO, info)]
  }

  lemma {:induction false} ValuesAfterUploads(images: seq<string>, more: seq<Part>, name: string)
    requires name != FILE_UPLOAD
    ensures ValuesOf(Uploads(images) + more, name) == ValuesOf(more, name)
    ensures ValuesOf(Uploads(images) + more, FILE_UPLOAD) == images + ValuesOf(more, FILE_UPLOAD)
    decreases images
  {
    if images == [] {
      Empty(more);
      Empty(ValuesOf(more, FILE_UPLOAD));
    } else {
      ValuesAfterUploads(images[1..], more, name);
      Right3([Part(FILE_UPLOAD, images[0])], Uploads(images[1..]), more);
      Right3([images[0]], images[1..], ValuesOf(more, FILE_UPLOAD));
      assert [images[0]] + images[1..] == images;
    }
  }

  lemma {:induction false} UploadsAreWellFormed(f: Framing, images: seq<string>, more: seq<Part>)
    requires WellFormed(f, more)
    ensures WellFormed(f, Uploads(images) + more)
    decreases images
  {
    if images == [] {
      Empty(more);
    } else {
      UploadsAreWellFormed(f, images[1..], more);
      NamesAreNames();
      var first, others := Part(FILE_UPLOAD, images[0]), Uploads(images[1..]) + more;
      Right3([first], Uploads(images[1..]), more);
      assert forall i | 0 <= i < |[first] + others| :: ([first] + others)[i] == if i == 0 then first else others[i - 1];
    }
  }

  lemma {:induction false} UploadsAreClear(images: seq<string>, more: seq<Part>, name: string, n: nat)
    requires AllLines(images) && IsName(name) && ClearTo(more, name, n)
    ensures name != FILE_UPLOAD ==> ClearTo(Uploads(images) + more, name, n)
    ensures name == FILE_UPLOAD ==> ClearTo(Uploads(images) + more, name, |images| + n)
    decreases images
  {
    if images == [] {
      Empty(more);
    } else {
      UploadsAreClear(images[1..], more, name, n);
      HeaderIsHead(name);
      LinesAreClear(images[0], HeaderLine(name));
      Right3([Part(FILE_UPLOAD, images[0])], Uploads(images[1..]), more);
    }
  }

  lemma ValuesOfTwo(p: Part, q: Part, name: string)
    requires p.name != q.name
    ensures ValuesOf([p, q], name) == if p.name == name then [p.value] else if q.name == name then [q.value] else []
  {
    assert [p, q][1..] == [q];
    assert ValuesOf([q], name) == if q.name == name then [q.value] else [];
  }

  /** In the page's form each field is in front of all values that could hide it, even if the text has several lines. */
  lemma PageFormIsClear(f: Framing, images: seq<string>, info: string)
    requires (f.Framed? ==> IsLine(f.boundary)) && AllLines(images)
    ensures var parts := PageForm(images, info);
      && WellFormed(f, parts)
      && ClearTo(parts, FILE_UPLOAD, |images|)
      && ClearTo(parts, NUMBER_OF_IMAGES, 1) && ClearTo(parts, RELEVANT_INFO, 1)
  {
    NamesAreNames();
    NamesDiffer();
    DecimalIsLine(|images|);
    UploadsThenTwo(f, images, Part(NUMBER_OF_IMAGES, Decimal(|images|)), Part(RELEVANT_INFO, info));
  }

  lemma NamesDiffer()
    ensures FILE_UPLOAD != NUMBER_OF_IMAGES && FILE_UPLOAD != RELEVANT_INFO && NUMBER_OF_IMAGES != RELEVANT_INFO
  {
    assert FILE_UPLOAD[0] == 'f' && NUMBER_OF_IMAGES[0] == 'n' && RELEVANT_INFO[0] == 'r';
  }

  lemma UploadsThenTwo(f: Framing, images: seq<string>, p: Part, q: Part)
    requires (f.Framed? ==> IsLine(f.boundary)) && AllLines(images) && IsLine(p.value)
    requires IsName(FILE_UPLOAD) && IsName(p.name) && IsName(q.name)
    requires p.name != q.name && p.name != FILE_UPLOAD && q.name != FILE_UPLOAD
    ensures var parts := Uploads(images) + [p, q];
      && WellFormed(f, parts) && ClearTo(parts, FILE_UPLOAD, |images|)
      && ClearTo(parts, p.name, 1) && ClearTo(parts, q.name, 1)
  {
    FirstOfTwoIsClear(p, q);
    SecondOfTwoIsClear(p, q);
    TwoAreWellFormed(f, p, q);
    UploadsThenMore(f, images, [p, q], p.name, q.name);
  }

  lemma TwoAreWellFormed(f: Framing, p: Part, q: Part)
    requires (f.Framed? ==> IsLine(f.boundary)) && IsName(p.name) && IsName(q.name)
    ensures WellFormed(f, [p, q])
  {}

  lemma UploadsThenMore(f: Framing, images: seq<string>, more: seq<Part>, a: string, b: string)
    requires WellFormed(f, more) && AllLines(images) && ClearTo(more, a, 1) && ClearTo(more, b, 1)
    requires IsName(FILE_UPLOAD) && IsName(a) && IsName(b) && a != FILE_UPLOAD && b != FILE_UPLOAD
    ensures var parts := Uploads(images) + more;
      WellFormed(f, parts) && ClearTo(parts, FILE_UPLOAD, |images|) && ClearTo(parts, a, 1) && ClearTo(parts, b, 1)
  {
    UploadsAreWellFormed(f, images, more);
    UploadsAreClear(images, more, FILE_UPLOAD, 0);
    UploadsAreClear(images, more, a, 1);
    UploadsAreClear(images, more, b, 1);
  }

  lemma FirstOfTwoIsClear(p: Part, q: Part)
    ensures ClearTo([p, q], p.name, 1)
  {
    assert ClearTo([p, q][1..], p.name, 0);
  }

  lemma SecondOfTwoIsClear(p: Part, q: Part)
    requires p.name != q.name && IsLine(p.value) && IsName(q.name)
    ensures ClearTo([p, q], q.name, 1)
  {
    HeaderIsHead(q.name);
    LinesAreClear(p.value, HeaderLine(q.name));
    assert [p, q][1..] == [q] && ClearTo([q][1..], q.name, 0);
  }

  lemma PageFormValues(images: seq<string>, info: string)
    ensures var parts := PageForm(images, info);
      && ValuesOf(parts, FILE_UPLOAD) == images
      && ValuesOf(parts, NUMBER_OF_IMAGES) == [Decimal(|images|)]
      && ValuesOf(parts, RELEVANT_INFO) == [info]
  {
    var number, text := Part(NUMBER_OF_IMAGES, Decimal(|images|)), Part(RELEVANT_INFO, info);
    ValuesOfTwo(number, text, FILE_UPLOAD);
    ValuesOfTwo(number, text, NUMBER_OF_IMAGES);
    ValuesOfTwo(number, text, RELEVANT_INFO);
    ValuesAfterUploads(images, [number, text], NUMBER_OF_IMAGES);
    ValuesAfterUploads(images, [number, text], RELEVANT_INFO);
    Empty(images);
  }

  /** The images of the page's form come back beside any text; of the text, its first line. */
  lemma PageFormComesBack(f: Framing, images: seq<string>, info: string)
    requires (f.Framed? ==> IsLine(f.boundary)) && AllLines(images)
    requires |FormText(f, PageForm(images, info))| < TWO_TO_THE_31
    ensures AllImages(FormText(f, PageForm(images, info))) == Got(images)
    ensures RelevantInformation(FormText(f, PageForm(images, info))) == Got(FirstLine(info))
  {
    PageFormIsClear(f, images, info);
    PageFormValues(images, info);
    NamesAreNames();
    ImagesComeBack(f, PageForm(images, info), |images|);
    FieldComesBack(f, PageForm(images, info), RELEVANT_INFO);
  }

  /** A text of several lines, as the text area of the page sends it, is cut to its first line. */
  lemma TwoLineTextIsCut(f: Framing, images: seq<string>, first: string, second: string)
    requires (f.Framed? ==> IsLine(f.boundary)) && AllLines(images) && IsLine(first)
    requires |FormText(f, PageForm(images, WithLine(first, second)))| < TWO_TO_THE_31
    ensures RelevantInformation(FormText(f, PageForm(images, WithLine(first, second)))) == Got(first)
  {
    PageFormComesBack(f, images, WithLine(first, second));
    FirstLineOfValue(first, second);
    FirstLineIsLine(first);
  }

  lemma ImagesAreLines(body: string)
    requires |body| < TWO_TO_THE_31
    ensures AllImages(body).Got? ==> AllLines(AllImages(body).value)
  {
    NamesAreNames();
    HeaderIsHead(FILE_UPLOAD);
    TargetsAreShort();
    if AllImages(body).Got? {
      TakenAreLines(body, Target(FILE_UPLOAD), NumberOfImages(body).value);
    }
  }

  lemma TargetsAreShort()
    ensures 1 < |Target(FILE_UPLOAD)| < 100 && 1 < |Target(NUMBER_OF_IMAGES)| < 100 && 1 < |Target(RELEVANT_INFO)| < 100
  {}

  /** What the page posts reaches the handler unchanged exactly if every image and the text are single lines. */
  lemma PageFormExactly(f: Framing, images: seq<string>, info: string)
    requires f.Framed? ==> IsLine(f.boundary)
    requires |FormText(f, PageForm(images, info))| < TWO_TO_THE_31
    ensures var body := FormText(f, PageForm(images, info));
      AllImages(body) == Got(images) && RelevantInformation(body) == Got(info) <==> AllLines(images) && IsLine(info)
  {
    var body := FormText(f, PageForm(images, info));
    if AllLines(images) && IsLine(info) {
      PageFormComesBack(f, images, info);
      FirstLineIsLine(info);
    }
    ImagesAreLines(body);
    TargetsAreShort();
    FieldIsALine(body, Target(RELEVANT_INFO));
  }

  // ----- Forms without the field, or with too few images -----

  /**
    A missing field is not noticed as such: `npos` plus the length of the header
    wraps around to one less than that length, and the line that stands there is
    taken for the value. Only a body that ends before raises an error.
    */
  lemma MissingFieldIsMisread(f: Framing, parts: seq<Part>, name: string)
    requires WellFormed(f, parts) && IsName(name) && ValuesOf(parts, name) == [] && ClearTo(parts, name, 1)
    requires |FormText(f, parts)| < TWO_TO_THE_31 && |Target(name)| < TWO_TO_THE_31
    ensures var body, index := FormText(f, parts), |Target(name)| - 1;
      FieldOf(body, Target(name)) == if |body| < index then Raised(Error.OutOfRange) else Got(FirstLine(body[index..]))
  {
    NothingToFind(f, parts, name, 1);
    HeaderIsHead(name);
    CutOut(FormText(f, parts), Target(name));
  }

  /** A missing number of images raises an error unless the text taken for it begins with a number. */
  lemma MissingNumberIsMisread(f: Framing, parts: seq<Part>)
    requires WellFormed(f, parts) && ValuesOf(parts, NUMBER_OF_IMAGES) == [] && ClearTo(parts, NUMBER_OF_IMAGES, 1)
    requires |FormText(f, parts)| < TWO_TO_THE_31
    ensures var body, index := FormText(f, parts), |Target(NUMBER_OF_IMAGES)| - 1;
      NumberOfImages(body) == if |body| < index then Raised(Error.OutOfRange) else Stoi(FirstLine(body[index..]))
  {
    NamesAreNames();
    TargetsAreShort();
    MissingFieldIsMisread(f, parts, NUMBER_OF_IMAGES);
  }

  /** How many values are taken from a body that does not contain the header before an error is raised. */
  function Rounds(body: string, target: string): nat
    decreases |body|
  {
    if |target| < 2 || |body| < |target| - 1 then 0 else 1 + Rounds(Behind(body, |target| - 1), target)
  }

  lemma SuffixLacksTarget(body: string, target: string, j: nat)
    requires target != "" && j <= |body| && FirstAt(body, target, 0) == -1
    ensures FirstAt(body[j..], target, 0) == -1
  {
    FirstMeans(body, target, 0);
    FirstMeans(body[j..], target, 0);
    var k := FirstAt(body[j..], target, 0);
    if k >= 0 {
      assert body == body[..j] + body[j..];
      OccursShifted(body[..j], body[j..], target, k);
    }
  }

  lemma BehindLacksTarget(body: string, target: string, index: nat)
    requires target != "" && index <= |body| && body != "" && FirstAt(body, target, 0) == -1
    ensures FirstAt(Behind(body, index), target, 0) == -1
  {
    var k := FirstAt(body[index..], CRLF, 0);
    SuffixLacksTarget(body, target, if k < 0 then 1 else index + k + 2);
  }

  lemma {:induction false} RoundsExactly(body: string, target: string, n: nat)
    requires |body| < TWO_TO_THE_31 && 1 < |target| < TWO_TO_THE_31 && FirstAt(body, target, 0) == -1
    ensures TakenFrom(body, target, n).Got? <==> n <= Rounds(body, target)
    ensures Rounds(body, target) <= |body|
    decreases |body|
  {
    CutOut(body, target);
    if |body| >= |target| - 1 {
      BehindLacksTarget(body, target, |target| - 1);
      RoundsExactly(Behind(body, |target| - 1), target, if n == 0 then 0 else n - 1);
    }
  }

  /** The parts behind the last one with a name. */
  function AfterAll(parts: seq<Part>, name: string): seq<Part>
    decreases |parts|
  {
    if ValuesOf(parts, name) == [] then parts else AfterAll(AfterFirst(parts, name), name)
  }

  /** The body that is left after so many rounds. */
  function LeftAfter(body: string, target: string, n: nat): Result<string>
    decreases n
  {
    if n == 0 then Got(body)
    else
      var rest := RestAfter(body, target);
      if rest.Raised? then rest else LeftAfter(rest.value, target, n - 1)
  }

  /** Taking more is taking from what is left. */
  lemma {:induction false} TakenSplits(body: string, target: string, n: nat, extra: nat)
    requires TakenFrom(body, target, n).Got? && LeftAfter(body, target, n).Got?
    ensures TakenFrom(body, target, n + extra).Got? <==> TakenFrom(LeftAfter(body, target, n).value, target, extra).Got?
    decreases n
  {
    if n > 0 {
      TakenSplits(RestAfter(body, target).value, target, n - 1, extra);
    }
  }

  lemma {:induction false} LeftOfForm(f: Framing, parts: seq<Part>, name: string)
    requires WellFormed(f, parts) && IsName(name) && AllLines(ValuesOf(parts, name))
    requires ClearTo(parts, name, |ValuesOf(parts, name)| + 1) && |FormText(f, parts)| < TWO_TO_THE_31
    ensures var later, n := AfterAll(parts, name), |ValuesOf(parts, name)|;
      && WellFormed(f, later) && ValuesOf(later, name) == [] && ClearTo(later, name, 1)
      && LeftAfter(FormText(f, parts), Target(name), n) == Got(FormText(f, later))
      && n + |FormText(f, later)| <= |FormText(f, parts)|
    decreases |parts|
  {
    if ValuesOf(parts, name) == [] {
      NothingLeftOut(FormText(f, parts), parts, name);
    } else {
      CutOneOf(f, parts, name, |ValuesOf(parts, name)| + 1);
      LeftOfForm(f, AfterFirst(parts, name), name);
    }
  }

  lemma NothingLeftOut(text: string, parts: seq<Part>, name: string)
    requires ValuesOf(parts, name) == []
    ensures AfterAll(parts, name) == parts && LeftAfter(text, Target(name), 0) == Got(text)
  {
  }

  lemma CutOneOf(f: Framing, parts: seq<Part>, name: string, n: nat)
    requires WellFormed(f, parts) && IsName(name) && ValuesOf(parts, name) != [] && AllLines(ValuesOf(parts, name))
    requires n > 0 && ClearTo(parts, name, n) && |FormText(f, parts)| < TWO_TO_THE_31
    ensures var later := AfterFirst(parts, name);
      && WellFormed(f, later) && ClearTo(later, name, n - 1) && AllLines(ValuesOf(later, name))
      && |ValuesOf(parts, name)| == |ValuesOf(later, name)| + 1 && |FormText(f, later)| < |FormText(f, parts)|
      && RestAfter(FormText(f, parts), Target(name)) == Got(FormText(f, later))
  {
    CutFirst(f, parts, name, n);
    ValuesAfterFirst(f, parts, name, n);
    LaterAreLines(ValuesOf(parts, name), ValuesOf(AfterFirst(parts, name), name));
  }

  lemma LaterAreLines(values: seq<string>, later: seq<string>)
    requires values != [] && values == [values[0]] + later && AllLines(values)
    ensures IsLine(values[0]) && AllLines(later)
  {
    assert forall i | 0 <= i < |later| :: later[i] == values[i + 1];
  }

  lemma {:induction false} FewerAreTaken(body: string, target: string, m: nat, n: nat)
    requires TakenFrom(body, target, n).Got? && m <= n
    ensures TakenFrom(body, target, m).Got?
    decreases m
  {
    if m > 0 {
      FewerAreTaken(RestAfter(body, target).value, target, m - 1, n - 1);
    }
  }

  /** If no header is left after `n` rounds, an error is raised exactly beyond the rounds that misreading allows. */
  lemma {:induction false} RoundsBehind(body: string, target: string, n: nat, left: string, announced: nat)
    requires TakenFrom(body, target, n).Got?
    requires LeftAfter(body, target, n) == Got(left) && FirstAt(left, target, 0) == -1
    requires |left| < TWO_TO_THE_31 && 1 < |target| < TWO_TO_THE_31
    ensures TakenFrom(body, target, announced).Raised? <==> announced > n + Rounds(left, target)
    ensures Rounds(left, target) <= |left|
  {
    RoundsExactly(left, target, if announced < n then 0 else announced - n);
    if announced < n {
      FewerAreTaken(body, target, announced, n);
    } else {
      TakenSplits(body, target, n, announced - n);
    }
  }

  /** The extraction of the images raises an error exactly if more are announced than even misreading can take. */
  lemma TooManyAnnounced(f: Framing, parts: seq<Part>, announced: nat)
    requires WellFormed(f, parts) && |FormText(f, parts)| < TWO_TO_THE_31
    requires ValuesOf(parts, NUMBER_OF_IMAGES) != [] && ValuesOf(parts, NUMBER_OF_IMAGES)[0] == Decimal(announced)
    requires ClearTo(parts, NUMBER_OF_IMAGES, 1) && AllLines(ValuesOf(parts, FILE_UPLOAD))
    requires ClearTo(parts, FILE_UPLOAD, |ValuesOf(parts, FILE_UPLOAD)| + 1)
    ensures var images, rest := ValuesOf(parts, FILE_UPLOAD), FormText(f, AfterAll(parts, FILE_UPLOAD));
      AllImages(FormText(f, parts)).Raised? <==> announced > |images| + Rounds(rest, Target(FILE_UPLOAD))
  {
    NumberComesBack(f, parts, announced);
    NamesAreNames();
    TargetsAreShort();
    TooManyTaken(f, parts, FILE_UPLOAD, announced);
  }

  lemma TooManyTaken(f: Framing, parts: seq<Part>, name: string, announced: nat)
    requires WellFormed(f, parts) && IsName(name) && AllLines(ValuesOf(parts, name))
    requires ClearTo(parts, name, |ValuesOf(parts, name)| + 1)
    requires |FormText(f, parts)| < TWO_TO_THE_31 && 1 < |Target(name)| < TWO_TO_THE_31
    ensures var most := |ValuesOf(parts, name)| + Rounds(FormText(f, AfterAll(parts, name)), Target(name));
      && most < TWO_TO_THE_31
      && (TakenFrom(FormText(f, parts), Target(name), announced).Raised? <==> announced > most)
  {
    var n, later := |ValuesOf(parts, name)|, AfterAll(parts, name);
    LeftOfForm(f, parts, name);
    AllAreTaken(f, parts, name);
    NothingToFind(f, later, name, 1);
    RoundsBehind(FormText(f, parts), Target(name), n, FormText(f, later), announced);
  }

  lemma {:induction false} AllAreTaken(f: Framing, parts: seq<Part>, name: string)
    requires WellFormed(f, parts) && IsName(name) && AllLines(ValuesOf(parts, name))
    requires ClearTo(parts, name, |ValuesOf(parts, name)| + 1) && |FormText(f, parts)| < TWO_TO_THE_31
    ensures TakenFrom(FormText(f, parts), Target(name), |ValuesOf(parts, name)|).Got?
  {
    ClearToFewer(parts, name, |ValuesOf(parts, name)| + 1, |ValuesOf(parts, name)|);
    assert ValuesOf(parts, name)[..|ValuesOf(parts, name)|] == ValuesOf(parts, name);
    ValuesComeBack(f, parts, name, |ValuesOf(parts, name)|);
  }
}
