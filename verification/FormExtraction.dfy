/**
  How the app handler takes the images and the text out of a posted form: by
  searching for the header line of a part and cutting at the next line end.
  */
module FormExtraction {
  import opened Regroup
  import opened Text

  const CRLF := "\r\n"
  const DISPOSITION := "Content-Disposition: form-data; name="

  const FILE_UPLOAD := "file-upload"
  const NUMBER_OF_IMAGES := "number-of-images"
  const RELEVANT_INFO := "relevant-info"

  // ----- std::string and int -----

  const NPOS: nat := TWO_TO_THE_64 - 1
  const TWO_TO_THE_31: nat := 0x8000_0000

  predicate OccursAt(s: string, pattern: string, k: nat) {
    k + |pattern| <= |s| && s[k..k + |pattern|] == pattern
  }

  /** The first occurrence at or after `from`; -1 if there is none. */
  function FirstAt(s: string, pattern: string, from: nat): (k: int)
    ensures k == -1 || from <= k <= |s| - |pattern|
    decreases |s| - from
  {
    if from + |pattern| > |s| then -1
    else if OccursAt(s, pattern, from) then from
    else FirstAt(s, pattern, from + 1)
  }

  function StdFind(s: string, pattern: string, from: nat): nat {
    var k := FirstAt(s, pattern, from);
    if k < 0 then NPOS else k
  }

  /** A `size_t` stored in an `int`. */
  function ToInt(n: nat): int {
    var low := n % 0x1_0000_0000;
    if low < TWO_TO_THE_31 then low else low - 0x1_0000_0000
  }

  /** An `int` used as a `size_t`. */
  function ToSize(i: int): nat {
    i % TWO_TO_THE_64
  }

  datatype Error = OutOfRange | InvalidArgument

  datatype Result<T> = Got(value: T) | Raised(error: Error)

  function Substr(s: string, pos: nat, count: nat): Result<string> {
    if pos > |s| then Raised(Error.OutOfRange)
    else if pos + count > |s| then Got(s[pos..])
    else Got(s[pos..pos + count])
  }

  /** `std::stoi` in base ten. */
  function Stoi(s: string): Result<int> {
    if s == "" then Raised(Error.InvalidArgument)
    else if IsSpace(s[0]) then Stoi(s[1..])
    else
      var t := if s[0] == '-' || s[0] == '+' then s[1..] else s;
      var n := LeadingDigits(t);
      if n == 0 then Raised(Error.InvalidArgument)
      else
        var v: int := DigitsValue(t[..n]);
        var signed := if s[0] == '-' then -v else v;
        if 0 <= signed + TWO_TO_THE_31 < 2 * TWO_TO_THE_31 then Got(signed) else Raised(Error.OutOfRange)
  }

  lemma StoiDecimal(n: nat)
    ensures Stoi(Decimal(n)) == if n < TWO_TO_THE_31 then Got(n) else Raised(Error.OutOfRange)
  {
    DecimalRoundTrip(n);
    var s := Decimal(n);
    assert IsDigit(s[0]);
    AllLeading(s);
    assert s[..|s|] == s;
  }

  lemma {:induction false} StoiSkips(blank: string, s: string)
    requires IsWhite(blank)
    ensures Stoi(blank + s) == Stoi(s)
    decreases blank
  {
    if blank == "" {
      assert blank + s == s;
    } else {
      assert (blank + s)[1..] == blank[1..] + s;
      StoiSkips(blank[1..], s);
    }
  }

  /** What `std::stoi` makes of white space, a sign, digits, and something that is no digit. */
  lemma StoiMeans(blank: string, sign: string, digits: string, rest: string)
    requires IsWhite(blank) && (sign == "" || sign == "+" || sign == "-")
    requires digits != "" && forall i | 0 <= i < |digits| :: '0' <= digits[i] <= '9'
    requires rest != "" ==> !('0' <= rest[0] <= '9')
    ensures AllDigits(digits)
    ensures var n: int := DigitsValue(digits);
      var v := if sign == "-" then -n else n;
      Stoi(blank + (sign + (digits + rest)))
        == if -0x8000_0000 <= v < 0x8000_0000 then Got(v) else Raised(Error.OutOfRange)
  {
    StoiSkips(blank, sign + (digits + rest));
    SignedStoi(sign, digits, rest);
  }

  lemma SignedStoi(sign: string, digits: string, rest: string)
    requires sign == "" || sign == "+" || sign == "-"
    requires digits != "" && AllDigits(digits) && (rest != "" ==> !IsDigit(rest[0]))
    ensures var n: int := DigitsValue(digits);
      var v := if sign == "-" then -n else n;
      Stoi(sign + (digits + rest)) == if -0x8000_0000 <= v < 0x8000_0000 then Got(v) else Raised(Error.OutOfRange)
  {
    var s := sign + (digits + rest);
    LeadingAre(digits, rest);
    assert sign == "" ==> s == digits + rest && IsDigit(s[0]);
    assert sign != "" ==> s[1..] == digits + rest && s[0] == sign[0];
  }

  /** Where no digit follows the white space and the sign, the conversion is refused. */
  lemma StoiRefuses(blank: string, sign: string, rest: string)
    requires IsWhite(blank) && (sign == "" || sign == "+" || sign == "-")
    requires rest != "" ==> !('0' <= rest[0] <= '9')
    requires sign == "" && rest != "" ==> !IsWhite([rest[0]]) && rest[0] != '+' && rest[0] != '-'
    ensures Stoi(blank + (sign + rest)) == Raised(Error.InvalidArgument)
  {
    StoiSkips(blank, sign + rest);
    if sign == "" {
      assert sign + rest == rest;
    } else {
      assert (sign + rest)[1..] == rest;
    }
  }

  // ----- The handler -----

  function Target(name: string): string {
    DISPOSITION + "\"" + name + "\"" + CRLF + CRLF
  }

  /** Where the value after `target` is taken to start. */
  function ValueIndex(body: string, target: string): int {
    ToInt((StdFind(body, target, 0) + |target|) % TWO_TO_THE_64)
  }

  function FieldOf(body: string, target: string): Result<string> {
    var index := ValueIndex(body, target);
    var end := StdFind(body, CRLF, ToSize(index));
    Substr(body, ToSize(index), ToSize(end - index))
  }

  /** What remains of the body after the line end that follows the value. */
  function RestAfter(body: string, target: string): Result<string> {
    var end := StdFind(body, CRLF, ToSize(ValueIndex(body, target)));
    Substr(body, (end + 2) % TWO_TO_THE_64, NPOS)
  }

  function RelevantInformation(body: string): Result<string> {
    FieldOf(body, Target(RELEVANT_INFO))
  }

  function NumberOfImages(body: string): Result<int> {
    var field := FieldOf(body, Target(NUMBER_OF_IMAGES));
    if field.Raised? then Raised(field.error) else Stoi(field.value)
  }

  /** The next `n` values after `target`, each searched for behind the one before. */
  function TakenFrom(body: string, target: string, n: int): Result<seq<string>>
    decreases n
  {
    if n <= 0 then Got([])
    else
      var image, rest := FieldOf(body, target), RestAfter(body, target);
      if image.Raised? then Raised(image.error)
      else if rest.Raised? then Raised(rest.error)
      else Prepend([image.value], TakenFrom(rest.value, target, n - 1))
  }

  function Prepend(images: seq<string>, more: Result<seq<string>>): Result<seq<string>> {
    if more.Raised? then more else Got(images + more.value)
  }

  function AllImages(body: string): Result<seq<string>> {
    var n := NumberOfImages(body);
    if n.Raised? then Raised(n.error) else TakenFrom(body, Target(FILE_UPLOAD), n.value)
  }

  /** No images are taken when none are announced, or fewer. */
  lemma NoneAnnounced(body: string)
    requires NumberOfImages(body).Got? && NumberOfImages(body).value <= 0
    ensures AllImages(body) == Got([])
  {
  }

  /** The three header lines that are searched for, each with the empty line behind it. */
  lemma TargetsAreHeaders()
    ensures var opening, closing := "Content-Disposition: form-data; name=\"", "\"\r\n\r\n";
      && Target(FILE_UPLOAD) == opening + "file-upload" + closing
      && Target(NUMBER_OF_IMAGES) == opening + "number-of-images" + closing
      && Target(RELEVANT_INFO) == opening + "relevant-info" + closing
  {
    TargetIsHeader("file-upload");
    TargetIsHeader("number-of-images");
    TargetIsHeader("relevant-info");
  }

  lemma TargetIsHeader(name: string)
    ensures Target(name) == "Content-Disposition: form-data; name=\"" + name + "\"\r\n\r\n"
  {
    var opening := "Content-Disposition: form-data; name=\"";
    assert opening == DISPOSITION + "\"" && "\"" + CRLF + CRLF == "\"\r\n\r\n";
    Right4(opening + name, "\"", CRLF, CRLF);
    Right3("\"", CRLF, CRLF);
  }

  method GetImages(body: string) returns (result: Result<seq<string>>)
    ensures result == AllImages(body)
  {
    var target := Target(NUMBER_OF_IMAGES);
    var index := ValueIndex(body, target);
    var number := Substr(body, ToSize(index), ToSize(StdFind(body, CRLF, ToSize(index)) - index));
    if number.Raised? {
      return Raised(number.error);
    }
    var numberOfImages := Stoi(number.value);
    if numberOfImages.Raised? {
      return Raised(numberOfImages.error);
    }
    result := TakeImages(body, Target(FILE_UPLOAD), numberOfImages.value);
  }

  /** Finds, copies and cuts off one image after the other. */
  method TakeImages(request: string, target: string, numberOfImages: int) returns (result: Result<seq<string>>)
    ensures result == TakenFrom(request, target, numberOfImages)
  {
    var body := request;
    var images := [];
    var i := 0;
    PrependNone(TakenFrom(body, target, numberOfImages));
    while i < numberOfImages
      invariant 0 <= i && (i <= numberOfImages || i == 0)
      invariant TakenFrom(request, target, numberOfImages)
             == Prepend(images, TakenFrom(body, target, numberOfImages - i))
    {
      var image, rest := CutImage(body, target);
      if image.Raised? || rest.Raised? {
        return Raised(if image.Raised? then image.error else rest.error);
      }
      PrependTwice(images, image.value, TakenFrom(rest.value, target, numberOfImages - i - 1));
      images := images + [image.value];
      body := rest.value;
      i := i + 1;
    }
    Empty(images);
    result := Got(images);
  }

  method CutImage(body: string, target: string) returns (image: Result<string>, rest: Result<string>)
    ensures image == FieldOf(body, target) && rest == RestAfter(body, target)
  {
    var index := ValueIndex(body, target);
    var end := StdFind(body, CRLF, ToSize(index));
    image := Substr(body, ToSize(index), ToSize(end - index));
    rest := Substr(body, (end + 2) % TWO_TO_THE_64, NPOS);
  }

  lemma PrependNone(more: Result<seq<string>>)
    ensures Prepend([], more) == more
  {
    if more.Got? {
      Empty(more.value);
    }
  }

  lemma PrependTwice(images: seq<string>, image: string, more: Result<seq<string>>)
    ensures Prepend(images, Prepend([image], more)) == Prepend(images + [image], more)
  {
    if more.Got? {
      Right3(images, [image], more.value);
    }
  }
}
