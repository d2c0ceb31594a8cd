/**
 * ANSI escape sequences (Term/Ansi.cs): the SGR sequences `ESC [ p1 ; ... ; pn m` of
 * ECMA-48 (ISO/IEC 6429), the named colour tables, and the `[tag]` markup formatter.
 */
module Ansi {
  import opened Wrappers
  import Strings

  /** The control sequence introducer, ESC followed by '['. */
  const SequenceStart: string := ['\U{1B}', '[']

  function DigitChar(d: nat): (c: char)
    requires d < 10
    ensures c as int == '0' as int + d
  {
    "0123456789"[d]
  }

  predicate IsDigit(c: char)
  {
    '0' <= c <= '9'
  }

  /** The decimal text of a natural number, as `ToString` prints it. */
  function Decimal(n: nat): (r: string)
    ensures |r| > 0
    decreases n
  {
    if n < 10 then [DigitChar(n)] else Decimal(n / 10) + [DigitChar(n % 10)]
  }

  /** The value of a string of decimal digits. */
  function DigitsValue(s: string): nat
    requires forall k :: 0 <= k < |s| ==> IsDigit(s[k])
  {
    if s == [] then 0
    else
      assert IsDigit(s[|s| - 1]);
      10 * DigitsValue(s[..|s| - 1]) + (s[|s| - 1] as int - '0' as int)
  }

  /** A printed number is decimal digits, and reading them back gives the number. */
  lemma {:induction false} DecimalValue(n: nat)
    ensures AllDigits(Decimal(n)) && DigitsValue(Decimal(n)) == n
    decreases n
  {
    var s := Decimal(n);
    if n >= 10 {
      DecimalValue(n / 10);
      assert s[..|s| - 1] == Decimal(n / 10);
      assert forall k :: 0 <= k < |s| - 1 ==> s[k] == Decimal(n / 10)[k];
    }
  }

  /** `string.Join(sep, parts)`. */
  function Join(sep: char, parts: seq<string>): (r: string)
    ensures |parts| > 0 ==> |r| >= |parts[0]|
  {
    if parts == [] then []
    else if |parts| == 1 then parts[0]
    else parts[0] + [sep] + Join(sep, parts[1..])
  }

  /** The position of the first `c` at or after `from`, or -1 (`string.IndexOf(char, int)`). */
  function IndexOf(s: string, c: char, from: nat): (r: int)
    requires from <= |s|
    ensures r == -1 || from <= r < |s|
    ensures r == -1 <==> forall k :: from <= k < |s| ==> s[k] != c
    ensures r >= 0 ==> s[r] == c && forall k :: from <= k < r ==> s[k] != c
    decreases |s| - from
  {
    if from == |s| then -1 else if s[from] == c then from else IndexOf(s, c, from + 1)
  }

  /** `string.Split(sep)`: the pieces between separators, empty ones included. */
  function Split(s: string, sep: char): (r: seq<string>)
    ensures |r| > 0
    ensures Join(sep, r) == s
    ensures forall k :: 0 <= k < |r| ==> sep !in r[k]
    decreases |s|
  {
    var i := IndexOf(s, sep, 0);
    if i < 0 then [s]
    else
      var rest := Split(s[i + 1..], sep);
      assert s == s[..i] + [sep] + s[i + 1..];
      [s[..i]] + rest
  }

  /** Splitting a join of separator-free pieces gives the pieces back. */
  lemma {:induction false} SplitJoin(sep: char, parts: seq<string>)
    requires |parts| > 0 && forall k :: 0 <= k < |parts| ==> sep !in parts[k]
    ensures Split(Join(sep, parts), sep) == parts
  {
    if |parts| > 1 {
      assert Join(sep, parts) == parts[0] + [sep] + Join(sep, parts[1..]);
      SplitFirst(sep, parts[0], Join(sep, parts[1..]));
      SplitJoin(sep, parts[1..]);
      assert [parts[0]] + parts[1..] == parts;
    } else {
      assert IndexOf(parts[0], sep, 0) == -1;
    }
  }

  /** A separator-free head, the separator and a tail split into the head and the split tail. */
  lemma SplitFirst(sep: char, head: string, tail: string)
    requires sep !in head
    ensures Split(head + [sep] + tail, sep) == [head] + Split(tail, sep)
  {
    var s := head + [sep] + tail;
    assert IndexOf(s, sep, 0) == |head| by {
      assert s[|head|] == sep;
      forall k | 0 <= k < |head| ensures s[k] != sep {
        assert s[k] == head[k];
      }
    }
    assert s[|head| + 1..] == tail;
    assert s[..|head|] == head;
  }

  /** The parameter list of a sequence: the codes in decimal, separated by ';'. */
  function Parameters(codes: seq<nat>): string
  {
    if |codes| <= 1 then (if codes == [] then [] else Decimal(codes[0]))
    else Decimal(codes[0]) + [';'] + Parameters(codes[1..])
  }

  /** The codes printed in decimal, one string per code. */
  function Printed(codes: seq<nat>): (r: seq<string>)
    ensures |r| == |codes| && forall k :: 0 <= k < |r| ==> r[k] == Decimal(codes[k])
  {
    seq(|codes|, k requires 0 <= k < |codes| => Decimal(codes[k]))
  }

  /** The parameter list is `string.Join(";", codes)`. */
  lemma {:induction false} ParametersJoin(codes: seq<nat>)
    ensures Parameters(codes) == Join(';', Printed(codes))
  {
    if |codes| > 1 {
      ParametersJoin(codes[1..]);
      assert Printed(codes)[1..] == Printed(codes[1..]);
    }
  }

  /** A control sequence: the introducer, the codes joined by ';', and the final `kind`. */
  function CreateSequence(kind: string, codes: seq<nat>): string
  {
    SequenceStart + Parameters(codes) + kind
  }

  /** A sequence starts with the introducer, ends with its kind, and holds the codes between. */
  lemma SequenceLayout(kind: string, codes: seq<nat>)
    ensures var r := CreateSequence(kind, codes);
      && |r| == 2 + |Parameters(codes)| + |kind|
      && r[..2] == SequenceStart && r[|r| - |kind|..] == kind
      && r[2..|r| - |kind|] == Parameters(codes)
  {
    var r := CreateSequence(kind, codes);
    assert r[2..|r| - |kind|] == Parameters(codes);
  }

  /**
   * The inverse of `CreateSequence` for one-character kinds: the introducer, then
   * ';'-separated decimal codes, then the final character.
   */
  function ParseSequence(s: string): Option<(seq<nat>, char)>
  {
    if |s| < 3 || s[..2] != SequenceStart then None
    else
      var fields := Split(s[2..|s| - 1], ';');
      if exists k :: 0 <= k < |fields| && !AllDigits(fields[k]) then None
      else Some((seq(|fields|, k requires 0 <= k < |fields| => DigitsValue(fields[k])), s[|s| - 1]))
  }

  predicate AllDigits(s: string)
  {
    |s| > 0 && forall k :: 0 <= k < |s| ==> IsDigit(s[k])
  }

  /** Every sequence with at least one code reads back as its codes and its final character. */
  lemma SequenceRoundTrip(kind: char, codes: seq<nat>)
    requires |codes| > 0
    ensures ParseSequence(CreateSequence([kind], codes)) == Some((codes, kind))
  {
    var s := CreateSequence([kind], codes);
    SequenceLayout([kind], codes);
    ParametersFields(codes);
    PrintedValues(codes);
    assert |s| >= 4 && s[2..|s| - 1] == Parameters(codes);
  }

  /** The parameters split at ';' into the printed codes. */
  lemma ParametersFields(codes: seq<nat>)
    requires |codes| > 0
    ensures Split(Parameters(codes), ';') == Printed(codes)
  {
    var parts := Printed(codes);
    ParametersJoin(codes);
    forall k | 0 <= k < |parts| ensures ';' !in parts[k] {
      DecimalValue(codes[k]);
      assert forall j :: 0 <= j < |parts[k]| ==> IsDigit(parts[k][j]);
    }
    SplitJoin(';', parts);
  }

  /** Each printed code is digits, and the digits read back as the codes. */
  lemma PrintedValues(codes: seq<nat>)
    ensures var fields := Printed(codes);
      && (forall k :: 0 <= k < |fields| ==> AllDigits(fields[k]))
      && seq(|fields|, k requires 0 <= k < |fields| => DigitsValue(fields[k])) == codes
  {
    var fields := Printed(codes);
    forall k | 0 <= k < |fields| ensures AllDigits(fields[k]) && DigitsValue(fields[k]) == codes[k] {
      DecimalValue(codes[k]);
    }
    assert seq(|fields|, k requires 0 <= k < |fields| => DigitsValue(fields[k])) == codes;
  }

  /** The shape of a Select Graphic Rendition sequence: the introducer, then anything, then 'm'. */
  predicate IsSgr(s: string)
  {
    |s| >= 3 && s[..2] == SequenceStart && s[|s| - 1] == 'm'
  }

  /** Select Graphic Rendition: a sequence ending in 'm'. */
  function Sgr(codes: seq<nat>): (r: string)
    ensures IsSgr(r)
  {
    SequenceLayout("m", codes);
    CreateSequence("m", codes)
  }

  const Reset: string := Sgr([0])
  const Bold: string := Sgr([1])
  const Faint: string := Sgr([2])
  const Italic: string := Sgr([3])
  const Underline: string := Sgr([4])

  /** Reset, bold, faint, italic and underline are the single SGR codes 0 to 4. */
  lemma StyleSequences()
    ensures ParseSequence(Reset) == Some(([0], 'm'))
    ensures ParseSequence(Bold) == Some(([1], 'm'))
    ensures ParseSequence(Faint) == Some(([2], 'm'))
    ensures ParseSequence(Italic) == Some(([3], 'm'))
    ensures ParseSequence(Underline) == Some(([4], 'm'))
  {
    SequenceRoundTrip('m', [0]);
    SequenceRoundTrip('m', [1]);
    SequenceRoundTrip('m', [2]);
    SequenceRoundTrip('m', [3]);
    SequenceRoundTrip('m', [4]);
  }

  /** The sixteen colour names of both tables. */
  const ColorNames: seq<string> := [
    "black", "red", "green", "yellow", "blue", "magenta", "cyan", "white",
    "bright-black", "bright-red", "bright-green", "bright-yellow",
    "bright-blue", "bright-magenta", "bright-cyan", "bright-white"]

  const ForegroundColors: map<string, nat> := map[
    "black" := 30, "red" := 31, "green" := 32, "yellow" := 33,
    "blue" := 34, "magenta" := 35, "cyan" := 36, "white" := 37,
    "bright-black" := 90, "bright-red" := 91, "bright-green" := 92, "bright-yellow" := 93,
    "bright-blue" := 94, "bright-magenta" := 95, "bright-cyan" := 96, "bright-white" := 97]

  const BackgroundColors: map<string, nat> := map[
    "black" := 40, "red" := 41, "green" := 42, "yellow" := 43,
    "blue" := 44, "magenta" := 45, "cyan" := 46, "white" := 47,
    "bright-black" := 100, "bright-red" := 101, "bright-green" := 102, "bright-yellow" := 103,
    "bright-blue" := 104, "bright-magenta" := 105, "bright-cyan" := 106, "bright-white" := 107]

  /** Both tables know the same names. */
  lemma ColorTablesAgree()
    ensures ForegroundColors.Keys == BackgroundColors.Keys
  {
  }

  /** The first eight names map to 30..37 and the bright ones to 90..97. */
  lemma ForegroundCodes()
    ensures forall k :: 0 <= k < 8 ==> ColorNames[k] in ForegroundColors && ForegroundColors[ColorNames[k]] == 30 + k
    ensures forall k :: 8 <= k < 16 ==> ColorNames[k] in ForegroundColors && ForegroundColors[ColorNames[k]] == 90 + k - 8
  {
  }

  /** Every background code is the foreground code of the same name plus ten. */
  lemma BackgroundIsForegroundPlusTen(name: string)
    requires name in ForegroundColors
    ensures name in BackgroundColors && BackgroundColors[name] == ForegroundColors[name] + 10
  {
  }

  /** Colour names are made of lower-case letters and '-'. */
  lemma ColorNameChars(name: string)
    requires name in ForegroundColors
    ensures |name| > 0 && forall k :: 0 <= k < |name| ==> 'a' <= name[k] <= 'z' || name[k] == '-'
  {
  }

  /** The failures `Format` can raise; positions are indices into its input. */
  datatype FormatError =
    | UnclosedTag(position: nat)                 // a '[' with no ']' after it
    | UnknownColor(name: string)                 // a colour-table lookup failed
    | BadRgb(position: nat)                      // an RGB list without exactly three parts
    | BadByte(text: string)                      // a part that `byte.Parse` cannot read
    | ByteOverflow(text: string)                 // a part whose value is no byte
    | UnknownSequence(tag: string, position: nat) // a tag no branch accepts

  /** A named foreground colour; an unknown name fails the dictionary lookup. */
  function Foreground(name: string): (r: Result<string, FormatError>)
    ensures name in ForegroundColors <==> r.Ok?
    ensures r.Err? ==> r == Err(UnknownColor(name))
    ensures r.Ok? ==> IsSgr(r.value)
  {
    if name in ForegroundColors then Ok(Sgr([ForegroundColors[name]])) else Err(UnknownColor(name))
  }

  /** A named background colour; an unknown name fails the dictionary lookup. */
  function Background(name: string): (r: Result<string, FormatError>)
    ensures name in BackgroundColors <==> r.Ok?
    ensures r.Err? ==> r == Err(UnknownColor(name))
    ensures r.Ok? ==> IsSgr(r.value)
  {
    if name in BackgroundColors then Ok(Sgr([BackgroundColors[name]])) else Err(UnknownColor(name))
  }

  /** A 24-bit foreground colour: the sequence reads back as SGR 38;2;r;g;b. */
  function ForegroundRgb(r: nat, g: nat, b: nat): (s: string)
    requires r < 256 && g < 256 && b < 256
    ensures ParseSequence(s) == Some(([38, 2, r, g, b], 'm'))
  {
    assert [38, 2] + [r, g, b] == [38, 2, r, g, b];
    SequenceRoundTrip('m', [38, 2, r, g, b]);
    Sgr([38, 2] + [r, g, b])
  }

  /** A 24-bit background colour: the sequence reads back as SGR 48;2;r;g;b. */
  function BackgroundRgb(r: nat, g: nat, b: nat): (s: string)
    requires r < 256 && g < 256 && b < 256
    ensures ParseSequence(s) == Some(([48, 2, r, g, b], 'm'))
  {
    assert [48, 2] + [r, g, b] == [48, 2, r, g, b];
    SequenceRoundTrip('m', [48, 2, r, g, b]);
    Sgr([48, 2] + [r, g, b])
  }

  /** A named colour's sequence reads back as the single SGR code of that name in its table. */
  lemma NamedColorsDecode(name: string)
    ensures Foreground(name).Ok? ==> ParseSequence(Foreground(name).value) == Some(([ForegroundColors[name]], 'm'))
    ensures Background(name).Ok? ==> ParseSequence(Background(name).value) == Some(([BackgroundColors[name]], 'm'))
  {
    if name in ForegroundColors {
      SequenceRoundTrip('m', [ForegroundColors[name]]);
    }
    if name in BackgroundColors {
      SequenceRoundTrip('m', [BackgroundColors[name]]);
    }
  }

  /** The white space `NumberStyles.Integer` allows around a number: U+0009 to U+000D and ' '. */
  predicate IsNumberWhite(c: char)
  {
    c == ' ' || '\t' <= c <= '\r'
  }

  predicate AllWhite(s: string)
  {
    forall k :: 0 <= k < |s| ==> IsNumberWhite(s[k])
  }

  predicate AllNul(s: string)
  {
    forall k :: 0 <= k < |s| ==> s[k] == '\0'
  }

  predicate IsSign(c: char)
  {
    c == '+' || c == '-'
  }

  /** The first index at or after `i` whose character is no white space. */
  function SkipWhite(s: string, i: nat): (j: nat)
    requires i <= |s|
    ensures i <= j <= |s|
    decreases |s| - i
  {
    if i < |s| && IsNumberWhite(s[i]) then SkipWhite(s, i + 1) else i
  }

  /** The end of the run of digits that starts at `i`. */
  function SkipDigits(s: string, i: nat): (j: nat)
    requires i <= |s|
    ensures i <= j <= |s|
    decreases |s| - i
  {
    if i < |s| && IsDigit(s[i]) then SkipDigits(s, i + 1) else i
  }

  /** The end of the run of NUL characters that starts at `i`. */
  function SkipNuls(s: string, i: nat): (j: nat)
    requires i <= |s|
    ensures i <= j <= |s|
    decreases |s| - i
  {
    if i < |s| && s[i] == '\0' then SkipNuls(s, i + 1) else i
  }

  /**
   * `byte.Parse(s)` under `NumberStyles.Integer` with the invariant culture's signs, scanning
   * as .NET does: white space, an optional '+' or '-', one or more decimal digits, white space,
   * and then only NUL characters, which .NET tolerates at the end. Text of any other form
   * raises `FormatException`; a value above 255, or a negative one, raises `OverflowException`
   * ("-0" is 0).
   */
  function ParseByte(s: string): (r: Result<nat, FormatError>)
    ensures r.Ok? ==> r.value < 256
    ensures r.Err? ==> r == Err(BadByte(s)) || r == Err(ByteOverflow(s))
  {
    var start := SkipWhite(s, 0);
    var signed := start < |s| && IsSign(s[start]);
    var first := if signed then start + 1 else start;
    var end := SkipDigits(s, first);
    if end == first || SkipNuls(s, SkipWhite(s, end)) != |s| then Err(BadByte(s))
    else
      SkipDigitsOver(s, first);
      ByteValue(signed && s[start] == '-', s[first..end], s)
  }

  /** The value of the digits read from `s`, with the sign `negative` in front of them. */
  function ByteValue(negative: bool, digits: string, s: string): (r: Result<nat, FormatError>)
    requires AllDigits(digits)
    ensures r.Ok? <==> DigitsValue(digits) < 256 && (!negative || DigitsValue(digits) == 0)
    ensures r.Ok? ==> r.value == DigitsValue(digits)
    ensures r.Err? ==> r == Err(ByteOverflow(s))
  {
    if DigitsValue(digits) > 255 || (negative && DigitsValue(digits) != 0) then Err(ByteOverflow(s))
    else Ok(DigitsValue(digits))
  }

  lemma {:induction false} SkipWhiteTo(s: string, i: nat, j: nat)
    requires i <= j <= |s| && (forall k :: i <= k < j ==> IsNumberWhite(s[k]))
    requires j == |s| || !IsNumberWhite(s[j])
    ensures SkipWhite(s, i) == j
    decreases j - i
  {
    if i < j {
      SkipWhiteTo(s, i + 1, j);
    }
  }

  lemma {:induction false} SkipDigitsTo(s: string, i: nat, j: nat)
    requires i <= j <= |s| && (forall k :: i <= k < j ==> IsDigit(s[k]))
    requires j == |s| || !IsDigit(s[j])
    ensures SkipDigits(s, i) == j
    decreases j - i
  {
    if i < j {
      SkipDigitsTo(s, i + 1, j);
    }
  }

  lemma {:induction false} SkipNulsTo(s: string, i: nat, j: nat)
    requires i <= j <= |s| && (forall k :: i <= k < j ==> s[k] == '\0')
    requires j == |s| || s[j] != '\0'
    ensures SkipNuls(s, i) == j
    decreases j - i
  {
    if i < j {
      SkipNulsTo(s, i + 1, j);
    }
  }

  /** What `SkipWhite` passes over is white space. */
  lemma {:induction false} SkipWhiteOver(s: string, i: nat)
    requires i <= |s|
    ensures forall k :: i <= k < SkipWhite(s, i) ==> IsNumberWhite(s[k])
    decreases |s| - i
  {
    if i < |s| && IsNumberWhite(s[i]) {
      SkipWhiteOver(s, i + 1);
    }
  }

  /** What `SkipDigits` passes over is digits. */
  lemma {:induction false} SkipDigitsOver(s: string, i: nat)
    requires i <= |s|
    ensures AllDigits(s[i..SkipDigits(s, i)]) || SkipDigits(s, i) == i
    decreases |s| - i
  {
    if i < |s| && IsDigit(s[i]) {
      SkipDigitsOver(s, i + 1);
      var j := SkipDigits(s, i);
      assert s[i..j] == [s[i]] + s[i + 1..j];
    }
  }

  /** What `SkipNuls` passes over is NULs. */
  lemma {:induction false} SkipNulsOver(s: string, i: nat)
    requires i <= |s|
    ensures forall k :: i <= k < SkipNuls(s, i) ==> s[k] == '\0'
    decreases |s| - i
  {
    if i < |s| && s[i] == '\0' {
      SkipNulsOver(s, i + 1);
    }
  }

  /**
   * Every text of the accepted form parses: white space up to `start`, an optional sign, the
   * digits `s[first..end]`, white space up to `after` and NULs to the end give the value of the
   * digits, or the overflow failure when that value is above 255 or negative.
   */
  lemma ParseByteAccepts(s: string, start: nat, first: nat, end: nat, after: nat)
    requires start <= first < end <= after <= |s|
    requires forall k :: 0 <= k < start ==> IsNumberWhite(s[k])
    requires first == start || (first == start + 1 && IsSign(s[start]))
    requires forall k :: first <= k < end ==> IsDigit(s[k])
    requires forall k :: end <= k < after ==> IsNumberWhite(s[k])
    requires forall k :: after <= k < |s| ==> s[k] == '\0'
    ensures AllDigits(s[first..end])
    ensures var value := DigitsValue(s[first..end]);
      ParseByte(s) == if value > 255 || (first > start && s[start] == '-' && value != 0)
                      then Err(ByteOverflow(s)) else Ok(value)
  {
    SkipWhiteTo(s, 0, start);
    SkipDigitsTo(s, first, end);
    SkipWhiteTo(s, end, after);
    SkipNulsTo(s, after, |s|);
  }

  /** What the scan of a text that parses finds: some digits, then only white space and NULs. */
  lemma ParsedByteScan(s: string) returns (first: nat, j: nat, digits: string)
    requires ParseByte(s).Ok?
    ensures var i := SkipWhite(s, 0);
      && first == (if i < |s| && IsSign(s[i]) then i + 1 else i) && j == SkipDigits(s, first)
    ensures first < j <= |s| && SkipNuls(s, SkipWhite(s, j)) == |s| && digits == s[first..j]
    ensures AllDigits(digits) && ParseByte(s).value == DigitsValue(digits)
  {
    var i := SkipWhite(s, 0);
    var signed := i < |s| && IsSign(s[i]);
    first := if signed then i + 1 else i;
    j := SkipDigits(s, first);
    digits := s[first..j];
    SkipDigitsOver(s, first);
    assert first < j && SkipNuls(s, SkipWhite(s, j)) == |s|;
    assert ParseByte(s) == ByteValue(signed && s[i] == '-', digits, s);
  }

  /**
   * The accepted form built from its pieces: white space, an optional sign, digits and white
   * space parse as the value of the digits, or overflow when it is above 255 or negative.
   */
  lemma ParseByteOf(lead: string, sign: string, digits: string, trail: string)
    requires AllWhite(lead) && (sign == "" || sign == "+" || sign == "-")
    requires AllDigits(digits) && AllWhite(trail)
    ensures var s := lead + sign + digits + trail;
      ParseByte(s) == if DigitsValue(digits) > 255 || (sign == "-" && DigitsValue(digits) != 0)
                      then Err(ByteOverflow(s)) else Ok(DigitsValue(digits))
  {
    var s := lead + sign + digits + trail;
    var first := |lead| + |sign|;
    var end := first + |digits|;
    forall k | 0 <= k < |lead| ensures IsNumberWhite(s[k]) {
      assert s[k] == lead[k];
    }
    assert sign != "" ==> s[|lead|] == sign[0];
    forall k | first <= k < end ensures IsDigit(s[k]) {
      assert s[k] == digits[k - first];
    }
    forall k | end <= k < |s| ensures IsNumberWhite(s[k]) {
      assert s[k] == trail[k - end];
    }
    assert s[first..end] == digits;
    ParseByteAccepts(s, |lead|, first, end, |s|);
  }

  /**
   * Every text that parses has the accepted form: white space `s[..i]`, an optional sign and
   * digits `s[i..j]`, then white space and NULs, and its value is that of its digits.
   */
  lemma ParsedByteShape(s: string) returns (i: nat, j: nat, digits: string)
    requires ParseByte(s).Ok?
    ensures i < j <= |s| && AllWhite(s[..i])
    ensures s[i..j] == digits || (IsSign(s[i]) && s[i + 1..j] == digits)
    ensures AllDigits(digits) && ParseByte(s).value == DigitsValue(digits)
    ensures exists k :: j <= k <= |s| && AllWhite(s[j..k]) && AllNul(s[k..])
  {
    i := SkipWhite(s, 0);
    var first;
    first, j, digits := ParsedByteScan(s);
    var k := SkipWhite(s, j);
    SkipWhiteOver(s, 0);
    SkipWhiteOver(s, j);
    SkipNulsOver(s, k);
    assert AllWhite(s[..i]);
    assert AllWhite(s[j..k]);
    assert AllNul(s[k..]);
    assert j <= k <= |s| && AllWhite(s[j..k]) && AllNul(s[k..]);
  }

  predicate StartsWith(s: string, prefix: string)
  {
    |prefix| <= |s| && s[..|prefix|] == prefix
  }

  /**
   * The body of an RGB tag: three ','-separated bytes giving a foreground colour. `position`
   * is the index of the tag's closing ']', which the error message reports.
   */
  function RgbForeground(body: string, position: nat): (r: Result<string, FormatError>)
    ensures r.Ok? ==> IsSgr(r.value)
    ensures r.Err? ==> r.error == BadRgb(position) || r.error.BadByte? || r.error.ByteOverflow?
  {
    var rgb := Split(body, ',');
    if |rgb| != 3 then Err(BadRgb(position))
    else
      match ParseBytes(rgb)
      case Err(e) => Err(e)
      case Ok(bytes) => Ok(ForegroundRgb(bytes[0], bytes[1], bytes[2]))
  }

  /** `byte.Parse` on each part in turn; the first part that fails is the failure. */
  function ParseBytes(parts: seq<string>): (r: Result<seq<nat>, FormatError>)
    ensures r.Ok? ==> |r.value| == |parts| && forall k :: 0 <= k < |r.value| ==> r.value[k] < 256
    ensures r.Err? ==> r.error.BadByte? || r.error.ByteOverflow?
  {
    if parts == [] then Ok([])
    else
      match ParseByte(parts[0])
      case Err(e) => Err(e)
      case Ok(b) =>
        match ParseBytes(parts[1..])
        case Err(e) => Err(e)
        case Ok(rest) => Ok([b] + rest)
  }

  /**
   * The list parses exactly when each of its parts does, and then its values are those of
   * the parts, in order.
   */
  lemma {:induction false} ParseBytesEach(parts: seq<string>)
    ensures var r := ParseBytes(parts);
      && (r.Ok? <==> forall k :: 0 <= k < |parts| ==> ParseByte(parts[k]).Ok?)
      && (r.Ok? ==> forall k :: 0 <= k < |parts| ==> ParseByte(parts[k]) == Ok(r.value[k]))
  {
    if parts != [] {
      var tail := parts[1..];
      ParseBytesEach(tail);
      var r := ParseBytes(parts);
      var head := ParseByte(parts[0]);
      if head.Ok? && ParseBytes(tail).Err? {
        var j :| 0 <= j < |tail| && !ParseByte(tail[j]).Ok?;
        assert parts[j + 1] == tail[j];
      } else if head.Ok? {
        var rest := ParseBytes(tail).value;
        assert r == Ok([head.value] + rest);
        forall k | 0 <= k < |parts| ensures ParseByte(parts[k]) == Ok(r.value[k]) {
          if k > 0 {
            assert parts[k] == tail[k - 1] && r.value[k] == rest[k - 1];
          }
        }
      }
    }
  }

  /** A list that fails fails with the error of its first part that fails. */
  lemma {:induction false} ParseBytesFirstError(parts: seq<string>)
    ensures var r := ParseBytes(parts);
      r.Err? ==> exists k :: 0 <= k < |parts| && ParseByte(parts[k]) == Err(r.error)
                             && forall j :: 0 <= j < k ==> ParseByte(parts[j]).Ok?
  {
    if parts != [] {
      var tail := parts[1..];
      ParseBytesFirstError(tail);
      var r := ParseBytes(parts);
      if ParseByte(parts[0]).Err? {
        assert ParseByte(parts[0]) == Err(r.error);
      } else if ParseBytes(tail).Err? {
        var k :| 0 <= k < |tail| && ParseByte(tail[k]) == Err(ParseBytes(tail).error)
                 && forall j :: 0 <= j < k ==> ParseByte(tail[j]).Ok?;
        assert parts[k + 1] == tail[k] && r.error == ParseBytes(tail).error;
        forall j | 0 <= j < k + 1 ensures ParseByte(parts[j]).Ok? {
          if j > 0 {
            assert parts[j] == tail[j - 1];
          }
        }
      }
    }
  }

  /**
   * What one tag (the text between '[' and ']') stands for, trying the branches in the
   * source's order. The second RGB branch, for "#bg:", can never be reached: its tags
   * start with '#' and are taken by the first.
   */
  function Interpret(tag: string, position: nat): (r: Result<string, FormatError>)
    ensures r.Ok? ==> IsSgr(r.value)
    ensures r.Err? ==> !r.error.UnclosedTag?
    ensures r.Err? && r.error.UnknownSequence? ==> r.error == UnknownSequence(tag, position)
    ensures r.Err? && r.error.BadRgb? ==> r.error == BadRgb(position)
  {
    if tag == "/" || tag == "" then Ok(Reset)
    else if tag in ForegroundColors then Foreground(tag)
    else if tag == "bold" || tag == "b" then Ok(Bold)
    else if tag == "faint" || tag == "f" then Ok(Faint)
    else if tag == "italic" || tag == "i" then Ok(Italic)
    else if tag == "underline" || tag == "u" then Ok(Underline)
    else if StartsWith(tag, "fg:") then Foreground(tag[3..])
    else if StartsWith(tag, "bg:") then Background(tag[3..])
    else if tag[0] == '#' || StartsWith(tag, "#fg") then RgbForeground(tag[if tag[0] == '#' then 1 else 3..], position)
    else if StartsWith(tag, "#bg:") then
      assert false;
      Err(UnknownSequence(tag, position))
    else Err(UnknownSequence(tag, position))
  }

  /** Prefixes the output of a successful rest of the scan; a failure stays that failure. */
  function Prepend(s: string, rest: Result<string, FormatError>): (r: Result<string, FormatError>)
    ensures r.Ok? <==> rest.Ok?
    ensures r.Ok? ==> r.value == s + rest.value
    ensures r.Err? ==> r == rest
  {
    match rest
    case Ok(t) => Ok(s + t)
    case Err(e) => Err(e)
  }

  /**
   * The formatter's scan from position `i` on: plain characters are copied, "[[" gives one
   * '[', and a tag up to the next ']' is replaced by its sequence.
   */
  function FormatFrom(text: string, i: nat): Result<string, FormatError>
    requires i <= |text|
    decreases |text| - i, 2
  {
    if i == |text| then Ok([])
    else if text[i] != '[' then Prepend([text[i]], FormatFrom(text, i + 1))
    else
      var (present, next) := Strings.TryGet(text, i + 1);
      if present && next == '[' then Prepend("[", FormatFrom(text, i + 2))
      else TagFrom(text, i)
  }

  /** The scan at a '[' that opens a tag: the tag up to the next ']' is translated. */
  function TagFrom(text: string, i: nat): Result<string, FormatError>
    requires i < |text| && text[i] == '['
    decreases |text| - i, 1
  {
    var close := IndexOf(text, ']', i);
    if close == -1 then Err(UnclosedTag(i)) else TagResult(text, i, close)
  }

  /** The tag between the '[' at `i` and the ']' at `close` is translated and the scan goes on. */
  function TagResult(text: string, i: nat, close: nat): Result<string, FormatError>
    requires i < close < |text|
    decreases |text| - i, 0
  {
    match Interpret(text[i + 1..close], close)
    case Err(e) => Err(e)
    case Ok(s) => Prepend(s, FormatFrom(text, close + 1))
  }

  /**
   * The formatter's loop: the index jumps to the closing ']' of each tag while the
   * translated text is collected.
   */
  method Format(text: string) returns (r: Result<string, FormatError>)
    ensures r == FormatFrom(text, 0)
  {
    var result := [];
    var i := 0;
    PrependEmpty(FormatFrom(text, 0));
    while i < |text|
      invariant 0 <= i <= |text|
      invariant FormatFrom(text, 0) == Prepend(result, FormatFrom(text, i))
      decreases |text| - i
    {
      var c := text[i];
      if c != '[' {
        PrependTwice(result, [c], FormatFrom(text, i + 1));
        result := result + [c];
        i := i + 1;
        continue;
      }
      var (present, next) := Strings.TryGet(text, i + 1);
      if present && next == '[' {
        PrependTwice(result, "[", FormatFrom(text, i + 2));
        result := result + ['['];
        i := i + 2;
        continue;
      }
      var tagged := TranslateTag(text, i);
      if tagged.Err? {
        return Err(tagged.error);
      }
      var (sequence, after) := tagged.value;
      PrependTwice(result, sequence, FormatFrom(text, after));
      result := result + sequence;
      i := after;
    }
    assert result + [] == result;
    return Ok(result);
  }

  /**
   * A tag opened at `i`: the text up to the next ']' is translated and the scan goes on after
   * that ']'; without a ']' the '[' at `i` is reported. (The index of the ']' is the position
   * the other error messages report.)
   */
  method TranslateTag(text: string, i: nat) returns (r: Result<(string, nat), FormatError>)
    requires i < |text| && text[i] == '[' && !(i + 1 < |text| && text[i + 1] == '[')
    ensures r.Err? ==> FormatFrom(text, i) == Err(r.error)
    ensures r.Ok? ==> i < r.value.1 <= |text| && FormatFrom(text, i) == Prepend(r.value.0, FormatFrom(text, r.value.1))
  {
    var close := IndexOf(text, ']', i);
    if close == -1 {
      OpensTag(text, i);
      return Err(UnclosedTag(i));
    }
    var tagged := InterpretTag(text, i, close);
    if tagged.Err? {
      return Err(tagged.error);
    }
    return Ok((tagged.value, close + 1));
  }

  /** The tag between the '[' at `i` and the ']' at `close`, translated by `Interpret`. */
  method InterpretTag(text: string, i: nat, close: int) returns (tagged: Result<string, FormatError>)
    requires i < |text| && text[i] == '[' && !(i + 1 < |text| && text[i + 1] == '[')
    requires close == IndexOf(text, ']', i) && close >= 0
    ensures tagged.Err? ==> FormatFrom(text, i) == Err(tagged.error)
    ensures tagged.Ok? ==> FormatFrom(text, i) == Prepend(tagged.value, FormatFrom(text, close + 1))
  {
    var sequence := text[i + 1..close];
    tagged := Interpret(sequence, close);
    TagClosed(text, i, close, tagged);
  }

  /** A '[' that does not start "[[" opens a tag. */
  lemma OpensTag(text: string, i: nat)
    requires i < |text| && text[i] == '[' && !(i + 1 < |text| && text[i + 1] == '[')
    ensures FormatFrom(text, i) == TagFrom(text, i)
  {
  }

  /** A tag closed at `close` is translated, and the scan goes on after the ']'. */
  lemma TagUpTo(text: string, i: nat, close: int)
    requires i < |text| && text[i] == '[' && close == IndexOf(text, ']', i) && close >= 0
    ensures TagFrom(text, i) == TagResult(text, i, close)
  {
  }

  /** A tag closed at `close` and translated to `tagged` decides the scan from its '['. */
  lemma TagClosed(text: string, i: nat, close: int, tagged: Result<string, FormatError>)
    requires i < |text| && text[i] == '[' && !(i + 1 < |text| && text[i + 1] == '[')
    requires close == IndexOf(text, ']', i) && close >= 0 && tagged == Interpret(text[i + 1..close], close)
    ensures tagged.Err? ==> FormatFrom(text, i) == Err(tagged.error)
    ensures tagged.Ok? ==> FormatFrom(text, i) == Prepend(tagged.value, FormatFrom(text, close + 1))
  {
    OpensTag(text, i);
    TagUpTo(text, i, close);
  }

  lemma PrependEmpty(rest: Result<string, FormatError>)
    ensures Prepend([], rest) == rest
  {
    if rest.Ok? {
      assert [] + rest.value == rest.value;
    }
  }

  lemma PrependTwice(a: string, b: string, rest: Result<string, FormatError>)
    ensures Prepend(a, Prepend(b, rest)) == Prepend(a + b, rest)
  {
    if rest.Ok? {
      assert a + (b + rest.value) == (a + b) + rest.value;
    }
  }

  /** A stretch without '[' is copied unchanged. */
  lemma {:induction false} LiteralStretch(text: string, i: nat, j: nat)
    requires i <= j <= |text| && forall k :: i <= k < j ==> text[k] != '['
    ensures FormatFrom(text, i) == Prepend(text[i..j], FormatFrom(text, j))
    decreases j - i
  {
    if i < j {
      LiteralStretch(text, i + 1, j);
      PrependTwice([text[i]], text[i + 1..j], FormatFrom(text, j));
      assert [text[i]] + text[i + 1..j] == text[i..j];
    } else {
      assert text[i..j] == [];
      PrependEmpty(FormatFrom(text, j));
    }
  }

  /** Text without '[' comes out unchanged; a ']' on its own is copied like any character. */
  lemma PlainTextUnchanged(text: string)
    requires '[' !in text
    ensures FormatFrom(text, 0) == Ok(text)
  {
    LiteralStretch(text, 0, |text|);
    assert text[0..|text|] == text && text + [] == text;
  }

  /** "[[" gives one '[' and the scan goes on after both characters. */
  lemma EscapedBracket(before: string, after: string)
    requires '[' !in before
    ensures FormatFrom(before + "[[" + after, 0) == Prepend(before + "[", FormatFrom(before + "[[" + after, |before| + 2))
  {
    var text := before + "[[" + after;
    LiteralStretch(text, 0, |before|);
    assert text[0..|before|] == before;
    PrependTwice(before, "[", FormatFrom(text, |before| + 2));
  }

  /** A '[' that does not start "[[" and has no ']' after it makes `Format` fail at that position. */
  lemma UnclosedBracketFails(before: string, after: string)
    requires '[' !in before && ']' !in after && (after == [] || after[0] != '[')
    ensures FormatFrom(before + "[" + after, 0) == Err(UnclosedTag(|before|))
  {
    var text := before + "[" + after;
    LiteralStretch(text, 0, |before|);
    assert text[|before|] == '[';
    assert text[|before| + 1..] == after;
    UnclosedAt(text, |before|);
    PrependError(text[0..|before|], UnclosedTag(|before|));
  }

  /** A '[' at `i` that does not start "[[" and has no ']' after it is reported at `i`. */
  lemma UnclosedAt(text: string, i: nat)
    requires i < |text| && text[i] == '[' && ']' !in text[i + 1..]
    requires i + 1 == |text| || text[i + 1] != '['
    ensures FormatFrom(text, i) == Err(UnclosedTag(i))
  {
    forall k | i <= k < |text| ensures text[k] != ']' {
      if k > i {
        assert text[k] == text[i + 1..][k - i - 1];
      }
    }
  }

  lemma PrependError(a: string, e: FormatError)
    ensures Prepend(a, Err(e)) == Err(e)
  {
  }

  /** "[]" gives the reset sequence ESC[0m. */
  lemma EmptyTagResets(before: string, after: string)
    requires '[' !in before
    ensures FormatFrom(before + "[]" + after, 0) == Prepend(before + Reset, FormatFrom(before + "[]" + after, |before| + 2))
  {
    var t := before + "[]" + after;
    LiteralStretch(t, 0, |before|);
    assert t[0..|before|] == before;
    assert t[|before|] == '[' && t[|before| + 1] == ']';
    assert IndexOf(t, ']', |before|) == |before| + 1;
    TagUpTo(t, |before|, |before| + 1);
    assert t[|before| + 1..|before| + 1] == "";
    PrependTwice(before, Reset, FormatFrom(t, |before| + 2));
  }

  /** "[/]" gives the reset sequence ESC[0m. */
  lemma SlashTagResets(before: string, after: string)
    requires '[' !in before
    ensures FormatFrom(before + "[/]" + after, 0) == Prepend(before + Reset, FormatFrom(before + "[/]" + after, |before| + 3))
  {
    var t := before + "[/]" + after;
    LiteralStretch(t, 0, |before|);
    assert t[0..|before|] == before;
    assert t[|before|] == '[' && t[|before| + 1] == '/' && t[|before| + 2] == ']';
    assert IndexOf(t, ']', |before|) == |before| + 2;
    TagUpTo(t, |before|, |before| + 2);
    assert t[|before| + 1..|before| + 2] == "/";
    PrependTwice(before, Reset, FormatFrom(t, |before| + 3));
  }

  /** The style tags and their one-letter forms give SGR 1 to 4. */
  lemma StyleTags(position: nat)
    ensures Interpret("bold", position) == Interpret("b", position) == Ok(Sgr([1]))
    ensures Interpret("faint", position) == Interpret("f", position) == Ok(Sgr([2]))
    ensures Interpret("italic", position) == Interpret("i", position) == Ok(Sgr([3]))
    ensures Interpret("underline", position) == Interpret("u", position) == Ok(Sgr([4]))
  {
    StyleTag("bold", position, 1);
    StyleTag("b", position, 1);
    StyleTag("faint", position, 2);
    StyleTag("f", position, 2);
    StyleTag("italic", position, 3);
    StyleTag("i", position, 3);
    StyleTag("underline", position, 4);
    StyleTag("u", position, 4);
  }

  /** One style tag, which is no colour name, gives its SGR code. */
  lemma StyleTag(tag: string, position: nat, code: int)
    requires || (code == 1 && (tag == "bold" || tag == "b"))
             || (code == 2 && (tag == "faint" || tag == "f"))
             || (code == 3 && (tag == "italic" || tag == "i"))
             || (code == 4 && (tag == "underline" || tag == "u"))
    ensures Interpret(tag, position) == Ok(Sgr([code]))
  {
    NotAColor(tag);
  }

  /** Colour names have at least three letters, and a four-letter one is "blue" or "cyan". */
  lemma ColorNameShape(name: string)
    requires name in ForegroundColors
    ensures |name| >= 3 && name[0] in {'b', 'r', 'g', 'y', 'm', 'c', 'w'}
    ensures |name| == 4 ==> name[1] == 'l' || name[1] == 'y'
  {
  }

  /** A string whose shape no colour name has is not a colour name. */
  lemma NotAColor(s: string)
    requires |s| < 3 || s[0] !in {'b', 'r', 'g', 'y', 'm', 'c', 'w'} || (|s| == 4 && s[1] != 'l' && s[1] != 'y')
    ensures s !in ForegroundColors
  {
    if s in ForegroundColors {
      ColorNameShape(s);
    }
  }

  /** A string with a character outside lower-case letters and '-' names no colour. */
  lemma NotColorName(name: string, k: nat)
    requires k < |name| && !('a' <= name[k] <= 'z' || name[k] == '-')
    ensures name !in ForegroundColors && name !in BackgroundColors
  {
    if name in ForegroundColors {
      ColorNameChars(name);
    }
  }

  /**
   * A colour name, bare or after "fg:", sets that foreground colour; after "bg:" it sets that
   * background colour; an unknown name after "fg:" or "bg:" fails the lookup.
   */
  lemma NamedColorTags(name: string, position: nat)
    ensures name in ForegroundColors ==> Interpret(name, position) == Foreground(name) == Ok(Sgr([ForegroundColors[name]]))
    ensures Interpret("fg:" + name, position) == Foreground(name)
    ensures Interpret("bg:" + name, position) == Background(name)
    ensures name !in ForegroundColors ==> Interpret("fg:" + name, position) == Err(UnknownColor(name))
    ensures name !in BackgroundColors ==> Interpret("bg:" + name, position) == Err(UnknownColor(name))
  {
    PrefixedColorTag("fg:", name, position);
    PrefixedColorTag("bg:", name, position);
  }

  lemma PrefixedColorTag(prefix: string, name: string, position: nat)
    requires prefix == "fg:" || prefix == "bg:"
    ensures var tag := prefix + name;
      && tag[..3] == prefix && tag[3..] == name
      && Interpret(tag, position) == if prefix == "fg:" then Foreground(name) else Background(name)
  {
    var tag := prefix + name;
    assert tag[..3] == prefix && tag[3..] == name;
    assert tag[2] == ':';
    NotColorName(tag, 2);
    assert tag != "" && tag != "/" && tag != "bold" && tag != "b" && tag != "faint" && tag != "f";
    assert tag != "italic" && tag != "i" && tag != "underline" && tag != "u";
  }

  /** "#r,g,b" with three byte values sets the 24-bit foreground colour ESC[38;2;r;g;bm. */
  lemma RgbTag(red: nat, green: nat, blue: nat, position: nat)
    requires red < 256 && green < 256 && blue < 256
    ensures Interpret("#" + Decimal(red) + "," + Decimal(green) + "," + Decimal(blue), position)
            == Ok(ForegroundRgb(red, green, blue))
  {
    var body := Decimal(red) + "," + Decimal(green) + "," + Decimal(blue);
    var tag := "#" + body;
    assert tag == "#" + Decimal(red) + "," + Decimal(green) + "," + Decimal(blue);
    assert tag[1..] == body;
    HashTagsAreForegroundRgb(tag, position);
    ParseDecimalByte(red);
    ParseDecimalByte(green);
    ParseDecimalByte(blue);
    RgbBody(Decimal(red), Decimal(green), Decimal(blue), red, green, blue, position);
  }

  /** A byte printed in decimal parses back as that byte. */
  lemma ParseDecimalByte(n: nat)
    requires n < 256
    ensures ParseByte(Decimal(n)) == Ok(n) && ',' !in Decimal(n)
  {
    var d := Decimal(n);
    DecimalValue(n);
    ParseByteOf("", "", d, "");
    assert "" + "" + d + "" == d;
    CommaFree("", d);
    assert "" + d == d;
  }

  /** Three ','-separated parts that parse as bytes give the foreground sequence of those bytes. */
  lemma RgbBody(pr: string, pg: string, pb: string, red: nat, green: nat, blue: nat, position: nat)
    requires ',' !in pr && ',' !in pg && ',' !in pb
    requires ParseByte(pr) == Ok(red) && ParseByte(pg) == Ok(green) && ParseByte(pb) == Ok(blue)
    ensures RgbForeground(pr + "," + pg + "," + pb, position) == Ok(ForegroundRgb(red, green, blue))
  {
    RgbParts(pr, pg, pb);
    ParseThree(pr, pg, pb, red, green, blue);
  }

  /** Three parts that parse as bytes parse, as a list, to those three bytes. */
  lemma ParseThree(pr: string, pg: string, pb: string, red: nat, green: nat, blue: nat)
    requires ParseByte(pr) == Ok(red) && ParseByte(pg) == Ok(green) && ParseByte(pb) == Ok(blue)
    ensures ParseBytes([pr, pg, pb]) == Ok([red, green, blue])
  {
    ThreeCons(pr, pg, pb);
    ThreeCons(red, green, blue);
    ParseBytesCons(pb, [], blue, []);
    ParseBytesCons(pg, [pb], green, [blue]);
    ParseBytesCons(pr, [pg, pb], red, [green, blue]);
  }

  /** A three-element list built one element at a time. */
  lemma ThreeCons<T>(a: T, b: T, c: T)
    ensures [c] + [] == [c] && [b] + [c] == [b, c] && [a] + [b, c] == [a, b, c]
  {
    assert [c] + [] == [c];
    assert [b] + [c] == [b, c];
    assert [a] + [b, c] == [a, b, c];
  }

  /** A part that parses in front of parts that parse: the list parses to its byte in front. */
  lemma ParseBytesCons(part: string, rest: seq<string>, b: nat, values: seq<nat>)
    requires ParseByte(part) == Ok(b) && ParseBytes(rest) == Ok(values)
    ensures ParseBytes([part] + rest) == Ok([b] + values)
  {
    assert ([part] + rest)[0] == part && ([part] + rest)[1..] == rest;
  }

  /** Splitting three ','-free parts joined by ',' gives the three parts. */
  lemma RgbParts(pr: string, pg: string, pb: string)
    requires ',' !in pr && ',' !in pg && ',' !in pb
    ensures Split(pr + "," + pg + "," + pb, ',') == [pr, pg, pb]
  {
    var parts := [pr, pg, pb];
    assert parts[1..][1..] == [pb];
    assert Join(',', parts[1..]) == pg + "," + pb;
    assert Join(',', parts) == pr + "," + pg + "," + pb;
    SplitJoin(',', parts);
  }

  /**
   * The parts of an RGB list may carry white space, as `byte.Parse` allows: the tag of
   * "[#255, 128, 0]" sets the colour 255, 128, 0.
   */
  lemma SpacedRgbTag(red: nat, green: nat, blue: nat, position: nat)
    requires red < 256 && green < 256 && blue < 256
    ensures Interpret("#" + Decimal(red) + ", " + Decimal(green) + ", " + Decimal(blue), position)
            == Ok(ForegroundRgb(red, green, blue))
  {
    var pr, pg, pb := Decimal(red), " " + Decimal(green), " " + Decimal(blue);
    var tag := "#" + Decimal(red) + ", " + Decimal(green) + ", " + Decimal(blue);
    SpacedParts(red, green, blue);
    HashTagsAreForegroundRgb(tag, position);
    RgbBody(pr, pg, pb, red, green, blue, position);
  }

  /** The parts of "#r, g, b": the second and third start with a space, and each parses as its byte. */
  lemma SpacedParts(red: nat, green: nat, blue: nat)
    requires red < 256 && green < 256 && blue < 256
    ensures var pr, pg, pb := Decimal(red), " " + Decimal(green), " " + Decimal(blue);
      && ("#" + Decimal(red) + ", " + Decimal(green) + ", " + Decimal(blue))[1..] == pr + "," + pg + "," + pb
      && ',' !in pr && ',' !in pg && ',' !in pb
      && ParseByte(pr) == Ok(red) && ParseByte(pg) == Ok(green) && ParseByte(pb) == Ok(blue)
  {
    ParseDecimalByte(red);
    SpacedByte(green);
    SpacedByte(blue);
    SpacedList(Decimal(red), Decimal(green), Decimal(blue));
  }

  lemma SpacedList(r: string, g: string, b: string)
    ensures ("#" + r + ", " + g + ", " + b)[1..] == r + "," + (" " + g) + "," + (" " + b)
  {
  }

  lemma SpacedByte(n: nat)
    requires n < 256
    ensures ParseByte(" " + Decimal(n)) == Ok(n) && ',' !in " " + Decimal(n)
  {
    var d := Decimal(n);
    DecimalValue(n);
    ParseByteOf(" ", "", d, "");
    assert " " + "" + d + "" == " " + d;
    CommaFree(" ", d);
  }

  /** White space and digits hold no ','. */
  lemma CommaFree(lead: string, digits: string)
    requires AllWhite(lead) && AllDigits(digits)
    ensures ',' !in lead + digits
  {
    var s := lead + digits;
    forall j | 0 <= j < |s| ensures s[j] != ',' {
      if j < |lead| {
        assert s[j] == lead[j];
      } else {
        assert s[j] == digits[j - |lead|];
      }
    }
  }

  /** A byte with white space around it and an optional '+' before it parses as that byte. */
  lemma PaddedByte(lead: string, sign: string, n: nat, trail: string)
    requires AllWhite(lead) && AllWhite(trail) && (sign == "" || sign == "+") && n < 256
    ensures ParseByte(lead + sign + Decimal(n) + trail) == Ok(n)
  {
    DecimalValue(n);
    ParseByteOf(lead, sign, Decimal(n), trail);
  }

  /** A '-' before the digits overflows unless their value is 0: "-0" is 0 and "-1" fails. */
  lemma NegativeByte(n: nat)
    ensures ParseByte("-" + Decimal(n)) == if n == 0 then Ok(0) else Err(ByteOverflow("-" + Decimal(n)))
  {
    var d := Decimal(n);
    DecimalValue(n);
    ParseByteOf("", "-", d, "");
    assert "" + "-" + d + "" == "-" + d;
  }

  /** A value above 255 overflows. */
  lemma LargeByte(n: nat)
    requires n > 255
    ensures ParseByte(Decimal(n)) == Err(ByteOverflow(Decimal(n)))
  {
    var d := Decimal(n);
    DecimalValue(n);
    ParseByteOf("", "", d, "");
    assert "" + "" + d + "" == d;
  }

  /** A sign that no digit follows is malformed. */
  lemma BareSign(lead: string, sign: char, rest: string)
    requires AllWhite(lead) && IsSign(sign) && (rest == [] || !IsDigit(rest[0]))
    ensures ParseByte(lead + [sign] + rest) == Err(BadByte(lead + [sign] + rest))
  {
    var s := lead + [sign] + rest;
    assert forall k :: 0 <= k < |lead| ==> s[k] == lead[k];
    SkipWhiteTo(s, 0, |lead|);
    assert rest != [] ==> s[|lead| + 1] == rest[0];
    SkipDigitsTo(s, |lead| + 1, |lead| + 1);
  }

  /** White space between two runs of digits is malformed: "1 2" is no byte. */
  lemma GapInDigits(a: nat, b: nat)
    ensures ParseByte(Decimal(a) + " " + Decimal(b)) == Err(BadByte(Decimal(a) + " " + Decimal(b)))
  {
    DecimalValue(a);
    DecimalValue(b);
    DigitsGap(Decimal(a), Decimal(b));
  }

  lemma DigitsGap(x: string, y: string)
    requires AllDigits(x) && AllDigits(y)
    ensures ParseByte(x + " " + y) == Err(BadByte(x + " " + y))
  {
    var s := x + " " + y;
    assert forall k :: 0 <= k < |x| ==> s[k] == x[k];
    assert s[|x|] == ' ' && s[|x| + 1] == y[0];
    SkipWhiteTo(s, 0, 0);
    SkipDigitsTo(s, 0, |x|);
    SkipWhiteTo(s, |x|, |x| + 1);
    SkipNulsTo(s, |x| + 1, |x| + 1);
  }

  /**
   * Every tag that starts with '#' is read as an RGB foreground list after the '#': a list
   * without exactly three parts fails at the closing ']', and "#bg:r,g,b" fails to parse
   * "bg:r" as a byte instead of setting a background colour.
   */
  lemma HashTagsAreForegroundRgb(tag: string, position: nat)
    requires |tag| > 0 && tag[0] == '#'
    ensures Interpret(tag, position) == RgbForeground(tag[1..], position)
    ensures |Split(tag[1..], ',')| != 3 ==> Interpret(tag, position) == Err(BadRgb(position))
  {
    NotColorName(tag, 0);
  }

  /**
   * The "#bg:" form is unreachable: a background RGB tag with three parts is rejected
   * because its first part, which starts with "bg:", is not a byte.
   */
  lemma BackgroundRgbTagsRejected(body: string, position: nat)
    requires |Split("bg:" + body, ',')| == 3
    ensures Interpret("#bg:" + body, position) == Err(BadByte(Split("bg:" + body, ',')[0]))
  {
    var tag := "#bg:" + body;
    var s := "bg:" + body;
    assert tag[1..] == s;
    HashTagsAreForegroundRgb(tag, position);
    BackgroundRgbBody(body, position);
  }

  /** The body "bg:..." of a "#bg:" tag, split in three, fails on its first part, which is no byte. */
  lemma BackgroundRgbBody(body: string, position: nat)
    requires |Split("bg:" + body, ',')| == 3
    ensures RgbForeground("bg:" + body, position) == Err(BadByte(Split("bg:" + body, ',')[0]))
  {
    var s := "bg:" + body;
    var i := IndexOf(s, ',', 0);
    assert i >= 3 by {
      assert s[0] == 'b' && s[1] == 'g' && s[2] == ':';
    }
    var first := Split(s, ',')[0];
    assert first == s[..i];
    NotANumber(first);
  }

  /**
   * The documented "#fg:" form fails in the same way: the first RGB branch takes the tag and
   * parses "fg:..." as the red byte, so the "#fg" test beside it never decides anything.
   */
  lemma ForegroundRgbTagsRejected(body: string, position: nat)
    requires |Split("fg:" + body, ',')| == 3
    ensures Interpret("#fg:" + body, position) == Err(BadByte(Split("fg:" + body, ',')[0]))
  {
    var tag := "#fg:" + body;
    var s := "fg:" + body;
    assert tag[1..] == s;
    HashTagsAreForegroundRgb(tag, position);
    ForegroundRgbBody(body, position);
  }

  /** The body "fg:..." of a "#fg:" tag, split in three, fails on its first part, which is no byte. */
  lemma ForegroundRgbBody(body: string, position: nat)
    requires |Split("fg:" + body, ',')| == 3
    ensures RgbForeground("fg:" + body, position) == Err(BadByte(Split("fg:" + body, ',')[0]))
  {
    var s := "fg:" + body;
    var i := IndexOf(s, ',', 0);
    assert i >= 3 by {
      assert s[0] == 'f' && s[1] == 'g' && s[2] == ':';
    }
    var first := Split(s, ',')[0];
    assert first == s[..i];
    NotANumber(first);
  }

  /** Text that starts with a character other than white space, a sign or a digit is no byte. */
  lemma NotANumber(s: string)
    requires |s| > 0 && !IsNumberWhite(s[0]) && !IsSign(s[0]) && !IsDigit(s[0])
    ensures ParseByte(s) == Err(BadByte(s))
  {
    assert SkipWhite(s, 0) == 0 && SkipDigits(s, 0) == 0;
  }

  /** A tag that is no colour, no style, no "fg:"/"bg:" name and does not start with '#' is an error. */
  lemma UnknownTagFails(tag: string, position: nat)
    requires tag != "" && tag != "/" && tag !in ForegroundColors
    requires tag !in {"bold", "b", "faint", "f", "italic", "i", "underline", "u"}
    requires !StartsWith(tag, "fg:") && !StartsWith(tag, "bg:") && tag[0] != '#'
    ensures Interpret(tag, position) == Err(UnknownSequence(tag, position))
  {
    NotPrefix(tag, "#fg");
    NotPrefix(tag, "#bg:");
  }

  /** A text whose first character differs from the prefix's does not start with it. */
  lemma NotPrefix(s: string, prefix: string)
    requires |s| > 0 && |prefix| > 0 && s[0] != prefix[0]
    ensures !StartsWith(s, prefix)
  {
    if |prefix| <= |s| {
      assert s[..|prefix|][0] == s[0];
    }
  }
}
