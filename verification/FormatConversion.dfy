/**
 The printf conversion specification parser of utility/format_conversion.cc.

 A C string is its characters up to and including the terminator, so that every index into it is a
 read that does not go past the terminator.
 */
module FormatConversion {
  import opened Wrappers

  const NUL: char := '\0'
  const FORMAT_CHAR: char := '%'

  /** `short int`. */
  type Short = x: int | -0x8000 <= x < 0x8000

  /** `sizeof(uintptr_t) * 2u` on the 32-bit target. */
  const POINTER_DIGITS: Short := 8

  datatype Justification = Left | Right
  datatype ModifierState = UseDefault | UseAsterisk | IsSpecified
  datatype LengthModifier = NoModifier | HH | H | L | LL | J | Z | T | BigL
  datatype ParseError = NoError | NoFormatChar | BadParse

  datatype Conversion = Conversion(
    specifier: char,
    width: Short, widthState: ModifierState,
    precision: Short, precisionState: ModifierState,
    modifier: LengthModifier,
    pad: char, justification: Justification, prepend: char, alternative: bool,
    formatLength: nat, error: ParseError)

  const INIT: Conversion :=
    Conversion(NUL, 0, UseDefault, 0, UseDefault, NoModifier, ' ', Right, NUL, false, 0, NoError)

  predicate CString(text: seq<char>) {
    && text != []
    && text[|text| - 1] == NUL
    && forall i :: 0 <= i < |text| - 1 ==> text[i] != NUL
  }

  predicate IsDigit(c: char) {
    '0' <= c <= '9'
  }

  predicate IsFlag(c: char) {
    c in {'-', '+', ' ', '#', '0'}
  }

  predicate IsInteger(c: char) {
    c in {'d', 'i', 'o', 'x', 'X', 'u'}
  }

  predicate IsFloat(c: char) {
    c in {'f', 'F', 'e', 'E', 'a', 'A', 'g', 'G'}
  }

  predicate IsKnown(c: char) {
    c in {'%', 'c', 's', 'p', 'n'} || IsInteger(c) || IsFloat(c)
  }

  function Wrap16(x: int): Short {
    (x + 0x8000) % 0x1_0000 - 0x8000
  }

  function DigitValue(c: char): int {
    (c as int) - ('0' as int)
  }

  /** `parse_short_int` over a run of digits: every intermediate result is a `short`. */
  function ShortOf(digits: seq<char>): Short {
    if digits == [] then 0
    else
      var last := |digits| - 1;
      Wrap16(Wrap16(ShortOf(digits[..last]) * 10) + DigitValue(digits[last]))
  }

  // ----- The parser as a function -----

  function FlagsEnd(text: seq<char>, i: nat): (end: nat)
    requires CString(text) && i < |text|
    ensures i <= end < |text|
    decreases |text| - i
  {
    if IsFlag(text[i]) then FlagsEnd(text, i + 1) else i
  }

  function DigitsEnd(text: seq<char>, i: nat): (end: nat)
    requires CString(text) && i < |text|
    ensures i <= end < |text|
    decreases |text| - i
  {
    if IsDigit(text[i]) then DigitsEnd(text, i + 1) else i
  }

  function WithFlag(c: Conversion, flag: char): Conversion {
    if flag == '-' then c.(justification := Left)
    else if flag == '+' || flag == ' ' then c.(prepend := flag)
    else if flag == '#' then c.(alternative := true)
    else if flag == '0' then c.(pad := '0')
    else c
  }

  function WithFlags(c: Conversion, flags: seq<char>): Conversion
    decreases |flags|
  {
    if flags == [] then c else WithFlags(WithFlag(c, flags[0]), flags[1..])
  }

  function WithWidth(c: Conversion, text: seq<char>, i: nat): (Conversion, nat)
    requires CString(text) && i < |text|
  {
    if text[i] == '*' then (c.(width := 0, widthState := UseAsterisk), i)
    else if IsDigit(text[i]) then
      var end := DigitsEnd(text, i);
      (c.(width := ShortOf(text[i..end]), widthState := IsSpecified), end)
    else (c.(width := 0, widthState := UseDefault), i)
  }

  function WithPrecision(c: Conversion, text: seq<char>, i: nat): (Conversion, nat)
    requires CString(text) && i < |text|
  {
    if text[i] != '.' then (c.(precision := 0, precisionState := UseDefault), i)
    else if text[i + 1] == '*' then (c.(precision := 0, precisionState := UseAsterisk), i + 1)
    else
      var end := DigitsEnd(text, i + 1);
      (c.(precision := ShortOf(text[i + 1..end]), precisionState := IsSpecified), end)
  }

  function ModifierAt(text: seq<char>, i: nat): (LengthModifier, nat)
    requires CString(text) && i < |text|
  {
    match text[i]
    case 'h' => if text[i + 1] == 'h' then (HH, i + 2) else (H, i + 1)
    case 'l' => if text[i + 1] == 'l' then (LL, i + 2) else (L, i + 1)
    case 'j' => (J, i + 1)
    case 'z' => (Z, i + 1)
    case 't' => (T, i + 1)
    case 'L' => (BigL, i + 1)
    case _ => (NoModifier, i)
  }

  /** The defaults and the verdict, once the specifier is reached at `i`. */
  function Concluded(c: Conversion, specifier: char, i: nat): Conversion {
    var c1 := c.(specifier := specifier,
                 precision := if c.precisionState != UseDefault then c.precision
                              else if IsInteger(specifier) then 1
                              else if IsFloat(specifier) then 6
                              else c.precision,
                 formatLength := i + 1,
                 error := if IsKnown(specifier) then NoError else BadParse);
    if specifier == 'p' then c1.(width := POINTER_DIGITS, widthState := IsSpecified, pad := '0') else c1
  }

  function Parse(text: seq<char>): Conversion
    requires CString(text)
  {
    if text[0] != FORMAT_CHAR then INIT.(error := NoFormatChar)
    else
      var a := FlagsEnd(text, 1);
      var (c1, b) := WithWidth(WithFlags(INIT, text[1..a]), text, a);
      var (c2, p) := WithPrecision(c1, text, b);
      var (modifier, d) := ModifierAt(text, p);
      Concluded(c2.(modifier := modifier), text[d], d)
  }

  // ----- The class -----

  class Parser {
    var conversion: Conversion

    constructor ()
      ensures conversion == INIT
    {
      conversion := INIT;
    }

    method ParseText(text: seq<char>)
      requires CString(text)
      modifies this
      ensures conversion == Parse(text)
    {
      conversion := INIT;
      if text[0] == FORMAT_CHAR {
        var iter := ParseFlags(text, 1);
        iter := ParseFieldWidth(text, iter);
        iter := ParsePrecision(text, iter);
        iter := ParseLengthModifiers(text, iter);

        conversion := conversion.(specifier := text[iter]);
        iter := iter + 1;
        if conversion.precisionState == UseDefault {
          if IsInteger(conversion.specifier) {
            conversion := conversion.(precision := 1);
          } else if IsFloat(conversion.specifier) {
            conversion := conversion.(precision := 6);
          }
        }
        if conversion.specifier == 'p' {
          conversion := conversion.(width := POINTER_DIGITS, widthState := IsSpecified, pad := '0');
        }
        conversion := conversion.(formatLength := iter, error := if IsKnown(conversion.specifier) then NoError
                                  else BadParse);
      } else {
        conversion := conversion.(error := NoFormatChar, formatLength := 0);
      }
    }

    method ParseFlags(text: seq<char>, start: nat) returns (iter: nat)
      requires CString(text) && start < |text|
      modifies this
      ensures iter == FlagsEnd(text, start)
      ensures conversion == WithFlags(old(conversion), text[start..iter])
    {
      iter := start;
      assert text[start..start] == [];
      while IsFlag(text[iter])
        invariant start <= iter < |text| && FlagsEnd(text, iter) == FlagsEnd(text, start)
        invariant conversion == WithFlags(old(conversion), text[start..iter])
        decreases |text| - iter
      {
        WithFlagsAppend(old(conversion), text[start..iter], text[iter]);
        assert text[start..iter + 1] == text[start..iter] + [text[iter]];
        match text[iter] {
          case '-' => conversion := conversion.(justification := Left);
          case '+' => conversion := conversion.(prepend := text[iter]);
          case ' ' => conversion := conversion.(prepend := text[iter]);
          case '#' => conversion := conversion.(alternative := true);
          case _ => conversion := conversion.(pad := '0');
        }
        iter := iter + 1;
      }
    }

    method ParseFieldWidth(text: seq<char>, start: nat) returns (iter: nat)
      requires CString(text) && start < |text|
      modifies this
      ensures start <= iter < |text| && (conversion, iter) == WithWidth(old(conversion), text, start)
    {
      iter := start;
      conversion := conversion.(width := 0, widthState := UseDefault);
      if text[iter] == '*' {
        conversion := conversion.(widthState := UseAsterisk);
      } else if IsDigit(text[iter]) {
        conversion := conversion.(widthState := IsSpecified);
        var value;
        value, iter := ParseShortInt(text, iter);
        conversion := conversion.(width := value);
      }
    }

    method ParsePrecision(text: seq<char>, start: nat) returns (iter: nat)
      requires CString(text) && start < |text|
      modifies this
      ensures start <= iter < |text| && (conversion, iter) == WithPrecision(old(conversion), text, start)
    {
      iter := start;
      conversion := conversion.(precision := 0, precisionState := UseDefault);
      if text[iter] == '.' {
        iter := iter + 1;
        if text[iter] == '*' {
          conversion := conversion.(precisionState := UseAsterisk);
        } else {
          conversion := conversion.(precisionState := IsSpecified);
          var value;
          value, iter := ParseShortInt(text, iter);
          conversion := conversion.(precision := value);
        }
      }
    }

    method ParseLengthModifiers(text: seq<char>, start: nat) returns (iter: nat)
      requires CString(text) && start < |text|
      modifies this
      ensures start <= iter < |text|
      ensures (conversion.modifier, iter) == ModifierAt(text, start)
      ensures conversion == old(conversion).(modifier := conversion.modifier)
    {
      iter := start;
      match text[iter]
      case 'h' =>
        conversion := conversion.(modifier := H);
        iter := iter + 1;
        if text[iter] == 'h' {
          conversion := conversion.(modifier := HH);
          iter := iter + 1;
        }
      case 'l' =>
        conversion := conversion.(modifier := L);
        iter := iter + 1;
        if text[iter] == 'l' {
          conversion := conversion.(modifier := LL);
          iter := iter + 1;
        }
      case 'j' => conversion := conversion.(modifier := J); iter := iter + 1;
      case 'z' => conversion := conversion.(modifier := Z); iter := iter + 1;
      case 't' => conversion := conversion.(modifier := T); iter := iter + 1;
      case 'L' => conversion := conversion.(modifier := BigL); iter := iter + 1;
      case _ => conversion := conversion.(modifier := NoModifier);
    }

    static method ParseShortInt(text: seq<char>, start: nat) returns (value: Short, iter: nat)
      requires CString(text) && start < |text|
      ensures iter == DigitsEnd(text, start) && value == ShortOf(text[start..iter])
    {
      value, iter := 0, start;
      assert text[start..start] == [] && ShortOf([]) == 0;
      hide ShortOf;
      while IsDigit(text[iter])
        invariant start <= iter < |text| && DigitsEnd(text, iter) == DigitsEnd(text, start)
        invariant value == ShortOf(text[start..iter])
        decreases |text| - iter
      {
        ShortOfNext(text, start, iter);
        value := Wrap16(value * 10);
        value := Wrap16(value + DigitValue(text[iter]));
        iter := iter + 1;
      }
    }
  }

  lemma ShortOfNext(text: seq<char>, start: nat, iter: nat)
    requires start <= iter < |text|
    ensures ShortOf(text[start..iter + 1])
         == Wrap16(Wrap16(ShortOf(text[start..iter]) * 10) + DigitValue(text[iter]))
  {
    assert text[start..iter + 1][..iter - start] == text[start..iter];
  }

  lemma {:induction false} WithFlagsAppend(c: Conversion, flags: seq<char>, flag: char)
    ensures WithFlags(c, flags + [flag]) == WithFlag(WithFlags(c, flags), flag)
    decreases |flags|
  {
    if flags == [] {
      assert flags + [flag] == [flag] && [flag][1..] == [];
    } else {
      assert (flags + [flag])[1..] == flags[1..] + [flag];
      WithFlagsAppend(WithFlag(c, flags[0]), flags[1..], flag);
    }
  }

  // ----- Which texts are accepted -----

  predicate AllFlags(text: seq<char>, i: nat, j: nat)
    requires i <= j <= |text|
  {
    forall k :: i <= k < j ==> IsFlag(text[k])
  }

  predicate AllDigits(text: seq<char>, i: nat, j: nat)
    requires i <= j <= |text|
  {
    forall k :: i <= k < j ==> IsDigit(text[k])
  }

  function ModifierText(m: LengthModifier): seq<char> {
    match m
    case NoModifier => ""
    case HH => "hh"
    case H => "h"
    case L => "l"
    case LL => "ll"
    case J => "j"
    case Z => "z"
    case T => "t"
    case BigL => "L"
  }

  /**
   The grammar: `%`, flags, a width that begins with no zero, a point and precision digits, a length
   modifier, a known specifier; `a`, `b`, `p` and `d` are where the parts end.
   */
  predicate Grammar(text: seq<char>, a: nat, b: nat, p: nat, d: nat, m: LengthModifier) {
    && 1 <= a <= b <= p <= d < |text|
    && text[0] == FORMAT_CHAR
    && AllFlags(text, 1, a)
    && AllDigits(text, a, b) && (a < b ==> text[a] != '0')
    && (b == p || (text[b] == '.' && AllDigits(text, b + 1, p)))
    && text[p..d] == ModifierText(m)
    && IsKnown(text[d])
  }

  lemma {:induction false} FlagsEndIs(text: seq<char>, i: nat, j: nat)
    requires CString(text) && i <= j < |text| && AllFlags(text, i, j) && !IsFlag(text[j])
    ensures FlagsEnd(text, i) == j
    decreases j - i
  {
    if i < j {
      FlagsEndIs(text, i + 1, j);
    }
  }

  lemma {:induction false} DigitsEndIs(text: seq<char>, i: nat, j: nat)
    requires CString(text) && i <= j < |text| && AllDigits(text, i, j) && !IsDigit(text[j])
    ensures DigitsEnd(text, i) == j
    decreases j - i
  {
    if i < j {
      DigitsEndIs(text, i + 1, j);
    }
  }

  lemma {:induction false} FlagsEndProperty(text: seq<char>, i: nat)
    requires CString(text) && i < |text|
    ensures AllFlags(text, i, FlagsEnd(text, i)) && !IsFlag(text[FlagsEnd(text, i)])
    decreases |text| - i
  {
    if IsFlag(text[i]) {
      FlagsEndProperty(text, i + 1);
    }
  }

  lemma {:induction false} DigitsEndProperty(text: seq<char>, i: nat)
    requires CString(text) && i < |text|
    ensures AllDigits(text, i, DigitsEnd(text, i)) && !IsDigit(text[DigitsEnd(text, i)])
    decreases |text| - i
  {
    if IsDigit(text[i]) {
      DigitsEndProperty(text, i + 1);
    }
  }

  lemma ModifierIs(text: seq<char>, p: nat, d: nat, m: LengthModifier)
    requires CString(text) && p <= d < |text| && text[p..d] == ModifierText(m) && IsKnown(text[d])
    ensures ModifierAt(text, p) == (m, d)
  {
    assert |text[p..d]| == d - p;
    if d > p {
      assert text[p] == text[p..d][0];
      if d > p + 1 {
        assert text[p + 1] == text[p..d][1];
      }
    }
  }

  lemma ModifierProperty(text: seq<char>, p: nat)
    requires CString(text) && p < |text|
    ensures var (m, d) := ModifierAt(text, p); p <= d < |text| && text[p..d] == ModifierText(m)
    ensures text[p] == '*' ==> ModifierAt(text, p) == (NoModifier, p)
  {
    var (m, d) := ModifierAt(text, p);
    assert |text[p..d]| == d - p;
  }

  lemma WidthProperty(c: Conversion, text: seq<char>, a: nat)
    requires CString(text) && a < |text| && !IsFlag(text[a])
    ensures var b := WithWidth(c, text, a).1;
            && a <= b < |text| && AllDigits(text, a, b) && (a < b ==> text[a] != '0')
            && (text[a] == '*' ==> b == a)
  {
    DigitsEndProperty(text, a);
  }

  lemma PrecisionProperty(c: Conversion, text: seq<char>, b: nat)
    requires CString(text) && b < |text|
    ensures var p := WithPrecision(c, text, b).1;
            && b <= p < |text|
            && (b == p || (text[b] == '.' && (text[p] == '*' || AllDigits(text, b + 1, p))))
            && (text[b] == '*' ==> b == p)
  {
    if text[b] == '.' {
      DigitsEndProperty(text, b + 1);
    }
  }

  /** What a text of the grammar is parsed to. */
  lemma GrammarParsed(text: seq<char>, a: nat, b: nat, p: nat, d: nat, m: LengthModifier)
    requires CString(text) && Grammar(text, a, b, p, d, m)
    ensures var c := WithFlags(INIT, text[1..a]).(
              width := if a == b then 0 else ShortOf(text[a..b]), widthState := if a == b then UseDefault
                  else IsSpecified,
              precision := if b == p then 0 else ShortOf(text[b + 1..p]), precisionState := if b == p then UseDefault
                  else IsSpecified,
              modifier := m);
            Parse(text) == Concluded(c, text[d], d)
  {
    hide Parse, WithFlags, FlagsEnd, DigitsEnd, ShortOf, ModifierAt, ModifierText, Concluded, CString, IsKnown;
    PartBoundaries(text, a, b, p, d, m);
    FlagsEndIs(text, 1, a);
    if a < b {
      DigitsEndIs(text, a, b);
    }
    if b < p {
      DigitsEndIs(text, b + 1, p);
    }
    ModifierIs(text, p, d, m);
    var c0 := WithFlags(INIT, text[1..a]);
    WithFlagsKeeps(INIT, text[1..a]);
    StagesParsed(text, a, WithWidth(c0, text, a).0, b, WithPrecision(WithWidth(c0, text, a).0, text, b).0, p, m, d);
  }

  lemma StagesParsed(text: seq<char>, a: nat, c1: Conversion, b: nat, c2: Conversion, p: nat, m: LengthModifier, d: nat)
    requires CString(text) && text[0] == FORMAT_CHAR && a < |text| && b < |text| && p < |text| && d < |text|
    requires FlagsEnd(text, 1) == a && WithWidth(WithFlags(INIT, text[1..a]), text, a) == (c1, b)
    requires WithPrecision(c1, text, b) == (c2, p) && ModifierAt(text, p) == (m, d)
    ensures Parse(text) == Concluded(c2.(modifier := m), text[d], d)
  {
  }

  lemma {:induction false} WithFlagsKeeps(c: Conversion, flags: seq<char>)
    ensures WithFlags(c, flags).width == c.width && WithFlags(c, flags).widthState == c.widthState
    ensures WithFlags(c, flags).precision == c.precision && WithFlags(c, flags).precisionState == c.precisionState
    decreases |flags|
  {
    if flags != [] {
      WithFlagsKeeps(WithFlag(c, flags[0]), flags[1..]);
    }
  }

  /** No part runs on into the next. */
  lemma PartBoundaries(text: seq<char>, a: nat, b: nat, p: nat, d: nat, m: LengthModifier)
    requires CString(text) && Grammar(text, a, b, p, d, m)
    ensures !IsDigit(text[p]) && text[p] != '*' && text[p] != '.' && !IsFlag(text[p])
    ensures !IsDigit(text[b]) && text[b] != '*' && !IsFlag(text[b])
    ensures !IsFlag(text[a]) && text[a] != '*'
    ensures b < p ==> text[b + 1] != '*'
  {
    if p < d {
      assert text[p] == text[p..d][0];
    }
  }

  predicate GrammarOfLength(text: seq<char>, n: nat, a: nat, b: nat, p: nat, m: LengthModifier) {
    n > 0 && Grammar(text, a, b, p, n - 1, m)
  }

  /** The parser succeeds, having consumed `n` characters, exactly on the texts of the grammar; so never with a `*`. */
  lemma AcceptedExact(text: seq<char>, n: nat)
    requires CString(text)
    ensures Parse(text).error == NoError && Parse(text).formatLength == n
      <==> exists a, b, p, m :: GrammarOfLength(text, n, a, b, p, m)
  {
    hide Parse, Grammar, CString;
    if a, b, p, m :| GrammarOfLength(text, n, a, b, p, m) {
      GrammarAccepted(text, a, b, p, n - 1, m);
    }
    if Parse(text).error == NoError && Parse(text).formatLength == n {
      var a, b, p, d, m := ParsedGrammar(text);
      assert GrammarOfLength(text, n, a, b, p, m);
    }
  }

  lemma GrammarAccepted(text: seq<char>, a: nat, b: nat, p: nat, d: nat, m: LengthModifier)
    requires CString(text) && Grammar(text, a, b, p, d, m)
    ensures Parse(text).error == NoError && Parse(text).formatLength == d + 1
  {
    hide Parse, IsKnown;
    GrammarParsed(text, a, b, p, d, m);
  }

  /** Where the parser has split an accepted text. */
  lemma ParsedGrammar(text: seq<char>) returns (a: nat, b: nat, p: nat, d: nat, m: LengthModifier)
    requires CString(text) && Parse(text).error == NoError
    ensures Parse(text).formatLength == d + 1 && Grammar(text, a, b, p, d, m)
  {
    a := FlagsEnd(text, 1);
    var c0 := WithFlags(INIT, text[1..a]);
    var c1 := WithWidth(c0, text, a).0;
    b := WithWidth(c0, text, a).1;
    p := WithPrecision(c1, text, b).1;
    m, d := ModifierAt(text, p).0, ModifierAt(text, p).1;
    AcceptedStages(text);
    hide *;
    FlagsEndProperty(text, 1);
    WidthProperty(c0, text, a);
    PrecisionProperty(c1, text, b);
    ModifierProperty(text, p);
    StarIsUnknown();
    GrammarIs(text, a, b, p, d, m);
  }

  lemma StarIsUnknown()
    ensures !IsKnown('*')
  {
  }

  lemma GrammarIs(text: seq<char>, a: nat, b: nat, p: nat, d: nat, m: LengthModifier)
    requires 1 <= a <= b <= p <= d < |text| && text[0] == FORMAT_CHAR && AllFlags(text, 1, a)
    requires AllDigits(text, a, b) && (a < b ==> text[a] != '0')
    requires b == p || (text[b] == '.' && AllDigits(text, b + 1, p))
    requires text[p..d] == ModifierText(m) && IsKnown(text[d])
    ensures Grammar(text, a, b, p, d, m)
  {
  }

  lemma AcceptedStages(text: seq<char>)
    requires CString(text) && Parse(text).error == NoError
    ensures text[0] == FORMAT_CHAR
    ensures var a := FlagsEnd(text, 1);
            var (c1, b) := WithWidth(WithFlags(INIT, text[1..a]), text, a);
            var (c2, p) := WithPrecision(c1, text, b);
            var d := ModifierAt(text, p).1;
            IsKnown(text[d]) && Parse(text).formatLength == d + 1
  {
  }

  /**
   The asterisk of width or precision is recognised but not consumed, so it is taken for the specifier and
   refused.
   */
  lemma AsteriskIsRefused()
    ensures CString("%*d\0") && Parse("%*d\0").error == BadParse && Parse("%*d\0").widthState == UseAsterisk
    ensures CString("%.*f\0") && Parse("%.*f\0").error == BadParse && Parse("%.*f\0").precisionState == UseAsterisk
  {
    var w, q := "%*d\0", "%.*f\0";
    assert !IsFlag(w[1]) && !IsFlag(q[1]);
  }

  // ----- The tables, character by character -----

  /** Without the format character nothing is consumed; with it the specifier is the last character consumed. */
  lemma SpecifierPlace(text: seq<char>)
    requires CString(text)
    ensures var r := Parse(text);
            && (r.error == NoFormatChar <==> text[0] != '%')
            && (text[0] != '%' ==> r.formatLength == 0)
            && (text[0] == '%' ==> 2 <= r.formatLength <= |text| && r.specifier == text[r.formatLength - 1])
  {
    hide WithFlags, FlagsEnd, DigitsEnd, ShortOf, IsKnown, IsInteger, IsFloat;
  }

  /**
   Of the two-character texts exactly those with one of the nineteen specifiers are accepted; precision is 1
   for the six of integers, 6 for the eight of floating point and 0 otherwise, and a pointer is padded with
   zeros to 8 digits.
   */
  lemma SpecifierTable(c: char)
    requires c != '\0'
    ensures CString(['%', c, '\0'])
    ensures var r := Parse(['%', c, '\0']);
            && (r.error == NoError <==> c in "%csdioxXufFeEaAgGpn")
            && (r.error == NoError ==> r.specifier == c && r.formatLength == 2)
            && r.precision == (if c in "dioxXu" then 1 else if c in "fFeEaAgG" then 6 else 0)
            && (r.widthState == IsSpecified && r.width == 8 && r.pad == '0' <==> c == 'p')
  {
    ClassTable(c);
    if IsFlag(c) || IsDigit(c) || c == '.' || c in "hljztL" {
      SpecifierMissing(c);
    } else {
      SpecifierFirst(c);
    }
  }

  lemma ClassTable(c: char)
    ensures IsKnown(c) <==> c in "%csdioxXufFeEaAgGpn"
    ensures IsInteger(c) <==> c in "dioxXu"
    ensures IsFloat(c) <==> c in "fFeEaAgG"
    ensures IsFlag(c) || IsDigit(c) || c == '.' || c in "hljztL" || c == '\0' ==> !IsKnown(c)
  {
    NumberTable(c);
    PrefixTable(c);
    hide IsInteger, IsFloat;
  }

  lemma NumberTable(c: char)
    ensures IsInteger(c) <==> c in "dioxXu"
    ensures IsFloat(c) <==> c in "fFeEaAgG"
  {
  }

  lemma PrefixTable(c: char)
    ensures IsFlag(c) || IsDigit(c) || c == '.' || c in "hljztL" || c == '\0' ==> !IsKnown(c)
  {
  }

  /** The character is taken for the specifier. */
  lemma SpecifierFirst(c: char)
    requires c != '\0' && !IsFlag(c) && !IsDigit(c) && c != '.' && c !in "hljztL"
    ensures CString(['%', c, '\0'])
    ensures var r := Parse(['%', c, '\0']);
            && r.specifier == c && r.formatLength == 2 && (r.error == NoError <==> IsKnown(c))
            && r.precision == (if IsInteger(c) then 1 else if IsFloat(c) then 6 else 0)
            && (r.widthState == IsSpecified && r.width == 8 && r.pad == '0' <==> c == 'p')
  {
    var text := ['%', c, '\0'];
    assert CString(text);
    assert text[1..1] == [] && WithFlags(INIT, []) == INIT;
    FlagsEndIs(text, 1, 1);
    hide FlagsEnd, WithFlags, DigitsEnd, ShortOf, IsKnown, IsInteger, IsFloat;
  }

  /** The character is taken for something in front of a specifier, and the terminator for that. */
  lemma SpecifierMissing(c: char)
    requires c != '\0' && (IsFlag(c) || IsDigit(c) || c == '.' || c in "hljztL")
    ensures CString(['%', c, '\0'])
    ensures var r := Parse(['%', c, '\0']);
            r.error == BadParse && r.precision == 0 && !(r.widthState == IsSpecified && r.width == 8 && r.pad == '0')
  {
    var text := ['%', c, '\0'];
    assert CString(text);
    assert text[1..1] == [] && WithFlags(INIT, []) == INIT;
    assert !IsKnown('\0') && !IsInteger('\0') && !IsFloat('\0');
    hide IsKnown, IsInteger, IsFloat;
    if IsFlag(c) {
      assert text[1..2] == [c];
      WithFlagsOne(INIT, c);
      FlagsEndIs(text, 1, 2);
    } else {
      FlagsEndIs(text, 1, 1);
      if IsDigit(c) {
        OneDigit(text, c);
      } else if c == '.' {
        DigitsEndIs(text, 2, 2);
        assert text[2..2] == [] && ShortOf([]) == 0;
      }
    }
    hide FlagsEnd, WithFlags, DigitsEnd, ShortOf;
  }

  lemma OneDigit(text: seq<char>, c: char)
    requires text == ['%', c, '\0'] && IsDigit(c) && CString(text)
    ensures DigitsEnd(text, 1) == 2
  {
    DigitsEndIs(text, 1, 2);
  }

  lemma ModifierTexts()
    ensures ModifierText(HH) == "hh" && ModifierText(H) == "h" && ModifierText(L) == "l" && ModifierText(LL) == "ll"
    ensures ModifierText(J) == "j" && ModifierText(Z) == "z" && ModifierText(T) == "t" && ModifierText(BigL) == "L"
    ensures ModifierText(NoModifier) == ""
  {
  }

  /** The last of the sign flags, if any. */
  function LastSign(flags: seq<char>): char {
    if flags == [] then '\0'
    else
      var last := flags[|flags| - 1];
      if last == '+' || last == ' ' then last else LastSign(flags[..|flags| - 1])
  }

  /** Flags may be repeated and in any order; of the sign flags the last one wins. */
  lemma {:induction false} FlagsExact(flags: seq<char>)
    requires forall i :: 0 <= i < |flags| ==> flags[i] in "-+ #0"
    ensures WithFlags(INIT, flags) == INIT.(
              justification := if '-' in flags then Left else Right,
              prepend := LastSign(flags),
              alternative := '#' in flags,
              pad := if '0' in flags then '0' else ' ')
  {
    if flags != [] {
      var front, last := flags[..|flags| - 1], flags[|flags| - 1];
      FlagsExact(front);
      WithFlagsAppend(INIT, front, last);
      assert flags == front + [last];
      assert forall c :: c in flags <==> c in front || c == last;
      hide WithFlags;
    }
  }

  /** Each length modifier is recognised from its own text, in front of any specifier. */
  lemma ModifierTable(m: LengthModifier, c: char)
    requires c in "%csdioxXufFeEaAgGpn"
    ensures [ModifierText(HH), ModifierText(H), ModifierText(L), ModifierText(LL)] == ["hh", "h", "l", "ll"]
    ensures [ModifierText(J), ModifierText(Z), ModifierText(T), ModifierText(BigL)] == ["j", "z", "t", "L"]
    ensures ModifierText(NoModifier) == ""
    ensures var text := "%" + ModifierText(m) + [c, '\0'];
            CString(text) && Parse(text).error == NoError && Parse(text).modifier == m && Parse(text).specifier == c
  {
    var s := Specification(false, NoSign, false, false, None, None, m, c);
    ModifierTexts();
    ClassTable(c);
    hide *;
    PlainRendering(s);
    PlainMeaning(s);
    TerminatorAlone();
    RoundTrip(s, ['\0']);
    ThreeParts(ModifierText(m), c);
  }

  lemma ThreeParts(modifier: seq<char>, c: char)
    ensures ("%" + (modifier + [c])) + ['\0'] == "%" + modifier + [c, '\0']
  {
  }

  lemma PlainMeaning(s: Specification)
    requires s == Specification(false, NoSign, false, false, None, None, s.modifier, s.specifier)
             && IsKnown(s.specifier)
    ensures s.Valid() && Meaning(s).error == NoError
    ensures Meaning(s).modifier == s.modifier && Meaning(s).specifier == s.specifier
  {
    hide Render, IsKnown;
  }

  lemma TerminatorAlone()
    ensures CString(['\0'])
  {
  }

  lemma PlainRendering(s: Specification)
    requires s == Specification(false, NoSign, false, false, None, None, s.modifier, s.specifier)
    ensures Render(s) == "%" + (ModifierText(s.modifier) + [s.specifier])
  {
    assert FlagsText(s) == [] && WidthText(s) == [] && PrecisionText(s) == [];
    hide ModifierText;
    assert [] + FromModifier(s) == FromModifier(s);
  }

  // ----- Round trip -----

  datatype Sign = NoSign | Plus | Space

  /** A conversion specification in the user's terms. */
  datatype Specification = Specification(
    left: bool, sign: Sign, alternative: bool, zeroPad: bool,
    width: Option<nat>, precision: Option<nat>, modifier: LengthModifier, specifier: char)
  {
    ghost predicate Valid() {
      IsKnown(specifier) && width != Some(0)
    }
  }

  function Decimal(n: nat): seq<char> {
    (if n < 10 then [] else Decimal(n / 10)) + [('0' as int + n % 10) as char]
  }

  function SignText(sign: Sign): seq<char> {
    match sign
    case NoSign => ""
    case Plus => "+"
    case Space => " "
  }

  function FlagsText(s: Specification): seq<char> {
    (if s.left then "-" else "") + SignText(s.sign) + (if s.alternative then "#" else "")
        + (if s.zeroPad then "0" else "")
  }

  function WidthText(s: Specification): seq<char> {
    if s.width.None? then "" else Decimal(s.width.value)
  }

  function PrecisionText(s: Specification): seq<char> {
    if s.precision.None? then "" else "." + Decimal(s.precision.value)
  }

  function FromModifier(s: Specification): seq<char> {
    ModifierText(s.modifier) + [s.specifier]
  }

  function FromPrecision(s: Specification): seq<char> {
    PrecisionText(s) + FromModifier(s)
  }

  function FromWidth(s: Specification): seq<char> {
    WidthText(s) + FromPrecision(s)
  }

  function Render(s: Specification): seq<char> {
    "%" + (FlagsText(s) + FromWidth(s))
  }

  /**
   What the fields must be: the defaults are 1 digit for integers, 6 for floating point and the width of
   an address for pointers; a number is kept as a `short`.
   */
  function Meaning(s: Specification): Conversion {
    var pointer := s.specifier == 'p';
    Conversion(
      s.specifier,
      if pointer then POINTER_DIGITS else if s.width.Some? then Wrap16(s.width.value) else 0,
      if pointer || s.width.Some? then IsSpecified else UseDefault,
      if s.precision.Some? then Wrap16(s.precision.value) else if IsInteger(s.specifier) then 1
          else if IsFloat(s.specifier) then 6 else 0,
      if s.precision.Some? then IsSpecified else UseDefault,
      s.modifier,
      if pointer || s.zeroPad then '0' else ' ',
      if s.left then Left else Right,
      match s.sign case NoSign => NUL case Plus => '+' case Space => ' ',
      s.alternative,
      |Render(s)|,
      NoError)
  }

  /** The number a run of digits denotes. */
  function NumberOf(digits: seq<char>): int {
    if digits == [] then 0
    else 10 * NumberOf(digits[..|digits| - 1]) + DigitValue(digits[|digits| - 1])
  }

  lemma WrapIs(x: int) returns (k: int)
    ensures Wrap16(x) == x - 0x1_0000 * k
  {
    k := (x + 0x8000) / 0x1_0000;
  }

  lemma WrapShift(x: int, k: int)
    ensures Wrap16(x - 0x1_0000 * k) == Wrap16(x)
  {
    var a := WrapIs(x);
    var b := WrapIs(x - 0x1_0000 * k);
    assert 0x1_0000 * (a - b - k) == Wrap16(x - 0x1_0000 * k) - Wrap16(x);
  }

  /** The parsed number is the number written, reduced to a `short`: equal to it exactly up to 32767. */
  lemma {:induction false} ShortOfIs(digits: seq<char>)
    requires AllDigits(digits, 0, |digits|)
    ensures ShortOf(digits) == Wrap16(NumberOf(digits))
    ensures 0 <= NumberOf(digits)
    ensures ShortOf(digits) == NumberOf(digits) <==> NumberOf(digits) <= 0x7FFF
  {
    if digits != [] {
      var last := |digits| - 1;
      ShortOfIs(digits[..last]);
      ShortStep(NumberOf(digits[..last]), DigitValue(digits[last]));
    }
    WrapFits(NumberOf(digits));
  }

  /** Reducing at every step is reducing at the end. */
  lemma ShortStep(n: int, v: int)
    ensures Wrap16(Wrap16(Wrap16(n) * 10) + v) == Wrap16(10 * n + v)
  {
    var k := WrapIs(n);
    var j := WrapIs(Wrap16(n) * 10);
    hide Wrap16;
    assert Wrap16(Wrap16(n) * 10) + v == (10 * n + v) - 0x1_0000 * (10 * k + j);
    WrapShift(10 * n + v, 10 * k + j);
  }

  lemma {:induction false} DecimalIs(n: nat)
    ensures Decimal(n) != [] && AllDigits(Decimal(n), 0, |Decimal(n)|)
    ensures NumberOf(Decimal(n)) == n
    ensures n > 0 ==> Decimal(n)[0] != '0'
  {
    var digit := ('0' as int + n % 10) as char;
    assert IsDigit(digit) && DigitValue(digit) == n % 10;
    assert Decimal(n) == (if n < 10 then [] else Decimal(n / 10)) + [digit];
    hide *;
    if n >= 10 {
      DecimalIs(n / 10);
      OneMoreDigit(Decimal(n / 10), digit);
      NotZero(n, digit);
      FirstKept(Decimal(n / 10), digit);
    } else {
      NoDigits();
      OneMoreDigit([], digit);
      NotZero(n, digit);
      assert [] + [digit] == [digit];
    }
  }

  lemma NoDigits()
    ensures AllDigits([], 0, 0) && NumberOf([]) == 0
  {
  }

  lemma NotZero(n: nat, digit: char)
    requires DigitValue(digit) == n % 10
    ensures 0 < n < 10 ==> digit != '0'
    ensures n >= 10 ==> n / 10 > 0 && 10 * (n / 10) + n % 10 == n
    ensures n < 10 ==> n % 10 == n
  {
  }

  lemma FirstKept(digits: seq<char>, digit: char)
    requires digits != []
    ensures digits + [digit] != [] && (digits + [digit])[0] == digits[0]
  {
  }

  lemma OneMoreDigit(digits: seq<char>, digit: char)
    requires AllDigits(digits, 0, |digits|) && IsDigit(digit)
    ensures AllDigits(digits + [digit], 0, |digits| + 1)
    ensures NumberOf(digits + [digit]) == 10 * NumberOf(digits) + DigitValue(digit)
  {
    assert (digits + [digit])[..|digits|] == digits;
  }

  lemma WithFlagsOne(c: Conversion, flag: char)
    ensures WithFlags(c, [flag]) == WithFlag(c, flag)
  {
    assert [flag][1..] == [];
  }

  lemma {:induction false} WithFlagsConcat(c: Conversion, f: seq<char>, g: seq<char>)
    ensures WithFlags(c, f + g) == WithFlags(WithFlags(c, f), g)
    decreases |f|
  {
    if f == [] {
      assert f + g == g;
    } else {
      assert (f + g)[1..] == f[1..] + g;
      WithFlagsConcat(WithFlag(c, f[0]), f[1..], g);
    }
  }

  lemma FlagsFold(s: Specification)
    ensures WithFlags(INIT, FlagsText(s)) == INIT.(
              justification := if s.left then Left else Right,
              prepend := match s.sign case NoSign => NUL case Plus => '+' case Space => ' ',
              alternative := s.alternative,
              pad := if s.zeroPad then '0' else ' ')
  {
    var l, g := if s.left then "-" else "", SignText(s.sign);
    var x, z := if s.alternative then "#" else "", if s.zeroPad then "0" else "";
    WithFlagsConcat(INIT, l + g + x, z);
    WithFlagsConcat(INIT, l + g, x);
    WithFlagsConcat(INIT, l, g);
    WithFlagsOne(INIT, '-');
    var c1 := WithFlags(INIT, l);
    WithFlagsOne(c1, '+');
    WithFlagsOne(c1, ' ');
    var c2 := WithFlags(c1, g);
    WithFlagsOne(c2, '#');
    var c3 := WithFlags(c2, x);
    WithFlagsOne(c3, '0');
  }

  lemma Cut(text: seq<char>, i: nat, part: seq<char>, more: seq<char>, rest: seq<char>)
    requires i <= |text| && text[i..] == (part + more) + rest
    ensures i + |part| <= |text| && text[i..i + |part|] == part && text[i + |part|..] == more + rest
  {
    var tail := text[i..];
    assert tail[..|part|] == part && tail[|part|..] == more + rest;
  }

  lemma AllDigitsIn(text: seq<char>, i: nat, j: nat)
    requires i <= j <= |text| && AllDigits(text[i..j], 0, j - i)
    ensures AllDigits(text, i, j)
  {
    forall k | i <= k < j ensures IsDigit(text[k]) {
      assert text[k] == text[i..j][k - i];
    }
  }

  lemma AllFlagsIn(text: seq<char>, i: nat, j: nat)
    requires i <= j <= |text| && AllFlags(text[i..j], 0, j - i)
    ensures AllFlags(text, i, j)
  {
    forall k | i <= k < j ensures IsFlag(text[k]) {
      assert text[k] == text[i..j][k - i];
    }
  }

  /** Where the parts of a rendered specification stand. */
  lemma RenderedParts(s: Specification, rest: seq<char>, text: seq<char>, a: nat, b: nat, p: nat, d: nat)
    requires text == Render(s) + rest
    requires a == 1 + |FlagsText(s)| && b == a + |WidthText(s)| && p == b + |PrecisionText(s)|
             && d == p + |ModifierText(s.modifier)|
    ensures d + 1 == |Render(s)| <= |text| && text[0] == FORMAT_CHAR && text[d] == s.specifier
    ensures text[1..a] == FlagsText(s) && text[a..b] == WidthText(s) && text[b..p] == PrecisionText(s)
    ensures text[p..d] == ModifierText(s.modifier)
  {
    hide *;
    RenderedIs(s);
    CutFirst(text, FlagsText(s) + FromWidth(s), rest);
    Cut(text, 1, FlagsText(s), FromWidth(s), rest);
    Cut(text, a, WidthText(s), FromPrecision(s), rest);
    Cut(text, b, PrecisionText(s), FromModifier(s), rest);
    Cut(text, p, ModifierText(s.modifier), [s.specifier], rest);
    CutLast(text, d, s.specifier, rest);
  }

  lemma RenderedIs(s: Specification)
    ensures Render(s) == "%" + (FlagsText(s) + FromWidth(s))
    ensures FromWidth(s) == WidthText(s) + FromPrecision(s)
    ensures FromPrecision(s) == PrecisionText(s) + FromModifier(s)
    ensures FromModifier(s) == ModifierText(s.modifier) + [s.specifier]
    ensures |Render(s)| == 1 + |FlagsText(s)| + |WidthText(s)| + |PrecisionText(s)| + |ModifierText(s.modifier)| + 1
  {
    hide FlagsText, WidthText, PrecisionText, ModifierText;
  }

  lemma CutFirst(text: seq<char>, more: seq<char>, rest: seq<char>)
    requires text == "%" + more + rest
    ensures text != [] && text[0] == FORMAT_CHAR && text[1..] == more + rest
  {
  }

  lemma CutLast(text: seq<char>, d: nat, specifier: char, rest: seq<char>)
    requires d <= |text| && text[d..] == [specifier] + rest
    ensures d < |text| && text[d] == specifier
  {
    assert text[d..][0] == specifier;
  }

  lemma RenderedFlags(s: Specification)
    ensures AllFlags(FlagsText(s), 0, |FlagsText(s)|)
  {
  }

  lemma RenderedWidth(s: Specification)
    requires s.Valid()
    ensures AllDigits(WidthText(s), 0, |WidthText(s)|)
    ensures WidthText(s) == [] <==> s.width.None?
    ensures s.width.Some? ==> WidthText(s)[0] != '0' && ShortOf(WidthText(s)) == Wrap16(s.width.value)
  {
    if s.width.Some? {
      DecimalIs(s.width.value);
      ShortOfIs(WidthText(s));
    }
  }

  lemma RenderedPrecision(s: Specification)
    ensures PrecisionText(s) == [] <==> s.precision.None?
    ensures s.precision.Some? ==>
              var digits := PrecisionText(s)[1..];
              && PrecisionText(s)[0] == '.' && AllDigits(digits, 0, |digits|)
              && ShortOf(digits) == Wrap16(s.precision.value)
  {
    if s.precision.Some? {
      DecimalIs(s.precision.value);
      ShortOfIs(Decimal(s.precision.value));
      assert PrecisionText(s)[1..] == Decimal(s.precision.value);
    }
  }

  lemma RenderedGrammar(s: Specification, rest: seq<char>, text: seq<char>, a: nat, b: nat, p: nat, d: nat)
    requires s.Valid() && text == Render(s) + rest
    requires a == 1 + |FlagsText(s)| && b == a + |WidthText(s)| && p == b + |PrecisionText(s)|
             && d == p + |ModifierText(s.modifier)|
    ensures Grammar(text, a, b, p, d, s.modifier)
    ensures b == p <==> s.precision.None?
    ensures s.precision.Some? ==> ShortOf(text[b + 1..p]) == Wrap16(s.precision.value)
  {
    hide Render, FlagsText, WidthText, PrecisionText, ModifierText, ShortOf;
    RenderedParts(s, rest, text, a, b, p, d);
    RenderedFlags(s);
    AllFlagsIn(text, 1, a);
    RenderedWidth(s);
    AllDigitsIn(text, a, b);
    assert a < b ==> text[a] == text[a..b][0];
    RenderedPrecision(s);
    if b < p {
      assert text[b] == text[b..p][0];
      assert text[b + 1..p] == text[b..p][1..];
      AllDigitsIn(text, b + 1, p);
    }
  }

  lemma {:induction false} NoTerminator(text: seq<char>, a: nat, b: nat, p: nat, d: nat, m: LengthModifier, k: nat)
    requires Grammar(text, a, b, p, d, m) && k <= d
    ensures text[k] != NUL
  {
    if p <= k < d {
      assert text[k] == text[p..d][k - p];
    }
  }

  /**
   Whatever follows it, a rendered specification is parsed back: every field, the defaults, and exactly
   its own length consumed.
   */
  lemma RoundTrip(s: Specification, rest: seq<char>)
    requires s.Valid() && CString(rest)
    ensures CString(Render(s) + rest) && Parse(Render(s) + rest) == Meaning(s)
  {
    var text := Render(s) + rest;
    var a := 1 + |FlagsText(s)|;
    var b := a + |WidthText(s)|;
    var p := b + |PrecisionText(s)|;
    var d := p + |ModifierText(s.modifier)|;
    hide Render, FlagsText, WidthText, PrecisionText, ModifierText, ShortOf, Grammar, Parse, WithFlags;
    RenderedGrammar(s, rest, text, a, b, p, d);
    RenderedParts(s, rest, text, a, b, p, d);
    forall k | 0 <= k < |Render(s)| ensures text[k] != NUL {
      NoTerminator(text, a, b, p, d, s.modifier, k);
    }
    GrammarParsed(text, a, b, p, d, s.modifier);
    RenderedWidth(s);
    FlagsFold(s);
  }

  /** Width and precision are recovered exactly up to the largest `short`. */
  lemma NumbersRecoveredExact(s: Specification, rest: seq<char>)
    requires s.Valid() && CString(rest) && s.specifier != 'p' && s.width.Some? && s.precision.Some?
    ensures CString(Render(s) + rest)
    ensures Parse(Render(s) + rest).width == s.width.value <==> s.width.value <= 0x7FFF
    ensures Parse(Render(s) + rest).precision == s.precision.value <==> s.precision.value <= 0x7FFF
  {
    RoundTrip(s, rest);
    WrapFits(s.width.value);
    WrapFits(s.precision.value);
    hide Parse, Render, Wrap16, CString;
  }

  lemma WrapFits(n: nat)
    ensures Wrap16(n) == n <==> n <= 0x7FFF
  {
  }
}
