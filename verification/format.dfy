/** The print formatter as a pure function from a format and its arguments to characters. */
module Format {
  import opened Numbers
  import opened Words

  predicate IsDigit(c: char) {
    '0' <= c <= '9'
  }

  // ---------- Numbers ----------

  /** The digit table, in which 'H' precedes 'G'. */
  function DigitChar(d: int): char
    requires 0 <= d < 36
  {
    if d < 10 then '0' + d as char
    else if d == 16 then 'H'
    else if d == 17 then 'G'
    else 'A' + (d - 10) as char
  }

  function DigitValue(c: char): int {
    if c == 'H' then 16
    else if c == 'G' then 17
    else if '0' <= c <= '9' then c as int - '0' as int
    else c as int - 'A' as int + 10
  }

  lemma DigitRoundTrip(d: int)
    requires 0 <= d < 36
    ensures DigitValue(DigitChar(d)) == d
  {
  }

  /** Recursive base conversion, most significant digit first. */
  function Digits(base: int, v: int): (s: seq<char>)
    requires 2 <= base <= 36 && v >= 0
    ensures |s| > 0
    decreases v
  {
    if v < base then [DigitChar(v)]
    else
      DivSmaller(v, base);
      Digits(base, v / base) + [DigitChar(v % base)]
  }

  lemma DivSmaller(v: int, base: int)
    requires 2 <= base <= v
    ensures 0 < v / base < v
  {
  }

  /** Positional value of a digit string. */
  function Positional(base: int, s: seq<char>): int {
    if |s| == 0 then 0 else Positional(base, s[..|s| - 1]) * base + DigitValue(s[|s| - 1])
  }

  /** Conversion yields the number. */
  lemma {:induction false} DigitsDenote(base: int, v: int)
    requires 2 <= base <= 36 && v >= 0
    ensures Positional(base, Digits(base, v)) == v
    decreases v
  {
    hide DigitChar, DigitValue;
    var s := Digits(base, v);
    DivMod(v, base);
    DigitRoundTrip(v % base);
    if v < base {
      assert v % base == v;
      assert s[..0] == [];
      assert Positional(base, s) == Positional(base, []) * base + DigitValue(s[0]);
    } else {
      DivSmaller(v, base);
      DigitsDenote(base, v / base);
      assert s[..|s| - 1] == Digits(base, v / base);
    }
  }

  /** Every character is a digit of the base, and only zero starts with '0'. */
  lemma {:induction false} DigitsOfBase(base: int, v: int)
    requires 2 <= base <= 36 && v >= 0
    ensures forall i :: 0 <= i < |Digits(base, v)| ==> 0 <= DigitValue(Digits(base, v)[i]) < base
    ensures v > 0 ==> DigitValue(Digits(base, v)[0]) != 0
    decreases v
  {
    hide DigitChar, DigitValue;
    DigitRoundTrip(if v < base then v else v % base);
    if v >= base {
      DivSmaller(v, base);
      DigitsOfBase(base, v / base);
    }
  }

  lemma {:induction false} DigitCount(base: int, v: int, n: nat)
    requires 2 <= base <= 36 && 0 <= v < Power(base, n) && n > 0
    ensures |Digits(base, v)| <= n
    decreases n
  {
    if v >= base {
      DivSmaller(v, base);
      assert Power(base, 1) == base * Power(base, 0);
      QuotientBelow(v, base, Power(base, n - 1));
      DigitCount(base, v / base, n - 1);
    }
  }

  lemma QuotientBelow(v: int, base: int, p: int)
    requires 2 <= base && 0 <= v < base * p
    ensures v / base < p
  {
    DivMod(v, base);
    var d := v / base - p;
    assert base * d == v / base * base - base * p;
    assert d >= 0 ==> base * d >= 0;
  }

  lemma {:induction false} PowerAtLeastTwo(base: int, n: nat)
    requires 2 <= base
    ensures Power(base, n) >= Power(2, n)
  {
    if n == 0 {
      assert Power(base, 0) == Power(2, 0) == 1;
    } else {
      PowerAtLeastTwo(base, n - 1);
      assert Power(base, n) == base * Power(base, n - 1) && Power(2, n) == 2 * Power(2, n - 1);
      ProductAtLeast(base, Power(base, n - 1), 2, Power(2, n - 1));
    }
  }

  /** With two or more digits and a first one that is not zero, the larger base means more. */
  lemma {:induction false} LargerBase(s: seq<char>)
    requires |s| >= 1 && DigitValue(s[0]) > 0 && forall i :: 0 <= i < |s| ==> DigitValue(s[i]) >= 0
    ensures Positional(8, s) > 0
    ensures if |s| == 1 then Positional(18, s) == Positional(8, s) else Positional(18, s) > Positional(8, s)
  {
    hide DigitValue;
    var front := s[..|s| - 1];
    if |s| == 1 {
      assert front == [];
      assert Positional(8, front) == Positional(18, front) == 0;
    } else {
      LargerBase(front);
    }
  }

  /** `%o` prints the octal digits exactly of the numbers below eight. */
  lemma OctalOnlyBelowEight(v: int)
    requires v >= 0
    ensures Digits(18, v) == Digits(8, v) <==> v < 8
  {
    hide DigitValue, DigitChar;
    if v >= 8 {
      var s := Digits(8, v);
      DigitsDenote(8, v);
      DigitsDenote(18, v);
      DigitsOfBase(8, v);
      LargerBase(s);
    }
  }

  /** The digit a table in alphabetical order would hold. */
  function PlainDigit(d: int): char
    requires 0 <= d < 36
  {
    if d < 10 then '0' + d as char else 'A' + (d - 10) as char
  }

  function PlainDigits(base: int, v: int): (s: seq<char>)
    requires 2 <= base <= 36 && v >= 0
    decreases v
  {
    if v < base then [PlainDigit(v)]
    else
      DivSmaller(v, base);
      PlainDigits(base, v / base) + [PlainDigit(v % base)]
  }

  lemma SwappedDigit(d: int)
    requires 0 <= d < 36
    ensures DigitChar(d) == PlainDigit(d) <==> d != 16 && d != 17
  {
  }

  /** A conversion is in the alphabetical digits exactly when no digit is sixteen or seventeen, so
      always up to base 16. */
  lemma {:induction false} SwappedDigits(base: int, v: int)
    requires 2 <= base <= 36 && v >= 0
    ensures |PlainDigits(base, v)| == |Digits(base, v)|
    ensures Digits(base, v) == PlainDigits(base, v) <==>
      forall i :: 0 <= i < |Digits(base, v)| ==> DigitValue(Digits(base, v)[i]) !in {16, 17}
    ensures base <= 16 ==> Digits(base, v) == PlainDigits(base, v)
    decreases v
  {
    hide DigitChar, DigitValue, PlainDigit;
    var d := if v < base then v else v % base;
    DivMod(v, base);
    DigitRoundTrip(d);
    SwappedDigit(d);
    if v >= base {
      DivSmaller(v, base);
      SwappedDigits(base, v / base);
      LastDigits(Digits(base, v / base), DigitChar(d), PlainDigits(base, v / base), PlainDigit(d));
    }
  }

  lemma LastDigits(a: seq<char>, x: char, b: seq<char>, y: char)
    requires |a| == |b|
    ensures a + [x] == b + [y] <==> a == b && x == y
    ensures (forall i :: 0 <= i < |a + [x]| ==> DigitValue((a + [x])[i]) !in {16, 17}) <==>
      (forall i :: 0 <= i < |a| ==> DigitValue(a[i]) !in {16, 17}) && DigitValue(x) !in {16, 17}
  {
    var c := a + [x];
    assert c[..|a|] == a && c[|a|] == x && (b + [y])[..|a|] == b && (b + [y])[|a|] == y;
    assert forall i :: 0 <= i < |a| ==> c[i] == a[i];
  }

  /** A 32-bit number has at most 32 digits in any base. */
  lemma WordDigits(base: int, v: u32)
    requires 2 <= base <= 36
    ensures |Digits(base, v)| <= 32
  {
    PowerAtLeastTwo(base, 32);
    PowerOfWord();
    DigitCount(base, v, 32);
  }

  /** Index of the first non-digit from `at` on. */
  function DigitsEnd(s: seq<char>, at: nat): (e: nat)
    requires at <= |s|
    ensures at <= e <= |s|
    ensures forall i :: at <= i < e ==> IsDigit(s[i])
    ensures e < |s| ==> !IsDigit(s[e])
    decreases |s| - at
  {
    if at < |s| && IsDigit(s[at]) then DigitsEnd(s, at + 1) else at
  }

  /** The 32-bit accumulator over decimal digits. */
  function Accumulate(s: seq<char>): u32 {
    if |s| == 0 then 0 else Wrap(Accumulate(s[..|s| - 1]) * 10 + s[|s| - 1] as int - '0' as int)
  }

  lemma {:induction false} AccumulateIsPositional(s: seq<char>)
    requires forall i :: 0 <= i < |s| ==> IsDigit(s[i])
    ensures Positional(10, s) >= 0
    ensures Accumulate(s) == Wrap(Positional(10, s))
  {
    if |s| > 0 {
      var front := s[..|s| - 1];
      AccumulateIsPositional(front);
      WrapTimesTen(Positional(10, front), DigitValue(s[|s| - 1]));
    }
  }

  lemma WrapTimesTen(x: int, d: int)
    ensures Wrap(Wrap(x) * 10 + d) == Wrap(x * 10 + d)
  {
    var q := x / 0x1_0000_0000;
    assert x * 10 + d == Wrap(x) * 10 + d + 0x1_0000_0000 * (10 * q);
  }

  lemma {:induction false} DecimalOnly(v: int)
    requires v >= 0
    ensures forall i :: 0 <= i < |Digits(10, v)| ==> IsDigit(Digits(10, v)[i])
    ensures Digits(10, v)[0] == '0' <==> v == 0
    decreases v
  {
    if v >= 10 {
      DivSmaller(v, 10);
      DecimalOnly(v / 10);
    }
  }

  predicate EndsDigits(rest: seq<char>) {
    rest != [] ==> !IsDigit(rest[0])
  }

  /** A run of digits ends where they do, wherever it stands. */
  lemma {:induction false} DigitsEndAt(s: seq<char>, at: nat, n: nat)
    requires at + n <= |s| && (forall i :: at <= i < at + n ==> IsDigit(s[i])) && EndsDigits(s[at + n..])
    ensures DigitsEnd(s, at) == at + n
    decreases n
  {
    if n == 0 {
      assert at < |s| ==> s[at..][0] == s[at];
    } else {
      assert s[at + n..] == s[at + 1 + (n - 1)..];
      DigitsEndAt(s, at + 1, n - 1);
    }
  }

  /** Reading the decimal digits of a word, in front of anything but a digit and behind anything,
      gives the word and stops behind them. */
  lemma ReadingInvertsDecimal(before: seq<char>, v: u32, rest: seq<char>)
    requires EndsDigits(rest)
    ensures
      var s, at := before + Digits(10, v) + rest, |before|;
      DigitsEnd(s, at) == at + |Digits(10, v)| && Accumulate(s[at..at + |Digits(10, v)|]) == v
  {
    hide Digits, Accumulate, Positional, DigitsEnd;
    var digits := Digits(10, v);
    DecimalOnly(v);
    DigitsDenote(10, v);
    AccumulateIsPositional(digits);
    DigitsWithin(before, digits, rest);
  }

  lemma DigitsWithin(before: seq<char>, digits: seq<char>, rest: seq<char>)
    requires EndsDigits(rest) && forall i :: 0 <= i < |digits| ==> IsDigit(digits[i])
    ensures
      var s, at := before + digits + rest, |before|;
      DigitsEnd(s, at) == at + |digits| && s[at..at + |digits|] == digits
  {
    var s, at := before + digits + rest, |before|;
    assert forall i :: at <= i < at + |digits| ==> s[i] == digits[i - at];
    assert s[at + |digits|..] == rest;
    DigitsEndAt(s, at, |digits|);
  }

  // ---------- Conversions ----------

  // One conversion specification; `end` is the index of its conversion character.
  datatype Spec = Spec(zeroPadded: bool, leftAdjusted: bool, width: Option<u32>, prec: Option<u32>, end: nat)

  /** Parses the flags, width and precision that start at `at`. */
  function ParseSpec(format: seq<char>, at: nat): (s: Spec)
    requires at <= |format|
    ensures at <= s.end <= |format|
  {
    var zero := at < |format| && format[at] == '0';
    var a := if zero then at + 1 else at;
    var left := a < |format| && format[a] == '-';
    ParseFields(format, zero, left, if left then a + 1 else a)
  }

  /** Width and precision, which start at `b`. */
  function ParseFields(format: seq<char>, zero: bool, left: bool, b: nat): (s: Spec)
    requires b <= |format|
    ensures b <= s.end <= |format|
  {
    var c := DigitsEnd(format, b);
    var width := if c > b then Some(Accumulate(format[b..c])) else None;
    if c < |format| && format[c] == '.' then
      var d := DigitsEnd(format, c + 1);
      Spec(zero, left, width, Some(Accumulate(format[c + 1..d])), d)
    else
      Spec(zero, left, width, None, c)
  }

  /** The text of a specification's flags, width and precision. */
  function Render(zero: bool, left: bool, width: Option<u32>, prec: Option<u32>): seq<char> {
    RenderFlags(zero, left) + RenderFields(width, prec)
  }

  function RenderFlags(zero: bool, left: bool): seq<char> {
    (if zero then "0" else "") + (if left then "-" else "")
  }

  function RenderFields(width: Option<u32>, prec: Option<u32>): seq<char> {
    WidthText(width) + PrecText(prec)
  }

  function WidthText(width: Option<u32>): seq<char> {
    if width.Some? then Digits(10, width.value) else []
  }

  function PrecText(prec: Option<u32>): seq<char> {
    if prec.Some? then "." + Digits(10, prec.value) else []
  }

  lemma Associates(a: seq<char>, b: seq<char>, c: seq<char>, d: seq<char>)
    ensures a + (b + c) + d == a + b + (c + d) == a + b + c + d
  {
  }

  lemma RenderedPrec(before: seq<char>, prec: Option<u32>, rest: seq<char>)
    requires EndsDigits(rest) && (rest != [] ==> rest[0] != '.')
    ensures
      var s, c := before + PrecText(prec) + rest, |before|;
      if c < |s| && s[c] == '.' then
        var d := DigitsEnd(s, c + 1);
        d == |s| - |rest| && prec == Some(Accumulate(s[c + 1..d]))
      else prec == None && c == |s| - |rest|
  {
    if prec.Some? {
      var dot := before + ".";
      assert before + ("." + Digits(10, prec.value)) + rest == dot + Digits(10, prec.value) + rest;
      ReadingInvertsDecimal(dot, prec.value, rest);
    }
  }

  lemma RenderedWidth(before: seq<char>, width: Option<u32>, rest: seq<char>)
    requires EndsDigits(rest)
    ensures
      var s, b := before + WidthText(width) + rest, |before|;
      var c := DigitsEnd(s, b);
      c == |s| - |rest| && width == if c > b then Some(Accumulate(s[b..c])) else None
  {
    if width.Some? {
      ReadingInvertsDecimal(before, width.value, rest);
    } else {
      assert before + [] + rest == before + rest;
      assert |rest| > 0 ==> (before + rest)[|before|] == rest[0];
    }
  }

  lemma PrecBegins(prec: Option<u32>, rest: seq<char>)
    requires EndsDigits(rest)
    ensures EndsDigits(PrecText(prec) + rest)
  {
  }

  lemma FieldsAre(width: Option<u32>, prec: Option<u32>)
    ensures RenderFields(width, prec) == WidthText(width) + PrecText(prec)
  {
  }

  lemma FieldsMeet(s: seq<char>, zero: bool, left: bool, b: nat, c: nat, end: nat,
                   width: Option<u32>, prec: Option<u32>)
    requires b <= c <= |s| && c == DigitsEnd(s, b)
    requires width == if c > b then Some(Accumulate(s[b..c])) else None
    requires
      if c < |s| && s[c] == '.' then end == DigitsEnd(s, c + 1) && prec == Some(Accumulate(s[c + 1..end]))
      else end == c && prec == None
    ensures ParseFields(s, zero, left, b) == Spec(zero, left, width, prec, end)
  {
    hide DigitsEnd, Accumulate;
  }

  lemma FieldsParse(before: seq<char>, zero: bool, left: bool, width: Option<u32>, prec: Option<u32>, rest: seq<char>)
    requires EndsDigits(rest) && (rest != [] ==> rest[0] != '.')
    ensures
      var s := before + RenderFields(width, prec) + rest;
      ParseFields(s, zero, left, |before|) == Spec(zero, left, width, prec, |s| - |rest|)
  {
    hide *;
    var w, p := WidthText(width), PrecText(prec);
    var s := before + RenderFields(width, prec) + rest;
    FieldsAre(width, prec);
    Associates(before, w, p, rest);
    PrecBegins(prec, rest);
    RenderedWidth(before, width, p + rest);
    RenderedPrec(before + w, prec, rest);
    FieldsMeet(s, zero, left, |before|, |before + w|, |s| - |rest|, width, prec);
  }

  /** How fields begin: with a '0' only for a zero width, and never with a '-'. */
  lemma FieldsBegin(width: Option<u32>, prec: Option<u32>, rest: seq<char>)
    requires EndsDigits(rest) && (rest != [] ==> rest[0] != '-')
    ensures var t := RenderFields(width, prec) + rest;
      && (t != [] && t[0] == '0' <==> width == Some(0))
      && (t != [] ==> t[0] != '-')
  {
    if width.Some? {
      DecimalOnly(width.value);
    }
  }

  /** Flags in front of anything but a '-' are read as they are, unless there are none and a '0'
      follows. */
  lemma FlagsParse(before: seq<char>, zero: bool, left: bool, tail: seq<char>)
    requires tail != [] ==> tail[0] != '-'
    ensures
      var flags := before + RenderFlags(zero, left);
      var s := flags + tail;
      if zero || left || tail == [] || tail[0] != '0' then ParseSpec(s, |before|) == ParseFields(s, zero, left, |flags|)
      else ParseSpec(s, |before|).zeroPadded
  {
    hide ParseFields;
    var flags := before + RenderFlags(zero, left);
    var s := flags + tail;
    var at := |before|;
    assert zero ==> s[at] == '0';
    assert left ==> s[|flags| - 1] == '-';
    assert tail != [] ==> s[|flags|] == tail[0];
    FieldsKeepFlags(s, true, false, at + 1);
    FieldsKeepFlags(s, true, true, at + 2);
  }

  lemma FieldsKeepFlags(s: seq<char>, zero: bool, left: bool, b: nat)
    ensures b <= |s| ==> ParseFields(s, zero, left, b).zeroPadded == zero
  {
  }

  /** A rendered specification parses back to itself, unless its width is zero and neither flag
      stands in front of it: that zero is read as the padding flag. */
  lemma ParsingInvertsRendering(before: seq<char>, zero: bool, left: bool, width: Option<u32>,
                                prec: Option<u32>, rest: seq<char>)
    requires EndsDigits(rest) && (rest != [] ==> rest[0] != '.' && rest[0] != '-')
    ensures
      var s := before + Render(zero, left, width, prec) + rest;
      ParseSpec(s, |before|) == Spec(zero, left, width, prec, |s| - |rest|) <==> zero || left || width != Some(0)
  {
    hide RenderFlags, RenderFields, ParseFields, ParseSpec;
    var flags, fields := RenderFlags(zero, left), RenderFields(width, prec);
    Associates(before, flags, fields, rest);
    FieldsBegin(width, prec, rest);
    FieldsParse(before + flags, zero, left, width, prec, rest);
    FlagsParse(before, zero, left, fields + rest);
  }

  /** Clips to the precision, then pads to the width on the chosen side. */
  function Layout(spec: Spec, text: seq<char>, pad: char): seq<char> {
    var t := if spec.prec.Some? && spec.prec.value < |text| then text[..spec.prec.value] else text;
    var spaces := if spec.width.Some? && spec.width.value > |t| then spec.width.value - |t| else 0;
    if spec.leftAdjusted then t + Repeat(' ', spaces) else Repeat(pad, spaces) + t
  }

  function PadOf(spec: Spec): char {
    if spec.zeroPadded then '0' else ' '
  }

  /** Memory the arguments may point to: zero-terminated texts (without the terminator) and
      string buffers. */
  datatype Store = Store(texts: u32 -> seq<char>, buffers: u32 -> seq<char>)

  /** Signed decimal; a negative number gets a sign and is never zero-padded. */
  function Signed(spec: Spec, arg: u32): seq<char> {
    if Signed32(arg) < 0 then Layout(spec, ['-'] + Digits(10, -Signed32(arg)), ' ')
    else Layout(spec, Digits(10, arg), PadOf(spec))
  }

  /** `%o` converts in base 18, and `%s` counts and prints the terminating zero. */
  function Convert(store: Store, spec: Spec, conv: char, arg: u32): seq<char> {
    match conv
    case 'd' => Signed(spec, arg)
    case 'u' => Layout(spec, Digits(10, arg), PadOf(spec))
    case 'o' => Layout(spec, Digits(18, arg), PadOf(spec))
    case 'x' => Layout(spec, Digits(16, arg), PadOf(spec))
    case 'X' => Layout(spec, Digits(16, arg), PadOf(spec))
    case 'c' => [(arg % 0x100) as char]
    case 'b' => Layout(spec, store.buffers(arg), ' ')
    case 's' => Layout(spec, store.texts(arg) + [0 as char], ' ')
    case _ => []
  }

  /** `%s` prints the text alone exactly when the precision cuts the terminating zero off. */
  lemma TerminatorCutOff(spec: Spec, text: seq<char>)
    requires (0 as char) !in text
    ensures Layout(spec, text + [0 as char], ' ') == Layout(spec, text, ' ')
      <==> spec.prec.Some? && spec.prec.value <= |text|
  {
    var full, end := text + [0 as char], 0 as char;
    var a, b := Layout(spec, full, ' '), Layout(spec, text, ' ');
    if spec.prec.Some? && spec.prec.value <= |text| {
      assert full[..spec.prec.value] == text[..spec.prec.value];
      assert text[..|text|] == text;
    } else {
      var spaces := if spec.width.Some? && spec.width.value > |full| then spec.width.value - |full| else 0;
      var k := if spec.leftAdjusted then |text| else spaces + |text|;
      assert a[k] == end;
      assert k < |b| ==> b[k] != end;
    }
  }

  // `overrun` records that the format ended inside a specification.
  datatype Formatted = Formatted(text: seq<char>, consumed: nat, overrun: bool)

  function Prepend(text: seq<char>, rest: Formatted): Formatted {
    rest.(text := text + rest.text)
  }

  /** The formatter: characters of `format` from `at` on, with `k` arguments already used. */
  function FormatFrom(store: Store, format: seq<char>, args: nat -> u32, at: nat, k: nat): Formatted
    requires at <= |format|
    decreases |format| - at
  {
    if at == |format| then Formatted([], k, false)
    else if format[at] != '%' then Prepend([format[at]], FormatFrom(store, format, args, at + 1, k))
    else if at + 1 == |format| then Formatted([], k, false)
    else if format[at + 1] == '%' then Prepend(['%'], FormatFrom(store, format, args, at + 2, k))
    else
      var spec := ParseSpec(format, at + 1);
      if spec.end == |format| then Formatted([], k + 1, true)
      else
        Prepend(Convert(store, spec, format[spec.end], args(k)),
                FormatFrom(store, format, args, spec.end + 1, k + 1))
  }

  /** Argument-taking specifications from `at` on. */
  function SpecsFrom(format: seq<char>, at: nat): nat
    requires at <= |format|
    decreases |format| - at
  {
    if at == |format| then 0
    else if format[at] != '%' then SpecsFrom(format, at + 1)
    else if at + 1 == |format| then 0
    else if format[at + 1] == '%' then SpecsFrom(format, at + 2)
    else
      var spec := ParseSpec(format, at + 1);
      if spec.end == |format| then 1 else 1 + SpecsFrom(format, spec.end + 1)
  }

  /** One argument is consumed per specification other than `%%`, whatever its conversion. */
  lemma {:induction false} OneArgumentPerSpec(store: Store, format: seq<char>, args: nat -> u32, at: nat, k: nat)
    requires at <= |format|
    ensures FormatFrom(store, format, args, at, k).consumed == k + SpecsFrom(format, at)
    decreases |format| - at
  {
    hide Convert, ParseSpec;
    if at < |format| {
      if format[at] != '%' {
        OneArgumentPerSpec(store, format, args, at + 1, k);
      } else if at + 1 < |format| {
        if format[at + 1] == '%' {
          OneArgumentPerSpec(store, format, args, at + 2, k);
        } else {
          var spec := ParseSpec(format, at + 1);
          if spec.end < |format| {
            OneArgumentPerSpec(store, format, args, spec.end + 1, k + 1);
          }
        }
      }
    }
  }

  lemma PrependTwice(a: seq<char>, b: seq<char>, rest: Formatted)
    ensures Prepend(a, Prepend(b, rest)) == Prepend(a + b, rest)
    ensures Prepend([], rest) == rest
  {
    assert a + (b + rest.text) == a + b + rest.text;
    assert [] + rest.text == rest.text;
  }

  /** The laid-out text: its length is the larger of the width and the clipped length, and the
      clipped text stands at the side the alignment says. */
  lemma LayoutShape(spec: Spec, text: seq<char>, pad: char)
    ensures
      var n := if spec.prec.Some? && spec.prec.value < |text| then spec.prec.value else |text|;
      var r := Layout(spec, text, pad);
      && |r| == (if spec.width.Some? && spec.width.value > n then spec.width.value else n)
      && (if spec.leftAdjusted then r[..n] == text[..n] && forall i :: n <= i < |r| ==> r[i] == ' '
          else r[|r| - n..] == text[..n] && forall i :: 0 <= i < |r| - n ==> r[i] == pad)
  {
  }

  /** A point without digits behind it is a precision of zero. */
  lemma PointAlone(format: seq<char>, zero: bool, left: bool, b: nat)
    requires b < |format| && format[b] == '.' && EndsDigits(format[b + 1..])
    ensures ParseFields(format, zero, left, b) == Spec(zero, left, None, Some(0), b + 1)
  {
    assert format[b + 1..b + 1] == [];
    DigitsEndAt(format, b + 1, 0);
    DigitsEndAt(format, b, 0);
  }

  // ---------- What a conversion prints ----------

  /** Without width and precision the text is printed as it is. */
  lemma LaidOutBare(spec: Spec, text: seq<char>, pad: char)
    requires spec.width.None? && spec.prec.None?
    ensures Layout(spec, text, pad) == text
  {
    assert text + Repeat(' ', 0) == text && Repeat(pad, 0) + text == text;
  }

  /** The digits up to sixteen stand for their values. */
  lemma HexDigits(c: char)
    ensures '0' <= c <= '9' ==> DigitValue(c) == c as int - '0' as int
    ensures 'A' <= c <= 'F' ==> DigitValue(c) == c as int - 'A' as int + 10
  {
  }

  predicate DigitUpTo(c: char, base: int) {
    if base <= 10 then '0' <= c && (c as int - '0' as int) < base
    else '0' <= c <= '9' || ('A' <= c && (c as int - 'A' as int) < base - 10)
  }

  lemma {:induction false} DigitsUpTo(base: int, v: int)
    requires (base == 10 || base == 16 || base == 18) && v >= 0
    ensures forall i :: 0 <= i < |Digits(base, v)| ==> DigitUpTo(Digits(base, v)[i], base)
    decreases v
  {
    if v >= base {
      DivSmaller(v, base);
      DigitsUpTo(base, v / base);
    }
  }

  /** `%u`, `%x` and `%X` print the argument in base 10 and 16, `%o` in base 18, in digits of the
      base and without leading zeros. */
  lemma UnsignedConversion(store: Store, spec: Spec, conv: char, arg: u32)
    requires spec.width.None? && spec.prec.None? && conv in {'u', 'x', 'X', 'o'}
    ensures
      var base := if conv == 'u' then 10 else if conv == 'o' then 18 else 16;
      var text := Convert(store, spec, conv, arg);
      && Positional(base, text) == arg && |text| > 0
      && (forall i :: 0 <= i < |text| ==> DigitUpTo(text[i], base))
      && (arg > 0 ==> DigitValue(text[0]) != 0)
  {
    hide Digits, Layout, Positional, DigitUpTo, DigitValue;
    var base := if conv == 'u' then 10 else if conv == 'o' then 18 else 16;
    LaidOutBare(spec, Digits(base, arg), PadOf(spec));
    DigitsDenote(base, arg);
    DigitsUpTo(base, arg);
    DigitsOfBase(base, arg);
  }

  /** `%d` prints a sign exactly for a negative signed word, and behind it the absolute value. */
  lemma SignedConversion(store: Store, spec: Spec, arg: u32)
    requires spec.width.None? && spec.prec.None?
    ensures
      var text, v := Convert(store, spec, 'd', arg), if arg < 0x8000_0000 then arg else arg - 0x1_0000_0000;
      && |text| > 0 && (text[0] == '-' <==> v < 0)
      && Positional(10, if v < 0 then text[1..] else text) == (if v < 0 then -v else v)
      && forall i :: (if v < 0 then 1 else 0) <= i < |text| ==> '0' <= text[i] <= '9'
  {
    hide Digits, Layout, Positional, DigitValue;
    var v := Signed32(arg);
    var m := if v < 0 then -v else v;
    LaidOutBare(spec, ['-'] + Digits(10, m), ' ');
    LaidOutBare(spec, Digits(10, m), PadOf(spec));
    DigitsDenote(10, m);
    DigitsUpTo(10, m);
    assert (['-'] + Digits(10, m))[1..] == Digits(10, m);
  }

  /** `%c` prints the argument's low byte, `%s` the text with its terminator, `%b` the buffer, and any
      other letter nothing. */
  lemma TextConversion(store: Store, spec: Spec, conv: char, arg: u32)
    requires spec.width.None? && spec.prec.None? && conv !in {'u', 'x', 'X', 'o', 'd'}
    ensures
      var text := Convert(store, spec, conv, arg);
      if conv == 'c' then |text| == 1 && text[0] as int == arg % 0x100
      else if conv == 's' then |text| > 0 && text[..|text| - 1] == store.texts(arg) && text[|text| - 1] == 0 as char
      else if conv == 'b' then text == store.buffers(arg)
      else text == []
  {
    hide Layout;
    LaidOutBare(spec, store.texts(arg) + [0 as char], ' ');
    LaidOutBare(spec, store.buffers(arg), ' ');
  }

  /** With width and precision a conversion lays out what it prints without them; zeros pad only the
      unsigned conversions and `%d` of what is not negative; `%c` heeds neither. */
  lemma LaidOutConversion(store: Store, spec: Spec, conv: char, arg: u32)
    ensures
      var bare := Convert(store, spec.(width := None, prec := None), conv, arg);
      var zeros := spec.zeroPadded && (conv in {'u', 'x', 'X', 'o'} || (conv == 'd' && arg < 0x8000_0000));
      if conv in {'u', 'x', 'X', 'o', 'd', 's', 'b'} then
        Convert(store, spec, conv, arg) == Layout(spec, bare, if zeros then '0' else ' ')
      else Convert(store, spec, conv, arg) == bare
  {
    hide Layout, Digits;
    var bare := spec.(width := None, prec := None);
    var v := Signed32(arg);
    forall text, pad ensures Layout(bare, text, pad) == text {
      LaidOutBare(bare, text, pad);
    }
  }

  // ---------- What a format prints ----------

  /** Text without a percent sign is printed as it is, in front of what follows. */
  lemma {:induction false} PlainText(store: Store, format: seq<char>, args: nat -> u32, at: nat, end: nat, k: nat)
    requires at <= end <= |format| && '%' !in format[at..end]
    ensures
      FormatFrom(store, format, args, at, k) == Prepend(format[at..end], FormatFrom(store, format, args, end, k))
    decreases end - at
  {
    hide Convert, ParseSpec;
    if at < end {
      assert format[at..end] == [format[at]] + format[at + 1..end];
      PlainText(store, format, args, at + 1, end, k);
      PrependTwice([format[at]], format[at + 1..end], FormatFrom(store, format, args, end, k));
    } else {
      PrependTwice([], [], FormatFrom(store, format, args, end, k));
    }
  }

  /** A format without a percent sign prints itself. */
  lemma PlainFormat(store: Store, format: seq<char>, args: nat -> u32)
    requires '%' !in format
    ensures FormatFrom(store, format, args, 0, 0) == Formatted(format, 0, false)
  {
    hide Convert, ParseSpec;
    assert format[0..|format|] == format;
    PlainText(store, format, args, 0, |format|, 0);
    assert format + [] == format;
  }

  /** `%%` prints one percent sign and takes no argument; a single one at the end prints nothing. */
  lemma PercentSign(store: Store, format: seq<char>, args: nat -> u32, at: nat, k: nat)
    requires at < |format| && format[at] == '%'
    ensures at + 1 == |format| ==> FormatFrom(store, format, args, at, k) == Formatted([], k, false)
    ensures at + 1 < |format| && format[at + 1] == '%' ==>
      FormatFrom(store, format, args, at, k) == Prepend("%", FormatFrom(store, format, args, at + 2, k))
  {
    hide Convert, ParseSpec;
  }

  /** A rendered specification prints the conversion of the next argument, whatever stands around it. */
  lemma RenderedConversion(store: Store, before: seq<char>, zero: bool, left: bool, width: Option<u32>,
                           prec: Option<u32>, conv: char, rest: seq<char>, args: nat -> u32, k: nat)
    requires (zero || left || width != Some(0)) && !IsDigit(conv) && conv !in {'.', '-', '%'}
    ensures
      var fields := before + "%" + Render(zero, left, width, prec);
      var format := fields + [conv] + rest;
      FormatFrom(store, format, args, |before|, k) ==
        Prepend(Convert(store, Spec(zero, left, width, prec, |fields|), conv, args(k)),
                FormatFrom(store, format, args, |fields| + 1, k + 1))
  {
    hide Convert, ParseSpec, Render, Prepend;
    var spec := Render(zero, left, width, prec);
    var fields := before + "%" + spec;
    var format := fields + [conv] + rest;
    assert format == (before + "%") + spec + ([conv] + rest);
    ParsingInvertsRendering(before + "%", zero, left, width, prec, [conv] + rest);
    RenderBegins(zero, left, width, prec, [conv] + rest);
    assert format[|before|] == '%';
    assert format[|before| + 1..] == spec + ([conv] + rest);
    assert format[|before| + 1] == (spec + ([conv] + rest))[0];
    assert format[|fields|] == conv;
  }

  /** A specification never begins with a percent sign. */
  lemma RenderBegins(zero: bool, left: bool, width: Option<u32>, prec: Option<u32>, rest: seq<char>)
    requires |rest| > 0 && rest[0] != '%'
    ensures (Render(zero, left, width, prec) + rest)[0] != '%'
  {
    if width.Some? {
      DecimalOnly(width.value);
    }
  }
}
