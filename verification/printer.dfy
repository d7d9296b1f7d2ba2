/** The formatter as it runs: a cursor over the format, a mutable print context and a buffer that
    is flushed when full. */
module Printer {
  import opened Numbers
  import opened Words
  import opened Format

  const BUFFER_SIZE := 1024

  /** The characters that reach the output: a full buffer is flushed before its last character
      is counted, so every 1024th character of the stream is missing. */
  function Delivered(stream: seq<char>): seq<char> {
    if |stream| == 0 then []
    else
      var front := Delivered(stream[..|stream| - 1]);
      if |stream| % BUFFER_SIZE == 0 then front else front + [stream[|stream| - 1]]
  }

  lemma {:induction false} DeliveredLength(stream: seq<char>)
    ensures |Delivered(stream)| == |stream| - |stream| / BUFFER_SIZE
  {
    if |stream| > 0 {
      DeliveredLength(stream[..|stream| - 1]);
    }
  }

  /** Exactly which characters are delivered: the `i`-th is the stream's `i`-th after leaving out one
      in 1024. */
  lemma {:induction false} DeliveredAt(stream: seq<char>, i: nat)
    requires i < |Delivered(stream)|
    ensures i + i / 1023 < |stream| && Delivered(stream)[i] == stream[i + i / 1023]
  {
    DeliveredLength(stream);
    if |stream| > 0 {
      var front := stream[..|stream| - 1];
      DeliveredLength(front);
      if i < |Delivered(front)| {
        DeliveredAt(front, i);
      }
    }
  }

  lemma {:induction false} ShortDelivered(stream: seq<char>)
    requires |stream| < BUFFER_SIZE
    ensures Delivered(stream) == stream
  {
    if |stream| > 0 {
      ShortDelivered(stream[..|stream| - 1]);
    }
  }

  /** The output is the whole stream exactly when it is shorter than the buffer. */
  lemma DeliveredWhole(stream: seq<char>)
    ensures Delivered(stream) == stream <==> |stream| < BUFFER_SIZE
  {
    DeliveredLength(stream);
    if |stream| < BUFFER_SIZE {
      ShortDelivered(stream);
    }
  }

  lemma LayoutParts(spec: Spec, text: seq<char>, pad: char, length: nat, spaces: nat)
    requires length == if spec.prec.Some? && spec.prec.value < |text| then spec.prec.value else |text|
    requires spaces == if spec.width.Some? && spec.width.value > length then spec.width.value - length else 0
    ensures Layout(spec, text, pad) ==
      if spec.leftAdjusted then text[..length] + Repeat(' ', spaces) else Repeat(pad, spaces) + text[..length]
  {
    hide Repeat;
    assert text[..|text|] == text;
  }

  lemma Joins(a: seq<char>, b: seq<char>, c: seq<char>)
    ensures a + b + c == a + (b + c)
  {
  }

  lemma NumberStarts(format: seq<char>, at: nat)
    requires at <= |format|
    ensures DigitsEnd(format, at) > at <==> at < |format| && IsDigit(format[at])
  {
  }

  lemma AccumulateNext(s: seq<char>, c: char)
    ensures Accumulate(s + [c]) == Wrap(Accumulate(s) * 10 + c as int - '0' as int)
  {
    assert (s + [c])[..|s|] == s;
  }

  lemma AccumulateNone()
    ensures Accumulate([]) == 0
  {
  }

  lemma PrependEnd(a: seq<char>, b: seq<char>, k: nat)
    ensures Prepend(a, Formatted(b, k, true)) == Formatted(a + b, k, true)
  {
  }

  lemma FormatEnds(store: Store, format: seq<char>, args: nat -> u32, k: nat, done: seq<char>)
    ensures Prepend(done, FormatFrom(store, format, args, |format|, k)) == Formatted(done, k, false)
  {
    assert done + [] == done;
  }

  class Context {
    const store: Store
    const args: nat -> u32
    const buffer: array<char>
    var mark: nat
    var writeCount: nat
    var used: nat
    var sink: seq<char>
    ghost var stream: seq<char>

    ghost predicate Valid()
      reads this, buffer
    {
      && buffer.Length == BUFFER_SIZE && mark < BUFFER_SIZE
      && mark == |stream| % BUFFER_SIZE && writeCount + mark == |stream|
      && sink + buffer[..mark] == Delivered(stream)
    }

    constructor (s: Store, a: nat -> u32)
      ensures Valid() && fresh(buffer) && store == s && args == a
      ensures stream == [] && used == 0 && sink == []
    {
      store, args := s, a;
      buffer := new char[BUFFER_SIZE](_ => ' ');
      mark, writeCount, used, sink, stream := 0, 0, 0, [], [];
    }

    /** Writes out what the stored mark covers. */
    method Flush()
      requires mark <= buffer.Length
      modifies this`sink
      ensures sink == old(sink) + buffer[..mark]
    {
      sink := sink + buffer[..mark];
    }

    method PutChar(c: char)
      requires Valid()
      modifies this`mark, this`writeCount, this`sink, this`stream, buffer
      ensures Valid() && stream == old(stream) + [c]
    {
      var newMark := mark;
      buffer[newMark] := c;
      newMark := newMark + 1;
      if newMark == BUFFER_SIZE {
        Flush();
        writeCount := writeCount + newMark;
        newMark := 0;
      }
      mark := newMark;
      stream := stream + [c];
      assert stream[..|stream| - 1] == old(stream);
    }

    method PutRepeated(c: char, n: nat)
      requires Valid()
      modifies this`mark, this`writeCount, this`sink, this`stream, buffer
      ensures Valid() && stream == old(stream) + Repeat(c, n)
    {
      var left: nat := n;
      while left > 0
        invariant Valid() && left <= n && stream == old(stream) + Repeat(c, n - left)
      {
        assert Repeat(c, n - left) + [c] == Repeat(c, n - left + 1);
        PutChar(c);
        left := left - 1;
      }
    }

    method PutText(text: seq<char>)
      requires Valid()
      modifies this`mark, this`writeCount, this`sink, this`stream, buffer
      ensures Valid() && stream == old(stream) + text
    {
      var i := 0;
      while i < |text|
        invariant Valid() && i <= |text| && stream == old(stream) + text[..i]
      {
        assert text[..i + 1] == text[..i] + [text[i]];
        PutChar(text[i]);
        i := i + 1;
      }
      assert text[..i] == text;
    }

    method ConvText(spec: Spec, text: seq<char>, pad: char)
      requires Valid()
      modifies this`mark, this`writeCount, this`sink, this`stream, buffer
      ensures Valid() && stream == old(stream) + Layout(spec, text, pad)
    {
      hide Delivered, Repeat, Layout;
      var length: nat := |text|;
      if spec.prec.Some? && spec.prec.value < length {
        length := spec.prec.value;
      }
      var spaces: nat := 0;
      if spec.width.Some? && spec.width.value > length {
        spaces := spec.width.value - length;
      }
      var clipped := text[..length];
      ghost var before := stream;
      LayoutParts(spec, text, pad, length, spaces);
      if spec.leftAdjusted {
        PutText(clipped);
        PutRepeated(' ', spaces);
        Joins(before, clipped, Repeat(' ', spaces));
      } else {
        PutRepeated(pad, spaces);
        PutText(clipped);
        Joins(before, Repeat(pad, spaces), clipped);
      }
    }

    /** Writes the digits of `value` from `at` on and returns the position behind them. */
    method ConvBase(digits: array<char>, at: nat, base: int, value: u32) returns (end: nat)
      requires 2 <= base <= 36 && at + |Digits(base, value)| <= digits.Length
      modifies digits
      ensures end == at + |Digits(base, value)| && digits[at..end] == Digits(base, value)
      ensures digits[..at] == old(digits[..at])
      decreases value
    {
      hide DigitChar;
      end := at;
      DivMod(value, base);
      if value >= base {
        DivSmaller(value, base);
        end := ConvBase(digits, at, base, value / base);
      }
      digits[end] := DigitChar(value % base);
      end := end + 1;
      assert digits[at..end] == digits[at..end - 1] + [digits[end - 1]];
    }

    method ConvNumber(spec: Spec, base: int, value: u32, negative: bool)
      requires Valid() && 2 <= base <= 36
      modifies this`mark, this`writeCount, this`sink, this`stream, buffer
      ensures Valid()
      ensures stream == old(stream) + (if negative then Layout(spec, ['-'] + Digits(base, value), ' ')
                                       else Layout(spec, Digits(base, value), PadOf(spec)))
    {
      hide Digits, Layout;
      var digits := new char[34](_ => ' ');
      WordDigits(base, value);
      if negative {
        var end := ConvBase(digits, 1, base, value);
        digits[0] := '-';
        assert digits[..end] == ['-'] + digits[1..end];
        ConvText(spec, digits[..end], ' ');
      } else {
        var end := ConvBase(digits, 0, base, value);
        assert digits[..end] == digits[0..end];
        ConvText(spec, digits[..end], PadOf(spec));
      }
    }

    /** Reads a run of decimal digits from the cursor on. */
    method ReadNumber(format: seq<char>, at: nat) returns (value: u32, end: nat)
      requires at <= |format|
      ensures end == DigitsEnd(format, at) && value == Accumulate(format[at..end])
    {
      hide Accumulate, Wrap;
      value, end := 0, at;
      AccumulateNone();
      assert format[at..at] == [];
      while end < |format| && IsDigit(format[end])
        invariant at <= end <= |format| && DigitsEnd(format, at) == DigitsEnd(format, end)
        invariant value == Accumulate(format[at..end])
      {
        value := Wrap(value * 10 + format[end] as int - '0' as int);
        end := end + 1;
        AccumulateNext(format[at..end - 1], format[end - 1]);
        assert format[at..end] == format[at..end - 1] + [format[end - 1]];
      }
    }

    method ReadSpec(format: seq<char>, at: nat) returns (spec: Spec)
      requires at <= |format|
      ensures spec == ParseSpec(format, at)
    {
      hide Accumulate, DigitsEnd;
      var cursor := at;
      var zero, left := false, false;
      var width, prec: Option<u32> := None, None;
      if cursor < |format| && format[cursor] == '0' {
        zero := true;
        cursor := cursor + 1;
      }
      if cursor < |format| && format[cursor] == '-' {
        left := true;
        cursor := cursor + 1;
      }
      NumberStarts(format, cursor);
      if cursor < |format| && IsDigit(format[cursor]) {
        var value, end := ReadNumber(format, cursor);
        width, cursor := Some(value), end;
      }
      if cursor < |format| && format[cursor] == '.' {
        cursor := cursor + 1;
        var value, end := ReadNumber(format, cursor);
        prec, cursor := Some(value), end;
      }
      spec := Spec(zero, left, width, prec, cursor);
    }

    /** Converts the next argument as the conversion character says. */
    method Conversion(spec: Spec, conv: char, arg: u32)
      requires Valid()
      modifies this`mark, this`writeCount, this`sink, this`stream, buffer
      ensures Valid() && stream == old(stream) + Convert(store, spec, conv, arg)
    {
      hide Layout, Digits;
      match conv {
        case 'd' => ConvNumber(spec, 10, if Signed32(arg) < 0 then -Signed32(arg) else arg, Signed32(arg) < 0);
        case 'u' => ConvNumber(spec, 10, arg, false);
        case 'o' => ConvNumber(spec, 18, arg, false);
        case 'x' => ConvNumber(spec, 16, arg, false);
        case 'X' => ConvNumber(spec, 16, arg, false);
        case 'c' => PutChar((arg % 0x100) as char);
        case 'b' => ConvText(spec, store.buffers(arg), ' ');
        case 's' => ConvText(spec, store.texts(arg) + [0 as char], ' ');
        case _ =>
      }
    }

    /** One turn of the loop: a plain character, a `%%` or a whole specification. */
    method PrintPiece(format: seq<char>, cursor: nat) returns (next: nat, overrun: bool, ghost text: seq<char>)
      requires Valid() && cursor < |format|
      modifies this, buffer
      ensures Valid() && cursor < next <= |format|
      ensures
        && stream == old(stream) + text
        && FormatFrom(store, format, args, cursor, old(used)) ==
           (if overrun then Formatted(text, used, true) else Prepend(text, FormatFrom(store, format, args, next, used)))
    {
      hide Convert, ParseSpec, Delivered;
      overrun, next, text := false, cursor + 1, [];
      if format[cursor] != '%' {
        PutChar(format[cursor]);
        text := [format[cursor]];
      } else if cursor + 1 == |format| {
      } else if format[cursor + 1] == '%' {
        PutChar('%');
        text := ['%'];
        next := cursor + 2;
      } else {
        var spec := ReadSpec(format, cursor + 1);
        var arg := args(used);
        used := used + 1;
        if spec.end == |format| {
          overrun := true;
        } else {
          Conversion(spec, format[spec.end], arg);
          text := Convert(store, spec, format[spec.end], arg);
          next := spec.end + 1;
        }
      }
      assert stream == old(stream) + text;
    }

    /** The formatter loop up to the end of the format. */
    method PrintAll(format: seq<char>) returns (overrun: bool)
      requires Valid() && stream == [] && used == 0
      modifies this, buffer
      ensures Valid() && FormatFrom(store, format, args, 0, 0) == Formatted(stream, used, overrun)
    {
      hide Delivered, FormatFrom, Prepend;
      overrun := false;
      var cursor := 0;
      ghost var all := FormatFrom(store, format, args, 0, 0);
      PrependTwice([], [], all);
      while cursor < |format| && !overrun
        invariant Valid() && cursor <= |format|
        invariant overrun ==> all == Formatted(stream, used, true)
        invariant !overrun ==> all == Prepend(stream, FormatFrom(store, format, args, cursor, used))
        decreases |format| - cursor, !overrun
      {
        ghost var done, text := stream, [];
        cursor, overrun, text := PrintPiece(format, cursor);
        PrependTwice(done, text, FormatFrom(store, format, args, cursor, used));
        PrependEnd(done, text, used);
      }
      FormatEnds(store, format, args, used, stream);
    }

    /** Formats everything and flushes the rest: the stream is the formatter's text, the sink
        holds what of it is delivered, and the count is its full length. The result says whether
        the format ended inside a specification. */
    method Print(format: seq<char>) returns (overrun: bool)
      requires Valid() && stream == [] && used == 0
      modifies this, buffer
      ensures
        var f := FormatFrom(store, format, args, 0, 0);
        && stream == f.text && overrun == f.overrun && used == f.consumed
        && sink == Delivered(f.text) && writeCount == |f.text|
    {
      hide Delivered, FormatFrom;
      overrun := PrintAll(format);
      if mark > 0 {
        Flush();
        writeCount := writeCount + mark;
        mark := 0;
      } else {
        assert sink + buffer[..0] == sink;
      }
    }
  }
}
