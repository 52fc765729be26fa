/** The formatter of printf.c, writing through `_out_buffer` into a buffer of given capacity. */
module Printf {
  import Widths
  import opened PrintfSpec
  import PrintfDirective

  /** A buffer that held `before` after `out` has been written to its first `capacity` places. */
  function Filled(before: text, out: text, capacity: nat): text
    requires capacity <= |before|
  {
    var k := Min(|out|, capacity);
    out[..k] + before[k..]
  }

  /** The output function's arguments: buffer, capacity and index. */
  class Printer {
    const buffer: array<char>
    const maxlen: nat
    var idx: nat
    ghost var out: text
    ghost const before: text

    ghost predicate Valid()
      reads this, buffer
    {
      && maxlen <= buffer.Length && |before| == buffer.Length && idx == |out|
      && buffer[..] == Filled(before, out, maxlen)
    }

    constructor (buffer: array<char>, maxlen: nat)
      requires maxlen <= buffer.Length
      ensures this.buffer == buffer && this.maxlen == maxlen && before == buffer[..] && out == [] && Valid()
    {
      this.buffer, this.maxlen, idx := buffer, maxlen, 0;
      out, before := [], buffer[..];
    }

    /** `_out_buffer`: a character past the capacity is counted but not stored. */
    method Put(c: char)
      requires Valid()
      modifies this, buffer
      ensures Valid() && out == old(out) + [c]
    {
      if idx < maxlen {
        buffer[idx] := c;
      }
      out := out + [c];
      idx := idx + 1;
    }

    method Repeated(c: char, n: int)
      requires Valid()
      modifies this, buffer
      ensures Valid() && out == old(out) + Repeat(c, n)
    {
      hide Filled;
      var k := 0;
      while k < n
        invariant 0 <= k && (k <= n || k == 0) && Valid() && out == old(out) + Repeat(c, k)
      {
        Put(c);
        k := k + 1;
        assert Repeat(c, k) == Repeat(c, k - 1) + [c];
      }
    }

    // ----- integers -----

    /** `_out_rev`: a reversed field, turned round, with blanks on one side. */
    method OutRev(buf: array<char>, len: nat, width: nat, f: Flags)
      requires Valid() && buf != buffer && len <= buf.Length
      modifies this, buffer
      ensures Valid() && out == old(out) + Field(buf[..len], width, f)
    {
      hide Filled, Repeat, Reverse;
      var start := idx;
      ghost var s, o := buf[..len], out;
      if !f.left && !f.zero {
        Repeated(' ', width - len);
      }
      ghost var o1 := out;
      var k := len;
      WholeAndNone(s);
      while k > 0
        invariant 0 <= k <= len && Valid() && buf[..len] == s && out + Reverse(s[..k]) == o1 + Reverse(s)
      {
        k := k - 1;
        ReverseLast(s, k);
        Put(buf[k]);
      }
      assert out == o1 + Reverse(s);
      if f.left {
        Repeated(' ', width - (idx - start));
      }
      assert out == o + Field(s, width, f);
    }

    /** `_ntoa_format`: padding, the alternative form and the sign are added in the buffer. */
    method NtoaFormat(buf: array<char>, len: nat, negative: bool, base: nat, prec: nat, width: nat, f: Flags)
      requires Valid() && buf != buffer && buf.Length == NTOA_SIZE && len <= NTOA_SIZE
      modifies this, buffer, buf
      ensures Valid()
      ensures var w := ZeroWidth(width, negative, f);
        out == old(out) + Field(Signed(Hashed(Padded(old(buf[..len]), negative, prec, width, f), base, prec, w, f), negative, f), w, f)
    {
      hide Filled, Field;
      var w, n := width, len;
      if !f.left {
        if width > 0 && f.zero && (negative || f.plus || f.space) {
          w := width - 1;
        }
        n := ZeroPad(buf, n, prec);
        if f.zero {
          n := ZeroPad(buf, n, w);
        }
      }
      assert buf[..n] == Padded(old(buf[..len]), negative, prec, width, f);
      n := Alternative(buf, n, base, prec, w, f);
      if negative {
        n := Append(buf, n, '-');
      } else if f.plus {
        n := Append(buf, n, '+');
      } else if f.space {
        n := Append(buf, n, ' ');
      }
      OutRev(buf, n, w, f);
    }

    /** `_ntoa_long`: the digits of a number, least significant first. */
    method NtoaLong(value: nat, negative: bool, base: nat, prec: nat, width: nat, f: Flags)
      requires Valid() && 2 <= base <= 16
      modifies this, buffer
      ensures Valid() && out == old(out) + IntegerField(value, negative, base, prec, width, f)
    {
      hide Filled, Repeat, Reverse, Padded, Hashed, Signed;
      var buf := new char[NTOA_SIZE];
      var len := 0;
      var g := if value == 0 then f.(hash := false) else f;
      if !f.precise || value != 0 {
        len := PutDigits(buf, value, base, f.upper);
      }
      NtoaFormat(buf, len, negative, base, prec, width, g);
    }

    // ----- strings and characters -----

    method PrintChar(c: char, d: Directive)
      requires Valid() && d.Directive?
      modifies this, buffer
      ensures Valid() && out == old(out) + Spaced([c], d)
    {
      hide Filled, Repeat;
      if !d.f.left {
        Repeated(' ', d.width - 1);
      }
      Put(c);
      if d.f.left {
        Repeated(' ', d.width - 1);
      }
    }

    method PrintString(s: text, d: Directive)
      requires Valid() && d.Directive? && (!d.f.precise ==> d.prec == 0)
      modifies this, buffer
      ensures Valid() && out == old(out) + Spaced(Shortened(s, d), d)
    {
      hide Filled, Repeat;
      ghost var o, t := out, Shortened(s, d);
      var l := StrnLen(s, if d.prec > 0 then d.prec else |s|);
      if d.f.precise {
        l := if l < d.prec then l else d.prec;
      }
      if !d.f.left {
        Repeated(' ', d.width - l);
      }
      ghost var o1 := out;
      var p := 0;
      while p < |s| && (!d.f.precise || p < d.prec)
        invariant 0 <= p <= |t| && Valid() && out == o1 + t[..p]
      {
        Put(s[p]);
        p := p + 1;
        assert t[..p] == t[..p - 1] + [t[p - 1]];
      }
      assert t[..p] == t;
      if d.f.left {
        Repeated(' ', d.width - l);
      }
      assert out == o + Spaced(t, d);
    }

    // ----- whole formats -----

    method PrintInteger(c: char, d: Directive, v: int)
      requires Valid() && d.Directive?
      modifies this, buffer
      ensures Valid() && out == old(out) + Integer(c, d, v)
    {
      hide Filled, IntegerField, Value;
      var n := Value(c, d.bits, v);
      NtoaLong(if n > 0 then n else 0 - n, n < 0, Base(c), d.prec, d.width, IntegerFlags(c, d.f));
    }

    /** The conversion character `c`, with everything before it in `d`. */
    method PrintDirective(c: char, d: Directive) returns (args: seq<Arg>)
      requires Valid() && d.Directive? && (!d.f.precise ==> d.prec == 0) && Convert(c, d).Piece?
      modifies this, buffer
      ensures Valid() && out == old(out) + Convert(c, d).chars && args == Convert(c, d).args
    {
      hide Filled, Integer, Pointer, Spaced, Shortened;
      args := d.args;
      if IsInteger(c) {
        PrintInteger(c, d, args[0].v);
        args := args[1..];
      } else if c == 'c' {
        PrintChar((args[0].v % 256) as char, d);
        args := args[1..];
      } else if c == 's' {
        PrintString(args[0].s, d);
        args := args[1..];
      } else if c == 'p' {
        PrintPointer(d, args[0].v);
        args := args[1..];
      } else {
        Put(c);
      }
    }

    method PrintPointer(d: Directive, v: int)
      requires Valid() && d.Directive?
      modifies this, buffer
      ensures Valid() && out == old(out) + Pointer(d, v)
    {
      hide Filled, IntegerField;
      NtoaLong(v % Modulus(64), false, 16, d.prec, 16, d.f.(zero := true, upper := true));
    }

    /** `_vsnprintf`, up to the terminating NUL: the output is what the format means. */
    method PrintAll(format: text, args: seq<Arg>)
      requires Valid() && out == [] && Render(format, 0, args).Output?
      modifies this, buffer
      ensures Valid() && Render(format, 0, args) == Output(out)
    {
      hide Filled, DirectiveFrom, Convert;
      var i, rest := 0, args;
      ghost var all := Render(format, 0, args);
      assert [] + all.chars == all.chars;
      while i < |format|
        invariant 0 <= i && Valid() && all == Prepend(out, Render(format, i, rest))
        decreases |format| - i
      {
        ghost var o := out;
        if format[i] != '%' {
          Put(format[i]);
          PrependTwice(o, [format[i]], Render(format, i + 1, rest));
          i := i + 1;
        } else {
          DirectiveForward(format, i + 1, rest);
          var d := ReadDirective(format, i + 1, rest);
          ghost var piece := Convert(At(format, d.next), d);
          var left := PrintDirective(At(format, d.next), d);
          PrependTwice(o, piece.chars, Render(format, d.next + 1, left));
          i, rest := d.next + 1, left;
        }
      }
      assert out + [] == out;
    }
  }

  lemma PrependTwice(a: text, b: text, o: Output)
    ensures Prepend(a, Prepend(b, o)) == Prepend(a + b, o)
  {
    if o.Output? {
      assert a + (b + o.chars) == (a + b) + o.chars;
    }
  }

  // ----- reading a directive -----

  method StrnLen(s: text, max: nat) returns (n: nat)
    ensures n == Min(|s|, max)
  {
    n := 0;
    while n < |s| && n < max
      invariant n <= |s| && n <= max
    {
      n := n + 1;
    }
  }

  method ReadFlags(format: text, i: nat) returns (f: Flags, j: nat)
    requires i <= |format|
    ensures FlagsFrom(format, i, NO_FLAGS) == (f, j) && j <= |format|
  {
    f, j := NO_FLAGS, i;
    while j < |format| && IsFlag(format[j])
      invariant i <= j <= |format| && FlagsFrom(format, i, NO_FLAGS) == FlagsFrom(format, j, f)
    {
      f, j := Flag(f, format[j]), j + 1;
    }
  }

  /** `_atoi`: the number that a run of digits denotes, in 32 bits, and where the run ends. */
  method Atoi(format: text, i: nat) returns (n: nat, j: nat)
    requires i <= |format|
    ensures PrintfDirective.DigitRun(format, i, j) && n == Number(format[i..j], 10) % Widths.U32_LIMIT
    ensures NumberFrom(format, i, 0) == (n, j)
  {
    n, j := 0, i;
    assert format[i..i] == [];
    while j < |format| && IsDigit(format[j])
      invariant i <= j <= |format| && (forall k :: i <= k < j ==> IsDigit(format[k]))
      invariant NumberFrom(format, i, 0) == NumberFrom(format, j, n)
      decreases |format| - j
    {
      n := (n * 10 + (format[j] as int - '0' as int)) % Widths.U32_LIMIT;
      j := j + 1;
    }
    PrintfDirective.NumberRead(format, i, j, i, 0);
  }

  method ReadDirective(format: text, i: nat, args: seq<Arg>) returns (d: Directive)
    requires i <= |format| && DirectiveFrom(format, i, args).Directive?
    ensures d == DirectiveFrom(format, i, args)
  {
    hide FlagsFrom, NumberFrom, LengthFrom;
    var f, j := ReadFlags(format, i);
    d := ReadWidth(format, j, f, args);
    d := ReadPrec(format, d);
    var bits, k := ReadLength(format, d.next);
    d := d.(bits := bits, next := k);
  }

  /** The length modifier, as the flags that it sets; they decide how wide the argument is. */
  method ReadLength(format: text, i: nat) returns (bits: nat, j: nat)
    ensures (bits, j) == LengthFrom(format, i)
  {
    var long, longLong, short, byteWide := false, false, false, false;
    j := i;
    match At(format, j) {
      case 'l' =>
        long, j := true, j + 1;
        if At(format, j) == 'l' {
          longLong, j := true, j + 1;
        }
      case 'h' =>
        short, j := true, j + 1;
        if At(format, j) == 'h' {
          byteWide, j := true, j + 1;
        }
      case 't' =>
        long, j := true, j + 1;
      case 'j' =>
        long, j := true, j + 1;
      case 'z' =>
        long, j := true, j + 1;
      case _ =>
    }
    bits := if longLong || long then 64 else if byteWide then 8 else if short then 16 else 32;
  }

  method ReadWidth(format: text, i: nat, f: Flags, args: seq<Arg>) returns (d: Directive)
    requires WidthFrom(format, i, f, args).Directive?
    ensures d == WidthFrom(format, i, f, args)
  {
    hide NumberFrom;
    if IsDigit(At(format, i)) {
      var w, j := Atoi(format, i);
      d := Directive(f, w, 0, 32, j, args);
    } else if At(format, i) == '*' {
      var w := Int32(args[0].v);
      if w < 0 {
        d := Directive(f.(left := true), -w, 0, 32, i + 1, args[1..]);
      } else {
        d := Directive(f, w, 0, 32, i + 1, args[1..]);
      }
    } else {
      d := Directive(f, 0, 0, 32, i, args);
    }
  }

  method ReadPrec(format: text, e: Directive) returns (d: Directive)
    requires e.Directive? && PrecFrom(format, e).Directive?
    ensures d == PrecFrom(format, e)
  {
    hide NumberFrom;
    d := e;
    if At(format, e.next) == '.' {
      var i, f := e.next + 1, e.f.(precise := true);
      if IsDigit(At(format, i)) {
        var p, j := Atoi(format, i);
        d := e.(f := f, prec := p, next := j);
      } else if At(format, i) == '*' {
        var p := Int32(e.args[0].v);
        d := e.(f := f, prec := if p > 0 then p else 0, next := i + 1, args := e.args[1..]);
      } else {
        d := e.(f := f, next := i);
      }
    }
  }

  // ----- snprintf -----

  /** What `snprintf` leaves in a buffer of `count` characters: as much of the output as fits with
      a NUL after it, and beyond that what was there before. */
  function Truncated(before: text, out: text, count: nat): text
    requires count <= |before|
  {
    if count == 0 then before
    else
      var k := Min(|out|, count - 1);
      out[..k] + ['\0'] + before[k + 1..]
  }

  /** `snprintf_`: the result is the length of the whole output, whatever the capacity. */
  method Snprintf(buffer: array<char>, count: nat, format: text, args: seq<Arg>) returns (ret: int)
    requires count <= buffer.Length && Render(format, 0, args).Output?
    modifies buffer
    ensures ret == Int32(|Render(format, 0, args).chars|)
    ensures buffer[..] == Truncated(old(buffer[..]), Render(format, 0, args).chars, count)
    ensures var out := Render(format, 0, args).chars;
      && (|out| < 0x8000_0000 ==> ret == |out|)
      && forall i :: 0 <= i < buffer.Length ==>
        buffer[i] == if i < |out| && i + 1 < count then out[i] else if i < count && i <= |out| then '\0' else old(buffer[i])
  {
    hide Render, Filled, Truncated;
    ghost var before := buffer[..];
    var p := new Printer(buffer, count);
    p.PrintAll(format, args);
    NulWritten(before, p.out, count);
    if count > 0 {
      buffer[if p.idx < count then p.idx else count - 1] := '\0';
    }
    ret := Int32(p.idx);
    TruncatedAt(before, p.out, count);
    assert forall i :: 0 <= i < buffer.Length ==> buffer[i] == buffer[..][i];
  }

  lemma TruncatedAt(before: text, out: text, count: nat)
    requires count <= |before|
    ensures var r := Truncated(before, out, count);
      |r| == |before| && forall i :: 0 <= i < |r| ==>
        r[i] == if i < |out| && i + 1 < count then out[i] else if i < count && i <= |out| then '\0' else before[i]
  {
  }

  lemma NulWritten(before: text, out: text, count: nat)
    requires count <= |before|
    ensures |Filled(before, out, count)| == |before|
    ensures count == 0 ==> Filled(before, out, count) == Truncated(before, out, count)
    ensures count > 0 ==> Filled(before, out, count)[(if |out| < count then |out| else count - 1) := '\0'] == Truncated(before, out, count)
  {
    if count == 0 {
      assert out[..0] == [] && before[0..] == before;
    } else {
      var at := if |out| < count then |out| else count - 1;
      var b := Filled(before, out, count);
      assert b[..at] == out[..at];
      assert b[at + 1..] == before[at + 1..];
      assert b[at := '\0'] == b[..at] + ['\0'] + b[at + 1..];
    }
  }

  lemma WholeAndNone(s: text)
    ensures s[..|s|] == s && Reverse(s[..0]) == []
  {
  }

  lemma {:induction false} ReverseLast(s: text, k: nat)
    requires k < |s|
    ensures Reverse(s[..k + 1]) == [s[k]] + Reverse(s[..k])
    decreases k
  {
    var a := s[..k + 1];
    if k == 0 {
      assert a[1..] == [] && s[..0] == [];
    } else {
      ReverseLast(s[1..], k - 1);
      assert a[1..] == s[1..][..k] && s[..k][1..] == s[1..][..k - 1];
    }
  }

  // ----- the conversion buffer -----

  method ZeroPad(buf: array<char>, len: nat, n: nat) returns (m: nat)
    requires buf.Length == NTOA_SIZE && len <= NTOA_SIZE
    modifies buf
    ensures m <= NTOA_SIZE && buf[..m] == ZerosTo(old(buf[..len]), n)
  {
    ghost var s := buf[..len];
    m := len;
    while m < n && m < NTOA_SIZE
      invariant len <= m <= NTOA_SIZE && (m == len || m <= n)
      invariant buf[..m] == s + Repeat('0', m - len)
    {
      buf[m] := '0';
      m := m + 1;
      assert buf[..m] == buf[..m - 1] + ['0'];
    }
  }

  method Append(buf: array<char>, len: nat, c: char) returns (m: nat)
    requires buf.Length == NTOA_SIZE && len <= NTOA_SIZE
    modifies buf
    ensures m <= NTOA_SIZE && buf[..m] == PutIfRoom(old(buf[..len]), c)
  {
    m := len;
    if len < NTOA_SIZE {
      buf[len] := c;
      m := len + 1;
    }
  }

  method Alternative(buf: array<char>, len: nat, base: nat, prec: nat, width: nat, f: Flags) returns (m: nat)
    requires buf.Length == NTOA_SIZE && len <= NTOA_SIZE
    modifies buf
    ensures m <= NTOA_SIZE && buf[..m] == Hashed(old(buf[..len]), base, prec, width, f)
  {
    hide PutIfRoom;
    m := len;
    ghost var s := buf[..len];
    if f.hash {
      if !f.precise && m > 0 && (m == prec || m == width) {
        m := m - 1;
        if m > 0 && base == 16 {
          m := m - 1;
        }
      }
      assert buf[..m] == s[..m];
      if base == 16 {
        m := Append(buf, m, if f.upper then 'X' else 'x');
      } else if base == 2 {
        m := Append(buf, m, 'b');
      }
      m := Append(buf, m, '0');
    }
  }

  method PutDigits(buf: array<char>, value: nat, base: nat, upper: bool) returns (len: nat)
    requires buf.Length == NTOA_SIZE && 2 <= base <= 16
    modifies buf
    ensures len <= NTOA_SIZE && buf[..len] == DigitsUp(value, base, upper, NTOA_SIZE)
  {
    hide DigitChar, DigitsUp;
    ghost var all := DigitsUp(value, base, upper, NTOA_SIZE);
    len := 0;
    var v: int := value;
    var more := true;
    while more
      invariant v >= 0 && 0 <= len <= NTOA_SIZE && (more ==> len < NTOA_SIZE)
      invariant more ==> buf[..len] + DigitsUp(v, base, upper, NTOA_SIZE - len) == all
      invariant !more ==> buf[..len] == all
      decreases more, NTOA_SIZE - len
    {
      ghost var was := buf[..len];
      DigitsStep(v, base, upper, NTOA_SIZE - len);
      buf[len] := DigitChar(v % base, upper);
      len := len + 1;
      v := v / base;
      assert buf[..len] == was + [buf[len - 1]];
      more := v > 0 && len < NTOA_SIZE;
    }
  }

  lemma DigitsStep(v: nat, base: nat, upper: bool, room: nat)
    requires 2 <= base <= 16 && room > 0
    ensures v / base >= 0
    ensures DigitsUp(v, base, upper, room)
         == [DigitChar(v % base, upper)] + (if v / base > 0 && room > 1 then DigitsUp(v / base, base, upper, room - 1) else [])
  {
  }
}
