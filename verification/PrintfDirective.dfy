/** How directives are spelled, and that each is read as its parts: flags in any order, a decimal
    width, a decimal precision after a point, a length and a conversion character (section 7.21.6.1
    of ISO C11). */
module PrintfDirective {
  import opened Widths
  import opened PrintfSpec
  import PrintfIso
  import PrintfHash
  import Bits

  // ----- numbers -----

  lemma ModStep(x: nat, n: nat, d: nat)
    requires n == x % U32_LIMIT
    ensures (n * 10 + d) % U32_LIMIT == (x * 10 + d) % U32_LIMIT
  {
    var q := x / U32_LIMIT;
    var r := n * 10 + d;
    assert x * 10 + d == U32_LIMIT * (10 * q) + r;
    var q2, r2 := r / U32_LIMIT, r % U32_LIMIT;
    assert x * 10 + d == U32_LIMIT * (10 * q + q2) + r2;
    Bits.DivModUnique(x * 10 + d, U32_LIMIT, 10 * q + q2, r2);
  }

  lemma {:induction false} NumberNonNegative(s: text)
    requires forall k :: 0 <= k < |s| ==> IsDigit(s[k])
    ensures Number(s, 10) >= 0
    decreases |s|
  {
    if s != [] { NumberNonNegative(s[..|s| - 1]); }
  }

  /** A run of digits that is not followed by another. */
  predicate DigitRun(format: text, i: nat, j: nat) {
    && i <= j <= |format|
    && (forall k :: i <= k < j ==> IsDigit(format[k]))
    && !IsDigit(At(format, j))
  }

  /** What a run of digits is read as: the number it denotes, modulo 2^32. */
  lemma {:induction false} NumberRead(format: text, i: nat, j: nat, k: nat, n: nat)
    requires DigitRun(format, i, j) && i <= k <= j && n == Number(format[i..k], 10) % U32_LIMIT
    ensures NumberFrom(format, k, n) == (Number(format[i..j], 10) % U32_LIMIT, j)
    decreases j - k
  {
    hide Number;
    if k < j {
      var d := format[k] as int - '0' as int;
      assert format[i..k + 1] == format[i..k] + [format[k]];
      NumberAppend(format[i..k], format[k], 10);
      NumberNonNegative(format[i..k]);
      ModStep(Number(format[i..k], 10), n, d);
      NumberRead(format, i, j, k + 1, (n * 10 + d) % U32_LIMIT);
    }
  }

  // ----- flags -----

  /** Flags set by the characters of a text, in whatever order and however often. */
  function Joined(f: Flags, s: text): Flags {
    Flags(f.zero || '0' in s, f.left || '-' in s, f.plus || '+' in s, f.space || ' ' in s, f.hash || '#' in s, f.upper, f.precise)
  }

  lemma {:induction false} FlagsRead(format: text, i: nat, j: nat, f: Flags)
    requires i <= j <= |format| && (forall k :: i <= k < j ==> IsFlag(format[k])) && !IsFlag(At(format, j))
    ensures FlagsFrom(format, i, f) == (Joined(f, format[i..j]), j)
    decreases j - i
  {
    hide Flag, Joined;
    if i < j {
      FlagsRead(format, i + 1, j, Flag(f, format[i]));
      assert format[i..j] == [format[i]] + format[i + 1..j];
      JoinedStep(f, format[i], format[i + 1..j]);
    } else {
      JoinedNone(f);
      assert format[i..j] == [];
    }
  }

  lemma JoinedStep(f: Flags, c: char, s: text)
    requires IsFlag(c)
    ensures Joined(Flag(f, c), s) == Joined(f, [c] + s)
  {
  }

  lemma JoinedNone(f: Flags)
    ensures Joined(f, []) == f
  {
  }

  // ----- directives -----

  datatype Spelled = Spelled(flags: text, width: text, precise: bool, prec: text, length: text)

  predicate AllDigits(s: text) {
    forall k :: 0 <= k < |s| ==> IsDigit(s[k])
  }

  predicate IsLength(s: text) {
    s == "" || s == "l" || s == "ll" || s == "h" || s == "hh" || s == "t" || s == "j" || s == "z"
  }

  predicate IsConversion(c: char) {
    IsInteger(c) || c == 'c' || c == 's' || c == 'p' || c == '%'
  }

  predicate WellSpelled(s: Spelled) {
    && (forall k :: 0 <= k < |s.flags| ==> IsFlag(s.flags[k]))
    && AllDigits(s.width) && (s.width != [] ==> s.width[0] != '0')
    && AllDigits(s.prec) && (!s.precise ==> s.prec == [])
    && IsLength(s.length)
  }

  function Point(s: Spelled): text {
    if s.precise then "." + s.prec else []
  }

  function Spelling(s: Spelled): text {
    s.flags + s.width + Point(s) + s.length
  }

  function LengthBits(s: text): nat {
    if s == "h" then 16 else if s == "hh" then 8 else if s == "" then 32 else 64
  }

  /** What a spelled directive means. */
  function Meaning(s: Spelled, next: nat, args: seq<Arg>): Directive
    requires WellSpelled(s)
  {
    NumberNonNegative(s.width);
    NumberNonNegative(s.prec);
    Directive(Joined(NO_FLAGS, s.flags).(precise := s.precise), Number(s.width, 10) % U32_LIMIT, Number(s.prec, 10) % U32_LIMIT,
              LengthBits(s.length), next, args)
  }

  /** The four parts stand one after another, the last followed by the conversion character. */
  predicate PartsAt(format: text, s: Spelled, c: char, i: nat, j: nat, k: nat, l: nat, m: nat) {
    && i <= j <= k <= l <= m < |format| && format[m] == c && IsConversion(c)
    && format[i..j] == s.flags && format[j..k] == s.width && format[k..l] == Point(s) && format[l..m] == s.length
  }

  lemma Parts(before: text, s: Spelled, c: char, after: text)
    requires IsConversion(c)
    ensures var i, j := |before|, |before| + |s.flags|; var k := j + |s.width|; var l := k + |Point(s)|; var m := l + |s.length|;
      PartsAt(before + Spelling(s) + [c] + after, s, c, i, j, k, l, m)
  {
    hide Point;
  }

  /** A character that ends a part is the first of a later one. */
  lemma Ends(format: text, s: Spelled, c: char, i: nat, j: nat, k: nat, l: nat, m: nat)
    requires WellSpelled(s) && PartsAt(format, s, c, i, j, k, l, m)
    ensures !IsFlag(format[j]) && !IsDigit(format[k]) && !IsDigit(format[l])
    ensures (s.width == [] ==> format[j] != '*' && !IsDigit(format[j])) && (s.width != [] ==> IsDigit(format[j]))
    ensures s.precise == (format[k] == '.')
    ensures s.precise && s.prec == [] ==> format[k + 1] != '*' && !IsDigit(format[k + 1])
    ensures s.precise && s.prec != [] ==> IsDigit(format[k + 1])
  {
    var a, b, d, e := format[i..j], format[j..k], format[k..l], format[l..m];
    assert j < k ==> format[j] == b[0];
    assert k < l ==> format[k] == d[0];
    assert l < m ==> format[l] == e[0];
    if s.precise {
      assert |d| == 1 + |s.prec|;
      assert s.prec != [] ==> format[k + 1] == d[1] == s.prec[0];
    }
  }

  lemma LengthRead(format: text, s: Spelled, c: char, i: nat, j: nat, k: nat, l: nat, m: nat)
    requires WellSpelled(s) && PartsAt(format, s, c, i, j, k, l, m)
    ensures LengthFrom(format, l) == (LengthBits(s.length), m)
  {
    var e := format[l..m];
    assert l < m ==> format[l] == e[0];
    assert l + 1 < m ==> format[l + 1] == e[1];
  }

  lemma WidthRead(format: text, s: Spelled, c: char, i: nat, j: nat, k: nat, l: nat, m: nat, f: Flags, args: seq<Arg>)
    requires WellSpelled(s) && PartsAt(format, s, c, i, j, k, l, m)
    ensures WidthFrom(format, j, f, args) == Directive(f, Number(s.width, 10) % U32_LIMIT, 0, 32, k, args)
  {
    hide NumberFrom;
    Ends(format, s, c, i, j, k, l, m);
    assert Number([], 10) == 0;
    if s.width != [] {
      assert forall p :: j <= p < k ==> format[p] == format[j..k][p - j];
      assert format[j..j] == [];
      NumberRead(format, j, k, j, 0);
    }
  }

  lemma PrecRead(format: text, s: Spelled, c: char, i: nat, j: nat, k: nat, l: nat, m: nat, d: Directive)
    requires WellSpelled(s) && PartsAt(format, s, c, i, j, k, l, m) && d.Directive? && d.next == k && d.prec == 0 && !d.f.precise
    ensures PrecFrom(format, d) == d.(f := d.f.(precise := s.precise), prec := Number(s.prec, 10) % U32_LIMIT, next := l)
  {
    hide NumberFrom, Number;
    Ends(format, s, c, i, j, k, l, m);
    NothingIsZero();
    if s.precise && s.prec != [] {
      PrecDigits(format, s, c, i, j, k, l, m);
    }
  }

  lemma PrecDigits(format: text, s: Spelled, c: char, i: nat, j: nat, k: nat, l: nat, m: nat)
    requires WellSpelled(s) && PartsAt(format, s, c, i, j, k, l, m) && s.precise && s.prec != []
    ensures NumberFrom(format, k + 1, 0) == (Number(s.prec, 10) % U32_LIMIT, l)
  {
    hide NumberFrom, Number;
    Ends(format, s, c, i, j, k, l, m);
    NothingIsZero();
    assert format[k + 1..l] == format[k..l][1..] == s.prec;
    assert forall p :: k + 1 <= p < l ==> format[p] == format[k + 1..l][p - k - 1];
    assert format[k + 1..k + 1] == [];
    NumberRead(format, k + 1, l, k + 1, 0);
  }

  /** Every spelled directive is read as its parts. */
  lemma SpelledIsRead(before: text, s: Spelled, c: char, after: text, args: seq<Arg>)
    requires WellSpelled(s) && IsConversion(c)
    ensures var format, m := before + Spelling(s) + [c] + after, |before| + |Spelling(s)|;
      DirectiveFrom(format, |before|, args) == Meaning(s, m, args) && At(format, m) == c
  {
    hide DirectiveFrom, Meaning, PartsAt, WellSpelled;
    var j := |before| + |s.flags|;
    var k := j + |s.width|;
    var l := k + |Point(s)|;
    Parts(before, s, c, after);
    PartsRead(before + Spelling(s) + [c] + after, s, c, |before|, j, k, l, l + |s.length|, args);
  }

  lemma PartsRead(format: text, s: Spelled, c: char, i: nat, j: nat, k: nat, l: nat, m: nat, args: seq<Arg>)
    requires WellSpelled(s) && PartsAt(format, s, c, i, j, k, l, m)
    ensures DirectiveFrom(format, i, args) == Meaning(s, m, args) && At(format, m) == c
  {
    hide FlagsFrom, WidthFrom, PrecFrom, LengthFrom, Number, WellSpelled, Joined;
    FlagsPart(format, s, c, i, j, k, l, m);
    var f := Joined(NO_FLAGS, s.flags);
    WidthRead(format, s, c, i, j, k, l, m, f, args);
    JoinedPlain(s.flags);
    PrecRead(format, s, c, i, j, k, l, m, WidthFrom(format, j, f, args));
    LengthRead(format, s, c, i, j, k, l, m);
  }

  lemma JoinedPlain(s: text)
    ensures !Joined(NO_FLAGS, s).precise
  {
  }

  lemma FlagsPart(format: text, s: Spelled, c: char, i: nat, j: nat, k: nat, l: nat, m: nat)
    requires WellSpelled(s) && PartsAt(format, s, c, i, j, k, l, m)
    ensures FlagsFrom(format, i, NO_FLAGS) == (Joined(NO_FLAGS, s.flags), j)
  {
    Ends(format, s, c, i, j, k, l, m);
    assert forall p :: i <= p < j ==> format[p] == format[i..j][p - i];
    FlagsRead(format, i, j, NO_FLAGS);
  }

  /** A format of one spelled integer directive prints the conversion of its parts; and that is the
      ISO field, or the ISO alternative form, exactly under the conditions found for those. */
  lemma SpelledPrints(s: Spelled, c: char, v: int)
    requires WellSpelled(s) && IsInteger(c)
    ensures var d := Meaning(s, 1 + |Spelling(s)|, [Num(v)]);
      && Render("%" + Spelling(s) + [c], 0, [Num(v)]) == Output(Integer(c, d, v))
      && (PrintfIso.Plain(c, d) ==> (Integer(c, d, v) == PrintfIso.IsoConversion(c, d, v) <==> PrintfIso.PrintsIso(c, d, v)))
      && (PrintfHash.IsHashed(c, d) ==> Value(c, d.bits, v) >= 0)
      && (PrintfHash.IsHashed(c, d) ==>
        (Integer(c, d, v) == PrintfHash.IsoHashConversion(c, d, v) <==> PrintfHash.PrintsHashConversion(c, d, v)))
    ensures PrintfIso.Plain(c, Meaning(s, 1 + |Spelling(s)|, [Num(v)])) <==> ('#' in s.flags ==> Base(c) == 10)
    ensures PrintfHash.IsHashed(c, Meaning(s, 1 + |Spelling(s)|, [Num(v)])) <==> '#' in s.flags && (c == 'x' || c == 'X' || c == 'o')
  {
    hide DirectiveFrom, Integer, PrintfIso.IsoConversion, PrintfIso.PrintsIso, Number, Spelling;
    hide PrintfHash.IsoHashConversion, PrintfHash.PrintsHashConversion;
    var format, m, args := "%" + Spelling(s) + [c], 1 + |Spelling(s)|, [Num(v)];
    SpelledIsRead("%", s, c, [], args);
    assert "%" + Spelling(s) + [c] + [] == format;
    var d := Meaning(s, m, args);
    NothingIsZero();
    if PrintfIso.Plain(c, d) { PrintfIso.ConversionIsIso(c, d, v); }
    if PrintfHash.IsHashed(c, d) { PrintfHash.HashConversionIsIso(c, d, v); }
    assert Convert(c, d) == Piece(Integer(c, d, v), []);
    assert Render(format, m + 1, []) == Output([]);
    assert Integer(c, d, v) + [] == Integer(c, d, v);
  }

  lemma NothingIsZero()
    ensures Number([], 10) == 0
  {
  }
}
