/** Numbers as text: printnum of libs/printfmt.c and strtol of libs/string.c. */
module NumText {
  import opened Div

  const LONG_MAX := 0x7FFF_FFFF_FFFF_FFFF
  const WORDS := 0x1_0000_0000_0000_0000

  /** A number as a 64-bit long: two's complement, wrapping around. */
  function ToLong(v: int): (r: int)
    ensures -LONG_MAX - 1 <= r <= LONG_MAX && (r == v <==> -LONG_MAX - 1 <= v <= LONG_MAX)
  {
    var w := v % WORDS;
    if w <= LONG_MAX then w else w - WORDS
  }

  lemma LongShift(v: int, n: int)
    ensures ToLong(v + n * WORDS) == ToLong(v)
  {
    DivUnique(v + n * WORDS, WORDS, v / WORDS + n, v % WORDS);
  }

  /** How many times 2^64 was taken off. */
  function Wrapped(v: int): (n: int)
    ensures ToLong(v) == v + n * WORDS
  {
    if v % WORDS <= LONG_MAX then -(v / WORDS) else -(v / WORDS) - 1
  }

  lemma MulWrapped(v: int, n: int, b: int)
    ensures (v + n * WORDS) * b == v * b + (n * b) * WORDS
  {
    assert (n * WORDS) * b == (n * b) * WORDS;
  }

  /** Reducing a long on the way does not change where it ends. */
  lemma LongStep(v: int, b: int, d: int)
    ensures ToLong(ToLong(v) * b + d) == ToLong(v * b + d)
    ensures ToLong(-ToLong(v)) == ToLong(-v)
  {
    hide ToLong;
    var n := Wrapped(v);
    MulWrapped(v, n, b);
    LongShift(v * b + d, n * b);
    LongShift(-v, -n);
  }

  /** The digit characters. */
  function Digit(d: nat): char
    requires d < 16
  {
    "0123456789abcdef"[d]
  }

  /** The value of a character as a digit, 36 for one that is none. */
  function Dig(c: char): (d: nat)
    ensures d <= 36
  {
    if '0' <= c <= '9' then (c as int) - ('0' as int)
    else if 'a' <= c <= 'z' then (c as int) - ('a' as int) + 10
    else if 'A' <= c <= 'Z' then (c as int) - ('A' as int) + 10
    else 36
  }

  predicate AllDigits(s: string, base: nat) {
    forall c :: c in s ==> Dig(c) < base
  }

  /** The number a run of digits stands for. */
  function Value(s: string, base: nat): nat {
    if s == "" then 0 else Value(s[..|s| - 1], base) * base + Dig(s[|s| - 1])
  }

  // ----- printing -----

  function Pads(n: int, c: char): (p: string)
    ensures |p| == if n > 0 then n else 0
    ensures forall i :: 0 <= i < |p| ==> p[i] == c
  {
    if n <= 0 then "" else seq(n, _ => c)
  }

  /** do_div: the quotient. */
  function Quot(n: nat, b: nat): (q: nat)
    requires b >= 2
    ensures n >= b ==> q < n
  {
    n / b
  }

  /** do_div: the remainder. */
  function Rem(n: nat, b: nat): (r: nat)
    requires b >= 2
    ensures r < b && (n < b ==> r == n)
  {
    n % b
  }

  lemma QuotRem(n: nat, b: nat)
    requires b >= 2
    ensures Quot(n, b) * b + Rem(n, b) == n && (n >= b ==> Quot(n, b) > 0)
  {
  }

  /** What printnum emits. */
  function Printed(num: nat, base: nat, width: int, padc: char): string
    requires 2 <= base <= 16
  {
    if num >= base then Printed(Quot(num, base), base, width - 1, padc) + [Digit(Rem(num, base))]
    else Pads(width - 1, padc) + [Digit(Rem(num, base))]
  }

  /** The digits of num, most significant first. */
  function Digits(num: nat, base: nat): string
    requires 2 <= base <= 16
  {
    (if num >= base then Digits(Quot(num, base), base) else "") + [Digit(Rem(num, base))]
  }

  lemma DigOfDigit(d: nat)
    requires d < 16
    ensures Dig(Digit(d)) == d && (d > 0 ==> Digit(d) != '0')
    ensures Digit(d) != 'x' && Digit(d) != ' ' && Digit(d) != '+' && Digit(d) != '-' && Digit(d) != '\t'
  {
    var c := Digit(d);
    if d < 10 {
      assert c as int == '0' as int + d;
    } else {
      assert c as int == 'a' as int + d - 10;
    }
  }

  /** The digits read back as num, and have no leading zero unless num is 0. */
  lemma {:induction false} DigitsValue(num: nat, base: nat)
    requires 2 <= base <= 16
    ensures Value(Digits(num, base), base) == num && AllDigits(Digits(num, base), base) && |Digits(num, base)| >= 1
    ensures num > 0 ==> Digits(num, base)[0] != '0'
    ensures 'x' !in Digits(num, base) && ' ' !in Digits(num, base) && '\t' !in Digits(num, base)
    ensures '+' !in Digits(num, base) && '-' !in Digits(num, base)
  {
    hide Quot, Rem, Dig, Digit;
    DigOfDigit(Rem(num, base));
    QuotRem(num, base);
    var s := Digits(num, base);
    if num >= base {
      DigitsValue(Quot(num, base), base);
      assert s[..|s| - 1] == Digits(Quot(num, base), base);
    } else {
      assert s == [Digit(num)] && s[..0] == "";
    }
  }

  /** printnum emits the digits, right-aligned in the width by pad characters. */
  lemma {:induction false} PrintedShape(num: nat, base: nat, width: int, padc: char)
    requires 2 <= base <= 16
    ensures Printed(num, base, width, padc) == Pads(width - |Digits(num, base)|, padc) + Digits(num, base)
    ensures |Printed(num, base, width, padc)| == if width > |Digits(num, base)| then width else |Digits(num, base)|
  {
    hide Quot, Rem, Digit, Pads;
    if num >= base {
      PrintedShape(Quot(num, base), base, width - 1, padc);
      var ds := Digits(Quot(num, base), base);
      assert Pads(width - 1 - |ds|, padc) + ds + [Digit(Rem(num, base))]
          == Pads(width - 1 - |ds|, padc) + (ds + [Digit(Rem(num, base))]);
    }
  }

  /** The characters a putch has been given so far. */
  class Sink {
    var text: string

    method Putch(c: char)
      modifies this
      ensures text == old(text) + [c]
    {
      text := text + [c];
    }

    /** printnum: the recursion prints the higher digits, the innermost call the padding. */
    method PrintNum(num: nat, base: nat, width: int, padc: char)
      requires 2 <= base <= 16
      modifies this
      ensures text == old(text) + Printed(num, base, width, padc)
      decreases num
    {
      hide Quot, Rem, Digit, Pads;
      var result, mod := Quot(num, base), Rem(num, base);
      if num >= base {
        PrintNum(result, base, width - 1, padc);
      } else {
        PrintPads(width, padc);
      }
      Putch(Digit(mod));
    }

    /** The padding loop of printnum. */
    method PrintPads(width: int, padc: char)
      modifies this
      ensures text == old(text) + Pads(width - 1, padc)
    {
      var w := width - 1;
      ghost var n := 0;
      while w > 0
        invariant n >= 0 && w == width - 1 - n && (n > 0 ==> w >= 0)
        invariant text == old(text) + Pads(n, padc)
      {
        assert Pads(n + 1, padc) == Pads(n, padc) + [padc];
        Putch(padc);
        w, n := w - 1, n + 1;
      }
    }
  }

  // ----- parsing -----

  /** The character at i of a NUL-terminated string. */
  function At(s: string, i: nat): char {
    if i < |s| then s[i] else '\0'
  }

  function SkipBlanks(s: string, i: nat): (j: nat)
    ensures j >= i && At(s, j) != ' ' && At(s, j) != '\t'
    decreases |s| - i
  {
    if i < |s| && (s[i] == ' ' || s[i] == '\t') then SkipBlanks(s, i + 1) else i
  }

  function SkipSign(s: string, i: nat): nat {
    if At(s, i) == '+' || At(s, i) == '-' then i + 1 else i
  }

  /** Where the digits start, and in which base: base 0 asks the prefix. */
  function SkipPrefix(s: string, i: nat, base: nat): (nat, nat) {
    if (base == 0 || base == 16) && At(s, i) == '0' && At(s, i + 1) == 'x' then (i + 2, 16)
    else if base == 0 && At(s, i) == '0' then (i + 1, 8)
    else if base == 0 then (i, 10)
    else (i, base)
  }

  /** The end of the run of digits from i on. */
  function DigitsEnd(s: string, i: nat, base: nat): (j: nat)
    requires base <= 36
    ensures i <= j && Dig(At(s, j)) >= base && (i <= |s| ==> j <= |s| && AllDigits(s[i..j], base))
    decreases |s| - i
  {
    if i < |s| && Dig(s[i]) < base then
      var j := DigitsEnd(s, i + 1, base);
      assert s[i..j] == [s[i]] + s[i + 1..j];
      j
    else i
  }

  /** What strtol returns: the number and the index of the first character it did not take. */
  function Parsed(s: string, base: nat): (int, nat)
    requires base <= 36
  {
    var i := SkipBlanks(s, 0);
    var j := SkipSign(s, i);
    var (k, b) := SkipPrefix(s, j, base);
    var e := DigitsEnd(s, k, b);
    var v: int := if k <= e <= |s| then Value(s[k..e], b) else 0;
    (ToLong(if At(s, i) == '-' then -v else v), e)
  }

  /** The digit loop of strtol from index k; the long wraps around unnoticed. */
  method ReadDigits(s: string, k: nat, base: nat) returns (val: int, end: nat)
    requires base <= 36 && k <= |s|
    ensures end == DigitsEnd(s, k, base) && k <= end <= |s| && val == ToLong(Value(s[k..end], base))
  {
    hide ToLong, Value;
    val := 0;
    assert s[k..k] == "" && Value("", base) == 0 by { NoDigits(base); }
    var p := k;
    while true
      invariant k <= p <= |s| && DigitsEnd(s, k, base) == DigitsEnd(s, p, base)
      invariant val == ToLong(Value(s[k..p], base))
      decreases |s| - p
    {
      var dig;
      var c := At(s, p);
      if '0' <= c <= '9' {
        dig := (c as int) - ('0' as int);
      } else if 'a' <= c <= 'z' {
        dig := (c as int) - ('a' as int) + 10;
      } else if 'A' <= c <= 'Z' {
        dig := (c as int) - ('A' as int) + 10;
      } else {
        break;
      }
      if dig >= base {
        break;
      }
      assert Dig(c) == dig && c == s[p];
      OneMore(s, k, p, base);
      LongStep(Value(s[k..p], base), base, dig);
      p, val := p + 1, ToLong(val * base + dig);
    }
    assert DigitsEnd(s, p, base) == p;
    end := p;
  }

  lemma NoDigits(base: nat)
    ensures Value("", base) == 0
  {
  }

  lemma OneMore(s: string, k: nat, p: nat, base: nat)
    requires k <= p < |s| && base <= 36 && Dig(s[p]) < base
    ensures Value(s[k..p + 1], base) == Value(s[k..p], base) * base + Dig(s[p])
    ensures DigitsEnd(s, p, base) == DigitsEnd(s, p + 1, base)
  {
    assert s[k..p + 1][..p - k] == s[k..p];
  }

  /** strtol. */
  method Strtol(s: string, base0: nat) returns (r: int, end: nat)
    requires base0 <= 36
    ensures (r, end) == Parsed(s, base0)
  {
    hide DigitsEnd, Value, Dig, ToLong;
    var base := base0;
    var neg := false;
    var p := 0;
    while At(s, p) == ' ' || At(s, p) == '\t'
      invariant 0 <= p <= |s| && SkipBlanks(s, 0) == SkipBlanks(s, p)
      decreases |s| - p
    {
      p := p + 1;
    }
    if At(s, p) == '+' {
      p := p + 1;
    } else if At(s, p) == '-' {
      p, neg := p + 1, true;
    }
    if (base == 0 || base == 16) && At(s, p) == '0' && At(s, p + 1) == 'x' {
      p, base := p + 2, 16;
    } else if base == 0 && At(s, p) == '0' {
      p, base := p + 1, 8;
    } else if base == 0 {
      base := 10;
    }
    var val;
    val, end := ReadDigits(s, p, base);
    LongStep(Value(s[p..end], base), 0, 0);
    r := if neg then ToLong(-val) else val;
  }

  // ----- which text stands for which number -----

  /** The prefix before the digits, for the base asked for, and the base it gives. */
  predicate Prefixed(prefix: string, tail: string, base0: nat, base: nat) {
    || (prefix == "0x" && (base0 == 0 || base0 == 16) && base == 16)
    || (prefix == "0" && base0 == 0 && base == 8 && At(tail, 0) != 'x')
    || (prefix == "" && base0 == 0 && base == 10 && At(tail, 0) != '0')
    || (prefix == "" && base0 == base != 0 && (base == 16 && At(tail, 0) == '0' ==> At(tail, 1) != 'x'))
  }

  lemma PrefixSkipped(s: string, i: nat, prefix: string, tail: string, base0: nat, base: nat)
    requires i <= |s| && s[i..] == prefix + tail && Prefixed(prefix, tail, base0, base)
    ensures SkipPrefix(s, i, base0) == (i + |prefix|, base)
  {
    assert forall k: nat :: k < |s| - i ==> s[i + k] == (prefix + tail)[k];
  }

  /** strtol on blanks, a sign, a prefix and digits: the value of the digits in the base of the
      prefix, negative after a minus sign, as a long. */
  lemma ParsedText(blanks: string, sign: string, prefix: string, ds: string, rest: string, base0: nat, base: nat)
    requires (forall c :: c in blanks ==> c == ' ' || c == '\t') && sign in ["", "+", "-"]
    requires base <= 36 && base0 <= 36 && Prefixed(prefix, ds + rest, base0, base)
    requires |prefix + ds| >= 1 && (forall c :: c in ds ==> Dig(c) < base) && Dig(At(rest, 0)) >= base
    ensures var v: int := Value(ds, base);
            Parsed(blanks + sign + prefix + ds + rest, base0) ==
            (ToLong(if sign == "-" then -v else v), |blanks + sign + prefix + ds|)
  {
    hide ToLong, Dig, Value, DigitsEnd, SkipBlanks, SkipSign, SkipPrefix, Prefixed;
    var s, tail := blanks + sign + prefix + ds + rest, prefix + ds + rest;
    var j := |blanks + sign|;
    var k := j + |prefix|;
    assert s == blanks + sign + tail && s[j..] == tail == prefix + (ds + rest);
    TailStart(prefix, ds, rest, base0, base);
    FrontSkipped(blanks, sign, tail);
    PrefixSkipped(s, j, prefix, ds + rest, base0, base);
    DigitsRun(s, k, ds, rest, base);
  }

  /** Blanks and sign are taken, and the character behind the blanks tells the sign. */
  lemma FrontSkipped(blanks: string, sign: string, tail: string)
    requires (forall c :: c in blanks ==> c == ' ' || c == '\t') && sign in ["", "+", "-"]
    requires At(tail, 0) !in [' ', '\t', '+', '-']
    ensures var s, i := blanks + sign + tail, |blanks|;
            && SkipBlanks(s, 0) == i && SkipSign(s, i) == i + |sign| && (At(s, i) == '-' <==> sign == "-")
  {
    var s, i := blanks + sign + tail, |blanks|;
    assert At(s, i) == At(sign + tail, 0);
    assert forall k :: 0 <= k < i ==> s[k] == blanks[k] && blanks[k] in blanks;
    SkipsPads(s, 0, i);
  }

  lemma DigitsRun(s: string, k: nat, ds: string, rest: string, base: nat)
    requires k <= |s| && s[k..] == ds + rest && base <= 36
    requires (forall c :: c in ds ==> Dig(c) < base) && Dig(At(rest, 0)) >= base
    ensures var e := k + |ds|; DigitsEnd(s, k, base) == e && e <= |s| && s[k..e] == ds
  {
    hide Dig;
    var e := k + |ds|;
    assert forall n :: k <= n < e ==> s[n] == (ds + rest)[n - k] && s[n] in ds;
    assert e < |s| ==> s[e] == (ds + rest)[|ds|];
    RunEnds(s, k, e, base);
  }

  /** The text after the sign begins neither with a blank nor with a sign. */
  lemma TailStart(prefix: string, ds: string, rest: string, base0: nat, base: nat)
    requires Prefixed(prefix, ds + rest, base0, base) && |prefix + ds| >= 1 && base <= 36
    requires forall c :: c in ds ==> Dig(c) < base
    ensures At(prefix + ds + rest, 0) !in [' ', '\t', '+', '-']
  {
    hide Dig;
    ZeroIsDigit();
    assert prefix == "" ==> (prefix + ds + rest)[0] == ds[0] && ds[0] in ds;
  }

  // ----- the round trip -----

  lemma {:induction false} SkipsPads(s: string, i: nat, j: nat)
    requires i <= j <= |s| && (forall k :: i <= k < j ==> s[k] == ' ' || s[k] == '\t')
    requires At(s, j) != ' ' && At(s, j) != '\t'
    ensures SkipBlanks(s, i) == j
    decreases j - i
  {
    if i < j {
      SkipsPads(s, i + 1, j);
    }
  }

  lemma {:induction false} RunEnds(s: string, i: nat, j: nat, base: nat)
    requires i <= j <= |s| && base <= 36 && (forall k :: i <= k < j ==> Dig(s[k]) < base) && Dig(At(s, j)) >= base
    ensures DigitsEnd(s, i, base) == j
    decreases j - i
  {
    if i < j {
      RunEnds(s, i + 1, j, base);
    }
  }

  /** Zeros in front do not change a value. */
  lemma {:induction false} LeadingZeros(n: int, s: string, base: nat)
    ensures Value(Pads(n, '0') + s, base) == Value(s, base)
    decreases |s|, n
  {
    var t := Pads(n, '0') + s;
    if s != "" {
      assert t[..|t| - 1] == Pads(n, '0') + s[..|s| - 1];
      LeadingZeros(n, s[..|s| - 1], base);
    } else if n > 0 {
      assert t[..|t| - 1] == Pads(n - 1, '0') + "";
      LeadingZeros(n - 1, "", base);
    }
  }

  /** strtol of what printnum emits, in the same base, stops exactly at the end, and returns
      the number printed exactly when that fits a long; the text may end there or go on with
      a character that is neither a letter nor a digit. */
  lemma PrintThenParse(num: nat, base: nat, width: int, padc: char, rest: string)
    requires base == 8 || base == 10 || base == 16
    requires padc == ' ' || padc == '0'
    requires Dig(At(rest, 0)) == 36
    ensures Parsed(Printed(num, base, width, padc) + rest, base) == (ToLong(num), |Printed(num, base, width, padc)|)
    ensures Parsed(Printed(num, base, width, padc) + rest, base).0 == num <==> num <= LONG_MAX
  {
    hide ToLong, Dig, Value, Digits, Pads, Printed, Parsed;
    var ds := Digits(num, base);
    var ps := Pads(width - |ds|, padc);
    PrintedShape(num, base, width, padc);
    DigitsValue(num, base);
    ZeroIsDigit();
    var blanks, digits := if padc == ' ' then ps else "", if padc == ' ' then ds else ps + ds;
    LeadingZeros(width - |ds|, ds, base);
    assert blanks + "" + "" + digits + rest == Printed(num, base, width, padc) + rest;
    NoHexPrefix(digits, rest);
    ParsedText(blanks, "", "", digits, rest, base, base);
  }

  lemma NoHexPrefix(ds: string, rest: string)
    requires |ds| >= 1 && 'x' !in ds && Dig(At(rest, 0)) == 36
    ensures At(ds + rest, 1) != 'x'
  {
    ZeroIsDigit();
    assert |ds| == 1 ==> At(ds + rest, 1) == At(rest, 0);
  }

  lemma ZeroIsDigit()
    ensures Dig('0') == 0 && Dig('x') == 33 && Dig(' ') == 36 && Dig('\t') == 36 && Dig('+') == 36 && Dig('-') == 36
  {
  }

  lemma MulGrows(a: nat, b: nat)
    requires b >= 1
    ensures a * b >= a
  {
    assert a * b == a + a * (b - 1);
  }

  /** A longer run of digits never stands for less. */
  lemma {:induction false} PrefixValue(s: string, k: nat, base: nat)
    requires k <= |s| && base >= 1
    ensures Value(s[..k], base) <= Value(s, base)
    decreases |s|
  {
    if k < |s| {
      var t := s[..|s| - 1];
      PrefixValue(t, k, base);
      assert t[..k] == s[..k];
      MulGrows(Value(t, base), base);
    } else {
      assert s[..k] == s;
    }
  }

  /** Parsing a printed number below 2^63 never leaves the range of a long on the way. */
  lemma NoOverflow(num: nat, base: nat, n: int, k: nat)
    requires num <= LONG_MAX && 2 <= base <= 16 && k <= |Pads(n, '0') + Digits(num, base)|
    ensures Value((Pads(n, '0') + Digits(num, base))[..k], base) <= LONG_MAX
  {
    DigitsValue(num, base);
    LeadingZeros(n, Digits(num, base), base);
    PrefixValue(Pads(n, '0') + Digits(num, base), k, base);
  }
}
