/** Printing numbers: the digit loop with its 30-byte buffer, and reading back what it
    printed. */
module NumberPrinter {
  import opened Arithmetic

  const BUFFER: nat := 30

  // ----- digits -----

  /** The digits of n, most significant first. */
  function Digits(n: nat, base: nat): (ds: seq<nat>)
    requires base >= 2
    ensures |ds| > 0 && forall i :: 0 <= i < |ds| ==> ds[i] < base
  {
    if n < base then [n]
    else
      QuotientSmaller(n, base);
      Digits(n / base, base) + [n % base]
  }

  function Pow(base: nat, k: nat): nat {
    if k == 0 then 1 else base * Pow(base, k - 1)
  }

  lemma DigitsStep(n: nat, base: nat)
    requires base >= 2
    ensures Digits(n, base) == if n < base then [n] else Digits(n / base, base) + [n % base]
  {
  }

  lemma PowStep(base: nat, k: nat)
    requires k > 0
    ensures Pow(base, k) == base * Pow(base, k - 1)
    ensures Pow(base, 1) == base
  {
    assert Pow(base, 0) == 1;
    assert Pow(base, 1) == base * Pow(base, 0);
  }

  /** n has at most k digits exactly when it is below the k-th power of the base. */
  lemma {:induction false} DigitCount(n: nat, base: nat, k: nat)
    requires base >= 2 && k > 0
    ensures |Digits(n, base)| <= k <==> n < Pow(base, k)
  {
    hide Digits, Pow;
    DigitsStep(n, base);
    PowStep(base, k);
    if k == 1 {
    } else if n >= base {
      DigitCount(n / base, base, k - 1);
      DivBelow(n, base, Pow(base, k - 1));
    } else {
      PowAtLeast(base, k);
    }
  }

  lemma DivBelow(n: nat, b: nat, p: nat)
    requires b > 0
    ensures n / b < p <==> n < b * p
  {
    var q, r := n / b, n % b;
    assert n == q * b + r;
    if q < p {
      MulMonotone(q + 1, p, b);
      assert (q + 1) * b == q * b + b && p * b == b * p;
    } else {
      MulMonotone(p, q, b);
      assert p * b == b * p;
    }
  }

  lemma {:induction false} PowAtLeast(base: nat, k: nat)
    requires base >= 2 && k > 0
    ensures Pow(base, k) >= base
  {
    if k > 1 {
      PowAtLeast(base, k - 1);
      MulMonotone(1, Pow(base, k - 1), base);
    }
  }

  /** From base 5 on, 28 digits hold every 64-bit value. */
  lemma TwentyEightDigits(base: nat)
    requires base >= 5
    ensures Pow(base, 28) >= U64
  {
    PowMonotone(5, base, 28);
    assert Pow(5, 4) == 625;
    PowAdd(5, 4, 4);
    PowAdd(5, 8, 8);
    PowAdd(5, 16, 8);
    PowAdd(5, 24, 4);
  }

  lemma {:induction false} PowMonotone(a: nat, b: nat, k: nat)
    requires a <= b
    ensures Pow(a, k) <= Pow(b, k)
  {
    if k > 0 {
      PowMonotone(a, b, k - 1);
      MulMonotone(a, b, Pow(a, k - 1));
      MulMonotone(Pow(a, k - 1), Pow(b, k - 1), b);
    }
  }

  lemma {:induction false} PowAdd(a: nat, j: nat, k: nat)
    ensures Pow(a, j + k) == Pow(a, j) * Pow(a, k)
  {
    if j > 0 {
      PowAdd(a, j - 1, k);
      var x, y := Pow(a, j - 1), Pow(a, k);
      assert a * (x * y) == (a * x) * y;
    }
  }

  // ----- characters -----

  function DigitChar(d: nat, capitalise: bool): char
    requires d < 20
  {
    if d < 10 then ('0' as int + d) as char
    else if capitalise then ('A' as int + (d - 10)) as char
    else ('a' as int + (d - 10)) as char
  }

  /** The characters that stand for the digits. */
  lemma DigitTable(d: nat, capitalise: bool)
    requires d < 20
    ensures DigitChar(d, capitalise) == (if capitalise then "0123456789ABCDEFGHIJ" else "0123456789abcdefghij")[d]
  {
    var upper, lower := "0123456789ABCDEFGHIJ", "0123456789abcdefghij";
    if d < 5 {
      assert d == 0 || d == 1 || d == 2 || d == 3 || d == 4;
    } else if d < 10 {
      assert d == 5 || d == 6 || d == 7 || d == 8 || d == 9;
    } else if d < 15 {
      assert d == 10 || d == 11 || d == 12 || d == 13 || d == 14;
    } else {
      assert d == 15 || d == 16 || d == 17 || d == 18 || d == 19;
    }
  }

  function DigitValue(c: char): nat {
    if '0' <= c <= '9' then c as int - '0' as int
    else if 'A' <= c <= 'J' then c as int - 'A' as int + 10
    else if 'a' <= c <= 'j' then c as int - 'a' as int + 10
    else 0
  }

  function Text(ds: seq<nat>, capitalise: bool): (s: string)
    requires forall i :: 0 <= i < |ds| ==> ds[i] < 20
    ensures |s| == |ds|
  {
    seq(|ds|, i requires 0 <= i < |ds| => DigitChar(ds[i], capitalise))
  }

  /** The value of a digit string, read from the left. */
  function ParseDigits(s: string, base: nat): nat {
    if s == [] then 0 else ParseDigits(s[..|s| - 1], base) * base + DigitValue(s[|s| - 1])
  }

  function Prefix(base: nat): string {
    if base == 16 then "0x" else if base == 2 then "0b" else ""
  }

  /** Reads a printed number back: an optional sign, the prefix of the base, digits. */
  function Parse(s: string, base: nat): int {
    if |s| > 0 && s[0] == '-' then 0 - ParseUnsigned(s[1..], base) as int else ParseUnsigned(s, base)
  }

  function ParseUnsigned(s: string, base: nat): nat {
    if Prefix(base) <= s then ParseDigits(s[|Prefix(base)|..], base) else 0
  }

  lemma TextLast(ds: seq<nat>, d: nat, capitalise: bool)
    requires d < 20 && forall i :: 0 <= i < |ds| ==> ds[i] < 20
    ensures Text(ds + [d], capitalise) == Text(ds, capitalise) + [DigitChar(d, capitalise)]
  {
  }

  lemma DigitReadsBack(d: nat, capitalise: bool)
    requires d < 20
    ensures DigitValue(DigitChar(d, capitalise)) == d
  {
  }

  lemma ParseLast(s: string, c: char, base: nat)
    ensures ParseDigits(s + [c], base) == ParseDigits(s, base) * base + DigitValue(c)
  {
    assert (s + [c])[..|s|] == s;
  }

  lemma {:induction false} ParseBack(n: nat, base: nat, capitalise: bool)
    requires 2 <= base <= 20
    ensures ParseDigits(Text(Digits(n, base), capitalise), base) == n
    decreases n
  {
    hide Text, ParseDigits, DigitChar, DigitValue;
    if n < base {
      SmallText(n, base, capitalise);
    } else {
      QuotientSmaller(n, base);
      ParseBack(n / base, base, capitalise);
      TextLast(Digits(n / base, base), n % base, capitalise);
      ParseLast(Text(Digits(n / base, base), capitalise), DigitChar(n % base, capitalise), base);
      DigitReadsBack(n % base, capitalise);
    }
  }

  lemma SmallText(n: nat, base: nat, capitalise: bool)
    requires n < base <= 20 && base >= 2
    ensures Text([n], capitalise) == [DigitChar(n, capitalise)] && ParseDigits(Text([n], capitalise), base) == n
  {
    DigitReadsBack(n, capitalise);
    ParseLast([], DigitChar(n, capitalise), base);
    assert [] + [DigitChar(n, capitalise)] == Text([n], capitalise);
  }

  lemma QuotientSmaller(n: nat, base: nat)
    requires 2 <= base <= n
    ensures 0 < n / base < n && n == n / base * base + n % base
  {
    DivBelow(n, base, 1);
    var q := n / base;
    assert n == q * base + n % base;
    MulMonotone(2, base, q);
    assert base * q == q * base;
  }

  /** No number but 0 starts with the digit 0. */
  lemma {:induction false} NoLeadingZero(n: nat, base: nat)
    requires base >= 2
    ensures Digits(n, base)[0] == 0 <==> n == 0
    decreases n
  {
    if n >= base {
      QuotientSmaller(n, base);
      NoLeadingZero(n / base, base);
      hide Digits;
      FirstDigit(n, base);
    }
  }

  lemma FirstDigit(n: nat, base: nat)
    requires base >= 2 && n >= base
    ensures Digits(n, base)[0] == Digits(n / base, base)[0]
  {
  }

  // ----- the printer -----

  /** The value printed: with is_signed, the two's complement reading. */
  function Meaning(val: nat, isSigned: bool): int
    requires val < U64
  {
    if isSigned && val >= U64 / 2 then val as int - U64 as int else val
  }

  function Magnitude(val: nat, isSigned: bool): nat
    requires val < U64
  {
    var m := Meaning(val, isSigned);
    if m < 0 then -m else m
  }

  /** All that is emitted: sign, prefix, digits. */
  function Emitted(val: nat, base: nat, isSigned: bool, capitalise: bool): string
    requires val < U64 && 2 <= base <= 20
  {
    (if Meaning(val, isSigned) < 0 then "-" else "") + Prefix(base) + Text(Digits(Magnitude(val, isSigned), base), capitalise)
  }

  /** What is emitted reads back as the value. */
  lemma EmittedParses(val: nat, base: nat, isSigned: bool, capitalise: bool)
    requires val < U64 && 2 <= base <= 20
    ensures Parse(Emitted(val, base, isSigned, capitalise), base) == Meaning(val, isSigned)
  {
    hide Digits, Text, ParseDigits, Magnitude, Meaning;
    var m, p := Magnitude(val, isSigned), Prefix(base);
    var t := Text(Digits(m, base), capitalise);
    ParseBack(m, base, capitalise);
    FirstIsDigit(m, base, capitalise);
    SignOf(val, isSigned);
    PrefixedParses(p, t, base);
    if Meaning(val, isSigned) < 0 {
      assert ("-" + p + t)[1..] == p + t;
    } else {
      assert "" + p + t == p + t;
    }
  }

  lemma PrefixedParses(p: string, t: string, base: nat)
    requires p == Prefix(base)
    ensures ParseUnsigned(p + t, base) == ParseDigits(t, base)
  {
    assert (p + t)[|p|..] == t;
  }

  lemma FirstIsDigit(m: nat, base: nat, capitalise: bool)
    requires 2 <= base <= 20
    ensures |Text(Digits(m, base), capitalise)| > 0 && Text(Digits(m, base), capitalise)[0] != '-'
  {
    hide Digits;
  }

  lemma SignOf(val: nat, isSigned: bool)
    requires val < U64
    ensures Meaning(val, isSigned) == if Meaning(val, isSigned) < 0 then 0 - Magnitude(val, isSigned) as int else Magnitude(val, isSigned)
  {
  }

  /** The digits, least significant first, as they lie in the buffer. */
  ghost predicate InBuffer(buf: seq<char>, i: nat, n: nat, rest: nat, base: nat, capitalise: bool)
    requires 2 <= base <= 20
  {
    && i <= |buf|
    && (rest > 0 || i == 0 ==> Text(Digits(n, base), capitalise) == Text(Digits(rest, base), capitalise) + Backwards(buf[..i]))
    && (rest == 0 && i > 0 ==> Text(Digits(n, base), capitalise) == Backwards(buf[..i]))
  }

  function Backwards(s: string): (r: string)
    ensures |r| == |s|
  {
    seq(|s|, k requires 0 <= k < |s| => s[|s| - 1 - k])
  }

  /** renderer_draw_number.  It emits nothing for a base above 20.  Otherwise it stays
      within its buffer (ok) exactly when the magnitude is below the 30th power of
      the base, and then it emits the sign, the prefix and the digits. */
  method DrawNumber(val: nat, base: nat, isSigned: bool, capitalise: bool) returns (ok: bool, written: nat, out: string)
    requires val < U64 && 2 <= base < 256
    ensures base > 20 ==> ok && out == "" && written == 0
    ensures base <= 20 ==> (ok <==> Magnitude(val, isSigned) < Pow(base, BUFFER))
    ensures base <= 20 && ok ==> out == Emitted(val, base, isSigned, capitalise)
    ensures base <= 20 && ok ==>
              DigitsBehind(out, (if isSigned && val >= 0x8000_0000_0000_0000 then "-" else "") +
                                (if base == 16 then "0x" else if base == 2 then "0b" else ""), written, capitalise)
    ensures base <= 20 && ok ==> written == |Digits(Magnitude(val, isSigned), base)| <= BUFFER
    ensures 5 <= base <= 20 ==> ok && written <= 28
  {
    if base > 20 { return true, 0, ""; }
    hide *;
    Sign(val, isSigned);
    out := "";
    var currentDiv: nat := val;
    if isSigned {
      if val < U64 / 2 {
        currentDiv := val;
      } else {
        out := out + "-";
        currentDiv := (U64 - 1 - val) + 1;
      }
    }
    ghost var sign := out;
    DigitCount(currentDiv, base, BUFFER);
    FitsFrom5(currentDiv, base);
    var buf := new char[30](_ => '0');
    ok, written := FillBuffer(buf, currentDiv, base, capitalise);
    if !ok { return; }
    if base == 16 { out := out + "0x"; }
    if base == 2 { out := out + "0b"; }
    PrefixIs(sign, base, out);
    out := EmitBuffer(buf, written, out);
    AllEmitted(val, base, isSigned, capitalise, sign, out);
  }

  lemma PrefixIs(sign: string, base: nat, out: string)
    requires if base == 16 then out == sign + "0x" else if base == 2 then out == sign + "0b" else out == sign
    ensures out == sign + Prefix(base)
  {
  }

  lemma AllEmitted(val: nat, base: nat, isSigned: bool, capitalise: bool, sign: string, out: string)
    requires val < U64 && 2 <= base <= 20
    requires sign == if isSigned && val >= U64 / 2 then "-" else ""
    requires out == sign + Prefix(base) + Text(Digits(Magnitude(val, isSigned), base), capitalise)
    ensures out == Emitted(val, base, isSigned, capitalise)
    ensures DigitsBehind(out, (if isSigned && val >= 0x8000_0000_0000_0000 then "-" else "") +
                              (if base == 16 then "0x" else if base == 2 then "0b" else ""),
                         |Digits(Magnitude(val, isSigned), base)|, capitalise)
  {
    hide Digits, Text, Magnitude, DigitsBehind, Meaning;
    Sign(val, isSigned);
    OnlyDigits(Magnitude(val, isSigned), base, capitalise, sign + Prefix(base));
  }

  /** The text is `head` and n digits behind it. */
  ghost predicate DigitsBehind(text: string, head: string, n: nat, capitalise: bool) {
    && head <= text && |text| == |head| + n
    && forall i :: |head| <= i < |text| ==>
         text[i] in if capitalise then "0123456789ABCDEFGHIJ" else "0123456789abcdefghij"
  }

  lemma OnlyDigits(n: nat, base: nat, capitalise: bool, head: string)
    requires 2 <= base <= 20
    ensures DigitsBehind(head + Text(Digits(n, base), capitalise), head, |Digits(n, base)|, capitalise)
  {
    hide Digits, DigitChar;
    forall i | 0 <= i < |Digits(n, base)|
      ensures Text(Digits(n, base), capitalise)[i] in if capitalise then "0123456789ABCDEFGHIJ" else "0123456789abcdefghij"
    {
      DigitTable(Digits(n, base)[i], capitalise);
    }
  }

  lemma Sign(val: nat, isSigned: bool)
    requires val < U64
    ensures Magnitude(val, isSigned) == if isSigned && val >= U64 / 2 then (U64 - 1 - val) + 1 else val
    ensures Meaning(val, isSigned) < 0 <==> isSigned && val >= U64 / 2
    ensures Magnitude(val, isSigned) < U64
  {
  }

  lemma FitsFrom5(n: nat, base: nat)
    requires n < U64 && 2 <= base
    ensures base >= 5 ==> |Digits(n, base)| <= 28
  {
    if base >= 5 {
      TwentyEightDigits(base);
      DigitCount(n, base, 28);
    }
  }

  /** The digit loop.  It gives up where the code would write behind the buffer. */
  method FillBuffer(buf: array<char>, n: nat, base: nat, capitalise: bool) returns (ok: bool, i: nat)
    requires buf.Length == BUFFER && 2 <= base <= 20
    modifies buf
    ensures ok <==> |Digits(n, base)| <= BUFFER
    ensures i <= BUFFER
    ensures ok ==> i == |Digits(n, base)| && Backwards(buf[..i]) == Text(Digits(n, base), capitalise)
  {
    hide Digits, Text, Backwards;
    i := 0;
    var currentDiv: nat := n;
    LoopStarts(buf[..], n, base, capitalise);
    while true
      invariant i <= BUFFER && (currentDiv > 0 || i == 0)
      invariant InBuffer(buf[..], i, n, currentDiv, base, capitalise)
      invariant i + |Digits(currentDiv, base)| == |Digits(n, base)|
      decreases BUFFER - i
    {
      if i == BUFFER { return false, i; }
      var div: nat := currentDiv / base;
      var mod: nat := currentDiv % base;
      OneDigit(buf[..], i, n, currentDiv, base, capitalise);
      DigitsLeft(currentDiv, base);
      ghost var after := buf[..][i := DigitChar(mod, capitalise)];
      currentDiv := div;
      if mod < 10 {
        buf[i] := ('0' as int + mod) as char;
      } else {
        if capitalise {
          buf[i] := ('A' as int + (mod - 10)) as char;
        } else {
          buf[i] := ('a' as int + (mod - 10)) as char;
        }
      }
      assert buf[..] == after;
      i := i + 1;
      if !(currentDiv > 0) { break; }
    }
    ok := true;
  }

  lemma LoopStarts(buf: seq<char>, n: nat, base: nat, capitalise: bool)
    requires 2 <= base <= 20
    ensures InBuffer(buf, 0, n, n, base, capitalise)
  {
    assert Backwards(buf[..0]) == "";
  }

  lemma DigitsLeft(rest: nat, base: nat)
    requires base >= 2
    ensures rest / base > 0 ==> |Digits(rest, base)| == 1 + |Digits(rest / base, base)|
    ensures rest / base == 0 ==> |Digits(rest, base)| == 1
  {
    DivBelow(rest, base, 1);
  }

  /** The loop that draws the buffer from its end. */
  method EmitBuffer(buf: array<char>, i: nat, head: string) returns (out: string)
    requires i <= buf.Length
    ensures out == head + Backwards(buf[..i])
  {
    out := head;
    var j := i;
    while j > 0
      invariant 0 <= j <= i
      invariant out == head + Backwards(buf[..i])[..i - j]
    {
      j := j - 1;
      out := out + [buf[j]];
    }
  }

  /** One turn of the digit loop. */
  lemma OneDigit(buf: seq<char>, i: nat, n: nat, rest: nat, base: nat, capitalise: bool)
    requires 2 <= base <= 20 && i < |buf| && InBuffer(buf, i, n, rest, base, capitalise) && (rest > 0 || i == 0)
    ensures InBuffer(buf[i := DigitChar(rest % base, capitalise)], i + 1, n, rest / base, base, capitalise)
  {
    hide Digits, Text, DigitChar, Backwards;
    var c := DigitChar(rest % base, capitalise);
    BackwardsMore(buf, i, c);
    DigitsStep(rest, base);
    DivBelow(rest, base, 1);
    if rest < base {
      SmallText(rest, base, capitalise);
    } else {
      TextLast(Digits(rest / base, base), rest % base, capitalise);
    }
  }

  lemma BackwardsMore(buf: seq<char>, i: nat, c: char)
    requires i < |buf|
    ensures Backwards(buf[i := c][..i + 1]) == [c] + Backwards(buf[..i])
  {
    assert buf[i := c][..i + 1] == buf[..i] + [c];
  }

  /** In base 2 the buffer does not hold every value: 2^30 has 31 digits. */
  lemma BinaryOverflows()
    ensures |Digits(0x4000_0000, 2)| > BUFFER
  {
    DigitCount(0x4000_0000, 2, 30);
    PowAdd(2, 15, 15);
    PowAdd(2, 10, 5);
    PowAdd(2, 5, 5);
    assert Pow(2, 5) == 32;
  }
}
