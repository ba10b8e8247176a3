/** Fixed-width token primitives of the packet decoders (`src/nom.rs`), together with the
    three nom combinators the grammars use directly (`char`, `anychar`, `all_consuming`). */
module Nom {
  import opened Wrappers

  /** Rust's `u16` and `u64` value ranges. */
  type u16 = x: int | 0 <= x < 0x1_0000
  type u64 = x: int | 0 <= x < 0x1_0000_0000_0000_0000

  // ---------------------------------------------------------------------------
  // Character classes
  // ---------------------------------------------------------------------------

  /** `char::is_ascii_digit`. */
  predicate IsAsciiDigit(c: char) {
    '0' <= c <= '9'
  }

  /** The characters `alphanumeric` accepts: letters and digits, a space or an asterisk.
      Only the ASCII letters and digits are admitted here; see README for the others. */
  predicate IsAllowed(c: char) {
    ('a' <= c <= 'z') || ('A' <= c <= 'Z') || IsAsciiDigit(c) || c == ' ' || c == '*'
  }

  /** `char::is_whitespace`: the Unicode White_Space property. */
  predicate IsWhitespace(c: char) {
    var k := c as int;
    (0x9 <= k <= 0xD) || k == 0x20 || k == 0x85 || k == 0xA0 || k == 0x1680
    || (0x2000 <= k <= 0x200A) || k == 0x2028 || k == 0x2029 || k == 0x202F
    || k == 0x205F || k == 0x3000
  }

  predicate AllDigits(s: seq<char>) {
    forall i :: 0 <= i < |s| ==> IsAsciiDigit(s[i])
  }

  predicate AllAllowed(s: seq<char>) {
    forall i :: 0 <= i < |s| ==> IsAllowed(s[i])
  }

  /** The only whitespace character that `alphanumeric` lets through is the space. */
  lemma AllowedWhitespaceIsSpace(c: char)
    requires IsAllowed(c) && IsWhitespace(c)
    ensures c == ' '
  {
  }

  // ---------------------------------------------------------------------------
  // Decimal digits
  // ---------------------------------------------------------------------------

  function Pow10(n: nat): (r: nat)
    ensures r > 0
  {
    if n == 0 then 1 else 10 * Pow10(n - 1)
  }

  /** `char::to_digit(10)`: the digit's value, or nothing for any other character. */
  function ToDigit(c: char): (r: Option<nat>)
    ensures r.Some? <==> IsAsciiDigit(c)
    ensures r.Some? ==> r.value < 10 && DigitChar(r.value) == c
  {
    if IsAsciiDigit(c) then Some(c as int - '0' as int) else None
  }

  /** The character that prints a digit value (encoder side, for specification only). */
  function DigitChar(d: nat): (c: char)
    requires d < 10
  {
    ('0' as int + d) as char
  }

  /** The value of a run of ASCII digits read as a decimal numeral: the reference
      definition, which peels off the least significant (last) digit. */
  ghost function DecimalValue(ds: seq<char>): nat
    requires AllDigits(ds)
  {
    if |ds| == 0 then 0
    else 10 * DecimalValue(ds[..|ds| - 1]) + (ds[|ds| - 1] as int - '0' as int)
  }

  /** The `n`-character, zero-padded decimal numeral of `v` (encoder side, for
      specification only). */
  function DecimalDigits(v: nat, n: nat): (ds: seq<char>)
    ensures |ds| == n && AllDigits(ds)
    decreases n, v
  {
    if n == 0 then [] else DecimalDigits(v / 10, n - 1) + [DigitChar(v % 10)]
  }

  /** Printing a value that fits in `n` digits and reading the digits back gives the value. */
  lemma {:induction false} DecimalDigitsValue(v: nat, n: nat)
    requires v < Pow10(n)
    ensures DecimalValue(DecimalDigits(v, n)) == v
  {
    if n > 0 {
      var ds := DecimalDigits(v, n);
      DecimalDigitsValue(v / 10, n - 1);
      assert ds[..n - 1] == DecimalDigits(v / 10, n - 1);
    }
  }

  /** Reading `n` digits gives a value below 10^n, and printing it back to width `n`
      gives the same digits. */
  lemma {:induction false} DecimalValueDigits(ds: seq<char>)
    requires AllDigits(ds)
    ensures DecimalValue(ds) < Pow10(|ds|)
    ensures DecimalDigits(DecimalValue(ds), |ds|) == ds
  {
    if |ds| > 0 {
      var init := ds[..|ds| - 1];
      DecimalValueDigits(init);
      var v := DecimalValue(ds);
      var d := ds[|ds| - 1] as int - '0' as int;
      assert v / 10 == DecimalValue(init) && v % 10 == d;
    }
  }

  /** Reading a numeral whose first digit is `c`: the leading digit weighs 10^|t|. */
  lemma {:induction false} DecimalValueCons(c: char, t: seq<char>)
    requires IsAsciiDigit(c) && AllDigits(t)
    ensures DecimalValue([c] + t) == (c as int - '0' as int) * Pow10(|t|) + DecimalValue(t)
  {
    if |t| > 0 {
      var init, e := t[..|t| - 1], t[|t| - 1] as int - '0' as int;
      var d, p := c as int - '0' as int, Pow10(|t| - 1);
      assert ([c] + t)[..|t|] == [c] + init;
      assert DecimalValue([c] + t) == 10 * DecimalValue([c] + init) + e;
      DecimalValueCons(c, init);
      assert DecimalValue(t) == 10 * DecimalValue(init) + e;
      MulShift(d, p);
    }
  }

  // ---------------------------------------------------------------------------
  // Single-character parsers
  // ---------------------------------------------------------------------------

  /** `digit` (src/nom.rs:3-8): one ASCII digit. */
  function Digit(s: seq<char>): (r: Result<char>)
    ensures r.Success? ==> IsAsciiDigit(r.value) && s == [r.value] + r.rest
    ensures |s| > 0 && IsAsciiDigit(s[0]) ==> r.Success?
  {
    if |s| > 0 && IsAsciiDigit(s[0]) then Success(s[1..], s[0]) else Failure
  }

  /** `alphanumeric` (src/nom.rs:10-15): one letter, digit, space or asterisk. */
  function Alphanumeric(s: seq<char>): (r: Result<char>)
    ensures r.Success? ==> IsAllowed(r.value) && s == [r.value] + r.rest
    ensures |s| > 0 && IsAllowed(s[0]) ==> r.Success?
  {
    if |s| > 0 && IsAllowed(s[0]) then Success(s[1..], s[0]) else Failure
  }

  /** nom's `char(c)`: exactly the character `c`. */
  function Char(c: char, s: seq<char>): (r: Result<char>)
    ensures r.Success? <==> |s| > 0 && s[0] == c
    ensures r.Success? ==> r.value == c && s == [c] + r.rest
  {
    if |s| > 0 && s[0] == c then Success(s[1..], c) else Failure
  }

  /** nom's `anychar`: any one character, failing only on empty input. */
  function AnyChar(s: seq<char>): (r: Result<char>)
    ensures r.Success? <==> |s| > 0
    ensures r.Success? ==> s == [r.value] + r.rest
  {
    if |s| > 0 then Success(s[1..], s[0]) else Failure
  }

  /** `char(c)` reads back a `c` put in front of any input. */
  lemma CharCons(c: char, rest: seq<char>)
    ensures Char(c, [c] + rest) == Success(rest, c)
  {
    assert ([c] + rest)[1..] == rest;
  }

  /** `anychar` reads back whatever character is put in front of any input. */
  lemma AnyCharCons(c: char, rest: seq<char>)
    ensures AnyChar([c] + rest) == Success(rest, c)
  {
    assert ([c] + rest)[1..] == rest;
  }

  /** nom's `all_consuming` followed by `finish`: a parse counts only when it left no
      input behind. */
  function AllConsuming<T>(r: Result<T>): (o: Option<T>)
    ensures o.Some? <==> r.Success? && |r.rest| == 0
    ensures o.Some? ==> o.value == r.value
  {
    match r
    case Success(rest, v) => if rest == [] then Some(v) else None
    case Failure => None
  }

  // ---------------------------------------------------------------------------
  // digit_n
  // ---------------------------------------------------------------------------

  /** `fold_many_m_n(n, n, digit, || acc, |acc, c| acc * 10 + c.to_digit(10).unwrap_or(0))`:
      exactly `n` repetitions of `digit`, folded from the left. */
  function DigitFold(n: nat, s: seq<char>, acc: nat): (r: Result<nat>)
    ensures r.Success? <==> n <= |s| && AllDigits(s[..n])
    ensures r.Success? ==> r.rest == s[n..]
    decreases n, s
  {
    if n == 0 then Success(s, acc)
    else
      match Digit(s)
      case Failure => Failure
      case Success(rest, c) =>
        var r := DigitFold(n - 1, rest, acc * 10 + ToDigit(c).UnwrapOr(0));
        assert n <= |s| ==> s[..n] == [s[0]] + rest[..n - 1];
        r
  }

  /** The fold's value is the accumulator shifted by `n` places plus the decimal reading
      of the `n` digits; in particular the `unwrap_or(0)` fallback never contributes. */
  lemma {:induction false} DigitFoldValue(n: nat, s: seq<char>, acc: nat)
    requires n <= |s| && AllDigits(s[..n])
    ensures DigitFold(n, s, acc).value == acc * Pow10(n) + DecimalValue(s[..n])
  {
    if n > 0 {
      var c, rest := s[0], s[1..];
      var d := c as int - '0' as int;
      var acc' := acc * 10 + d;
      assert Digit(s) == Success(rest, c);
      assert ToDigit(c).UnwrapOr(0) == d;
      assert DigitFold(n, s, acc) == DigitFold(n - 1, rest, acc');
      assert rest[..n - 1] == s[1..n];
      DigitFoldValue(n - 1, rest, acc');
      assert s[..n] == [c] + rest[..n - 1];
      DecimalValueCons(c, rest[..n - 1]);
      FoldStep(acc, d, Pow10(n - 1), DecimalValue(rest[..n - 1]),
        Pow10(n), DecimalValue(s[..n]));
    }
  }

  /** One round of the fold, as arithmetic: shifting `acc * 10 + d` by `p` places and
      adding the remaining digits' value `vr` equals shifting `acc` by `q = 10 * p` places
      and adding the value `v` of all digits. */
  lemma FoldStep(acc: int, d: int, p: int, vr: int, q: int, v: int)
    requires q == 10 * p && v == d * p + vr
    ensures (acc * 10 + d) * p + vr == acc * q + v
  {
    MulDistributes(acc, d, p, vr);
  }

  lemma MulShift(d: int, p: int)
    ensures 10 * (d * p) == d * (10 * p)
  {
  }

  lemma MulDistributes(a: int, d: int, p: int, v: int)
    ensures (a * 10 + d) * p + v == a * (10 * p) + (d * p + v)
  {
  }

  /** `digit_n(n)` (src/nom.rs:17-19): exactly `n` ASCII digits, read as a decimal
      numeral. The value printed back to width `n` is exactly the consumed digits. */
  function DigitN(n: nat, s: seq<char>): (r: Result<nat>)
    ensures r.Success? <==> n <= |s| && AllDigits(s[..n])
    ensures r.Success? ==> r.value < Pow10(n) && s == DecimalDigits(r.value, n) + r.rest
  {
    var r := DigitFold(n, s, 0);
    if r.Success? then
      DigitFoldValue(n, s, 0);
      DecimalValueDigits(s[..n]);
      assert s == s[..n] + s[n..];
      r
    else
      r
  }

  /** Decoding the printed numeral of a value below 10^n gives back that value and
      leaves whatever follows untouched. */
  lemma DigitNDecimalDigits(v: nat, n: nat, rest: seq<char>)
    requires v < Pow10(n)
    ensures DigitN(n, DecimalDigits(v, n) + rest) == Success(rest, v)
  {
    var s := DecimalDigits(v, n) + rest;
    assert s[..n] == DecimalDigits(v, n);
    assert s[n..] == rest;
    DigitFoldValue(n, s, 0);
    DecimalDigitsValue(v, n);
  }

  /** `digit_n(n)` looks at nothing past position `n`: appending characters to an input of
      at least `n` characters keeps the outcome and the value. */
  lemma DigitNPrefix(n: nat, s: seq<char>, t: seq<char>)
    requires n <= |s|
    ensures DigitN(n, s + t).Success? == DigitN(n, s).Success?
    ensures DigitN(n, s).Success? ==>
      DigitN(n, s + t) == Success(DigitN(n, s).rest + t, DigitN(n, s).value)
  {
    assert (s + t)[..n] == s[..n];
    assert (s + t)[n..] == s[n..] + t;
    if DigitN(n, s).Success? {
      DigitFoldValue(n, s, 0);
      DigitFoldValue(n, s + t, 0);
    }
  }

  /** Stand-in for `u16_n`, which src/home.rs:13 and src/multi.rs:12 import but which
      src/nom.rs does not define: `digit_n` at a width whose values fit a `u16`. */
  function U16N(n: nat, s: seq<char>): (r: Result<u16>)
    requires n <= 4
    ensures r.Success? <==> n <= |s| && AllDigits(s[..n])
    ensures r.Success? ==> r.value < Pow10(n) && s == DecimalDigits(r.value, n) + r.rest
  {
    match DigitN(n, s)
    case Failure => Failure
    case Success(rest, v) => Pow10Monotone(n, 4); Success(rest, v)
  }

  /** Stand-in for `u64_n` (missing like `u16_n`): `digit_n` at a width whose values fit
      a `u64`. */
  function U64N(n: nat, s: seq<char>): (r: Result<u64>)
    requires n <= 19
    ensures r.Success? <==> n <= |s| && AllDigits(s[..n])
    ensures r.Success? ==> r.value < Pow10(n) && s == DecimalDigits(r.value, n) + r.rest
  {
    match DigitN(n, s)
    case Failure => Failure
    case Success(rest, v) =>
      Pow10Monotone(n, 19);
      Pow10Values();
      Success(rest, v)
  }

  /** `U16N` reads back the printed numeral of any value below 10^n. */
  lemma U16NDecimalDigits(v: u16, n: nat, rest: seq<char>)
    requires n <= 4 && v < Pow10(n)
    ensures U16N(n, DecimalDigits(v, n) + rest) == Success(rest, v)
  {
    DigitNDecimalDigits(v, n, rest);
  }

  /** `U64N` reads back the printed numeral of any value below 10^n. */
  lemma U64NDecimalDigits(v: u64, n: nat, rest: seq<char>)
    requires n <= 19 && v < Pow10(n)
    ensures U64N(n, DecimalDigits(v, n) + rest) == Success(rest, v)
  {
    DigitNDecimalDigits(v, n, rest);
  }

  /** 10^19 is below 2^64, so every 19-digit numeral fits a `u64`. */
  lemma Pow10Values()
    ensures Pow10(4) == 10_000
    ensures Pow10(14) == 100_000_000_000_000
    ensures Pow10(19) == 10_000_000_000_000_000_000
  {
    assert Pow10(2) == 100;
    assert Pow10(4) == 10_000;
    assert Pow10(6) == 1_000_000;
    assert Pow10(8) == 100_000_000;
    assert Pow10(10) == 10_000_000_000;
    assert Pow10(12) == 1_000_000_000_000;
    assert Pow10(14) == 100_000_000_000_000;
    assert Pow10(16) == 10_000_000_000_000_000;
    assert Pow10(18) == 1_000_000_000_000_000_000;
  }

  lemma {:induction false} Pow10Monotone(m: nat, n: nat)
    requires m <= n
    ensures Pow10(m) <= Pow10(n)
  {
    if m < n {
      Pow10Monotone(m, n - 1);
    }
  }

  // ---------------------------------------------------------------------------
  // alphanumeric_n
  // ---------------------------------------------------------------------------

  /** `fold_many_m_n(n, n, alphanumeric, String::new, |s, c| { s.push(c); s })`, with the
      string built so far as the accumulator; every round pushes one character, so its
      length is the count of rounds done. */
  function AlphanumericFold(n: nat, s: seq<char>, acc: seq<char>): (r: Result<seq<char>>)
    requires |acc| <= n
    ensures r.Success? <==> n - |acc| <= |s| && AllAllowed(s[..n - |acc|])
    ensures r.Success? ==> r.rest == s[n - |acc|..] && r.value == acc + s[..n - |acc|]
    decreases n - |acc|
  {
    if |acc| == n then Success(s, acc)
    else
      match Alphanumeric(s)
      case Failure => Failure
      case Success(rest, c) =>
        var r := AlphanumericFold(n, rest, acc + [c]);
        assert n - |acc| <= |s| ==> s[..n - |acc|] == [c] + rest[..n - |acc| - 1];
        r
  }

  /** `alphanumeric_n(n)` (src/nom.rs:21-28): exactly the first `n` characters, unchanged
      and in order, when all of them are allowed. */
  function AlphanumericN(n: nat, s: seq<char>): (r: Result<seq<char>>)
    ensures r.Success? <==> n <= |s| && AllAllowed(s[..n])
    ensures r.Success? ==> |r.value| == n && s == r.value + r.rest
  {
    AlphanumericFold(n, s, [])
  }

  /** The push loop of `alphanumeric_n` as the source runs it: `n` rounds, each scanning
      one allowed character and appending it to the string built so far. */
  method CollectAlphanumeric(n: nat, s: seq<char>) returns (r: Result<seq<char>>)
    ensures r == AlphanumericN(n, s)
  {
    var acc: seq<char> := [];
    var input := s;
    var i := 0;
    while i < n
      invariant i <= n && i <= |s|
      invariant input == s[i..] && acc == s[..i]
      invariant AllAllowed(s[..i])
    {
      match Alphanumeric(input)
      case Failure =>
        return Failure;
      case Success(rest, c) =>
        acc := acc + [c];
        input := rest;
        i := i + 1;
        assert s[..i] == s[..i - 1] + [s[i - 1]];
    }
    return Success(input, acc);
  }

  /** `alphanumeric_n(n)` looks at nothing past position `n` either. */
  lemma AlphanumericNPrefix(n: nat, s: seq<char>, t: seq<char>)
    requires n <= |s|
    ensures AlphanumericN(n, s + t).Success? == AlphanumericN(n, s).Success?
    ensures AlphanumericN(n, s).Success? ==>
      AlphanumericN(n, s + t) == Success(AlphanumericN(n, s).rest + t, AlphanumericN(n, s).value)
  {
    assert (s + t)[..n] == s[..n];
    assert (s + t)[n..] == s[n..] + t;
  }

  /** Decoding `n` allowed characters gives them back and leaves what follows. */
  lemma AlphanumericNSpan(n: nat, t: seq<char>, rest: seq<char>)
    requires |t| == n && AllAllowed(t)
    ensures AlphanumericN(n, t + rest) == Success(rest, t)
  {
    var s := t + rest;
    assert s[..n] == t;
    var r := AlphanumericN(n, s);
    assert r.value == s[..n];
  }

  // ---------------------------------------------------------------------------
  // trim_end
  // ---------------------------------------------------------------------------

  /** `str::trim_end`: drop every trailing whitespace character. */
  function TrimEnd(t: seq<char>): (r: seq<char>)
    ensures |r| <= |t| && r == t[..|r|]
    ensures forall i :: |r| <= i < |t| ==> IsWhitespace(t[i])
    ensures |r| == 0 || !IsWhitespace(r[|r| - 1])
  {
    if |t| > 0 && IsWhitespace(t[|t| - 1]) then TrimEnd(t[..|t| - 1]) else t
  }

  /** A text field as a decoded record holds it: at most `w` allowed characters and no
      trailing space. */
  predicate IsFieldText(t: seq<char>, w: nat) {
    |t| <= w && AllAllowed(t) && (|t| == 0 || t[|t| - 1] != ' ')
  }

  /** Trimming a fully scanned span keeps a valid field text that pads back to the span:
      the only characters trimmed are spaces. */
  lemma TrimEndPadEnd(x: seq<char>)
    requires AllAllowed(x)
    ensures IsFieldText(TrimEnd(x), |x|)
    ensures PadEnd(TrimEnd(x), |x|) == x
  {
    var r := TrimEnd(x);
    assert IsWhitespace(' ');
    assert forall i :: 0 <= i < |r| ==> r[i] == x[i];
    forall i | |r| <= i < |x|
      ensures x[i] == ' '
    {
      AllowedWhitespaceIsSpace(x[i]);
    }
    var p := PadEnd(r, |x|);
    forall i | 0 <= i < |x|
      ensures p[i] == x[i]
    {
      if i < |r| {
        assert p[i] == p[..|r|][i];
      }
    }
  }

  /** Padding a valid field text with spaces and trimming the result gives it back. */
  lemma PadEndTrimEnd(t: seq<char>, w: nat)
    requires IsFieldText(t, w)
    ensures TrimEnd(PadEnd(t, w)) == t
  {
    var x := PadEnd(t, w);
    var r := TrimEnd(x);
    assert |t| > 0 ==> x[|t| - 1] == t[|t| - 1] && !IsWhitespace(x[|t| - 1]);
    assert |r| == |t|;
  }

  /** `t` padded with spaces to width `w` (encoder side, for specification only). */
  function PadEnd(t: seq<char>, w: nat): (r: seq<char>)
    requires |t| <= w
    ensures |r| == w && r[..|t|] == t
    ensures forall i :: |t| <= i < w ==> r[i] == ' '
  {
    t + seq(w - |t|, _ => ' ')
  }

  /** The leading seven digits of the serial number used in the examples. */
  lemma SerialLeadingDigits()
    ensures DecimalDigits(8015680, 7) == "8015680"
  {
    assert DecimalDigits(8, 1) == "8";
    assert DecimalDigits(80, 2) == "80";
    assert DecimalDigits(801, 3) == "801";
    assert DecimalDigits(8015, 4) == "8015";
    assert DecimalDigits(80156, 5) == "80156";
    assert DecimalDigits(801568, 6) == "801568";
  }

  /** The numerals of the repository's test packets: user 3 and scanner 80156809150025. */
  lemma TestNumerals()
    ensures DecimalDigits(3, 4) == "0003"
    ensures DecimalDigits(80156809150025, 14) == "80156809150025"
  {
    SerialLeadingDigits();
    assert DecimalDigits(80156809, 8) == "80156809";
    assert DecimalDigits(801568091, 9) == "801568091";
    assert DecimalDigits(8015680915, 10) == "8015680915";
    assert DecimalDigits(80156809150, 11) == "80156809150";
    assert DecimalDigits(801568091500, 12) == "801568091500";
    assert DecimalDigits(8015680915002, 13) == "8015680915002";
  }

  /** `s` with the character at each of the given separator positions overwritten by
      `c`: the same packet written with another separator. */
  function ReplaceSeparators(s: seq<char>, c: char, indices: set<nat>): (t: seq<char>)
    ensures |t| == |s|
  {
    seq(|s|, i requires 0 <= i < |s| => if i in indices then c else s[i])
  }
}
