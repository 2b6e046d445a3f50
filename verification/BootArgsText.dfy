/** What the kernel's boot-argument routines mean on the text of the command line (Kernel/Platform/bootargs.c). */
module BootArgsText {
  import opened Common

  type Text = seq<char>

  predicate IsArgSep(c: char) {
    c == ' ' || c == '\0' || c == '\t'
  }

  /** A C string: no NUL inside. */
  predicate IsCString(s: Text) {
    '\0' !in s
  }

  // ---------- tokens ----------

  function TokenLength(s: Text): (n: nat)
    ensures n <= |s| && (forall i :: 0 <= i < n ==> !IsArgSep(s[i])) && (n < |s| ==> IsArgSep(s[n]))
  {
    if s == [] || IsArgSep(s[0]) then 0 else 1 + TokenLength(s[1..])
  }

  /** The words of a command line. */
  function Tokens(line: Text): seq<Text>
    decreases |line|
  {
    if line == [] then []
    else if IsArgSep(line[0]) then Tokens(line[1..])
    else [line[..TokenLength(line)]] + Tokens(line[TokenLength(line)..])
  }

  /** The part of a word before its first equal sign. */
  function NameLength(t: Text): (n: nat)
    ensures n <= |t| && '=' !in t[..n] && (n < |t| ==> t[n] == '=')
  {
    if t == [] || t[0] == '=' then 0
    else
      assert t[..1 + NameLength(t[1..])] == [t[0]] + t[1..][..NameLength(t[1..])];
      1 + NameLength(t[1..])
  }

  function Name(t: Text): Text {
    t[..NameLength(t)]
  }

  predicate IsFlag(t: Text) {
    t != [] && t[0] == '-'
  }

  /** Flags and name=value words can be asked for; any other word is passed over. */
  predicate Answers(t: Text, arg: Text) {
    (IsFlag(t) || NameLength(t) < |t|) && Name(t) == arg
  }

  function ValueOf(t: Text): Text
    requires NameLength(t) < |t|
  {
    t[NameLength(t) + 1..]
  }

  // ---------- numbers ----------

  datatype Parsed = Number(val: int) | NotNumber

  function DigitOf(c: char, radix: nat): (d: int)
    ensures d == -1 || 0 <= d < radix || radix == 0
  {
    if radix <= 10 && '0' <= c && (c as int) < ('0' as int) + radix then (c as int) - ('0' as int)
    else if radix == 16 && '0' <= c <= '9' then (c as int) - ('0' as int)
    else if radix == 16 && 'a' <= c <= 'f' then (c as int) - ('a' as int) + 10
    else if radix == 16 && 'A' <= c <= 'F' then (c as int) - ('A' as int) + 10
    else -1
  }

  /** The factor of a suffix, 0 for any other character. */
  function Suffix(c: char): nat {
    if c == 'k' || c == 'K' then 1024
    else if c == 'm' || c == 'M' then 1024 * 1024
    else if c == 'g' || c == 'G' then 1024 * 1024 * 1024
    else 0
  }

  /** The 64-bit two's-complement value. */
  function Signed64(n: int): (r: int)
    ensures -0x8000_0000_0000_0000 <= r < 0x8000_0000_0000_0000
  {
    var m := n % UINT64;
    if m < 0x8000_0000_0000_0000 then m else m - UINT64
  }

  /** The digits that follow the first ones, and a suffix at the end. */
  function Digits(radix: nat, sign: int, acc: nat, s: Text): Parsed
    decreases |s|
  {
    if s == [] then Number(Signed64(acc * sign))
    else if DigitOf(s[0], radix) >= 0 then Digits(radix, sign, (acc * radix + DigitOf(s[0], radix)) % UINT64, s[1..])
    else if Suffix(s[0]) != 0 && |s| == 1 then Number(Signed64(acc * (sign * Suffix(s[0]))))
    else NotNumber
  }

  function Unsigned(sign: int, s: Text): Parsed {
    if s == [] || DigitOf(s[0], 10) < 0 then NotNumber
    else if s[0] != '0' then Digits(10, sign, DigitOf(s[0], 10), s[1..])
    else if |s| == 1 then Number(0)
    else if s[1] == 'x' then Digits(16, sign, 0, s[2..])
    else if s[1] == 'b' then Digits(2, sign, 0, s[2..])
    else if DigitOf(s[1], 8) >= 0 then Digits(8, sign, DigitOf(s[1], 8), s[2..])
    else NotNumber
  }

  /** The value text of an argument as a number. */
  function GetVal(v: Text): Parsed {
    if v != [] && v[0] == '-' then Unsigned(-1, v[1..]) else Unsigned(1, v)
  }

  // ---------- printing numbers ----------

  datatype Base = Decimal | Octal | Hexadecimal | Binary

  function Radix(b: Base): nat {
    match b
    case Decimal => 10
    case Octal => 8
    case Hexadecimal => 16
    case Binary => 2
  }

  function DigitChar(d: nat): char
    requires d < 16
  {
    if d < 10 then (('0' as int) + d) as char else (('a' as int) + (d - 10)) as char
  }

  /** The digits of `n`, at least one. */
  function PrintDigits(n: nat, radix: nat): (s: Text)
    requires 2 <= radix <= 16
    ensures s != []
  {
    if n < radix then [DigitChar(n)] else PrintDigits(n / radix, radix) + [DigitChar(n % radix)]
  }

  function Prefix(b: Base): Text {
    match b
    case Decimal => ""
    case Octal => "0"
    case Hexadecimal => "0x"
    case Binary => "0b"
  }

  /** The written form of `n`, or of `-n`, times the factor of the suffix. */
  function Print(negative: bool, b: Base, n: nat, suffix: Text): Text {
    (if negative then "-" else "") + Prefix(b) + PrintDigits(n, Radix(b)) + suffix
  }

  const KILO := 1024

  predicate IsSuffix(suffix: Text) {
    suffix in {"", "k", "K", "m", "M", "g", "G"}
  }

  /** Kilo, mega and giga, in either case. */
  function Factor(suffix: Text): nat
    requires IsSuffix(suffix)
  {
    if suffix == "" then 1
    else if suffix in {"k", "K"} then KILO
    else if suffix in {"m", "M"} then KILO * KILO
    else KILO * KILO * KILO
  }

  /** The characters that the code takes for suffixes, and their factors, are these. */
  lemma SuffixMeaning(c: char)
    ensures Suffix(c) != 0 <==> IsSuffix([c])
    ensures IsSuffix([c]) ==> Suffix(c) == Factor([c])
  {
    var t := [c];
    assert forall u: char :: t == [u] <==> c == u;
  }

  lemma DigitRoundTrip(d: nat, radix: nat)
    requires d < radix && (radix <= 10 || radix == 16)
    ensures DigitOf(DigitChar(d), radix) == d
  {
  }

  predicate IsRadix(radix: nat) {
    radix == 2 || radix == 8 || radix == 10 || radix == 16
  }

  lemma DivideDown(n: nat, radix: nat)
    requires IsRadix(radix) && radix <= n
    ensures 0 < n / radix < n && n == n / radix * radix + n % radix
  {
    if radix == 2 {
    } else if radix == 8 {
    } else if radix == 10 {
    }
  }

  lemma SmallModulo(n: nat)
    requires n < UINT64
    ensures n % UINT64 == n
  {
  }

  /** Reading printed digits, one after the other, gives the number. */
  lemma {:induction false} ReadDigits(radix: nat, sign: int, n: nat, rest: Text)
    requires IsRadix(radix) && n < UINT64
    ensures Digits(radix, sign, 0, PrintDigits(n, radix) + rest) == Digits(radix, sign, n, rest)
    decreases n
  {
    hide DigitOf, DigitChar;
    var s := PrintDigits(n, radix);
    if n < radix {
      OneDigit(radix, sign, 0, n, rest);
    } else {
      var q, r := n / radix, n % radix;
      DivideDown(n, radix);
      assert s + rest == PrintDigits(q, radix) + ([DigitChar(r)] + rest);
      ReadDigits(radix, sign, q, [DigitChar(r)] + rest);
      OneDigit(radix, sign, q, r, rest);
    }
  }

  lemma OneDigit(radix: nat, sign: int, acc: nat, d: nat, rest: Text)
    requires IsRadix(radix) && d < radix && acc * radix + d < UINT64
    ensures Digits(radix, sign, acc, [DigitChar(d)] + rest) == Digits(radix, sign, acc * radix + d, rest)
  {
    hide DigitOf, DigitChar;
    DigitRoundTrip(d, radix);
    SmallModulo(acc * radix + d);
    assert ([DigitChar(d)] + rest)[1..] == rest;
  }

  /** The first printed digit is zero only for zero itself. */
  lemma {:induction false} FirstDigit(n: nat, radix: nat)
    requires IsRadix(radix)
    ensures var c := PrintDigits(n, radix)[0];
      DigitOf(c, radix) >= 0 && (c == '0' <==> n == 0) && (n < radix ==> |PrintDigits(n, radix)| == 1)
    decreases n
  {
    if n >= radix {
      DivideDown(n, radix);
      FirstDigit(n / radix, radix);
    } else {
      DigitRoundTrip(n, radix);
    }
  }

  /** The end of a number: nothing, or a suffix. */
  lemma ReadSuffix(radix: nat, sign: int, n: nat, suffix: Text)
    requires IsSuffix(suffix) && IsRadix(radix)
    ensures Digits(radix, sign, n, suffix) == Number(Signed64(n * (sign * Factor(suffix))))
  {
  }

  lemma UnsignedOfPrint(sign: int, b: Base, n: nat, suffix: Text)
    requires IsSuffix(suffix) && n < UINT64
    ensures var s := Prefix(b) + PrintDigits(n, Radix(b)) + suffix;
      Unsigned(sign, s) ==
        if b == Decimal && n == 0 && suffix != "" then NotNumber else Number(Signed64(n * (sign * Factor(suffix))))
  {
    hide PrintDigits, DigitChar, Factor, IsSuffix;
    var radix := Radix(b);
    var digits := PrintDigits(n, radix);
    var s := Prefix(b) + digits + suffix;
    FirstDigit(n, radix);
    ReadDigits(radix, sign, n, suffix);
    ReadSuffix(radix, sign, n, suffix);
    match b
    case Decimal =>
      assert n == 0 ==> n * (sign * Factor(suffix)) == 0;
      DecimalOfPrint(sign, n, digits, suffix);
    case Octal =>
      assert s[1..] == digits + suffix && s[1] == digits[0] && s[1..][1..] == s[2..];
      SmallModulo(DigitOf(s[1], 8));
    case Hexadecimal =>
      assert s[2..] == digits + suffix;
    case Binary =>
      assert s[2..] == digits + suffix;
  }

  lemma DecimalOfPrint(sign: int, n: nat, digits: Text, suffix: Text)
    requires IsSuffix(suffix) && digits != [] && DigitOf(digits[0], 10) >= 0 && (digits[0] == '0' <==> n == 0)
    requires n == 0 ==> |digits| == 1
    requires n == 0 && suffix == "" ==> Digits(10, sign, 0, digits + suffix) == Number(0)
    ensures Unsigned(sign, "" + digits + suffix) ==
      if n == 0 && suffix != "" then NotNumber else Digits(10, sign, 0, digits + suffix)
  {
    var s := digits + suffix;
    assert "" + digits + suffix == s && s[0] == digits[0];
    SmallModulo(DigitOf(s[0], 10));
    if n == 0 {
      assert suffix != "" ==> s[1] == suffix[0];
    }
  }

  /** The number that a printed form stands for. */
  function Printed(negative: bool, n: nat, suffix: Text): int
    requires IsSuffix(suffix)
  {
    if negative then -(n * Factor(suffix)) else n * Factor(suffix)
  }

  predicate Fits64(v: int) {
    -0x8000_0000_0000_0000 <= v < 0x8000_0000_0000_0000
  }

  lemma Signed64Fits(v: int)
    requires Fits64(v)
    ensures Signed64(v) == v
  {
  }

  lemma FactorBounds(negative: bool, n: nat, suffix: Text)
    requires IsSuffix(suffix) && Fits64(Printed(negative, n, suffix))
    ensures n < UINT64 && n * ((if negative then -1 else 1) * Factor(suffix)) == Printed(negative, n, suffix)
  {
    var f := Factor(suffix);
    assert f == 1 || f == 1024 || f == 1024 * 1024 || f == 1024 * 1024 * 1024;
  }

  /** Reading a printed number gives it back, whatever the base, sign and suffix, as long as it fits in 64 bits; only
      a decimal zero with a suffix is not taken for a number. */
  lemma GetValOfPrint(negative: bool, b: Base, n: nat, suffix: Text)
    requires IsSuffix(suffix) && Fits64(Printed(negative, n, suffix))
    ensures GetVal(Print(negative, b, n, suffix)) ==
      if b == Decimal && n == 0 && suffix != "" then NotNumber else Number(Printed(negative, n, suffix))
  {
    hide Unsigned, Signed64, PrintDigits, DigitOf, Printed, Factor;
    var unsigned := Prefix(b) + PrintDigits(n, Radix(b)) + suffix;
    FactorBounds(negative, n, suffix);
    UnsignedOfPrint(if negative then -1 else 1, b, n, suffix);
    Signed64Fits(Printed(negative, n, suffix));
    if negative {
      assert Print(negative, b, n, suffix)[1..] == unsigned;
    } else {
      assert Print(negative, b, n, suffix) == unsigned;
      NoMinus(b, n, suffix);
    }
  }

  lemma NoMinus(b: Base, n: nat, suffix: Text)
    ensures (Prefix(b) + PrintDigits(n, Radix(b)) + suffix)[0] != '-'
  {
    FirstDigit(n, Radix(b));
    assert (Prefix(b) + PrintDigits(n, Radix(b)) + suffix)[0]
           == if Prefix(b) == "" then PrintDigits(n, Radix(b))[0] else '0';
  }

  // ---------- which texts are numbers ----------

  function DigitsOf(radix: nat): Text {
    if radix == 2 then "01"
    else if radix == 8 then "01234567"
    else if radix == 10 then "0123456789"
    else "0123456789abcdefABCDEF"
  }

  predicate AllDigits(s: Text, radix: nat) {
    forall i :: 0 <= i < |s| ==> s[i] in DigitsOf(radix)
  }

  lemma DigitIff(c: char, radix: nat)
    requires IsRadix(radix)
    ensures DigitOf(c, radix) >= 0 <==> c in DigitsOf(radix)
  {
    var ds := DigitsOf(radix);
    if DigitOf(c, radix) >= 0 {
      var v := DigitOf(c, radix);
      assert c == ds[if 'A' <= c <= 'F' then v + 6 else v];
    }
  }

  /** Upper case, letter by letter. */
  function Upper(s: Text): (u: Text)
    ensures |u| == |s|
  {
    seq(|s|, i requires 0 <= i < |s| => if 'a' <= s[i] <= 'z' then (s[i] as int - 32) as char else s[i])
  }

  /** Digits and suffixes are read alike in either case. */
  lemma {:induction false} CaseDoesNotMatter(radix: nat, sign: int, acc: nat, s: Text)
    requires IsRadix(radix)
    ensures Digits(radix, sign, acc, Upper(s)) == Digits(radix, sign, acc, s)
    decreases |s|
  {
    if s != [] {
      var u := Upper(s);
      assert u[1..] == Upper(s[1..]);
      assert DigitOf(u[0], radix) == DigitOf(s[0], radix);
      assert Suffix(u[0]) == Suffix(s[0]);
      if DigitOf(s[0], radix) >= 0 {
        CaseDoesNotMatter(radix, sign, (acc * radix + DigitOf(s[0], radix)) % UINT64, s[1..]);
      }
    }
  }

  /** The digit loop takes exactly digits followed by a suffix or nothing. */
  lemma {:induction false} DigitsAccept(radix: nat, sign: int, acc: nat, digits: Text, suffix: Text)
    requires IsRadix(radix) && AllDigits(digits, radix) && IsSuffix(suffix)
    ensures Digits(radix, sign, acc, digits + suffix).Number?
    decreases |digits|
  {
    hide DigitOf, DigitsOf, Suffix, IsSuffix;
    if digits == [] {
      assert digits + suffix == suffix;
      ReadSuffix(radix, sign, acc, suffix);
    } else {
      DigitIff(digits[0], radix);
      assert (digits + suffix)[1..] == digits[1..] + suffix;
      DigitsAccept(radix, sign, (acc * radix + DigitOf(digits[0], radix)) % UINT64, digits[1..], suffix);
    }
  }

  lemma {:induction false} DigitsTaken(radix: nat, sign: int, acc: nat, s: Text) returns (digits: Text, suffix: Text)
    requires IsRadix(radix) && Digits(radix, sign, acc, s).Number?
    ensures s == digits + suffix && AllDigits(digits, radix) && IsSuffix(suffix)
    decreases |s|
  {
    hide DigitOf, DigitsOf, Suffix, IsSuffix;
    if s == [] {
      digits, suffix := [], "";
      assert IsSuffix("") by { EmptySuffix(); }
    } else {
      DigitIff(s[0], radix);
      if DigitOf(s[0], radix) >= 0 {
        digits, suffix := DigitsTaken(radix, sign, (acc * radix + DigitOf(s[0], radix)) % UINT64, s[1..]);
        digits := [s[0]] + digits;
      } else {
        digits, suffix := [], s;
        SuffixMeaning(s[0]);
        assert s == [s[0]];
      }
    }
  }

  lemma EmptySuffix()
    ensures IsSuffix("")
  {
  }

  /** Digits and a suffix as they may follow the prefix of a base.  A decimal number has a digit, and begins with zero
      only if it is nothing but that; an octal number has a digit behind its prefix. */
  predicate Follows(b: Base, digits: Text, suffix: Text) {
    && AllDigits(digits, Radix(b)) && IsSuffix(suffix)
    && (b == Decimal ==> digits != [] && (digits[0] == '0' ==> digits == "0" && suffix == ""))
    && (b == Octal ==> digits != [])
  }

  /** The written forms of numbers: a sign, the prefix of a base, digits of that base, and a suffix. */
  predicate Spelled(v: Text, negative: bool, b: Base, digits: Text, suffix: Text) {
    v == (if negative then "-" else "") + (Prefix(b) + digits + suffix) && Follows(b, digits, suffix)
  }

  lemma DecimalAccepted(sign: int, digits: Text, suffix: Text)
    requires Follows(Decimal, digits, suffix)
    ensures Unsigned(sign, digits + suffix).Number? && (digits + suffix)[0] != '-'
  {
    hide Digits, IsSuffix, DigitsOf, DigitOf;
    DigitIff(digits[0], 10);
    NoSign(digits[0], 10);
    var u := digits + suffix;
    if digits[0] != '0' {
      assert AllDigits(digits[1..], 10);
      DigitsAccept(10, sign, DigitOf(digits[0], 10), digits[1..], suffix);
      assert u[1..] == digits[1..] + suffix;
    } else {
      ZeroIsDigit();
    }
  }

  lemma NoSign(c: char, radix: nat)
    requires IsRadix(radix) && c in DigitsOf(radix)
    ensures c != '-' && c != 'x' && (radix == 8 ==> c != 'b')
  {
  }

  lemma ZeroIsDigit()
    ensures DigitOf('0', 10) >= 0
  {
  }

  lemma OctalAccepted(sign: int, digits: Text, suffix: Text)
    requires Follows(Octal, digits, suffix)
    ensures Unsigned(sign, "0" + digits + suffix).Number?
  {
    hide Digits, IsSuffix, DigitsOf, DigitOf;
    DigitIff(digits[0], 8);
    NoSign(digits[0], 8);
    ZeroIsDigit();
    var u := "0" + digits + suffix;
    assert AllDigits(digits[1..], 8);
    DigitsAccept(8, sign, DigitOf(digits[0], 8), digits[1..], suffix);
    assert u[2..] == digits[1..] + suffix && u[1] == digits[0];
  }

  lemma PrefixedAccepted(sign: int, b: Base, digits: Text, suffix: Text)
    requires Follows(b, digits, suffix) && (b == Hexadecimal || b == Binary)
    ensures Unsigned(sign, Prefix(b) + digits + suffix).Number?
  {
    hide Digits, IsSuffix, DigitsOf, DigitOf;
    ZeroIsDigit();
    DigitsAccept(Radix(b), sign, 0, digits, suffix);
    assert (Prefix(b) + digits + suffix)[2..] == digits + suffix;
  }

  lemma SpelledIsNumber(v: Text, negative: bool, b: Base, digits: Text, suffix: Text)
    requires Spelled(v, negative, b, digits, suffix)
    ensures GetVal(v).Number?
  {
    hide Follows, Unsigned;
    var sign := if negative then -1 else 1;
    var u := Prefix(b) + digits + suffix;
    match b {
      case Decimal =>
        DecimalAccepted(sign, digits, suffix);
        assert u == digits + suffix;
      case Octal => OctalAccepted(sign, digits, suffix);
      case _ => PrefixedAccepted(sign, b, digits, suffix);
    }
    if negative {
      assert v[1..] == u && v[0] == '-';
    } else {
      assert v == u;
    }
  }

  lemma UnsignedIsSpelled(sign: int, u: Text) returns (b: Base, digits: Text, suffix: Text)
    requires Unsigned(sign, u).Number?
    ensures u == Prefix(b) + digits + suffix && Follows(b, digits, suffix)
  {
    hide Digits, IsSuffix, DigitOf, DigitsOf;
    if u[0] != '0' {
      b := Decimal;
      DigitIff(u[0], 10);
      digits, suffix := DigitsTaken(10, sign, DigitOf(u[0], 10), u[1..]);
      digits := [u[0]] + digits;
    } else if |u| == 1 {
      b, digits, suffix := Decimal, "0", "";
      ZeroSpelled();
    } else if u[1] == 'x' || u[1] == 'b' {
      b := if u[1] == 'x' then Hexadecimal else Binary;
      digits, suffix := DigitsTaken(Radix(b), sign, 0, u[2..]);
    } else {
      b := Octal;
      DigitIff(u[1], 8);
      digits, suffix := DigitsTaken(8, sign, DigitOf(u[1], 8), u[2..]);
      digits := [u[1]] + digits;
    }
  }

  lemma NumberIsSpelled(v: Text) returns (negative: bool, b: Base, digits: Text, suffix: Text)
    requires GetVal(v).Number?
    ensures Spelled(v, negative, b, digits, suffix)
  {
    hide Unsigned, Follows;
    negative := v != [] && v[0] == '-';
    b, digits, suffix := UnsignedIsSpelled(if negative then -1 else 1, if negative then v[1..] else v);
    if negative {
      assert v == "-" + v[1..];
    }
  }

  lemma ZeroSpelled()
    ensures AllDigits("0", 10) && IsSuffix("")
  {
  }

  /** Exactly the written forms are taken for numbers. */
  lemma NumberIff(v: Text)
    ensures GetVal(v).Number? <==> exists negative, b, digits, suffix :: Spelled(v, negative, b, digits, suffix)
  {
    hide GetVal, Spelled;
    if GetVal(v).Number? {
      var negative, b, digits, suffix := NumberIsSpelled(v);
    }
    if negative, b, digits, suffix :| Spelled(v, negative, b, digits, suffix) {
      SpelledIsNumber(v, negative, b, digits, suffix);
    }
  }

  // ---------- the words of a line ----------

  predicate Blank(s: Text) {
    forall i :: 0 <= i < |s| ==> s[i] == ' ' || s[i] == '\t'
  }

  predicate IsWord(t: Text) {
    t != [] && ' ' !in t && '\t' !in t && '\0' !in t
  }

  /** Words, each with a gap before it. */
  function Line(gaps: seq<Text>, words: seq<Text>): Text
    requires |gaps| == |words|
  {
    if words == [] then [] else gaps[0] + words[0] + Line(gaps[1..], words[1..])
  }

  lemma {:induction false} BlankSkipped(gap: Text, rest: Text)
    requires Blank(gap)
    ensures Tokens(gap + rest) == Tokens(rest)
  {
    if gap == [] {
      assert gap + rest == rest;
    } else {
      assert (gap + rest)[1..] == gap[1..] + rest && (gap + rest)[0] == gap[0];
      BlankSkipped(gap[1..], rest);
    }
  }

  lemma {:induction false} WordEnds(word: Text, rest: Text)
    requires ' ' !in word && '\t' !in word && '\0' !in word && (rest == [] || rest[0] == ' ' || rest[0] == '\t')
    ensures TokenLength(word + rest) == |word|
  {
    if word == [] {
      assert word + rest == rest;
    } else {
      assert (word + rest)[1..] == word[1..] + rest && word[0] in word;
      WordEnds(word[1..], rest);
    }
  }

  /** Splitting a line of words with gaps of spaces and tabs between them gives the words. */
  lemma {:induction false} TokensOfLine(gaps: seq<Text>, words: seq<Text>, tail: Text)
    requires |gaps| == |words| && Blank(tail) && (forall i :: 0 <= i < |words| ==> IsWord(words[i]) && Blank(gaps[i]))
    requires forall i :: 0 < i < |gaps| ==> gaps[i] != []
    ensures Tokens(Line(gaps, words) + tail) == words
    decreases |words|
  {
    hide Tokens, TokenLength;
    if words == [] {
      BlankSkipped(tail, []);
      assert Line(gaps, words) + tail == tail + [];
      NoTokens();
    } else {
      var word, rest := words[0], Line(gaps[1..], words[1..]) + tail;
      TokensOfLine(gaps[1..], words[1..], tail);
      assert Line(gaps, words) + tail == gaps[0] + (word + rest);
      BlankSkipped(gaps[0], word + rest);
      if |words| > 1 {
        assert rest[0] == gaps[1][0];
      }
      WordEnds(word, rest);
      FirstToken(word, rest);
      assert words == [word] + words[1..];
    }
  }

  lemma NoTokens()
    ensures Tokens([]) == []
  {
  }

  lemma FirstToken(word: Text, rest: Text)
    requires IsWord(word) && TokenLength(word + rest) == |word|
    ensures Tokens(word + rest) == [word] + Tokens(rest)
  {
    assert (word + rest)[..|word|] == word && (word + rest)[|word|..] == rest && (word + rest)[0] == word[0];
  }

  // ---------- searching the command line ----------

  /** What one answering word puts into the caller's buffer. */
  datatype Write = Store(val: int) | Copy(text: Text, limit: nat) | Nothing

  function ValueWrite(v: Text, maxLen: nat): Write {
    match GetVal(v)
    case Number(val) => Store(val)
    case NotNumber => if maxLen > 0 then Copy(v, maxLen - 1) else Nothing
  }

  /** The forced string copy takes at least 16 characters. */
  function HackLength(maxLen: nat): (h: nat)
    ensures h >= 17 && h >= maxLen && (h == 17 || h == maxLen)
  {
    if 17 > maxLen then 17 else maxLen
  }

  predicate Underscored(arg: Text) {
    arg != [] && arg[0] == '_'
  }

  /** What one word does: nothing, a write after which the search goes on, or a write that ends it. */
  datatype Reply = Silent | Value(write: Write) | Final(write: Write)

  function ReplyOf(t: Text, arg: Text, maxLen: nat): Reply {
    if !Answers(t, arg) then Silent
    else if IsFlag(t) then Final(Store(1))
    else if Underscored(arg) then Final(Copy(ValueOf(t), HackLength(maxLen) - 1))
    else Value(ValueWrite(ValueOf(t), maxLen))
  }

  /** All writes of one search, in order. */
  function Writes(words: seq<Text>, arg: Text, maxLen: nat): seq<Write> {
    if words == [] then []
    else
      match ReplyOf(words[0], arg, maxLen)
      case Silent => Writes(words[1..], arg, maxLen)
      case Value(w) => [w] + Writes(words[1..], arg, maxLen)
      case Final(w) => [w]
  }

  /** An argument is found exactly when some word of the command line answers to it. */
  lemma {:induction false} FoundIff(words: seq<Text>, arg: Text, maxLen: nat)
    ensures Writes(words, arg, maxLen) != [] <==> exists i :: 0 <= i < |words| && Answers(words[i], arg)
  {
    if words != [] {
      FoundIff(words[1..], arg, maxLen);
      assert forall i :: 0 < i < |words| ==> words[i] == words[1..][i - 1];
      if i :| 0 <= i < |words[1..]| && Answers(words[1..][i], arg) {
        assert Answers(words[i + 1], arg);
      }
    }
  }

  /** Of several answers to an ordinary name the last one counts. */
  lemma {:induction false} LastValueWins(words: seq<Text>, arg: Text, maxLen: nat, k: nat)
    requires !IsFlag(arg) && !Underscored(arg)
    requires k < |words| && Answers(words[k], arg) && forall j :: k < j < |words| ==> !Answers(words[j], arg)
    ensures NameLength(words[k]) < |words[k]|
    ensures var ws := Writes(words, arg, maxLen); ws != [] && ws[|ws| - 1] == ValueWrite(ValueOf(words[k]), maxLen)
  {
    NotFlag(words[k], arg);
    if k > 0 {
      LastValueWins(words[1..], arg, maxLen, k - 1);
      if Answers(words[0], arg) {
        NotFlag(words[0], arg);
      }
    } else {
      NoAnswer(words[1..], arg, maxLen);
    }
  }

  lemma NotFlag(t: Text, arg: Text)
    requires Answers(t, arg) && !IsFlag(arg)
    ensures !IsFlag(t)
  {
  }

  lemma {:induction false} NoAnswer(words: seq<Text>, arg: Text, maxLen: nat)
    requires forall j :: 0 <= j < |words| ==> !Answers(words[j], arg)
    ensures Writes(words, arg, maxLen) == []
  {
    if words != [] {
      NoAnswer(words[1..], arg, maxLen);
    }
  }

  /** A flag, or a name that begins with an underscore, is settled by the first answer. */
  lemma {:induction false} FirstAnswerWins(words: seq<Text>, arg: Text, maxLen: nat, k: nat)
    requires IsFlag(arg) || Underscored(arg)
    requires k < |words| && Answers(words[k], arg) && forall j :: 0 <= j < k ==> !Answers(words[j], arg)
    ensures IsFlag(arg) ==> Writes(words, arg, maxLen) == [Store(1)]
    ensures Underscored(arg) ==> NameLength(words[k]) < |words[k]|
    ensures Underscored(arg) ==> Writes(words, arg, maxLen) == [Copy(ValueOf(words[k]), HackLength(maxLen) - 1)]
  {
    if k > 0 {
      FirstAnswerWins(words[1..], arg, maxLen, k - 1);
    } else {
      assert Name(words[0])[0] == words[0][0];
    }
  }

  // ---------- the caller's buffer ----------

  /** A variable of a usual width is filled; any other length gets 32 bits. */
  function StoreSize(maxLen: nat): (n: nat)
    ensures maxLen == 0 || maxLen == 1 || maxLen == 2 || maxLen == 3 || maxLen == 4 || maxLen == 8 ==> n == maxLen
    ensures 4 < maxLen != 8 ==> n == 4
  {
    if maxLen in {0, 1, 2, 3, 8} then maxLen else 4
  }

  /** The low `n` bytes of a number, least significant first. */
  function Bytes(val: int, n: nat): (b: seq<nat>)
    ensures |b| == n
    decreases n
  {
    if n == 0 then [] else [val % 256] + Bytes(val / 256, n - 1)
  }

  function Power256(n: nat): (p: nat)
    ensures p > 0
  {
    if n == 0 then 1 else 256 * Power256(n - 1)
  }

  function FromLittleEndian(b: seq<nat>): nat {
    if b == [] then 0 else b[0] + 256 * FromLittleEndian(b[1..])
  }

  /** The stored bytes read back as an `n`-byte word are the number modulo the word's range, whatever its sign. */
  lemma {:induction false} StoredNumber(val: int, n: nat) returns (wraps: int)
    ensures val == FromLittleEndian(Bytes(val, n)) + wraps * Power256(n)
    ensures FromLittleEndian(Bytes(val, n)) < Power256(n) && (forall k :: 0 <= k < n ==> Bytes(val, n)[k] < 256)
    decreases n
  {
    if n == 0 {
      wraps := val;
    } else {
      wraps := StoredNumber(val / 256, n - 1);
      assert Bytes(val, n)[1..] == Bytes(val / 256, n - 1);
      assert 256 * (wraps * Power256(n - 1)) == wraps * Power256(n);
    }
  }

  function TextBytes(t: Text): (b: seq<nat>)
    ensures |b| == |t|
  {
    seq(|t|, i requires 0 <= i < |t| => t[i] as int)
  }

  function Overwrite(buf: seq<nat>, b: seq<nat>): seq<nat> {
    if |b| <= |buf| then b + buf[|b|..] else buf
  }

  function Taken(text: Text, limit: nat): Text {
    if |text| <= limit then text else text[..limit]
  }

  function Apply(buf: seq<nat>, w: Write, maxLen: nat): seq<nat> {
    match w
    case Store(val) => Overwrite(buf, Bytes(val, StoreSize(maxLen)))
    case Copy(text, limit) => Overwrite(buf, TextBytes(Taken(text, limit)) + [0])
    case Nothing => buf
  }

  function ApplyAll(buf: seq<nat>, ws: seq<Write>, maxLen: nat): seq<nat>
    decreases |ws|
  {
    if ws == [] then buf else ApplyAll(Apply(buf, ws[0], maxLen), ws[1..], maxLen)
  }

  /** How many bytes a write changes. */
  function WriteSize(w: Write, maxLen: nat): nat {
    match w
    case Store(_) => StoreSize(maxLen)
    case Copy(text, limit) => |Taken(text, limit)| + 1
    case Nothing => 0
  }

  /** Every write stays within the first `length` bytes. */
  ghost predicate Fit(ws: seq<Write>, maxLen: nat, length: nat) {
    forall i :: 0 <= i < |ws| ==> WriteSize(ws[i], maxLen) <= length
  }

  lemma FitFront(w: Write, rest: seq<Write>, maxLen: nat, length: nat)
    ensures Fit([w] + rest, maxLen, length) <==> WriteSize(w, maxLen) <= length && Fit(rest, maxLen, length)
  {
    var ws := [w] + rest;
    assert ws[0] == w && forall i :: 0 <= i < |rest| ==> ws[i + 1] == rest[i];
  }

  /** Bytes behind all writes stay as they were. */
  lemma {:induction false} RestUntouched(buf: seq<nat>, ws: seq<Write>, maxLen: nat, length: nat)
    requires Fit(ws, maxLen, length) && length <= |buf|
    ensures |ApplyAll(buf, ws, maxLen)| == |buf| && ApplyAll(buf, ws, maxLen)[length..] == buf[length..]
    decreases |ws|
  {
    hide StoreSize, TextBytes, Taken;
    if ws != [] {
      assert ws == [ws[0]] + ws[1..];
      FitFront(ws[0], ws[1..], maxLen, length);
      RestUntouched(Apply(buf, ws[0], maxLen), ws[1..], maxLen, length);
    }
  }

  /** For a name without an underscore the writes stay within the length asked for. */
  lemma {:induction false} WritesWithinLength(words: seq<Text>, arg: Text, maxLen: nat)
    requires !Underscored(arg)
    ensures Fit(Writes(words, arg, maxLen), maxLen, maxLen)
  {
    if words != [] {
      WritesWithinLength(words[1..], arg, maxLen);
      var rest := Writes(words[1..], arg, maxLen);
      match ReplyOf(words[0], arg, maxLen)
      case Silent =>
      case Value(w) => FitFront(w, rest, maxLen, maxLen);
      case Final(w) =>
    }
  }

  /** For a name with an underscore they do exactly when the length is at least 17 or the value, with its NUL, fits. */
  lemma UnderscoredFitsIff(words: seq<Text>, arg: Text, maxLen: nat, k: nat)
    requires Underscored(arg)
    requires k < |words| && Answers(words[k], arg) && forall j :: 0 <= j < k ==> !Answers(words[j], arg)
    ensures NameLength(words[k]) < |words[k]|
    ensures Fit(Writes(words, arg, maxLen), maxLen, maxLen) <==> maxLen >= 17 || |ValueOf(words[k])| < maxLen
  {
    FirstAnswerWins(words, arg, maxLen, k);
    hide Writes, Answers, ValueOf;
    var ws := Writes(words, arg, maxLen);
    assert ws[0] == Copy(ValueOf(words[k]), HackLength(maxLen) - 1);
  }

  /** The room that is always enough for a search. */
  function Room(arg: Text, maxLen: nat): nat {
    if Underscored(arg) then HackLength(maxLen) else maxLen
  }

  lemma {:induction false} RoomSuffices(words: seq<Text>, arg: Text, maxLen: nat)
    ensures Fit(Writes(words, arg, maxLen), maxLen, Room(arg, maxLen))
  {
    if words != [] {
      RoomSuffices(words[1..], arg, maxLen);
      var rest := Writes(words[1..], arg, maxLen);
      match ReplyOf(words[0], arg, maxLen)
      case Silent =>
      case Value(w) => FitFront(w, rest, maxLen, Room(arg, maxLen));
      case Final(w) =>
    }
  }

  lemma {:induction false} NameOfWord(arg: Text, v: Text)
    requires '=' !in arg
    ensures NameLength(arg + "=" + v) == |arg|
  {
    var t := arg + "=" + v;
    if arg != [] {
      NameOfWord(arg[1..], v);
      assert t[1..] == arg[1..] + "=" + v && t[0] == arg[0] && arg[0] in arg;
    }
  }

  lemma WordAnswers(arg: Text, v: Text)
    requires '=' !in arg
    ensures var t := arg + "=" + v; Answers(t, arg) && NameLength(t) < |t| && ValueOf(t) == v
  {
    NameOfWord(arg, v);
    var t := arg + "=" + v;
    assert t[..|arg|] == arg && t[|arg| + 1..] == v;
  }

  /** A word answers exactly when it is the name, an equal sign and a value, or a flag that is the name itself. */
  lemma AnswersIff(t: Text, arg: Text)
    ensures Answers(t, arg) <==>
            '=' !in arg && ((t == arg && arg != [] && arg[0] == '-') || exists v: Text :: t == arg + "=" + v)
  {
    if Answers(t, arg) {
      if NameLength(t) < |t| {
        assert t == arg + "=" + ValueOf(t);
      } else {
        assert t == arg;
      }
    }
    if '=' !in arg {
      if t == arg {
        NoEqualSign(t);
      }
      if v: Text :| t == arg + "=" + v {
        WordAnswers(arg, v);
      }
    }
  }

  lemma {:induction false} NoEqualSign(t: Text)
    requires '=' !in t
    ensures NameLength(t) == |t| && Name(t) == t
  {
    if t != [] {
      assert t[0] in t;
      NoEqualSign(t[1..]);
    }
  }

  /** Asked for `_x` with a length of 4, the word `_x=abcd` gets five bytes written. */
  lemma FiveBytesForFour()
    ensures Writes(["_x=abcd"], "_x", 4) == [Copy("abcd", 16)] && WriteSize(Copy("abcd", 16), 4) == 5
    ensures !Fit(Writes(["_x=abcd"], "_x", 4), 4, 4)
  {
    hide Writes, Answers, ValueOf, NameLength;
    assert "_x" + "=" + "abcd" == "_x=abcd";
    WordAnswers("_x", "abcd");
    FirstAnswerWins(["_x=abcd"], "_x", 4, 0);
    UnderscoredFitsIff(["_x=abcd"], "_x", 4, 0);
  }

  /** In the end the buffer begins with what the last write put there: a number's bytes, or a prefix of the value and
      a NUL. */
  lemma {:induction false} LastWriteStands(buf: seq<nat>, ws: seq<Write>, maxLen: nat)
    requires ws != []
    ensures var end, last := ApplyAll(buf, ws, maxLen), ws[|ws| - 1];
      && |end| == |buf|
      && (last.Store? && StoreSize(maxLen) <= |buf| ==> Bytes(last.val, StoreSize(maxLen)) <= end)
      && (last.Copy? && WriteSize(last, maxLen) <= |buf| ==> TextBytes(Taken(last.text, last.limit)) + [0] <= end)
    decreases |ws|
  {
    if |ws| > 1 {
      LastWriteStands(Apply(buf, ws[0], maxLen), ws[1..], maxLen);
    } else {
      assert ws[1..] == [];
    }
  }

  /** When the last answer to an ordinary name is `name=` and a printed number, the buffer begins with that number's
      bytes in the end. */
  lemma LastNumberStands(buf: seq<nat>, words: seq<Text>, arg: Text, maxLen: nat, k: nat,
                         negative: bool, b: Base, n: nat, suffix: Text)
    requires !IsFlag(arg) && !Underscored(arg) && '=' !in arg && StoreSize(maxLen) <= |buf|
    requires IsSuffix(suffix) && Fits64(Printed(negative, n, suffix)) && !(b == Decimal && n == 0 && suffix != "")
    requires k < |words| && words[k] == arg + "=" + Print(negative, b, n, suffix)
    requires forall j :: k < j < |words| ==> !Answers(words[j], arg)
    ensures Bytes(Printed(negative, n, suffix), StoreSize(maxLen)) <= ApplyAll(buf, Writes(words, arg, maxLen), maxLen)
  {
    hide Answers, ValueOf, NameLength, Print, Printed, Bytes, StoreSize, ApplyAll, Writes, GetVal;
    WordAnswers(arg, Print(negative, b, n, suffix));
    GetValOfPrint(negative, b, n, suffix);
    LastValueWins(words, arg, maxLen, k);
    LastWriteStands(buf, Writes(words, arg, maxLen), maxLen);
  }
}
