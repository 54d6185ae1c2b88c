/** Text as the C++ streams write and read it: whitespace-separated tokens, decimal
    numbers of a fixed width, and the four-character codes of strncpy. */
module Text {
  datatype Option<+T> = None | Some(value: T)

  const UINT_MAX := 0xFFFF_FFFF
  type uint32 = x: int | 0 <= x <= UINT_MAX
  type int32 = x: int | -0x8000_0000 <= x <= 0x7FFF_FFFF

  // ---------- tokens ----------

  /** The characters std::isspace accepts in the "C" locale. */
  predicate IsSpace(c: char) {
    c == ' ' || '\t' <= c <= '\r'
  }

  predicate SpaceFree(s: string) {
    forall i :: 0 <= i < |s| ==> !IsSpace(s[i])
  }

  function SkipSpace(s: string): string {
    if s != "" && IsSpace(s[0]) then SkipSpace(s[1..]) else s
  }

  /** The characters of s before its first whitespace character. */
  function Word(s: string): string {
    if s == "" || IsSpace(s[0]) then "" else [s[0]] + Word(s[1..])
  }

  /** What `in >> text` extracts from a stream holding s. */
  function Token(s: string): string {
    Word(SkipSpace(s))
  }

  lemma {:induction false} WordIsSpaceFree(s: string)
    ensures SpaceFree(Word(s)) && |Word(s)| <= |s|
    ensures Word(s) == s <==> SpaceFree(s)
  {
    if s != "" && !IsSpace(s[0]) {
      WordIsSpaceFree(s[1..]);
      assert s == [s[0]] + s[1..];
      assert SpaceFree(s) ==> SpaceFree(s[1..]);
    }
  }

  lemma {:induction false} SkipSpaceShrinks(s: string)
    ensures |SkipSpace(s)| <= |s|
    ensures s != "" && IsSpace(s[0]) ==> |SkipSpace(s)| < |s|
  {
    if s != "" && IsSpace(s[0]) {
      SkipSpaceShrinks(s[1..]);
    }
  }

  /** A text is read back unchanged exactly when it holds no whitespace. */
  lemma TokenExact(s: string)
    ensures SpaceFree(Token(s))
    ensures Token(s) == s <==> SpaceFree(s)
  {
    SkipSpaceShrinks(s);
    WordIsSpaceFree(SkipSpace(s));
    WordIsSpaceFree(s);
  }

  /** Only whitespace: blank, tab, newline, vertical tab, form feed and carriage return. */
  predicate Blank(s: string) {
    forall i :: 0 <= i < |s| ==> s[i] == ' ' || 9 <= s[i] as int <= 13
  }

  lemma {:induction false} SkipBlanks(blanks: string, s: string)
    requires Blank(blanks) && (s == "" || !IsSpace(s[0]))
    ensures SkipSpace(blanks + s) == s
  {
    if blanks == "" {
      assert blanks + s == s;
    } else {
      SkipBlanks(blanks[1..], s);
      assert (blanks + s)[1..] == blanks[1..] + s && (blanks + s)[0] == blanks[0];
    }
  }

  lemma {:induction false} WordBefore(word: string, rest: string)
    requires SpaceFree(word) && (rest == "" || IsSpace(rest[0]))
    ensures Word(word + rest) == word
  {
    if word == "" {
      assert word + rest == rest;
    } else {
      WordBefore(word[1..], rest);
      assert (word + rest)[1..] == word[1..] + rest;
    }
  }

  /** What is extracted is the first run of characters that are no whitespace. */
  lemma TokenIsFirstWord(blanks: string, word: string, rest: string)
    requires Blank(blanks) && SpaceFree(word) && (rest == "" || Blank([rest[0]]))
    ensures word != "" ==> Token(blanks + word + rest) == word
    ensures Token(blanks) == ""
  {
    SkipBlanks(blanks, "");
    assert blanks + "" == blanks;
    if word != "" {
      SkipBlanks(blanks, word + rest);
      assert blanks + word + rest == blanks + (word + rest);
      assert rest != "" ==> [rest[0]][0] == rest[0];
      WordBefore(word, rest);
    }
  }

  // ---------- decimal numbers ----------

  predicate IsDigit(c: char) {
    '0' <= c <= '9'
  }

  predicate AllDigits(s: string) {
    forall i :: 0 <= i < |s| ==> IsDigit(s[i])
  }

  function Print(n: nat): (s: string)
    ensures s != "" && AllDigits(s)
  {
    var digit := ('0' as int + n % 10) as char;
    if n < 10 then [digit] else Print(n / 10) + [digit]
  }

  /** Numbers are written in decimal, the last digit last, and without leading zeros. */
  lemma PrintIsDecimal(n: nat, d: nat)
    requires d < 10
    ensures Print(d) == ["0123456789"[d]]
    ensures n > 0 ==> Print(10 * n + d) == Print(n) + ["0123456789"[d]]
  {
    assert (10 * n + d) / 10 == n && (10 * n + d) % 10 == d;
  }

  function PrintInt(n: int): string {
    if n < 0 then "-" + Print(-n) else Print(n)
  }

  /** The longest prefix of s that consists of digits. */
  function Digits(s: string): (d: string)
    ensures AllDigits(d)
  {
    if s == "" || !IsDigit(s[0]) then "" else [s[0]] + Digits(s[1..])
  }

  function NumberOf(d: string): nat
    requires AllDigits(d)
  {
    if d == "" then 0 else 10 * NumberOf(d[..|d| - 1]) + (d[|d| - 1] as int - '0' as int)
  }

  lemma {:induction false} ValueOfPrint(n: nat)
    ensures NumberOf(Print(n)) == n
  {
    var digit := ('0' as int + n % 10) as char;
    if n < 10 {
      assert Print(n)[..0] == "";
    } else {
      ValueOfPrint(n / 10);
      assert Print(n)[..|Print(n)| - 1] == Print(n / 10);
    }
  }

  /** Reading digits stops at the first character that is none. */
  lemma {:induction false} DigitsBefore(d: string, rest: string)
    requires AllDigits(d)
    requires rest == "" || !IsDigit(rest[0])
    ensures Digits(d + rest) == d
  {
    if d == "" {
      assert d + rest == rest;
    } else {
      DigitsBefore(d[1..], rest);
      assert (d + rest)[1..] == d[1..] + rest;
    }
  }

  /** A decimal number is determined by its text even when other text follows. */
  lemma PrintIsPrefixFree(m: nat, n: nat, p: string, q: string)
    requires p == "" || !IsDigit(p[0])
    requires q == "" || !IsDigit(q[0])
    requires Print(m) + p == Print(n) + q
    ensures m == n && p == q
  {
    DigitsBefore(Print(m), p);
    DigitsBefore(Print(n), q);
    ValueOfPrint(m);
    ValueOfPrint(n);
    assert p == (Print(m) + p)[|Print(m)|..];
  }

  function Magnitude(s: string): nat {
    NumberOf(Digits(if s != "" && (s[0] == '-' || s[0] == '+') then s[1..] else s))
  }

  /** `in >> value` for an unsigned: an empty stream leaves the old value, text that
      starts with no number gives 0, and a number out of range gives the maximum. */
  function ReadUnsigned(data: string, prior: uint32): uint32 {
    var s := SkipSpace(data);
    var m := Magnitude(s);
    if s == "" then prior
    else if m > UINT_MAX then UINT_MAX
    else if s[0] == '-' && m != 0 then UINT_MAX + 1 - m
    else m
  }

  /** `in >> value` for an int. */
  function ReadSigned(data: string, prior: int32): int32 {
    var s := SkipSpace(data);
    var m := Magnitude(s);
    if s == "" then prior
    else if s[0] == '-' then (if m > 0x8000_0000 then -0x8000_0000 else 0 - m)
    else if m > 0x7FFF_FFFF then 0x7FFF_FFFF
    else m
  }

  /** `in >> value` for a bool: the number 0 is false and any other is true. */
  function ReadBool(data: string, prior: bool): bool {
    var s := SkipSpace(data);
    if s == "" then prior else Magnitude(s) != 0
  }

  /** `in >> value` for a string: whitespace alone leaves the old value. */
  function ReadText(data: string, prior: string): string {
    if Token(data) == "" then prior else Token(data)
  }

  lemma MagnitudeOfPrint(n: nat)
    ensures SkipSpace(Print(n)) == Print(n)
    ensures Magnitude(Print(n)) == n
    ensures Magnitude("-" + Print(n)) == n
  {
    var s := Print(n);
    assert IsDigit(s[0]);
    DigitsBefore(s, "");
    assert s + "" == s;
    ValueOfPrint(n);
    assert ("-" + s)[1..] == s;
  }

  /** Printed numbers are read back, cut to the width of an unsigned. */
  lemma ReadUnsignedOfPrint(n: nat, prior: uint32)
    ensures ReadUnsigned(Print(n), prior) == if n > UINT_MAX then UINT_MAX else n
  {
    MagnitudeOfPrint(n);
    assert IsDigit(Print(n)[0]);
  }

  predicate IsSign(sign: string) {
    sign == "" || sign == "+" || sign == "-"
  }

  lemma SignedDigits(sign: string, d: string, rest: string)
    requires IsSign(sign) && AllDigits(d) && d != "" && (rest == "" || !IsDigit(rest[0]))
    ensures var s := sign + d + rest;
      Magnitude(s) == NumberOf(d) && !IsSpace(s[0]) && (s[0] == '-' <==> sign == "-")
  {
    var s, t := sign + d + rest, d + rest;
    DigitsBefore(d, rest);
    assert IsDigit(d[0]);
    hide NumberOf, Digits, AllDigits;
    if sign == "" {
      assert s == t;
    } else {
      SignFirst(sign, d, rest);
    }
  }

  lemma SignFirst(sign: string, d: string, rest: string)
    requires |sign| == 1
    ensures var s := sign + d + rest; s[0] == sign[0] && s[1..] == d + rest
  {
  }

  lemma NumberInText(blanks: string, sign: string, m: nat, rest: string)
    requires Blank(blanks) && IsSign(sign) && (rest == "" || !IsDigit(rest[0]))
    ensures var s := sign + Print(m) + rest;
      SkipSpace(blanks + s) == s && Magnitude(s) == m && (s[0] == '-' <==> sign == "-")
  {
    ValueOfPrint(m);
    hide Print, SkipSpace, NumberOf, Magnitude, Blank, IsSign;
    SignedDigits(sign, Print(m), rest);
    SkipBlanks(blanks, sign + Print(m) + rest);
  }

  lemma WrapAround(m: nat)
    requires m < 0x1_0000_0000
    ensures m % 0x1_0000_0000 == m
    ensures (0 - m) % 0x1_0000_0000 == if m == 0 then 0 else 0x1_0000_0000 - m
  {
  }

  /** A number is read up to the first character that is no digit, whatever blanks precede it.
      An unsigned takes a negative number modulo its range, and out of range the maximum. */
  lemma ReadUnsignedExactly(blanks: string, sign: string, m: nat, rest: string, prior: uint32)
    requires Blank(blanks) && IsSign(sign) && (rest == "" || !IsDigit(rest[0]))
    ensures ReadUnsigned(blanks + (sign + Print(m) + rest), prior)
         == if m >= 0x1_0000_0000 then 0xFFFF_FFFF else (if sign == "-" then 0 - m else m) % 0x1_0000_0000
  {
    if m < 0x1_0000_0000 {
      WrapAround(m);
    }
    NumberInText(blanks, sign, m, rest);
    hide SkipSpace, Magnitude, Print, Blank, IsDigit, IsSign;
    assert sign + Print(m) + rest != "";
  }

  /** An int takes the nearest number it can hold. */
  lemma ReadSignedExactly(blanks: string, sign: string, m: nat, rest: string, prior: int32)
    requires Blank(blanks) && IsSign(sign) && (rest == "" || !IsDigit(rest[0]))
    ensures var n := if sign == "-" then 0 - m else m;
      ReadSigned(blanks + (sign + Print(m) + rest), prior)
      == if n < -0x8000_0000 then -0x8000_0000 else if n >= 0x8000_0000 then 0x7FFF_FFFF else n
  {
    NumberInText(blanks, sign, m, rest);
    hide SkipSpace, Magnitude, Print, Blank, IsDigit, IsSign;
    assert sign + Print(m) + rest != "";
  }

  /** A bool is whether the number is not 0. */
  lemma ReadBoolExactly(blanks: string, sign: string, m: nat, rest: string, prior: bool)
    requires Blank(blanks) && IsSign(sign) && (rest == "" || !IsDigit(rest[0]))
    ensures ReadBool(blanks + (sign + Print(m) + rest), prior) == (m != 0)
  {
    NumberInText(blanks, sign, m, rest);
    hide SkipSpace, Magnitude, Print, Blank, IsDigit, IsSign;
    assert sign + Print(m) + rest != "";
  }

  /** Blank text leaves every variable as it was; text that starts with no number is 0. */
  lemma NoNumberInText(blanks: string, rest: string, u: uint32, i: int32, b: bool)
    requires Blank(blanks)
    requires rest != "" ==> !IsSpace(rest[0]) && !IsDigit(rest[0]) && rest[0] != '-' && rest[0] != '+'
    ensures ReadUnsigned(blanks + rest, u) == if rest == "" then u else 0
    ensures ReadSigned(blanks + rest, i) == if rest == "" then i else 0
    ensures ReadBool(blanks + rest, b) == (rest == "" && b)
  {
    SkipBlanks(blanks, rest);
  }

  lemma ReadSignedOfPrint(n: int32, prior: int32)
    ensures ReadSigned(PrintInt(n), prior) == n
    ensures PrintInt(n) != ""
  {
    if n < 0 {
      MagnitudeOfPrint(0 - n);
      assert SkipSpace(PrintInt(n)) == PrintInt(n);
    } else {
      MagnitudeOfPrint(n);
      assert IsDigit(Print(n)[0]);
    }
  }

  lemma ReadBoolOfPrint(b: bool, prior: bool)
    ensures ReadBool(Print(if b then 1 else 0), prior) == b
  {
    MagnitudeOfPrint(if b then 1 else 0);
  }

  // ---------- four-character codes ----------

  /** The bytes of the unsigned that holds a GPU type. */
  type Code = s: string | |s| == 4 witness "\0\0\0\0"

  /** The characters of a C string: those before the first NUL. */
  function CString(s: string): (c: string)
    ensures c <= s && '\0' !in c
    ensures |c| < |s| ==> s[|c|] == '\0'
  {
    if s == "" || s[0] == '\0' then "" else [s[0]] + CString(s[1..])
  }

  /** strncpy into a field of n bytes: cuts a long name and pads a short one with NULs. */
  function StrNCpy(s: string, n: nat): (r: string)
    ensures |r| == n
  {
    var c := CString(s);
    if |c| >= n then c[..n] else c + seq(n - |c|, i => '\0')
  }

  function MakeCode(name: string): Code {
    StrNCpy(name, 4)
  }

  /** A code made from a name: nothing but NULs follows a NUL. */
  predicate Padded(c: string) {
    forall i, j :: 0 <= i < j < |c| && c[i] == '\0' ==> c[j] == '\0'
  }

  lemma StrNCpyExact(s: string, n: nat)
    ensures Padded(StrNCpy(s, n))
    ensures SpaceFree(s) ==> SpaceFree(StrNCpy(s, n))
    ensures |s| == n ==> (StrNCpy(s, n) == s <==> Padded(s))
    ensures '\0' !in s && n <= |s| ==> StrNCpy(s, n) == s[..n]
  {
    var c, r := CString(s), StrNCpy(s, n);
    assert forall i :: 0 <= i < |c| ==> c[i] == s[i] && c[i] in c;
    assert forall i :: 0 <= i < n ==> r[i] == if i < |c| then s[i] else '\0';
  }

  /** The code read back from the four bytes of a printed code. */
  function ReadCode(data: string): Code {
    MakeCode(Token(data))
  }

  /** A code survives being printed and read exactly when it holds no whitespace
      and its NULs are all at the end. */
  lemma ReadCodeExact(c: Code)
    ensures ReadCode(c) == c <==> SpaceFree(c) && Padded(c)
  {
    TokenExact(c);
    StrNCpyExact(Token(c), 4);
    StrNCpyExact(c, 4);
  }
}
