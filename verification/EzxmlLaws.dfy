/** What escaping and decoding mean, stated without their definitions: the value of a number in a
    character reference is its positional value, and decoding obeys the laws of references, entities,
    white space and line endings. */
module EzxmlLaws {
  import opened Wrappers
  import Arith
  import opened Ezxml

  // ---- Numbers ----

  function Power(base: nat, n: nat): nat {
    if n == 0 then 1 else base * Power(base, n - 1)
  }

  predicate AllDigits(d: string, base: nat) {
    forall i :: 0 <= i < |d| ==> DigitOf(d[i]) < base
  }

  /** The positional value of a string of digits, the most significant first. */
  function Positional(d: string, base: nat): nat {
    if d == [] then 0 else DigitOf(d[0]) * Power(base, |d| - 1) + Positional(d[1..], base)
  }

  const LOWER := "0123456789abcdef"
  const UPPER := "0123456789ABCDEF"

  /** The digits, in either case, are the only characters with their values. */
  lemma DigitTable(c: char, v: nat)
    requires v < 16
    ensures DigitOf(c) == v <==> c == LOWER[v] || c == UPPER[v]
  {
  }

  lemma ExtendValue(acc: nat, base: nat, v: nat, p: nat, rest: nat)
    ensures (acc * base + v) * p + rest == acc * (base * p) + (v * p + rest)
  {
    Arith.Distribute(acc * base, v, p);
    Arith.Regroup(acc, base, p);
  }

  /** Digits are read to the first character that is none, and their value is positional. */
  lemma {:induction false} DigitsValue(d: string, z: string, base: nat, acc: nat)
    requires AllDigits(d, base) && (z == [] || DigitOf(z[0]) >= base)
    ensures Digits(d + z, base, acc) == (acc * Power(base, |d|) + Positional(d, base), |d|)
    decreases |d|
  {
    if d == [] {
      assert d + z == z;
    } else {
      assert (d + z)[1..] == d[1..] + z && (d + z)[0] == d[0];
      DigitsValue(d[1..], z, base, acc * base + DigitOf(d[0]));
      ExtendValue(acc, base, DigitOf(d[0]), Power(base, |d| - 1), Positional(d[1..], base));
    }
  }

  /** No digit comes next, and no `x` that a zero could make a prefix of. */
  predicate Stops(z: string, base: nat) {
    z == [] || (DigitOf(z[0]) >= base && z[0] != 'x' && z[0] != 'X')
  }

  /** A string of digits up to a character that is none. */
  lemma UnsignedValue(d: string, z: string, base: nat)
    requires d != [] && AllDigits(d, base) && base <= 16 && Stops(z, base)
    ensures Unsigned(d + z, base) == (Positional(d, base), |d|)
  {
    var s := d + z;
    assert |s| > 1 ==> s[1] == if |d| > 1 then d[1] else z[0];
    DigitsValue(d, z, base, 0);
  }

  /** Hexadecimal digits may follow another `0x`. */
  lemma PrefixedValue(d: string, z: string, x: char)
    requires d != [] && AllDigits(d, 16) && z != [] && z[0] == ';' && (x == 'x' || x == 'X')
    ensures Unsigned(['0', x] + (d + z), 16) == (Positional(d, 16), |d| + 2)
  {
    PrefixSkipped(['0', x] + (d + z), d + z);
    DigitsValue(d, z, 16, 0);
  }

  lemma PrefixSkipped(s: string, t: string)
    requires |s| > 2 && s[0] == '0' && (s[1] == 'x' || s[1] == 'X') && s[2..] == t && DigitOf(t[0]) < 16
    ensures Unsigned(s, 16) == (Digits(t, 16, 0).0, Digits(t, 16, 0).1 + 2)
  {
    assert s[2] == t[0];
  }

  predicate AllSpace(w: string) {
    forall i :: 0 <= i < |w| ==> IsSpace(w[i])
  }

  predicate IsSign(sign: string) {
    sign == "" || sign == "+" || sign == "-"
  }

  function Signed(sign: string, v: int): int {
    if sign == "-" then -v else v
  }

  /** White space and a sign may come before the digits. */
  lemma {:induction false} StrtolValue(w: string, sign: string, d: string, z: string, base: nat)
    requires AllSpace(w) && IsSign(sign) && d != [] && AllDigits(d, base) && base <= 16 && Stops(z, base)
    ensures Strtol(w + (sign + (d + z)), base) == (Signed(sign, Positional(d, base)), |w| + |sign| + |d|)
    decreases |w|
  {
    var s := w + (sign + (d + z));
    UnsignedValue(d, z, base);
    if w != [] {
      assert s[0] == w[0] && s[1..] == w[1..] + (sign + (d + z));
      StrtolValue(w[1..], sign, d, z, base);
    } else {
      assert s == sign + (d + z) && (d + z)[0] == d[0];
      SignedValue(sign, d + z, base, Positional(d, base), |d|);
    }
  }

  lemma {:induction false} SignedValue(sign: string, t: string, base: nat, v: nat, k: nat)
    requires IsSign(sign) && t != [] && DigitOf(t[0]) < 16 && Unsigned(t, base) == (v, k) && k > 0
    ensures Strtol(sign + t, base) == (Signed(sign, v), |sign| + k)
  {
    if |sign| == 0 {
      assert sign + t == t;
      NoSign(t, base);
    } else {
      SignFirst(sign[0], t, sign + t);
      WithSign(sign + t, base, v, k);
    }
  }

  lemma SignFirst(c: char, t: string, s: string)
    requires s == [c] + t
    ensures s[0] == c && s[1..] == t
  {
  }

  lemma NoSign(s: string, base: nat)
    requires s != [] && DigitOf(s[0]) < 16
    ensures Strtol(s, base) == Unsigned(s, base)
  {
  }

  lemma WithSign(s: string, base: nat, v: nat, k: nat)
    requires s != [] && (s[0] == '-' || s[0] == '+') && Unsigned(s[1..], base) == (v, k) && k > 0
    ensures Strtol(s, base) == (if s[0] == '-' then -(v as int) else v, k + 1)
  {
  }

  /** The text of a character reference up to its semicolon. */
  function ReferenceText(hex: bool, w: string, sign: string, d: string): string {
    (if hex then "&#x" else "&#") + (w + (sign + d))
  }

  /** The number that a 32-bit `long` holds instead of `v`. */
  function Held(v: int): int {
    if v > 0x7FFF_FFFF then 0x7FFF_FFFF else if v < -0x8000_0000 then -0x8000_0000 else v
  }

  /** A character reference has the positional value of its digits, within a 32-bit `long`, and ends at
      its semicolon; it is none exactly if that value is zero. */
  lemma {:induction false} ReferenceValue(hex: bool, w: string, sign: string, d: string, z: string, r: string)
    requires AllSpace(w) && IsSign(sign) && d != [] && AllDigits(d, if hex then 16 else 10)
    requires r == ReferenceText(hex, w, sign, d) + (";" + z)
    ensures var v, e := Signed(sign, Positional(d, if hex then 16 else 10)), |ReferenceText(hex, w, sign, d)|;
      && Hashed(r) && e < |r| && r[e + 1..] == z
      && CharRef(r) == if v == 0 then None else Some((Held(v), e))
  {
    var base, start, e := if hex then 16 else 10, if hex then 3 else 2, |ReferenceText(hex, w, sign, d)|;
    var n := w + (sign + (d + (";" + z)));
    ReferenceParts(hex, w, sign, d, z, r, n);
    StrtolValue(w, sign, d, ";" + z, base);
    CharRefIs(r, hex, Signed(sign, Positional(d, base)), e - start);
  }

  lemma {:induction false} ReferenceParts(hex: bool, w: string, sign: string, d: string, z: string, r: string,
                                          n: string)
    requires AllSpace(w) && IsSign(sign) && d != [] && DigitOf(d[0]) < 16 && (!hex ==> DigitOf(d[0]) < 10)
    requires r == ReferenceText(hex, w, sign, d) + (";" + z) && n == w + (sign + (d + (";" + z)))
    ensures var start, e := if hex then 3 else 2, |ReferenceText(hex, w, sign, d)|;
      && start + |w| + |sign| + |d| == e < |r| && r[start..] == n && r[e] == ';' && r[e + 1..] == z && Hashed(r)
      && (r[2] == 'x' <==> hex)
  {
    assert r == (if hex then "&#x" else "&#") + n;
    assert n[0] == if w != [] then w[0] else if sign != [] then sign[0] else d[0];
  }

  lemma {:induction false} CharRefIs(r: string, hex: bool, v: int, k: nat)
    requires Hashed(r) && |r| > 2 && (r[2] == 'x' <==> hex)
    requires var start := if hex then 3 else 2;
      start + k < |r| && r[start + k] == ';' && Strtol(r[start..], if hex then 16 else 10) == (v, k)
    ensures CharRef(r) == if v == 0 then None else Some((Held(v), (if hex then 3 else 2) + k))
  {
  }

  /** Without a semicolon right behind the digits there is no reference. */
  lemma {:induction false} NoSemicolon(hex: bool, w: string, sign: string, d: string, z: string, r: string)
    requires AllSpace(w) && IsSign(sign) && d != [] && AllDigits(d, if hex then 16 else 10)
    requires Stops(z, if hex then 16 else 10) && (z != [] ==> z[0] != ';')
    requires r == (if hex then "&#x" else "&#") + (w + (sign + (d + z)))
    ensures Hashed(r) && CharRef(r) == None
  {
    var n, start := w + (sign + (d + z)), if hex then 3 else 2;
    assert r[start..] == n && (r[2] == 'x' <==> hex) by {
      assert n[0] == if w != [] then w[0] else if sign != [] then sign[0] else d[0];
    }
    StrtolValue(w, sign, d, z, if hex then 16 else 10);
    var e := start + |w| + |sign| + |d|;
    assert e < |r| ==> r[e] == z[0];
  }

  lemma {:induction false} StrtolNothing(w: string, sign: string, z: string, base: nat)
    requires AllSpace(w) && IsSign(sign) && base <= 16 && (z == [] || DigitOf(z[0]) >= base)
    requires sign == "" && z != [] ==> !IsSpace(z[0]) && z[0] != '+' && z[0] != '-'
    ensures Strtol(w + (sign + z), base) == (0, 0)
    decreases |w|
  {
    var s := w + (sign + z);
    if w != [] {
      assert s[0] == w[0] && s[1..] == w[1..] + (sign + z);
      StrtolNothing(w[1..], sign, z, base);
    } else if |sign| == 0 {
      assert s == z;
    } else {
      SignFirst(sign[0], z, s);
    }
  }

  /** Without digits there is no reference. */
  lemma {:induction false} NoDigits(hex: bool, w: string, sign: string, z: string, r: string)
    requires AllSpace(w) && IsSign(sign) && (z == [] || DigitOf(z[0]) >= if hex then 16 else 10)
    requires sign == "" && z != [] ==> !IsSpace(z[0]) && z[0] != '+' && z[0] != '-'
    requires r == (if hex then "&#x" else "&#") + (w + (sign + z)) && (!hex ==> |r| == 2 || r[2] != 'x')
    ensures Hashed(r) && CharRef(r) == None
  {
    assert r[if hex then 3 else 2..] == w + (sign + z);
    StrtolNothing(w, sign, z, if hex then 16 else 10);
  }

  /** A number in hexadecimal or decimal, without leading zeros. */
  function Numeral(n: nat, hex: bool): string {
    if hex then (if n < 16 then [] else Numeral(n / 16, hex)) + [LOWER[n % 16]]
    else (if n < 10 then [] else Numeral(n / 10, hex)) + [LOWER[n % 10]]
  }

  lemma {:induction false} PositionalAppend(d: string, c: char, base: nat)
    ensures Positional(d + [c], base) == Positional(d, base) * base + DigitOf(c)
  {
    if d == [] {
      assert d + [c] == [c] && [c][1..] == [];
    } else {
      assert (d + [c])[1..] == d[1..] + [c];
      PositionalAppend(d[1..], c, base);
      var v, p, t := DigitOf(d[0]), Power(base, |d| - 1), Positional(d[1..], base);
      Arith.Distribute(v * p, t, base);
      Arith.Regroup(v, p, base);
      assert v * Power(base, |d|) == (v * p) * base;
    }
  }

  lemma OneDigitNumeral(n: nat, hex: bool)
    requires n < if hex then 16 else 10
    ensures Numeral(n, hex) == [] + [LOWER[n]]
  {
  }

  /** Writing a number and reading it gives the number. */
  lemma {:induction false} NumeralValue(n: nat, hex: bool, base: nat)
    requires base == if hex then 16 else 10
    ensures Numeral(n, hex) != [] && AllDigits(Numeral(n, hex), base) && Positional(Numeral(n, hex), base) == n
    decreases n
  {
    if n < base {
      OneDigitNumeral(n, hex);
      LastDigit([], 0, n, base);
    } else if hex {
      NumeralValue(n / 16, hex, base);
      LastDigit(Numeral(n / 16, hex), n / 16, n % 16, base);
    } else {
      NumeralValue(n / 10, hex, base);
      LastDigit(Numeral(n / 10, hex), n / 10, n % 10, base);
    }
  }

  lemma LastDigit(front: string, q: nat, v: nat, base: nat)
    requires v < base <= 16 && AllDigits(front, base) && Positional(front, base) == q
    ensures AllDigits(front + [LOWER[v]], base) && Positional(front + [LOWER[v]], base) == q * base + v
  {
    DigitTable(LOWER[v], v);
    PositionalAppend(front, LOWER[v], base);
  }

  /** So every number below 2^31 can be referred to, in decimal and in hexadecimal. */
  lemma NumeralReference(n: nat, hex: bool, z: string)
    requires 0 < n < 0x8000_0000
    ensures var text := (if hex then "&#x" else "&#") + Numeral(n, hex);
      |text + (";" + z)| >= 2 && CharRef(text + (";" + z)) == Some((n, |text|))
  {
    var d := Numeral(n, hex);
    NumeralValue(n, hex, if hex then 16 else 10);
    var r := ReferenceText(hex, "", "", d) + (";" + z);
    ReferenceValue(hex, "", "", d, z, r);
    assert "" + ("" + d) == d;
  }

  // ---- Decoding ----

  /** A character reference is decoded to the bytes of its number, and decoding goes on behind it. */
  lemma DecodeNumber(lex: Lexer, ent: Entities, r: string, c: int, e: nat, attr: bool)
    requires Advances(lex) && Lexes(lex, ent) && Hashed(r) && CharRef(r) == Some((c, e)) && e < |r|
    ensures Decode(lex, r, attr) == Bytes(c) + Decode(lex, r[e + 1..], attr)
  {
    assert First(ent, r) == Reference(c, e);
    PassReference(lex, r, Reference(c, e), r[e + 1..], attr);
  }

  /** So a reference written as digits stands for the bytes of their positional value. */
  lemma {:induction false} DecodeDigits(lex: Lexer, ent: Entities, hex: bool, d: string, z: string, attr: bool,
                                        r: string, v: nat)
    requires Advances(lex) && Lexes(lex, ent) && d != [] && AllDigits(d, if hex then 16 else 10)
    requires r == (if hex then "&#x" else "&#") + d + (";" + z)
    requires v == Positional(d, if hex then 16 else 10) && 0 < v < 0x8000_0000
    ensures Decode(lex, r, attr) == Bytes(v) + Decode(lex, z, attr)
  {
    var e := DigitsReference(hex, d, z, r, v);
    DecodeNumber(lex, ent, r, v, e, attr);
  }

  lemma {:induction false} DigitsReference(hex: bool, d: string, z: string, r: string, v: nat) returns (e: nat)
    requires d != [] && AllDigits(d, if hex then 16 else 10) && r == (if hex then "&#x" else "&#") + d + (";" + z)
    requires v == Positional(d, if hex then 16 else 10) && 0 < v < 0x8000_0000
    ensures Hashed(r) && e < |r| && r[e + 1..] == z && CharRef(r) == Some((v, e))
  {
    assert "" + ("" + d) == d;
    e := |ReferenceText(hex, "", "", d)|;
    ReferenceValue(hex, "", "", d, z, r);
  }

  /** An entity is replaced by its text, which is decoded in turn. */
  lemma DecodeEntity(lex: Lexer, ent: Entities, name: string, text: string, z: string, attr: bool)
    requires Advances(lex) && Lexes(lex, ent) && name != [] && name[0] != '#'
    requires FindEntity(ent, name + z) == Some((name, text))
    ensures Decode(lex, ['&'] + name + z, attr) == Decode(lex, text + z, attr)
  {
    var r := ['&'] + name + z;
    KnownFirst(ent, name, text, z, r);
    assert lex(r) == Known(name, text);
    assert [] + Decode(lex, text + z, attr) == Decode(lex, text + z, attr);
  }

  /** An entity needs room, and makes the first copy, exactly if its text makes the string longer. */
  lemma GrowsMeans(ent: Entities, r: string)
    requires Sound(ent) && r != []
    ensures var t := First(ent, r);
      Fits(r, t) && (t.Known? && EventOf(t) == [Grow] <==> t.Known? && |Rest(r, t)| > |r|)
  {
    FirstNearer(ent, r);
  }

  /** The white space that attribute values are normalized from. */
  predicate White(c: char) {
    c == ' ' || c == '\t' || c == '\n' || c == '\r' || c == 0x0B as char || c == 0x0C as char
  }

  function Normal(c: char, attr: bool): char {
    if attr && White(c) then ' ' else c
  }

  /** A character that starts neither a reference nor a known entity is kept, but white space in an
      attribute value becomes a space. */
  lemma DecodeOther(lex: Lexer, ent: Entities, r: string, attr: bool)
    requires Advances(lex) && Lexes(lex, ent) && r != []
    requires r[0] == '&' ==> if Hashed(r) then CharRef(r) == None else FindEntity(ent, r[1..]) == None
    ensures Decode(lex, r, attr) == [Normal(r[0], attr)] + Decode(lex, r[1..], attr)
  {
    assert First(ent, r) == Char(r[0]);
    PassChar(lex, r, attr);
  }

  lemma PassChar(lex: Lexer, r: string, attr: bool)
    requires Advances(lex) && r != [] && lex(r) == Char(r[0])
    ensures Decode(lex, r, attr) == [Normal(r[0], attr)] + Decode(lex, r[1..], attr)
  {
    assert IsSpace(r[0]) <==> White(r[0]);
    assert Out(lex(r), attr) == [Normal(r[0], attr)];
  }

  function Normals(s: string, attr: bool): string {
    if s == [] then [] else [Normal(s[0], attr)] + Normals(s[1..], attr)
  }

  /** Without ampersands, text is decoded to itself and attribute values to themselves with every white
      space character a space. */
  lemma {:induction false} DecodePlain(lex: Lexer, ent: Entities, s: string, attr: bool)
    requires Advances(lex) && Lexes(lex, ent) && '&' !in s
    ensures Decode(lex, s, attr) == Normals(s, attr)
  {
    if s != [] {
      assert s[0] in s;
      DecodeOther(lex, ent, s, attr);
      DecodePlain(lex, ent, s[1..], attr);
    }
  }

  // ---- Line endings ----

  /** Line endings are normalized piece by piece, wherever a string is cut except within a pair. */
  lemma {:induction false} EolSplit(a: string, b: string)
    requires !(a != [] && b != [] && a[|a| - 1] == '\r' && b[0] == '\n')
    ensures Eol(a + b) == Eol(a) + Eol(b)
  {
    if a == [] {
      assert a + b == b;
    } else {
      var n := if a[0] == '\r' && |a| > 1 && a[1] == '\n' then 2 else 1;
      assert a[n..] != [] ==> a[n..][|a[n..]| - 1] == a[|a| - 1];
      EolSplit(a[n..], b);
      EolSplitStep(a, b, n, a + b);
    }
  }

  lemma {:induction false} EolSplitStep(a: string, b: string, n: nat, s: string)
    requires a != [] && s == a + b && n == if a[0] == '\r' && |a| > 1 && a[1] == '\n' then 2 else 1
    requires !(b != [] && a[|a| - 1] == '\r' && b[0] == '\n') && Eol(a[n..] + b) == Eol(a[n..]) + Eol(b)
    ensures Eol(s) == Eol(a) + Eol(b)
  {
    EolStep(a, n);
    CutEarly(a, b, n, s);
    EolStep(s, n);
    Assoc([if a[0] == '\r' then '\n' else a[0]], Eol(a[n..]), Eol(b), Eol(s[n..]));
  }

  lemma CutEarly(a: string, b: string, n: nat, s: string)
    requires a != [] && s == a + b && n == if a[0] == '\r' && |a| > 1 && a[1] == '\n' then 2 else 1
    requires !(b != [] && a[|a| - 1] == '\r' && b[0] == '\n')
    ensures s[0] == a[0] && s[n..] == a[n..] + b && n == if s[0] == '\r' && |s| > 1 && s[1] == '\n' then 2 else 1
  {
    assert |s| > 1 ==> s[1] == if |a| > 1 then a[1] else b[0];
  }

  lemma {:induction false} EolStep(s: string, n: nat)
    requires s != [] && n == if s[0] == '\r' && |s| > 1 && s[1] == '\n' then 2 else 1
    ensures Eol(s) == [if s[0] == '\r' then '\n' else s[0]] + Eol(s[n..])
  {
  }

  /** Each of the three line endings is one line feed, and nothing else changes. */
  lemma EolEndings(s: string)
    ensures Eol("\r\n") == "\n" && Eol("\r") == "\n" && Eol("\n") == "\n"
    ensures '\r' !in s ==> Eol(s) == s
  {
    assert "\r\n"[2..] == [] && "\r"[1..] == [] && "\n"[1..] == [];
    if '\r' !in s {
      EolIdentity(s);
    }
  }

  lemma {:induction false} EolHasNoReturn(s: string)
    ensures '\r' !in Eol(s)
  {
    if s != [] {
      EolHasNoReturn(s[if s[0] == '\r' && |s| > 1 && s[1] == '\n' then 2 else 1..]);
    }
  }

  // ---- Escaping ----

  /** What must not stand as it is. */
  predicate Special(c: char, attr: bool) {
    c == '&' || c == '<' || c == '>' || c == '\r' || (attr && (c == '"' || c == '\n' || c == '\t'))
  }

  /** The escaped string holds no character that must be escaped, apart from the ampersands that escapes
      start with. */
  lemma {:induction false} EncodeHides(s: string, attr: bool, c: char)
    requires c != '&' && Special(c, attr)
    ensures c !in Encode(s, attr)
  {
    if s != [] && s[0] != '\0' {
      EncodeHides(s[1..], attr, c);
      EscapeHides(s[0], attr, c);
    }
  }

  lemma EscapeHides(x: char, attr: bool, c: char)
    requires c != '&' && Special(c, attr)
    ensures c !in Escape(x, attr)
  {
  }

  /** A string without such characters stays as it is. */
  lemma {:induction false} EncodePlain(s: string, attr: bool)
    requires '\0' !in s && forall i :: 0 <= i < |s| ==> !Special(s[i], attr)
    ensures Encode(s, attr) == s
  {
    if s != [] {
      assert s[0] in s && Escape(s[0], attr) == [s[0]];
      EncodePlain(s[1..], attr);
    }
  }

  /** Strings are escaped character by character. */
  lemma {:induction false} EncodeSplits(a: string, b: string, attr: bool)
    requires '\0' !in a
    ensures Encode(a + b, attr) == Encode(a, attr) + Encode(b, attr)
  {
    if a == [] {
      assert a + b == b;
    } else {
      assert a[0] in a && (a + b)[1..] == a[1..] + b;
      EncodeSplits(a[1..], b, attr);
    }
  }
}
