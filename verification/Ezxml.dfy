/** Escaping and decoding of character data in ezxml.c, with the entities every document starts with.

    A string is what comes before the terminating NUL.  `attr` selects attribute values over text. */
module Ezxml {
  import opened Wrappers
  import Arith

  // ---- Escaping ----

  function Escape(c: char, attr: bool): string {
    match c
    case '&' => "&amp;"
    case '<' => "&lt;"
    case '>' => "&gt;"
    case '"' => if attr then "&quot;" else "\""
    case '\n' => if attr then "&#xA;" else "\n"
    case '\t' => if attr then "&#x9;" else "\t"
    case '\r' => "&#xD;"
    case _ => [c]
  }

  function Encode(s: string, attr: bool): string {
    if s == [] || s[0] == '\0' then [] else Escape(s[0], attr) + Encode(s[1..], attr)
  }

  method AmpEncode(s: string, dst: string, attr: bool) returns (r: string)
    ensures r == dst + Encode(s, attr)
  {
    r := dst;
    var i := 0;
    assert s[0..] == s;
    while i < |s|
      invariant 0 <= i <= |s|
      invariant r + Encode(s[i..], attr) == dst + Encode(s, attr)
    {
      if s[i] == '\0' {
        return;
      }
      assert s[i..][1..] == s[i + 1..];
      r := r + Escape(s[i], attr);
      i := i + 1;
    }
  }

  // ---- Line endings ----

  function Eol(s: string): string {
    if s == [] then []
    else if s[0] == '\r' then ['\n'] + Eol(if |s| > 1 && s[1] == '\n' then s[2..] else s[1..])
    else [s[0]] + Eol(s[1..])
  }

  function Nuls(n: nat): string {
    seq(n, _ => '\0')
  }

  predicate HasPair(s: string) {
    exists k :: 0 < k < |s| && s[k - 1] == '\r' && s[k] == '\n'
  }

  /** The string ends in a carriage return and no line ending was shortened before it. */
  predicate Overruns(s: string) {
    s != [] && s[|s| - 1] == '\r' && !HasPair(s)
  }

  /** Where the scan is: `cur` is the string in `mem`, followed by the NULs that shortening left
      behind, and `s[j..]` is still to come at position `i`. */
  ghost predicate Scanning(s: string, mem: string, cur: string, i: nat, j: nat) {
    && |cur| <= |s| && mem == cur + Nuls(|s| + 1 - |cur|) && '\0' !in cur
    && i <= |cur| && j <= |s| && cur[i..] == s[j..] && cur[..i] + Eol(s[j..]) == Eol(s)
  }

  /** The inner loop passed a carriage return: the string that is left, and why it may be empty. */
  ghost predicate AfterReturn(s: string, cur: string, i: nat) {
    i == |cur| ==> |cur| < |s| || (s != [] && s[|s| - 1] == '\r')
  }

  /** Normalizes line endings in the `|s| + 1` bytes that hold the string `s`.  The scan leaves those
      bytes, with `inside` false, exactly if the string overruns. */
  method NormalizeEol(s: string) returns (inside: bool, mem: string)
    requires '\0' !in s
    ensures inside <==> !Overruns(s)
    ensures inside ==> |Eol(s)| <= |s| && mem == Eol(s) + Nuls(|s| + 1 - |Eol(s)|)
  {
    mem := s + ['\0'];
    var i := 0;
    ghost var cur, j: nat := s, 0;
    StartScan(s, mem);
    while i < |mem| && mem[i] != '\0'
      invariant |mem| == |s| + 1 && At(s, mem, cur, i, j)
      decreases |mem| - i
    {
      mem, i, cur, j := PassReturns(s, mem, i, cur, j);
      Onward(s, mem, cur, i, j);
      i, j := i + 1, if j < |s| then j + 1 else j;
    }
    Finished(s, mem, cur, i, j);
    inside := i < |mem|;
  }

  /** At the head of the outer loop the scan is in the string, or one step past its terminator. */
  ghost predicate At(s: string, mem: string, cur: string, i: nat, j: nat) {
    if i <= |cur| then Scanning(s, mem, cur, i, j) && (j > 0 ==> s[j - 1] != '\r')
    else
      && i == |cur| + 1 && |cur| <= |s| && cur == Eol(s) && mem == cur + Nuls(|s| + 1 - |cur|)
      && AfterReturn(s, cur, |cur|)
  }

  /** The increment of the outer loop, which also steps over the terminator. */
  lemma Onward(s: string, mem: string, cur: string, i: nat, j: nat)
    requires Scanning(s, mem, cur, i, j) && AfterReturn(s, cur, i) && i < |mem| && mem[i] != '\r'
    ensures At(s, mem, cur, i + 1, if j < |s| then j + 1 else j)
  {
    assert |cur[i..]| == |s[j..]|;
    if i < |cur| {
      PassOther(s, mem, cur, i, j);
    } else {
      assert cur[..i] == cur && s[j..] == [] && cur + [] == cur;
    }
  }

  lemma Finished(s: string, mem: string, cur: string, i: nat, j: nat)
    requires |mem| == |s| + 1 && At(s, mem, cur, i, j) && (i < |mem| ==> mem[i] == '\0')
    ensures |Eol(s)| <= |s| && mem == Eol(s) + Nuls(|s| + 1 - |Eol(s)|)
    ensures i < |mem| <==> !Overruns(s)
  {
    EolLength(s);
    if i <= |cur| {
      if i < |cur| {
        NoNulAt(cur, i);
      }
      assert |cur[i..]| == |s[j..]|;
      assert cur[..i] == cur && s[j..] == [] && cur + [] == cur;
    }
  }

  lemma NoNulAt(cur: string, i: nat)
    requires i < |cur| && '\0' !in cur
    ensures cur[i] != '\0'
  {
    assert cur[i] in cur;
  }

  lemma StartScan(s: string, mem: string)
    requires '\0' !in s && mem == s + ['\0']
    ensures Scanning(s, mem, s, 0, 0)
  {
    assert s[0..] == s && Nuls(1) == ['\0'];
  }

  /** The inner loop: each carriage return becomes a line feed, and a line feed after it goes. */
  method PassReturns(ghost s: string, mem: string, i: nat, ghost cur: string, ghost j: nat)
      returns (mem': string, i': nat, ghost cur': string, ghost j': nat)
    requires Scanning(s, mem, cur, i, j) && i < |cur|
    ensures Scanning(s, mem', cur', i', j') && AfterReturn(s, cur', i') && i <= i'
    ensures |mem'| == |mem| && i' < |mem'| && mem'[i'] != '\r'
  {
    mem', i', cur', j' := mem, i, cur, j;
    while mem'[i'] == '\r'
      invariant Scanning(s, mem', cur', i', j') && AfterReturn(s, cur', i') && i <= i'
      invariant |mem'| == |mem| && i' < |mem'|
      decreases |s| - j'
    {
      mem', i', cur', j' := PassReturn(s, mem', i', cur', j');
    }
  }

  method PassReturn(ghost s: string, mem: string, i: nat, ghost cur: string, ghost j: nat)
      returns (mem': string, i': nat, ghost cur': string, ghost j': nat)
    requires Scanning(s, mem, cur, i, j) && i < |mem| && mem[i] == '\r'
    ensures Scanning(s, mem', cur', i', j') && AfterReturn(s, cur', i') && i' == i + 1 && j < j'
    ensures |mem'| == |mem| && i' < |mem'|
  {
    ghost var n := AtReturn(s, mem, cur, i, j);
    mem' := mem[i := '\n'];
    cur' := cur[i := '\n'];
    i' := i + 1;
    j' := j + n;
    if mem'[i'] == '\n' {
      Shortened(mem', cur', |s| + 1 - |cur'|, i');
      mem' := Shorten(mem', i');
      cur' := cur'[..i'] + cur'[i' + 1..];
    }
  }

  /** What is known at a carriage return: `n` characters become one line feed. */
  lemma AtReturn(s: string, mem: string, cur: string, i: nat, j: nat) returns (n: nat)
    requires Scanning(s, mem, cur, i, j) && i < |mem| && mem[i] == '\r'
    ensures i < |cur| && cur[i] == '\r' && j < |s| && s[j] == '\r' && |cur| - i == |s| - j
    ensures mem[i := '\n'] == cur[i := '\n'] + Nuls(|s| + 1 - |cur|) && '\0' !in cur[i := '\n']
    ensures n == if i + 1 < |cur| && cur[i + 1] == '\n' then 2 else 1
    ensures j + n <= |s| && (n == 2 ==> s[j + 1] == '\n') && cur[i + n..] == s[j + n..]
    ensures cur[i := '\n'][..i + 1] + Eol(s[j + n..]) == Eol(s)
  {
    n := if i + 1 < |cur| && cur[i + 1] == '\n' then 2 else 1;
    SameTail(cur, i, s, j, 0);
    SameTail(cur, i, s, j, 1);
    SameTail(cur, i, s, j, n);
    assert cur[i := '\n'][..i + 1] == cur[..i] + "\n";
    ReturnGoes(s, cur[..i], j, n);
  }

  lemma SameTail(cur: string, i: nat, s: string, j: nat, n: nat)
    requires i <= |cur| && j <= |s| && cur[i..] == s[j..] && i + n <= |cur|
    ensures |cur| - i == |s| - j && cur[i + n..] == s[j + n..] && (i + n < |cur| ==> cur[i + n] == s[j + n])
  {
    assert |cur[i..]| == |s[j..]|;
    assert cur[i..][n..] == cur[i + n..] && s[j..][n..] == s[j + n..];
    assert i + n < |cur| ==> cur[i..][n] == s[j..][n];
  }

  lemma ReturnGoes(s: string, front: string, j: nat, n: nat)
    requires j < |s| && s[j] == '\r' && n == if j + 1 < |s| && s[j + 1] == '\n' then 2 else 1
    requires front + Eol(s[j..]) == Eol(s)
    ensures front + "\n" + Eol(s[j + n..]) == Eol(s)
  {
    EolOf(s[j..], n);
    assert s[j..][n..] == s[j + n..];
    Assoc(front, "\n", Eol(s[j + n..]), Eol(s[j..]));
  }

  /** `memmove(s, s + 1, strlen(s))` at position `i`. */
  function Shorten(mem: string, i: nat): string
    requires i + StrLen(mem, i) < |mem|
  {
    var n := StrLen(mem, i);
    mem[..i] + mem[i + 1..i + n + 1] + mem[i + n..]
  }

  function StrLen(mem: string, i: nat): nat
    decreases |mem| - i
  {
    if i >= |mem| || mem[i] == '\0' then 0 else 1 + StrLen(mem, i + 1)
  }

  lemma {:induction false} StrLenIs(mem: string, cur: string, k: nat, i: nat)
    requires mem == cur + Nuls(k) && '\0' !in cur && i <= |cur| && k > 0
    ensures StrLen(mem, i) == |cur| - i
    decreases |cur| - i
  {
    if i < |cur| {
      assert mem[i] == cur[i] && cur[i] in cur;
      StrLenIs(mem, cur, k, i + 1);
    }
  }

  /** Shortening keeps the bytes: one character fewer and one NUL more. */
  lemma Shortened(mem: string, cur: string, k: nat, i: nat)
    requires mem == cur + Nuls(k) && '\0' !in cur && i < |cur| && k > 0
    ensures i + StrLen(mem, i) < |mem|
    ensures Shorten(mem, i) == cur[..i] + cur[i + 1..] + Nuls(k + 1)
    ensures '\0' !in cur[..i] + cur[i + 1..]
  {
    StrLenIs(mem, cur, k, i);
    assert mem[i + 1..|cur| + 1] == cur[i + 1..] + ['\0'];
    assert Nuls(k + 1) == ['\0'] + Nuls(k);
  }

  lemma PassOther(s: string, mem: string, cur: string, i: nat, j: nat)
    requires Scanning(s, mem, cur, i, j) && i < |cur| && mem[i] != '\r'
    ensures Scanning(s, mem, cur, i + 1, j + 1) && s[j] != '\r'
  {
    assert cur[i..][0] == s[j..][0] && s[j..][1..] == s[j + 1..] && cur[i..][1..] == cur[i + 1..];
    Assoc(cur[..i], [s[j]], Eol(s[j + 1..]), Eol(s[j..]));
    assert cur[..i + 1] == cur[..i] + [cur[i]];
  }

  /** Normalization shortens exactly the strings with a carriage return before a line feed. */
  lemma {:induction false} EolLength(s: string)
    ensures |Eol(s)| <= |s| && (|Eol(s)| == |s| <==> !HasPair(s))
  {
    if s != [] {
      var n := if |s| > 1 && s[0] == '\r' && s[1] == '\n' then 2 else 1;
      EolLength(s[n..]);
      if n == 1 {
        PairTail(s);
      } else {
        assert s[1 - 1] == '\r' && s[1] == '\n';
      }
    }
  }

  lemma PairTail(s: string)
    requires s != [] && !(|s| > 1 && s[0] == '\r' && s[1] == '\n')
    ensures HasPair(s) <==> HasPair(s[1..])
  {
    if HasPair(s) {
      var k :| 0 < k < |s| && s[k - 1] == '\r' && s[k] == '\n';
      assert s[1..][k - 2] == '\r' && s[1..][k - 1] == '\n';
    }
    if HasPair(s[1..]) {
      var k :| 0 < k < |s[1..]| && s[1..][k - 1] == '\r' && s[1..][k] == '\n';
      assert s[k] == '\r' && s[k + 1] == '\n';
    }
  }

  /** A lone carriage return at the end, and one after a shortened line ending. */
  lemma OverrunExamples()
    ensures Overruns("a\r") && !Overruns("\r\n") && !Overruns("\r\na\r")
  {
    var t := "\r\na\r";
    assert t[1 - 1] == '\r' && t[1] == '\n';
  }

  lemma EolOf(r: string, n: nat)
    requires r != [] && r[0] == '\r' && n == if |r| > 1 && r[1] == '\n' then 2 else 1
    ensures Eol(r) == "\n" + Eol(r[n..])
  {
  }

  lemma Assoc(a: string, x: string, d: string, xd: string)
    requires xd == x + d
    ensures a + xd == a + x + d
  {
  }

  /** Replaces `n` characters at `i` by `x`, shifting the rest of the buffer. */
  method Overwrite(buf: string, i: nat, n: nat, x: string) returns (r: string)
    requires i + n <= |buf|
    ensures |r| == |buf| - n + |x| && r[..i + |x|] == buf[..i] + x && r[i + |x|..] == buf[i..][n..] == buf[i + n..]
  {
    r := buf[..i] + x + buf[i + n..];
  }

  lemma {:induction false} EolIdentity(s: string)
    requires '\r' !in s
    ensures Eol(s) == s
  {
    if s != [] {
      assert s[0] in s;
      EolIdentity(s[1..]);
    }
  }

  // ---- Numbers ----

  predicate IsSpace(c: char) {
    c == ' ' || '\t' <= c <= '\r'
  }

  function DigitOf(c: char): nat {
    if '0' <= c <= '9' then (c - '0') as nat
    else if 'a' <= c <= 'f' then (c - 'a') as nat + 10
    else if 'A' <= c <= 'F' then (c - 'A') as nat + 10
    else 16
  }

  /** The value of the leading digits after `acc`, and how many there are. */
  function Digits(s: string, base: nat, acc: nat): (nat, nat) {
    if s == [] || DigitOf(s[0]) >= base then (acc, 0)
    else
      var (v, k) := Digits(s[1..], base, acc * base + DigitOf(s[0]));
      (v, k + 1)
  }

  function Unsigned(s: string, base: nat): (int, nat) {
    if base == 16 && |s| > 2 && s[0] == '0' && (s[1] == 'x' || s[1] == 'X') && DigitOf(s[2]) < 16 then
      var (v, k) := Digits(s[2..], 16, 0);
      (v, k + 2)
    else Digits(s, base, 0)
  }

  /** `strtol`: white space, a sign, then digits; value 0 and length 0 if there are no digits. */
  function Strtol(s: string, base: nat): (int, nat) {
    if s == [] then (0, 0)
    else if IsSpace(s[0]) then
      var (v, k) := Strtol(s[1..], base);
      if k == 0 then (0, 0) else (v, k + 1)
    else if s[0] == '-' || s[0] == '+' then
      var (v, k) := Unsigned(s[1..], base);
      if k == 0 then (0, 0) else (if s[0] == '-' then -v else v, k + 1)
    else Unsigned(s, base)
  }

  /** `strtol` stays within a 32-bit `long`. */
  function Clip(v: int): int {
    if v > 0x7FFF_FFFF then 0x7FFF_FFFF else if v < -0x8000_0000 then -0x8000_0000 else v
  }

  // ---- Decoding ----

  /** The number in a character reference at the start of `r`, and where its semicolon is. */
  function CharRef(r: string): Option<(int, nat)>
    requires |r| >= 2
  {
    var hex := |r| > 2 && r[2] == 'x';
    var start := if hex then 3 else 2;
    var (v, k) := Strtol(r[start..], if hex then 16 else 10);
    var c := Clip(v);
    if c != 0 && start + k < |r| && r[start + k] == ';' then Some((c, start + k)) else None
  }

  function Bits(c: nat): nat {
    if c == 0 then 0 else 1 + Bits(c / 2)
  }

  function Pow2(n: nat): nat {
    if n == 0 then 1 else 2 * Pow2(n - 1)
  }

  /** `c >> (6 * n)` */
  function Sextets(c: nat, n: nat): nat {
    if n == 0 then c else Sextets(c / 64, n - 1)
  }

  function Payload(c: nat, b: nat): string {
    if b == 0 then [] else [(0x80 + Sextets(c, b - 1) % 64) as char] + Payload(c, b - 1)
  }

  function Byte(n: int): char {
    (n % 256) as char
  }

  /** The bytes that a character reference stands for: one below 0x80, else a UTF-8 sequence. */
  function Bytes(c: int): string {
    if c < 0x80 then [Byte(c)]
    else
      [Head(c, PayloadCount(c))] + Payload(c, PayloadCount(c))
  }

  function PayloadCount(c: nat): nat {
    if Bits(c) < 2 then 0 else (Bits(c) - 2) / 5
  }

  function Head(c: nat, b: nat): char {
    Byte((if b <= 7 then 0x100 - Pow2(7 - b) else 0) + Sextets(c, b))
  }

  /** The number that continuation bytes denote after the leading bits `v`. */
  function FromBytes(v: nat, p: string): nat
    decreases |p|
  {
    if p == [] then v else FromBytes(v * 64 + (p[0] as nat) % 64, p[1..])
  }

  lemma {:induction false} SextetsStep(c: nat, n: nat)
    ensures Sextets(c, n + 1) == Sextets(c, n) / 64
    decreases n
  {
    if n > 0 {
      SextetsStep(c / 64, n - 1);
    }
  }

  lemma {:induction false} PayloadHolds(c: nat, b: nat)
    ensures |Payload(c, b)| == b && FromBytes(Sextets(c, b), Payload(c, b)) == c
    ensures forall i :: 0 <= i < b ==> 0x80 as char <= Payload(c, b)[i] < 0xC0 as char
  {
    if b > 0 {
      PayloadHolds(c, b - 1);
      SextetsStep(c, b - 1);
      FirstSextet(Sextets(c, b - 1), Payload(c, b - 1));
    }
  }

  lemma FirstSextet(s: nat, p: string)
    ensures FromBytes(s / 64, [(0x80 + s % 64) as char] + p) == FromBytes(s, p)
  {
    var x := (0x80 + s % 64) as char;
    LowSextet(s, x);
    OneByte(s / 64, x, p, s);
  }

  lemma OneByte(v: nat, x: char, p: string, w: nat)
    requires v * 64 + (x as nat) % 64 == w
    ensures FromBytes(v, [x] + p) == FromBytes(w, p)
  {
    assert ([x] + p)[1..] == p;
  }

  lemma LowSextet(s: nat, x: char)
    requires x == (0x80 + s % 64) as char
    ensures s / 64 * 64 + (x as nat) % 64 == s
  {
  }

  lemma {:induction false} BitsBound(c: nat, k: nat)
    ensures Bits(c) <= k <==> c < Pow2(k)
  {
    if k > 0 && c > 0 {
      BitsBound(c / 2, k - 1);
    } else if k == 0 {
      assert c > 0 ==> Bits(c) > 0;
    } else {
      PowPositive(k);
    }
  }

  lemma {:induction false} PowPositive(k: nat)
    ensures Pow2(k) > 0
  {
    if k > 0 {
      PowPositive(k - 1);
    }
  }

  lemma BitsSextet(c: nat, k: nat)
    requires Bits(c) <= k + 6
    ensures Bits(c / 64) <= k
  {
    BitsBound(c, k + 6);
    SixMore(k);
    BitsBound(c / 64, k);
  }

  lemma SixMore(k: nat)
    ensures Pow2(k + 6) == 64 * Pow2(k)
  {
    assert Pow2(k + 2) == 2 * Pow2(k + 1) && Pow2(k + 4) == 2 * Pow2(k + 3);
  }

  lemma {:induction false} BitsSextets(c: nat, n: nat, k: nat)
    requires Bits(c) <= k + 6 * n
    ensures Bits(Sextets(c, n)) <= k
    decreases n
  {
    if n > 0 {
      BitsSextet(c, k + 6 * (n - 1));
      BitsSextets(c / 64, n - 1, k);
    }
  }

  /** A character reference becomes a UTF-8 sequence: a first byte that starts with `b + 1` one bits
      and a zero, `b` continuation bytes, and together they denote the number. */
  lemma BytesAreUtf8(c: nat) returns (b: nat)
    requires 0x80 <= c < 0x8000_0000
    ensures 1 <= b <= 5 && Sextets(c, b) < Pow2(6 - b) && |Bytes(c)| == b + 1
    ensures Bytes(c)[0] as nat == 0x100 - Pow2(7 - b) + Sextets(c, b)
    ensures FromBytes(Sextets(c, b), Bytes(c)[1..]) == c
    ensures forall i :: 1 <= i <= b ==> 0x80 as char <= Bytes(c)[i] < 0xC0 as char
  {
    b := LengthOf(c);
    BitsSextets(c, b, 6 - b);
    BitsBound(Sextets(c, b), 6 - b);
    HeadIs(c, b);
    PayloadHolds(c, b);
    BytesParts(c, b);
    Continued(Bytes(c), Head(c, b), Payload(c, b));
  }

  lemma HeadIs(c: nat, b: nat)
    requires 1 <= b <= 5 && Sextets(c, b) < Pow2(6 - b)
    ensures Head(c, b) as nat == 0x100 - Pow2(7 - b) + Sextets(c, b)
  {
    HeadFits(Sextets(c, b), b);
  }

  lemma BytesParts(c: nat, b: nat)
    requires 0x80 <= c && b == PayloadCount(c)
    ensures Bytes(c) == [Head(c, b)] + Payload(c, b)
  {
  }

  lemma Continued(bs: string, head: char, p: string)
    requires bs == [head] + p && forall i :: 0 <= i < |p| ==> 0x80 as char <= p[i] < 0xC0 as char
    ensures bs[0] == head && bs[1..] == p && |bs| == |p| + 1
    ensures forall i :: 1 <= i <= |p| ==> 0x80 as char <= bs[i] < 0xC0 as char
  {
    assert forall i :: 1 <= i <= |p| ==> bs[i] == p[i - 1];
  }

  lemma LengthOf(c: nat) returns (b: nat)
    requires 0x80 <= c < 0x8000_0000
    ensures 1 <= b <= 5 && b == (Bits(c) - 2) / 5 && Bits(c) <= 5 * b + 6
  {
    BitsBound(c, 7);
    BitsBound(c, 31);
    PowerValues();
    b := (Bits(c) - 2) / 5;
  }

  lemma PowerValues()
    ensures Pow2(7) == 0x80 && Pow2(31) == 0x8000_0000
  {
    assert Pow2(11) == 0x800 && Pow2(16) == 0x1_0000;
    assert Pow2(21) == 0x20_0000 && Pow2(26) == 0x400_0000;
  }

  lemma HeadFits(q: nat, b: nat)
    requires 1 <= b <= 5 && q < Pow2(6 - b)
    ensures 0 < Pow2(7 - b) < 0x100 && Byte(0x100 - Pow2(7 - b) + q) as nat == 0x100 - Pow2(7 - b) + q
  {
    assert Pow2(1) == 2 && Pow2(2) == 4 && Pow2(3) == 8 && Pow2(4) == 16 && Pow2(5) == 32 && Pow2(6) == 64;
    ByteIs(0x100 - Pow2(7 - b) + q);
  }

  lemma ByteIs(n: nat)
    requires n < 256
    ensures Byte(n) as nat == n
  {
  }

  /** Only a reference to a NUL byte writes one. */
  lemma BytesNul(c: int)
    requires c < 0x8000_0000
    ensures '\0' in Bytes(c) <==> c < 0x80 && Byte(c) == '\0'
  {
    if c >= 0x80 {
      var b := BytesAreUtf8(c);
      HeadFits(Sextets(c, b), b);
      assert Bytes(c)[0] != '\0';
    }
  }

  lemma {:induction false} DigitsBound(s: string, base: nat, acc: nat)
    requires base <= 16
    ensures Digits(s, base, acc).0 < (acc + 1) * Pow2(4 * Digits(s, base, acc).1)
  {
    if s != [] && DigitOf(s[0]) < base {
      var d := DigitOf(s[0]);
      DigitsBound(s[1..], base, acc * base + d);
      var k := Digits(s[1..], base, acc * base + d).1;
      NextDigit(acc, base, d, Pow2(4 * k));
      assert Pow2(4 * k + 4) == 16 * Pow2(4 * k) by {
        assert Pow2(4 * k + 2) == 2 * Pow2(4 * k + 1);
      }
    }
  }

  lemma NextDigit(acc: nat, base: nat, d: nat, p: nat)
    requires d < base <= 16
    ensures (acc * base + d + 1) * p <= (acc + 1) * (16 * p)
  {
    Arith.Distribute(acc, 1, base);
    Arith.MulLe(base, 16, acc + 1);
    Arith.MulLe(acc * base + d + 1, (acc + 1) * 16, p);
    Arith.Regroup(acc + 1, 16, p);
  }

  lemma {:induction false} StrtolBound(s: string, base: nat)
    requires base <= 16
    ensures Strtol(s, base).0 < Pow2(4 * Strtol(s, base).1)
  {
    if s != [] && IsSpace(s[0]) {
      StrtolBound(s[1..], base);
      PowGrows(4 * Strtol(s[1..], base).1, 4);
    } else if s != [] {
      UnsignedBound(s[1..], base);
      UnsignedBound(s, base);
      PowGrows(4 * Unsigned(s[1..], base).1, 4);
    }
  }

  lemma UnsignedBound(s: string, base: nat)
    requires base <= 16
    ensures 0 <= Unsigned(s, base).0 < Pow2(4 * Unsigned(s, base).1)
  {
    DigitsBound(s, base, 0);
    if |s| > 2 {
      DigitsBound(s[2..], 16, 0);
      PowGrows(4 * Digits(s[2..], 16, 0).1, 8);
    }
  }

  lemma {:induction false} PowGrows(n: nat, k: nat)
    ensures 0 < Pow2(n) <= Pow2(n + k)
    decreases k
  {
    if k > 0 {
      PowGrows(n, k - 1);
    } else {
      PowPositive(n);
    }
  }

  /** The bytes fit in front of the semicolon of the reference. */
  lemma BytesFit(r: string, c: int, e: nat)
    requires |r| >= 2 && CharRef(r) == Some((c, e))
    ensures |Bytes(c)| <= e && c < 0x8000_0000
  {
    var start := if |r| > 2 && r[2] == 'x' then 3 else 2;
    StrtolBound(r[start..], if start == 3 then 16 else 10);
    if c >= 0x80 {
      var b := BytesAreUtf8(c);
      BitsBound(c, 4 * (e - start));
      BitsBound(c, 7);
      assert Pow2(7) == 0x80;
      BytesCount(c);
    }
  }

  lemma BytesCount(c: nat)
    requires c >= 0x80 && Bits(c) >= 2
    ensures |Bytes(c)| == (Bits(c) - 2) / 5 + 1
  {
    PayloadHolds(c, PayloadCount(c));
  }

  predicate IsReference(text: string) {
    |text| == 5 && text[0] == '&' && text[1] == '#' && text[2] != '&' && text[3] != '&' && text[4] != '&'
  }

  /** The names of entities, each with its semicolon, and the texts that replace them. */
  type Entities = seq<(string, string)>

  /** A name ends at its semicolon and every text is a character reference, so that replacing
      entities comes to an end. */
  ghost predicate Sound(ent: Entities) {
    forall p :: p in ent ==> SoundEntity(p.0, p.1)
  }

  predicate SoundEntity(name: string, text: string) {
    && name != [] && name[|name| - 1] == ';' && ';' !in name[..|name| - 1]
    && IsReference(text) && '\0' !in text
  }

  /** The first entity whose name `r` starts with. */
  function FindEntity(ent: Entities, r: string): Option<(string, string)> {
    if ent == [] then None
    else if ent[0].0 <= r then Some(ent[0])
    else FindEntity(ent[1..], r)
  }

  lemma {:induction false} FoundEntity(ent: Entities, r: string)
    requires FindEntity(ent, r).Some?
    ensures FindEntity(ent, r).value in ent && FindEntity(ent, r).value.0 <= r
  {
    if !(ent[0].0 <= r) {
      FoundEntity(ent[1..], r);
    }
  }

  lemma {:induction false} FindAt(ent: Entities, k: nat, r: string)
    requires k < |ent| && ent[k].0 <= r && forall j :: 0 <= j < k ==> !(ent[j].0 <= r)
    ensures FindEntity(ent, r) == Some(ent[k])
  {
    if k > 0 {
      FindAt(ent[1..], k - 1, r);
    }
  }

  method LookUpEntity(ent: Entities, r: string) returns (o: Option<(string, string)>)
    ensures o == FindEntity(ent, r)
  {
    var b := 0;
    assert ent[0..] == ent;
    while b < |ent| && !(ent[b].0 <= r)
      invariant 0 <= b <= |ent| && FindEntity(ent[b..], r) == FindEntity(ent, r)
    {
      assert ent[b..][1..] == ent[b + 1..];
      b := b + 1;
    }
    o := if b < |ent| then Some(ent[b]) else None;
  }

  /** The string starts as a character reference does. */
  predicate Hashed(r: string) {
    |r| > 1 && r[0] == '&' && r[1] == '#'
  }

  /** Ampersands that do not start a character reference. */
  ghost function Plain(r: string): nat {
    if r == [] then 0 else (if r[0] == '&' && !Hashed(r) then 1 else 0) + Plain(r[1..])
  }

  lemma {:induction false} PlainSuffix(r: string, i: nat)
    requires i <= |r|
    ensures Plain(r[i..]) <= Plain(r)
    decreases |r|
  {
    if i > 0 {
      PlainSuffix(r[1..], i - 1);
      assert r[1..][i - 1..] == r[i..];
    } else {
      assert r[0..] == r;
    }
  }

  lemma PlainReplaced(ent: Entities, r: string)
    requires Sound(ent)
    requires r != [] && r[0] == '&' && !Hashed(r) && FindEntity(ent, r[1..]).Some?
    ensures var (name, text) := FindEntity(ent, r[1..]).value; |name| < |r| && Plain(text + r[|name| + 1..]) < Plain(r)
  {
    FoundEntity(ent, r[1..]);
    var (name, text) := FindEntity(ent, r[1..]).value;
    PlainAfter(r, |name|, text);
  }

  lemma PlainAfter(r: string, n: nat, text: string)
    requires r != [] && r[0] == '&' && !Hashed(r) && n < |r| && IsReference(text)
    ensures Plain(text + r[n + 1..]) < Plain(r)
  {
    PlainSuffix(r[1..], n);
    assert r[1..][n..] == r[n + 1..];
    PlainText(text, r[n + 1..]);
  }

  lemma PlainText(text: string, z: string)
    requires IsReference(text)
    ensures Plain(text + z) == Plain(z)
  {
    var r := text + z;
    assert Hashed(r);
    assert r[1..][1..] == r[2..] && r[2..][1..] == r[3..] && r[3..][1..] == r[4..] && r[4..][1..] == z;
    assert Plain(r) == Plain(r[1..]) == Plain(r[2..]) == Plain(r[3..]) == Plain(r[4..]) == Plain(z);
  }

  /** What the walk finds at its position: a character to keep, a character reference with its number
      and the position of its semicolon, or a known entity with the text that replaces it. */
  datatype Token = Char(c: char) | Reference(n: int, e: nat) | Known(name: string, text: string)

  function First(ent: Entities, r: string): Token
    requires r != []
  {
    if Hashed(r) then
      match CharRef(r)
      case None => Char(r[0])
      case Some((n, e)) => Reference(n, e)
    else if r[0] == '&' then
      match FindEntity(ent, r[1..])
      case None => Char(r[0])
      case Some((name, text)) => Known(name, text)
    else Char(r[0])
  }

  /** What the token leaves behind for good. */
  function Out(t: Token, attr: bool): string {
    match t
    case Char(c) => [if attr && IsSpace(c) then ' ' else c]
    case Reference(n, _) => Bytes(n)
    case Known(_, _) => []
  }

  predicate Fits(r: string, t: Token) {
    match t
    case Char(_) => r != []
    case Reference(_, e) => e < |r|
    case Known(name, _) => |name| < |r|
  }

  /** What is decoded next; the text of an entity is decoded in turn. */
  function Rest(r: string, t: Token): string
    requires Fits(r, t)
  {
    match t
    case Char(_) => r[1..]
    case Reference(_, e) => r[e + 1..]
    case Known(name, text) => text + r[|name| + 1..]
  }

  /** Going on behind the token brings the end nearer. */
  ghost predicate Nearer(r: string, t: Token) {
    && Fits(r, t) && Plain(Rest(r, t)) <= Plain(r)
    && (Plain(Rest(r, t)) == Plain(r) ==> |Rest(r, t)| < |r|)
  }

  lemma FirstNearer(ent: Entities, r: string)
    requires Sound(ent)
    requires r != []
    ensures Nearer(r, First(ent, r))
  {
    match First(ent, r)
    case Char(_) => PlainSuffix(r, 1);
    case Reference(_, e) => PlainSuffix(r, e + 1);
    case Known(_, _) => PlainReplaced(ent, r);
  }

  /** What follows depends on the tokens alone, however they are found. */
  type Lexer = string -> Token

  ghost predicate Advances(lex: Lexer) {
    forall r {:trigger lex(r)} :: r != [] ==> Nearer(r, lex(r))
  }

  function Lex(ent: Entities): Lexer {
    (r: string) => if r == [] then Char('\0') else First(ent, r)
  }

  ghost predicate Lexes(lex: Lexer, ent: Entities) {
    forall r {:trigger First(ent, r)} :: r != [] ==> lex(r) == First(ent, r)
  }

  lemma LexAdvances(ent: Entities)
    requires Sound(ent)
    ensures Advances(Lex(ent)) && Lexes(Lex(ent), ent)
  {
    forall r: string | r != [] ensures Nearer(r, Lex(ent)(r)) {
      FirstNearer(ent, r);
    }
  }

  /** What the rest `r` of the buffer becomes. */
  function Decode(lex: Lexer, r: string, attr: bool): string
    requires Advances(lex)
    decreases Plain(r), |r|
  {
    if r == [] then [] else Out(lex(r), attr) + Decode(lex, Rest(r, lex(r)), attr)
  }

  // ---- When decoding loses the buffer ----

  /** What the walk may meet: a reference to a NUL byte, or an entity whose text needs more room. */
  datatype Event = Nul | Grow

  predicate IsNul(c: int) {
    c < 0x80 && Byte(c) == '\0'
  }

  /** The text does not fit between the ampersand and the semicolon. */
  predicate Grows(name: string, text: string) {
    |text| - 1 > |name|
  }

  function EventOf(t: Token): seq<Event> {
    match t
    case Char(_) => []
    case Reference(n, _) => if IsNul(n) then [Nul] else []
    case Known(name, text) => if Grows(name, text) then [Grow] else []
  }

  function Events(lex: Lexer, r: string): seq<Event>
    requires Advances(lex)
    decreases Plain(r), |r|
  {
    if r == [] then [] else EventOf(lex(r)) + Events(lex, Rest(r, lex(r)))
  }

  /** A reference to a NUL byte comes before any entity that needs room, and such an entity follows:
      the copy then made for it ends at the NUL. */
  predicate Breaks(lex: Lexer, r: string)
    requires Advances(lex)
  {
    var ev := Events(lex, r);
    ev != [] && ev[0] == Nul && Grow in ev
  }

  /** The same in the middle of the walk: whether a NUL was written, and whether a copy was made. */
  ghost predicate Pending(cut: bool, grown: bool, ev: seq<Event>) {
    !grown && Grow in ev && (cut || ev[0] == Nul)
  }

  /** A C string: what comes before the first NUL. */
  function Upto(b: string): string {
    if b == [] || b[0] == '\0' then [] else [b[0]] + Upto(b[1..])
  }

  lemma {:induction false} UptoWhole(b: string)
    ensures Upto(b) == b <==> '\0' !in b
    ensures |Upto(b)| <= |b|
  {
    if b != [] {
      assert b == [b[0]] + b[1..];
      UptoWhole(b[1..]);
      assert b[0] != '\0' ==> Upto(b)[1..] == Upto(b[1..]);
    }
  }

  lemma {:induction false} UptoNuls(b: string, k: nat)
    requires '\0' !in b
    ensures Upto(b + Nuls(k)) == b
  {
    if b != [] {
      assert b[0] in b && (b + Nuls(k))[1..] == b[1..] + Nuls(k);
      UptoNuls(b[1..], k);
    }
  }

  lemma {:induction false} EolNoNul(s: string)
    requires '\0' !in s
    ensures '\0' !in Eol(s)
  {
    if s != [] {
      assert s[0] in s;
      EolNoNul(s[if |s| > 1 && s[0] == '\r' && s[1] == '\n' then 2 else 1..]);
    }
  }

  /** One round of the loop: the token at `i` is replaced by what it leaves, and `i'` is where the
      walk goes on. */
  ghost predicate Turned(b: string, i: nat, b': string, i': nat, t: Token, attr: bool)
    requires i <= |b| && i' <= |b'|
  {
    Fits(b[i..], t) && b'[..i'] == b[..i] + Out(t, attr) && b'[i'..] == Rest(b[i..], t)
  }

  /** A round leaves the result the same, and writes a NUL exactly for a reference to it. */
  lemma RoundKeeps(lex: Lexer, b: string, i: nat, b': string, i': nat, attr: bool, t: Token)
    requires Advances(lex) && i < |b| && i' <= |b'| && t == lex(b[i..]) && Turned(b, i, b', i', t, attr)
    requires ('\0' in Out(t, attr) <==> EventOf(t) == [Nul]) && '\0' !in Rest(b[i..], t)
    ensures b[..i] + Decode(lex, b[i..], attr) == b'[..i'] + Decode(lex, b'[i'..], attr)
    ensures Events(lex, b[i..]) == EventOf(t) + Events(lex, b'[i'..])
    ensures Plain(b'[i'..]) <= Plain(b[i..])
    ensures Plain(b'[i'..]) == Plain(b[i..]) ==> |b'| - i' < |b| - i
    ensures '\0' in b'[..i'] <==> '\0' in b[..i] || EventOf(t) == [Nul]
    ensures '\0' !in b'[i'..]
  {
    Assoc(b[..i], Out(t, attr), Decode(lex, Rest(b[i..], t), attr), Decode(lex, b[i..], attr));
  }

  lemma TokenNul(ent: Entities, r: string, attr: bool)
    requires Sound(ent)
    requires r != [] && '\0' !in r
    ensures Fits(r, First(ent, r))
    ensures '\0' in Out(First(ent, r), attr) <==> EventOf(First(ent, r)) == [Nul]
    ensures '\0' !in Rest(r, First(ent, r))
  {
    FirstNearer(ent, r);
    match First(ent, r)
    case Char(c) => assert c in r;
    case Reference(n, e) => BytesFit(r, n, e); BytesNul(n);
    case Known(_, _) => FoundEntity(ent, r[1..]);
  }

  /** A character reference: its bytes are written, which they fit, and the rest moves up. */
  method CharRefStep(ent: Entities, buf: string, i: nat, ghost attr: bool) returns (buf': string, i': nat)
    requires i < |buf| && Hashed(buf[i..])
    ensures i' <= |buf'| && Turned(buf, i, buf', i', First(ent, buf[i..]), attr)
  {
    var n := CharRef(buf[i..]);
    if n.None? {
      Kept(buf, i);
      return buf, i + 1;
    }
    var (c, e) := n.value;
    BytesFit(buf[i..], c, e);
    buf' := Overwrite(buf, i, e + 1, Bytes(c));
    i' := i + |Bytes(c)|;
  }

  lemma Kept(b: string, i: nat)
    requires i < |b|
    ensures b[..i + 1] == b[..i] + [b[i]] && b[i + 1..] == b[i..][1..] && b[i] == b[i..][0]
  {
  }

  /** An entity reference.  The first text that needs room is put into a copy of the string; `lost`
      says that the copy ends before the position of the walk. */
  method EntityStep(ent: Entities, buf: string, i: nat, ghost attr: bool, grown: bool)
      returns (lost: bool, buf': string, i': nat, grown': bool)
    requires Sound(ent)
    requires i < |buf| && buf[i] == '&' && !Hashed(buf[i..]) && '\0' !in buf[i..]
    ensures i' <= |buf'| && Turned(buf, i, buf', i', First(ent, buf[i..]), attr)
    ensures lost <==> EventOf(First(ent, buf[i..])) == [Grow] && !grown && '\0' in buf[..i]
    ensures grown' <==> grown || EventOf(First(ent, buf[i..])) == [Grow]
  {
    lost, grown' := false, grown;
    var n := LookUpEntity(ent, buf[i..][1..]);
    if n.None? {
      Kept(buf, i);
      return false, buf, i + 1, grown;
    }
    FoundEntity(ent, buf[i..][1..]);
    var (name, text) := n.value;
    if Grows(name, text) {
      if !grown {
        var copy := Upto(buf);
        CopyEnds(buf, i);
        lost := |copy| < |buf|;
      }
      grown' := true;
    }
    buf' := Overwrite(buf, i, |name| + 1, text);
    i' := i;
    Rejoin(buf', i, text, buf[i..][|name| + 1..], buf[..i]);
  }

  lemma Rejoin(b: string, i: nat, text: string, z: string, front: string)
    requires i + |text| <= |b| && |front| == i && b[..i + |text|] == front + text && b[i + |text|..] == z
    ensures b[..i] == front && b[i..] == text + z
  {
    assert b == b[..i + |text|] + b[i + |text|..];
  }

  lemma CopyEnds(buf: string, i: nat)
    requires i <= |buf| && '\0' !in buf[i..]
    ensures |Upto(buf)| < |buf| <==> '\0' in buf[..i]
  {
    UptoWhole(buf);
    UptoPrefix(buf);
    assert buf == buf[..i] + buf[i..];
  }

  lemma {:induction false} UptoPrefix(b: string)
    ensures Upto(b) <= b
  {
    if b != [] {
      UptoPrefix(b[1..]);
    }
  }

  /** One round of the decoding loop. */
  method DecodeStep(ent: Entities, buf: string, i: nat, attr: bool, grown: bool)
      returns (lost: bool, buf': string, i': nat, grown': bool)
    requires Sound(ent)
    requires i < |buf| && '\0' !in buf[i..]
    ensures i' <= |buf'| && Turned(buf, i, buf', i', First(ent, buf[i..]), attr)
    ensures lost <==> EventOf(First(ent, buf[i..])) == [Grow] && !grown && '\0' in buf[..i]
    ensures grown' <==> grown || EventOf(First(ent, buf[i..])) == [Grow]
  {
    lost, buf', i', grown' := false, buf, i + 1, grown;
    if Hashed(buf[i..]) {
      buf', i' := CharRefStep(ent, buf, i, attr);
    } else if buf[i] == '&' {
      lost, buf', i', grown' := EntityStep(ent, buf, i, attr, grown);
    } else if attr && IsSpace(buf[i]) {
      buf' := Overwrite(buf, i, 1, " ");
    } else {
      Kept(buf, i);
    }
  }

  lemma PendingStep(cut: bool, grown: bool, ev: seq<Event>, rest: seq<Event>)
    requires |ev| <= 1 && !(ev == [Grow] && !grown && cut)
    ensures Pending(cut, grown, ev + rest) <==> Pending(cut || ev == [Nul], grown || ev == [Grow], rest)
  {
    assert ev == [] ==> ev + rest == rest;
    assert ev != [] ==> (ev + rest)[0] == ev[0];
  }

  datatype Outcome = Decoded(text: string) | PastEnd | Lost

  /** The whole of `ezxml_decode`, for text and for attribute values of type CDATA.  It ends on every
      string; the conditions say exactly when it ends with the decoded string, when the scan for line
      endings leaves the string, and when the walk leaves a copy that was cut short. */
  method EzxmlDecode(ent: Entities, s: string, attr: bool) returns (o: Outcome)
    requires Sound(ent) && '\0' !in s
    ensures Advances(Lex(ent))
    ensures o == PastEnd <==> Overruns(s)
    ensures o == Lost <==> !Overruns(s) && Breaks(Lex(ent), Eol(s))
    ensures o.Decoded? ==> o.text == Upto(Decode(Lex(ent), Eol(s), attr))
  {
    LexAdvances(ent);
    var inside, mem := NormalizeEol(s);
    if !inside {
      return PastEnd;
    }
    EolNoNul(s);
    UptoNuls(Eol(s), |s| + 1 - |Eol(s)|);
    var lost, buf := DecodeBuffer(ent, Upto(mem), attr, Lex(ent));
    o := if lost then Lost else Decoded(Upto(buf));
  }

  method DecodeBuffer(ent: Entities, t: string, attr: bool, ghost lex: Lexer) returns (lost: bool, buf: string)
    requires Sound(ent) && Advances(lex) && Lexes(lex, ent) && '\0' !in t
    ensures lost <==> Breaks(lex, t)
    ensures !lost ==> buf == Decode(lex, t, attr)
  {
    var i: nat, grown := 0, false;
    buf := t;
    StartWalk(lex, t, attr);
    while i < |buf|
      invariant Walking(lex, t, attr, buf, i, grown)
      decreases Plain(buf[i..]), |buf| - i
    {
      ghost var was, at, had := buf, i, grown;
      ghost var ev;
      lost, buf, i, grown, ev := Round(ent, buf, i, attr, grown, lex);
      WalkOn(lex, t, attr, was, at, had, buf, i, grown, ev);
      if lost {
        return;
      }
    }
    WalkEnds(lex, t, attr, buf, grown);
    lost := false;
  }

  /** In the middle of the walk: what is decoded and what is to come make up the result, and whether
      the buffer will be lost is told by what was written and what is to come. */
  ghost predicate Walking(lex: Lexer, t: string, attr: bool, buf: string, i: nat, grown: bool)
    requires Advances(lex)
  {
    && i <= |buf| && '\0' !in buf[i..] && buf[..i] + Decode(lex, buf[i..], attr) == Decode(lex, t, attr)
    && (Pending('\0' in buf[..i], grown, Events(lex, buf[i..])) <==> Breaks(lex, t))
  }

  lemma StartWalk(lex: Lexer, t: string, attr: bool)
    requires Advances(lex) && '\0' !in t
    ensures Walking(lex, t, attr, t, 0, false)
  {
    assert t[0..] == t && t[..0] == [];
    assert [] + Decode(lex, t, attr) == Decode(lex, t, attr);
  }

  lemma WalkOn(lex: Lexer, t: string, attr: bool, b: string, i: nat, grown: bool, b': string, i': nat, grown': bool,
               ev: seq<Event>)
    requires Advances(lex) && Walking(lex, t, attr, b, i, grown) && i' <= |b'| && '\0' !in b'[i'..] && |ev| <= 1
    requires b[..i] + Decode(lex, b[i..], attr) == b'[..i'] + Decode(lex, b'[i'..], attr)
    requires Events(lex, b[i..]) == ev + Events(lex, b'[i'..])
    requires '\0' in b'[..i'] <==> '\0' in b[..i] || ev == [Nul]
    requires grown' <==> grown || ev == [Grow]
    ensures if ev == [Grow] && !grown && '\0' in b[..i] then Breaks(lex, t) else Walking(lex, t, attr, b', i', grown')
  {
    var cut, rest := '\0' in b[..i], Events(lex, b'[i'..]);
    if ev == [Grow] && !grown && cut {
      assert (ev + rest)[0] == Grow;
    } else {
      PendingStep(cut, grown, ev, rest);
    }
  }

  lemma WalkEnds(lex: Lexer, t: string, attr: bool, b: string, grown: bool)
    requires Advances(lex) && Walking(lex, t, attr, b, |b|, grown)
    ensures b == Decode(lex, t, attr) && !Breaks(lex, t)
  {
    assert b[|b|..] == [] && b[..|b|] == b && b + [] == b;
  }

  /** A round of the loop, with what it keeps. */
  method Round(ent: Entities, buf: string, i: nat, attr: bool, grown: bool, ghost lex: Lexer)
      returns (lost: bool, buf': string, i': nat, grown': bool, ghost ev: seq<Event>)
    requires Sound(ent) && Advances(lex) && Lexes(lex, ent) && i < |buf| && '\0' !in buf[i..]
    ensures i' <= |buf'| && '\0' !in buf'[i'..] && |ev| <= 1
    ensures buf[..i] + Decode(lex, buf[i..], attr) == buf'[..i'] + Decode(lex, buf'[i'..], attr)
    ensures Events(lex, buf[i..]) == ev + Events(lex, buf'[i'..])
    ensures '\0' in buf'[..i'] <==> '\0' in buf[..i] || ev == [Nul]
    ensures Plain(buf'[i'..]) <= Plain(buf[i..])
    ensures Plain(buf'[i'..]) == Plain(buf[i..]) ==> |buf'| - i' < |buf| - i
    ensures lost <==> ev == [Grow] && !grown && '\0' in buf[..i]
    ensures grown' <==> grown || ev == [Grow]
  {
    lost, buf', i', grown' := DecodeStep(ent, buf, i, attr, grown);
    ghost var t := First(ent, buf[i..]);
    ev := EventOf(t);
    TokenNul(ent, buf[i..], attr);
    RoundKeeps(lex, buf, i, buf', i', attr, t);
  }

  /** A reference to a NUL byte, with an entity that needs room among what follows. */
  lemma FirstNul(lex: Lexer, r: string, c: int, e: nat, z: string)
    requires Advances(lex)
    requires r != [] && lex(r) == Reference(c, e) && IsNul(c) && e < |r| && r[e + 1..] == z && Grow in Events(lex, z)
    ensures Breaks(lex, r)
  {
    PassEvent(lex, r, lex(r), z);
  }

  // ---- Round trip ----

  lemma DecimalRef(d: char, f: char, z: string)
    requires '1' <= d <= '9' && '0' <= f <= '9'
    ensures CharRef(['&', '#', d, f, ';'] + z) == Some((DigitOf(d) * 10 + DigitOf(f), 4))
  {
    var r := ['&', '#', d, f, ';'] + z;
    assert r[2..] == [d, f, ';'] + z;
    TwoDigits(d, f, z);
  }

  lemma TwoDigits(d: char, f: char, z: string)
    requires '1' <= d <= '9' && '0' <= f <= '9'
    ensures Strtol([d, f, ';'] + z, 10) == (DigitOf(d) * 10 + DigitOf(f), 2)
  {
    var s := [d, f, ';'] + z;
    assert s[1..] == [f, ';'] + z && s[1..][1..] == [';'] + z;
    assert Digits(s[1..][1..], 10, DigitOf(d) * 10 + DigitOf(f)) == (DigitOf(d) * 10 + DigitOf(f), 0);
    assert Digits(s[1..], 10, DigitOf(d)) == (DigitOf(d) * 10 + DigitOf(f), 1);
  }

  lemma SmallBytes(c: int)
    requires 0 < c < 0x80
    ensures Bytes(c) == [c as char] && Byte(c) != '\0'
  {
  }

  lemma HexRef(d: char, z: string)
    requires 1 <= DigitOf(d) < 16
    ensures CharRef(['&', '#', 'x', d, ';'] + z) == Some((DigitOf(d), 4))
  {
    var r := ['&', '#', 'x', d, ';'] + z;
    assert r[3..] == [d, ';'] + z;
    OneDigit(d, z);
  }

  lemma OneDigit(d: char, z: string)
    requires 1 <= DigitOf(d) < 16
    ensures Strtol([d, ';'] + z, 16) == (DigitOf(d), 1)
  {
    var s := [d, ';'] + z;
    assert s[1..] == [';'] + z;
    assert Digits(s[1..], 16, DigitOf(d)) == (DigitOf(d), 0);
  }

  /** What comes back for one character: in attribute values, vertical tab and form feed are white
      space that is not escaped. */
  function Back(c: char, attr: bool): char {
    if attr && (c == 0x0B as char || c == 0x0C as char) then ' ' else c
  }

  function Backs(s: string, attr: bool): string {
    if s == [] || s[0] == '\0' then [] else [Back(s[0], attr)] + Backs(s[1..], attr)
  }

  /** An ampersand, the name and anything after it is replaced by a reference to the character. */
  ghost predicate Names(ent: Entities, name: string, d: char, f: char) {
    forall z {:trigger FindEntity(ent, name + z)} :: FindEntity(ent, name + z) == Some((name, ['&', '#', d, f, ';']))
  }

  /** The table knows the entities that escaping uses. */
  ghost predicate Standard(ent: Entities) {
    Names(ent, "amp;", '3', '8') && Names(ent, "lt;", '6', '0') && Names(ent, "gt;", '6', '2') &&
    Names(ent, "quot;", '3', '4')
  }

  predicate IsMarkup(c: char, attr: bool) {
    c == '&' || c == '<' || c == '>' || (attr && c == '"')
  }

  predicate IsControl(c: char, attr: bool) {
    c == '\r' || (attr && (c == '\n' || c == '\t'))
  }

  /** Escaping a character and taking tokens from it, with `z` still to come: the character itself, a
      reference to it, or an entity and then the reference that replaces it. */
  ghost predicate Gives(lex: Lexer, r: string, c: char, z: string) {
    r != [] &&
    match lex(r)
    case Char(x) => x == c && r[1..] == z
    case Reference(n, e) => 0 < n < 0x80 && n as char == c && e < |r| && r[e + 1..] == z
    case Known(name, text) => |name| < |r| && text != [] && GivesReference(lex, text + r[|name| + 1..], c, z)
  }

  ghost predicate GivesReference(lex: Lexer, r: string, c: char, z: string) {
    r != [] && lex(r).Reference? && 0 < lex(r).n < 0x80 && lex(r).n as char == c && lex(r).e < |r| &&
    r[lex(r).e + 1..] == z
  }

  lemma DecodeGiven(lex: Lexer, r: string, c: char, z: string, attr: bool)
    requires Advances(lex) && Gives(lex, r, c, z)
    ensures Decode(lex, r, attr) == [if lex(r).Char? && attr && IsSpace(c) then ' ' else c] + Decode(lex, z, attr)
    ensures Nul in Events(lex, r) <==> Nul in Events(lex, z)
  {
    match lex(r)
    case Char(_) =>
    case Reference(_, _) => DecodeReferred(lex, r, c, z, attr);
    case Known(name, text) =>
      var r' := text + r[|name| + 1..];
      DecodeReferred(lex, r', c, z, attr);
      assert [] + Decode(lex, r', attr) == Decode(lex, r', attr);
  }

  lemma DecodeReferred(lex: Lexer, r: string, c: char, z: string, attr: bool)
    requires Advances(lex) && GivesReference(lex, r, c, z)
    ensures Decode(lex, r, attr) == [c] + Decode(lex, z, attr)
    ensures Events(lex, r) == Events(lex, z)
  {
    SmallBytes(lex(r).n);
    PassReference(lex, r, lex(r), z, attr);
    PassEvent(lex, r, lex(r), z);
    NoEvent(Events(lex, z));
  }

  lemma PassReference(lex: Lexer, r: string, t: Token, z: string, attr: bool)
    requires Advances(lex) && r != [] && t == lex(r) && t.Reference? && t.e < |r| && r[t.e + 1..] == z
    ensures Decode(lex, r, attr) == Bytes(t.n) + Decode(lex, z, attr)
  {
    assert Rest(r, t) == z && Out(t, attr) == Bytes(t.n);
  }

  lemma PassEvent(lex: Lexer, r: string, t: Token, z: string)
    requires Advances(lex) && r != [] && t == lex(r) && t.Reference? && t.e < |r| && r[t.e + 1..] == z
    ensures Events(lex, r) == EventOf(t) + Events(lex, z)
  {
    assert Rest(r, t) == z;
  }

  lemma NoEvent(ev: seq<Event>)
    ensures [] + ev == ev
  {
  }

  lemma PlainGives(lex: Lexer, ent: Entities, c: char, z: string, attr: bool, r: string)
    requires Lexes(lex, ent) && !IsMarkup(c, attr) && !IsControl(c, attr) && r == Escape(c, attr) + z
    ensures Gives(lex, r, c, z) && lex(r).Char?
  {
    assert Escape(c, attr) == [c];
    assert r[0] == c && r[1..] == z;
    assert First(ent, r) == Char(c);
  }

  lemma ControlGives(lex: Lexer, ent: Entities, c: char, z: string, attr: bool, r: string)
    requires Lexes(lex, ent) && IsControl(c, attr) && r == Escape(c, attr) + z
    ensures Gives(lex, r, c, z) && lex(r).Reference?
  {
    var d := ControlForm(c, attr);
    HexRef(d, z);
    assert r[5..] == z;
    assert First(ent, r) == Reference(DigitOf(d), 4);
  }

  lemma ControlForm(c: char, attr: bool) returns (d: char)
    requires IsControl(c, attr)
    ensures Escape(c, attr) == ['&', '#', 'x', d, ';'] && 1 <= DigitOf(d) < 16 && DigitOf(d) as char == c
  {
    d := if c == '\n' then 'A' else if c == '\t' then '9' else 'D';
  }

  lemma MarkupGives(lex: Lexer, ent: Entities, c: char, z: string, attr: bool, r: string)
    requires Lexes(lex, ent) && Standard(ent) && IsMarkup(c, attr) && r == Escape(c, attr) + z
    ensures Gives(lex, r, c, z) && lex(r).Known?
  {
    var name, d, f := MarkupParts(ent, c, z, attr, r);
    NamedGives(lex, ent, name, d, f, c, z, r);
  }

  /** The entity a character is escaped by, and the digits of its code. */
  lemma MarkupParts(ent: Entities, c: char, z: string, attr: bool, r: string)
      returns (name: string, d: char, f: char)
    requires Standard(ent) && IsMarkup(c, attr) && r == Escape(c, attr) + z
    ensures Names(ent, name, d, f) && r == ['&'] + name + z && name != [] && name[0] != '#'
    ensures '1' <= d <= '9' && '0' <= f <= '9' && (DigitOf(d) * 10 + DigitOf(f)) as char == c
  {
    match c
    case '<' => name, d, f := "lt;", '6', '0';
    case '>' => name, d, f := "gt;", '6', '2';
    case '"' => name, d, f := "quot;", '3', '4';
    case _ => name, d, f := "amp;", '3', '8';
  }

  lemma NamedGives(lex: Lexer, ent: Entities, name: string, d: char, f: char, c: char, z: string, r: string)
    requires Lexes(lex, ent) && Names(ent, name, d, f) && r == ['&'] + name + z && name != [] && name[0] != '#'
    requires '1' <= d <= '9' && '0' <= f <= '9' && (DigitOf(d) * 10 + DigitOf(f)) as char == c
    ensures Gives(lex, r, c, z) && lex(r).Known?
  {
    var text := ['&', '#', d, f, ';'];
    KnownFirst(ent, name, text, z, r);
    DecimalRef(d, f, z);
    assert (text + z)[5..] == z;
    assert First(ent, text + z) == Reference(DigitOf(d) * 10 + DigitOf(f), 4);
  }

  /** An entity reference is recognized. */
  lemma KnownFirst(ent: Entities, name: string, text: string, z: string, r: string)
    requires FindEntity(ent, name + z) == Some((name, text)) && name != [] && name[0] != '#' && r == ['&'] + name + z
    ensures First(ent, r) == Known(name, text) && |name| < |r| && r[|name| + 1..] == z
  {
    assert r[1..] == name + z && r[1] != '#';
  }

  lemma EscapeGives(lex: Lexer, ent: Entities, c: char, z: string, attr: bool, r: string)
    requires Lexes(lex, ent) && Standard(ent) && c != '\0' && r == Escape(c, attr) + z
    ensures Gives(lex, r, c, z) && Back(c, attr) == if lex(r).Char? && attr && IsSpace(c) then ' ' else c
  {
    if IsMarkup(c, attr) {
      MarkupGives(lex, ent, c, z, attr, r);
    } else if IsControl(c, attr) {
      ControlGives(lex, ent, c, z, attr, r);
    } else {
      PlainGives(lex, ent, c, z, attr, r);
    }
  }

  /** Escaping a character and decoding it, with `z` still to come. */
  lemma DecodeEscape(lex: Lexer, ent: Entities, c: char, z: string, attr: bool, r: string)
    requires Advances(lex) && Lexes(lex, ent) && Standard(ent) && c != '\0' && r == Escape(c, attr) + z
    ensures Decode(lex, r, attr) == [Back(c, attr)] + Decode(lex, z, attr)
    ensures Nul in Events(lex, r) <==> Nul in Events(lex, z)
  {
    EscapeGives(lex, ent, c, z, attr, r);
    DecodeGiven(lex, r, c, z, attr);
  }

  /** Decoding undoes escaping, whatever follows: nothing decoded is decoded again. */
  lemma {:induction false} DecodeEncode(lex: Lexer, ent: Entities, s: string, z: string, attr: bool, whole: string)
    requires Advances(lex) && Lexes(lex, ent) && Standard(ent) && whole == Encode(s, attr) + z
    ensures Decode(lex, whole, attr) == Backs(s, attr) + Decode(lex, z, attr)
    ensures Nul in Events(lex, whole) <==> Nul in Events(lex, z)
  {
    if s == [] || s[0] == '\0' {
      assert whole == z;
      assert Backs(s, attr) == [];
    } else {
      var rest := Encode(s[1..], attr) + z;
      DecodeEncode(lex, ent, s[1..], z, attr, rest);
      EncodeSplit(s, z, attr);
      DecodeEscape(lex, ent, s[0], rest, attr, whole);
      Assoc([Back(s[0], attr)], Backs(s[1..], attr), Decode(lex, z, attr), Decode(lex, rest, attr));
    }
  }

  lemma EncodeSplit(s: string, z: string, attr: bool)
    requires s != [] && s[0] != '\0'
    ensures Encode(s, attr) + z == Escape(s[0], attr) + (Encode(s[1..], attr) + z)
  {
  }

  lemma {:induction false} EncodeClean(s: string, attr: bool)
    ensures '\r' !in Encode(s, attr) && '\0' !in Encode(s, attr)
  {
    if s != [] && s[0] != '\0' {
      EncodeClean(s[1..], attr);
      assert '\r' !in Escape(s[0], attr) && '\0' !in Escape(s[0], attr);
    }
  }

  lemma {:induction false} BacksSame(s: string, attr: bool)
    requires '\0' !in s
    ensures Backs(s, attr) == s <==> !attr || forall c :: c in s ==> c != 0x0B as char && c != 0x0C as char
  {
    if s != [] {
      assert s[0] in s && s == [s[0]] + s[1..];
      BacksSame(s[1..], attr);
      assert Backs(s, attr)[1..] == Backs(s[1..], attr);
      assert forall c :: c in s <==> c == s[0] || c in s[1..];
    }
  }

  // ---- The entities every document starts with ----

  const ENTITIES: Entities :=
    [("lt;", "&#60;"), ("gt;", "&#62;"), ("quot;", "&#34;"), ("apos;", "&#39;"), ("amp;", "&#38;")]

  lemma DefaultSound()
    ensures Sound(ENTITIES)
  {
    EntitySound("lt;", "lt", '6', '0');
    EntitySound("gt;", "gt", '6', '2');
    EntitySound("quot;", "quot", '3', '4');
    EntitySound("apos;", "apos", '3', '9');
    EntitySound("amp;", "amp", '3', '8');
  }

  lemma EntitySound(name: string, word: string, d: char, f: char)
    requires name == word + ";" && ';' !in word && '1' <= d <= '9' && '0' <= f <= '9'
    ensures SoundEntity(name, ['&', '#', d, f, ';'])
  {
    assert name[..|name| - 1] == word;
  }

  lemma DefaultNames(k: nat, d: char, f: char)
    requires k < |ENTITIES| && ENTITIES[k].1 == ['&', '#', d, f, ';']
    ensures Names(ENTITIES, ENTITIES[k].0, d, f)
  {
    var name := ENTITIES[k].0;
    forall z ensures FindEntity(ENTITIES, name + z) == Some(ENTITIES[k]) {
      var r := name + z;
      assert r[0] == name[0] && r[1] == name[1] && name <= r;
      forall j | 0 <= j < k ensures !(ENTITIES[j].0 <= r) {
        assert ENTITIES[j].0[0] != r[0] || ENTITIES[j].0[1] != r[1];
      }
      FindAt(ENTITIES, k, r);
    }
  }

  lemma DefaultStandard()
    ensures Sound(ENTITIES) && Standard(ENTITIES)
  {
    DefaultSound();
    assert "&#60;" == ['&', '#', '6', '0', ';'] && "&#62;" == ['&', '#', '6', '2', ';'];
    assert "&#34;" == ['&', '#', '3', '4', ';'] && "&#38;" == ['&', '#', '3', '8', ';'];
    DefaultNames(0, '6', '0');
    DefaultNames(1, '6', '2');
    DefaultNames(2, '3', '4');
    DefaultNames(4, '3', '8');
  }

  /** A reference to a NUL byte and then an entity that needs room. */
  lemma BreaksExample(ent: Entities)
    requires Sound(ent) && Standard(ent)
    ensures Advances(Lex(ent)) && Breaks(Lex(ent), "&#-256;&lt;")
  {
    LexAdvances(ent);
    BreaksWith(Lex(ent), ent, "&#-256;&lt;", "&lt;");
  }

  lemma BreaksWith(lex: Lexer, ent: Entities, r: string, z: string)
    requires Advances(lex) && Lexes(lex, ent) && Names(ent, "lt;", '6', '0') && r == "&#-256;&lt;" && z == "&lt;"
    ensures Breaks(lex, r)
  {
    var c := NulReference(lex, ent, r, z);
    LtGrows(lex, ent, z);
    FirstNul(lex, r, c, 6, z);
  }

  lemma NulReference(lex: Lexer, ent: Entities, r: string, z: string) returns (c: int)
    requires Lexes(lex, ent) && r == "&#-256;&lt;" && z == "&lt;"
    ensures 7 <= |r| && lex(r) == Reference(c, 6) && IsNul(c) && r[7..] == z
  {
    c := -256;
    var n := r[2..];
    assert n == "-256;&lt;" && n[1..] == "256;&lt;";
    ThreeDigits();
    assert First(ent, r) == Reference(-256, 6);
  }

  lemma ThreeDigits()
    ensures Digits("256;&lt;", 10, 0) == (256, 3)
  {
    assert "256;&lt;"[1..] == "56;&lt;" && "56;&lt;"[1..] == "6;&lt;" && "6;&lt;"[1..] == ";&lt;";
    assert Digits(";&lt;", 10, 256) == (256, 0);
    assert Digits("6;&lt;", 10, 25) == (256, 1);
    assert Digits("56;&lt;", 10, 2) == (256, 2);
  }

  lemma LtGrows(lex: Lexer, ent: Entities, e: string)
    requires Advances(lex) && Lexes(lex, ent) && Names(ent, "lt;", '6', '0') && e == "&lt;"
    ensures Grow in Events(lex, e)
  {
    var text := ['&', '#', '6', '0', ';'];
    assert ['&'] + "lt;" + "" == e;
    KnownFirst(ent, "lt;", text, "", e);
    assert Grows("lt;", text);
  }

  /** What is escaped is decoded without leaving the string or losing the buffer, and line ending
      normalization does nothing to it.  It comes back unchanged exactly if it is text, or has no
      vertical tab and no form feed. */
  lemma RoundTrip(ent: Entities, s: string, attr: bool)
    requires Sound(ent) && Standard(ent) && '\0' !in s
    ensures Advances(Lex(ent)) && !Overruns(Encode(s, attr)) && Eol(Encode(s, attr)) == Encode(s, attr)
    ensures !Breaks(Lex(ent), Encode(s, attr))
    ensures Upto(Decode(Lex(ent), Eol(Encode(s, attr)), attr)) == s <==>
      !attr || forall c :: c in s ==> c != 0x0B as char && c != 0x0C as char
  {
    LexAdvances(ent);
    RoundTripWith(Lex(ent), ent, s, attr);
  }

  lemma RoundTripWith(lex: Lexer, ent: Entities, s: string, attr: bool)
    requires '\0' !in s && Advances(lex) && Lexes(lex, ent) && Standard(ent)
    ensures !Overruns(Encode(s, attr)) && Eol(Encode(s, attr)) == Encode(s, attr)
    ensures !Breaks(lex, Encode(s, attr))
    ensures Upto(Decode(lex, Eol(Encode(s, attr)), attr)) == s <==>
      !attr || forall c :: c in s ==> c != 0x0B as char && c != 0x0C as char
  {
    var e := Encode(s, attr);
    EncodeClean(s, attr);
    EolIdentity(e);
    assert e != [] ==> e[|e| - 1] in e;
    assert e + [] == e && Backs(s, attr) + [] == Backs(s, attr);
    DecodeEncode(lex, ent, s, [], attr, e);
    BacksSame(s, attr);
    BacksNoNul(s, attr);
    UptoWhole(Backs(s, attr));
  }

  lemma {:induction false} BacksNoNul(s: string, attr: bool)
    ensures '\0' !in Backs(s, attr)
  {
    if s != [] && s[0] != '\0' {
      BacksNoNul(s[1..], attr);
    }
  }

  /** Escaping and then decoding with the default entities, as the two loops do it. */
  method EscapeAndDecode(s: string, attr: bool) returns (o: Outcome)
    requires '\0' !in s
    ensures o.Decoded?
    ensures o == Decoded(s) <==> !attr || forall c :: c in s ==> c != 0x0B as char && c != 0x0C as char
  {
    DefaultStandard();
    RoundTrip(ENTITIES, s, attr);
    EncodeClean(s, attr);
    var e := AmpEncode(s, "", attr);
    assert e == Encode(s, attr);
    o := EzxmlDecode(ENTITIES, e, attr);
  }

  /** A vertical tab in an attribute value comes back as a space. */
  lemma VerticalTabExample(ent: Entities)
    requires Sound(ent) && Standard(ent)
    ensures Advances(Lex(ent))
    ensures var s := [0x0B as char]; Upto(Decode(Lex(ent), Eol(Encode(s, true)), true)) != s
  {
    var s := [0x0B as char];
    assert s[0] in s;
    RoundTrip(ent, s, true);
  }
}
