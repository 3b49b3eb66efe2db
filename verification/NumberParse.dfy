/**
 The parsers skipAtoi (src/lib/stdio.cpp) and atoi (src/lib/stdlib.cpp), and exactly
 when atoi reads back what `number` has printed in base 10.
 */
module NumberParse {
  import opened Words
  import opened NumberFormat

  // The value of a char of the source, which is signed.
  function Code(c: char): int {
    var x := c as int % 256;
    if x < 128 then x else x - 256
  }

  // The text in front of the first NUL.
  function Text(s: string): (t: string)
    ensures |t| <= |s|
  {
    if s == [] || Code(s[0]) == 0 then [] else [s[0]] + Text(s[1..])
  }

  // It goes on exactly as long as there is no NUL.
  lemma {:induction false} InText(s: string, i: nat)
    requires i <= |Text(s)|
    ensures i < |Text(s)| <==> i < |s| && Code(s[i]) != 0
    ensures i < |Text(s)| ==> Text(s)[i] == s[i]
    decreases i
  {
    if i > 0 {
      InText(s[1..], i - 1);
    }
  }

  // The value of a text if every character counts as a digit.
  function Read(s: string): int {
    if s == [] then 0 else Read(s[..|s| - 1]) * 10 + Code(s[|s| - 1]) - Code('0')
  }

  // atoi: a minus sign in front, and then everything up to a NUL is a digit.
  function Parsed(s: string): int {
    var t := Text(s);
    if t != [] && t[0] == '-' then S32(-Read(t[1..])) else S32(Read(t))
  }

  // ---------- the parsers ----------

  // Arithmetic on int32 agrees with arithmetic on integers, seen in 32 bits.
  lemma Wraps(a: int, d: int)
    ensures S32(S32(a) * 10 + d) == S32(a * 10 + d) && S32(-S32(a)) == S32(-a) && S32(S32(a)) == S32(a)
  {
    var k := a / TWO32;
    assert a == k * TWO32 + a % TWO32;
    assert S32(a) == a - k * TWO32 || S32(a) == a - (k + 1) * TWO32;
    var j := if S32(a) == a - k * TWO32 then k else k + 1;
    assert S32(a) == a - j * TWO32;
    Periodic(a * 10 + d, 10 * j);
    Periodic(-a, -j);
    Periodic(a, j);
  }

  lemma Periodic(a: int, k: int)
    ensures S32(a - k * 0x1_0000_0000) == S32(a)
  {
  }

  // One round of either parser: character i is taken as a digit.
  lemma ReadOn(s: string, from: nat, i: nat)
    requires from <= i < |s|
    ensures S32(Read(s[from..i + 1])) == S32(S32(Read(s[from..i])) * 10 + (Code(s[i]) - Code('0')))
  {
    assert s[from..i + 1][..i - from] == s[from..i];
    hide Code, S32;
    Wraps(Read(s[from..i]), Code(s[i]) - Code('0'));
  }

  method Atoi(str: string) returns (r: int)
    ensures r == Parsed(str)
  {
    ghost var t := Text(str);
    InText(str, 0);
    MinusIsText();
    hide Read, Text, Code, S32, Parsed;
    var sign, result, i := 1, 0, 0;
    if str != [] && str[0] == '-' {
      sign := -1;
      i := 1;
    }
    ghost var from := i;
    Nothing(t[from..i]);
    while i < |str| && Code(str[i]) != 0
      invariant from <= i <= |t| && result == S32(Read(t[from..i]))
    {
      InText(str, i);
      ReadOn(t, from, i);
      result := S32(result * 10 + (Code(str[i]) - Code('0')));
      i := i + 1;
    }
    InText(str, i);
    assert t[from..i] == t[from..];
    Concludes(str, result, from);
    r := S32(result * sign);
  }

  lemma MinusIsText()
    ensures Code('-') != 0
  {
  }

  lemma Concludes(str: string, result: int, from: nat)
    requires from <= |Text(str)| && from == (if str != [] && str[0] == '-' then 1 else 0) && result == S32(Read(Text(str)[from..]))
    ensures Parsed(str) == S32(result * if from == 1 then -1 else 1)
  {
    InText(str, 0);
    MinusIsText();
    hide Read, Text, Code, S32;
    Wraps(Read(Text(str)[from..]), 0);
    assert Text(str)[0..] == Text(str);
  }

  lemma Nothing(s: string)
    requires s == []
    ensures S32(Read(s)) == 0
  {
  }

  predicate IsDigit(c: char) {
    Code('0') <= Code(c) <= Code('9')
  }

  // skipAtoi: the longest run of digits in front, and what follows it.
  method SkipAtoi(s: string) returns (i: int, rest: string)
    ensures |rest| <= |s| && s == s[..|s| - |rest|] + rest && i == S32(Read(s[..|s| - |rest|]))
    ensures (forall j :: 0 <= j < |s| - |rest| ==> IsDigit(s[j])) && (rest != [] ==> !IsDigit(rest[0]))
  {
    i := 0;
    var k := 0;
    Nothing(s[..0]);
    hide Read, Code, S32, IsDigit;
    while k < |s| && IsDigit(s[k])
      invariant 0 <= k <= |s| && i == S32(Read(s[..k])) && forall j :: 0 <= j < k ==> IsDigit(s[j])
    {
      ReadOn(s, 0, k);
      assert s[0..k] == s[..k] && s[0..k + 1] == s[..k + 1];
      i := S32(i * 10 + (Code(s[k]) - Code('0')));
      k := k + 1;
    }
    rest := s[k..];
  }

  // ---------- powers and odd factors ----------

  function Pow10(n: nat): (p: nat)
    ensures p > 0
  {
    if n == 0 then 1 else 10 * Pow10(n - 1)
  }

  // 1, 11, 111, ...
  function Ones(n: nat): nat {
    if n == 0 then 0 else 10 * Ones(n - 1) + 1
  }

  lemma {:induction false} OnesIs(n: nat)
    ensures Pow10(n) == 9 * Ones(n) + 1 && (n > 0 ==> Ones(n) % 2 == 1)
  {
    if n > 0 {
      OnesIs(n - 1);
      TenOdd(Ones(n - 1));
    }
  }

  lemma TenOdd(o: int)
    ensures (10 * o + 1) % 2 == 1
  {
    assert 10 * o + 1 == 2 * (5 * o) + 1;
  }

  lemma {:induction false} Pow10Sum(a: nat, b: nat)
    ensures Pow10(a + b) == Pow10(a) * Pow10(b)
  {
    if a > 0 {
      Pow10Sum(a - 1, b);
    }
  }

  // x is a multiple of 2^k.
  predicate Twos(x: int, k: nat)
    decreases k
  {
    k == 0 || (x % 2 == 0 && Twos(x / 2, k - 1))
  }

  lemma {:induction false} TwosAre(x: int, k: nat)
    ensures Twos(x, k) <==> exists q: int :: x == q * Pow2(k)
    decreases k
  {
    if k == 0 {
      assert x == x * Pow2(0);
    } else {
      TwosAre(x / 2, k - 1);
      if Twos(x, k) {
        var q: int :| x / 2 == q * Pow2(k - 1);
        Twice(q, Pow2(k - 1));
        assert x == q * Pow2(k);
      }
      if q: int :| x == q * Pow2(k) {
        Twice(q, Pow2(k - 1));
        assert x / 2 == q * Pow2(k - 1);
      }
    }
  }

  lemma Twice(q: int, p: int)
    ensures q * (2 * p) == 2 * (q * p)
  {
  }

  lemma TwosOfWord(x: int)
    ensures Twos(x, 32) <==> x % TWO32 == 0
  {
    TwosAre(x, 32);
    Pow2Is32();
    if x % TWO32 == 0 {
      assert x == x / TWO32 * Pow2(32);
    }
  }

  // An odd factor does not help to reach a power of two.
  lemma {:induction false} OddCancels(u: int, x: int, k: nat)
    requires u % 2 == 1
    ensures Twos(u * x, k) <==> Twos(x, k)
    decreases k
  {
    if k > 0 {
      OddTimes(u, x);
      if x % 2 == 0 {
        Twice(u, x / 2);
        OddCancels(u, x / 2, k - 1);
      }
    }
  }

  lemma OddTimes(u: int, x: int)
    requires u % 2 == 1
    ensures (u * x) % 2 == x % 2
  {
    var h := u / 2;
    assert u == 2 * h + 1;
    assert u * x == 2 * (h * x) + x;
  }

  // Each factor 10 is one factor 2.
  lemma {:induction false} TensReach(u: int, n: nat, k: nat)
    requires u % 2 == 1
    ensures Twos(u * Pow10(n), k) <==> n >= k
    decreases k
  {
    if k > 0 {
      if n == 0 {
        assert u * 1 == u;
      } else {
        Tenfold(u, Pow10(n - 1));
        OddTimes(5, u);
        TensReach(5 * u, n - 1, k - 1);
      }
    }
  }

  lemma Tenfold(u: int, p: int)
    ensures u * (10 * p) == 2 * (5 * u * p)
  {
  }

  lemma SixteenIsFour(x: int, k: nat)
    requires k >= 4
    ensures Twos(16 * x, k) <==> Twos(x, k - 4)
  {
    assert 16 * x / 2 == 8 * x && 8 * x / 2 == 4 * x && 4 * x / 2 == 2 * x && 2 * x / 2 == x;
    assert Twos(16 * x, k) <==> Twos(8 * x, k - 1);
    assert Twos(8 * x, k - 1) <==> Twos(4 * x, k - 2);
    assert Twos(4 * x, k - 2) <==> Twos(2 * x, k - 3);
  }

  lemma SameWords(a: int, b: int)
    ensures S32(a) == S32(b) <==> (a - b) % TWO32 == 0
  {
  }

  // ---------- what is printed ----------

  function Blanks(n: nat): string {
    Repeat(' ', n)
  }

  // The blanks in front, the number of digits with all leading zeros, and the blanks
  // behind, of what is printed in base 10.
  function Front(num: uint32, size: int, precision: int, f: Flags): nat {
    var slack := Slack(num, 10, size, precision, f);
    if !f.left && !f.zeropad && slack > 0 then slack else 0
  }

  function Wide(num: uint32, size: int, precision: int, f: Flags): nat {
    var slack := Slack(num, 10, size, precision, f);
    (if !f.left && f.zeropad && slack > 0 then slack else 0) + Precise(num, precision, f)
  }

  function Precise(num: uint32, precision: int, f: Flags): nat {
    var n := |AllDigits(Magnitude(num, f), 10)|;
    if n > precision then n else precision
  }

  function Back(num: uint32, size: int, precision: int, f: Flags): nat {
    var slack := Slack(num, 10, size, precision, f);
    if f.left && slack > 0 then slack else 0
  }

  function DigitText(num: uint32, size: int, precision: int, f: Flags): string {
    (if f.zeropad && !f.left then Repeat('0', Slack(num, 10, size, precision, f)) else "") + Body(num, 10, precision, f)
  }

  lemma FormattedParts(num: uint32, size: int, precision: int, f: Flags)
    ensures Formatted(num, 10, size, precision, f) ==
      Blanks(Front(num, size, precision, f)) + Sign(num, f) + DigitText(num, size, precision, f) + Blanks(Back(num, size, precision, f))
  {
    var slack := Slack(num, 10, size, precision, f);
    NoPad(slack);
    NoPad(0);
    hide Repeat, Body, Slack;
    var sign, body := Sign(num, f), Body(num, 10, precision, f);
    assert sign + Prefix(10, f) == sign;
    PartsJoin(sign, body, Repeat('0', slack), Repeat(' ', slack));
  }

  lemma PartsJoin(sign: string, body: string, zeros: string, blanks: string)
    ensures "" + sign + ("" + body) + blanks == sign + body + blanks
    ensures "" + sign + (zeros + body) + "" == sign + zeros + body
    ensures blanks + sign + ("" + body) + "" == blanks + sign + body
  {
  }

  predicate AllDecimal(s: string) {
    forall i :: 0 <= i < |s| ==> '0' <= s[i] <= '9'
  }

  lemma {:induction false} ReadPrinted(d: seq<nat>, small: bool)
    requires forall i :: 0 <= i < |d| ==> d[i] < 10
    ensures Read(Printed(d, small)) == Value(d, 10)
    ensures AllDecimal(Printed(d, small))
  {
    if d != [] {
      ReadPrinted(d[1..], small);
      var front, c := Printed(d[1..], small), Char(d[0], small);
      CharIs(d[0], small);
      hide Code, Char;
      var p := Printed(d, small);
      assert p == front + [c] && p[..|p| - 1] == front && p[|p| - 1] == c;
      assert Read(p) == Read(front) * 10 + d[0];
    }
  }

  lemma CharIs(d: nat, small: bool)
    requires d < 10
    ensures Code(Char(d, small)) - Code('0') == d && '0' <= Char(d, small) <= '9'
  {
  }

  lemma AllDigitsDecode(n: nat, base: nat)
    requires base >= 2
    ensures Value(AllDigits(n, base), base) == n
  {
    DigitsDecode(n, base);
    if n == 0 {
      assert [0][1..] == [];
    }
  }

  lemma {:induction false} ReadSum(a: string, b: string)
    ensures Read(a + b) == Read(a) * Pow10(|b|) + Read(b)
    decreases |b|
  {
    if b == [] {
      assert a + b == a;
    } else {
      var front, c := b[..|b| - 1], Code(b[|b| - 1]) - Code('0');
      assert (a + b)[..|a + b| - 1] == a + front && (a + b)[|a + b| - 1] == b[|b| - 1];
      assert Read(a + b) == Read(a + front) * 10 + c && Read(b) == Read(front) * 10 + c;
      assert Pow10(|b|) == 10 * Pow10(|front|);
      hide Read, Code, Pow10;
      ReadSum(a, front);
      TenTimes(Read(a), Pow10(|front|));
    }
  }

  lemma TenTimes(a: int, p: int)
    ensures a * p * 10 == a * (10 * p)
  {
  }

  lemma {:induction false} ReadRepeat(c: char, n: nat)
    ensures Read(Repeat(c, n)) == (Code(c) - Code('0')) * Ones(n)
    ensures |Repeat(c, n)| == n
  {
    if n > 0 {
      ReadRepeat(c, n - 1);
      assert Repeat(c, n)[..n - 1] == Repeat(c, n - 1);
      OnesTimes(Code(c) - Code('0'), Ones(n - 1));
    }
  }

  lemma OnesTimes(k: int, o: int)
    ensures k * (10 * o + 1) == k * o * 10 + k
  {
  }

  // The digits, with their leading zeros, stand for the magnitude.
  lemma DigitTextIs(num: uint32, size: int, precision: int, f: Flags)
    ensures var s := DigitText(num, size, precision, f);
      Read(s) == Magnitude(num, f) && |s| == Wide(num, size, precision, f) > 0 && AllDecimal(s)
  {
    BodyIs(num, precision, f);
    var slack, body := Slack(num, 10, size, precision, f), Body(num, 10, precision, f);
    hide Read, Body, Precise, Magnitude, Repeat, AllDecimal, Slack;
    if f.zeropad && !f.left {
      ZerosInFront(slack, body);
    } else {
      assert "" + body == body;
    }
  }

  lemma BodyIs(num: uint32, precision: int, f: Flags)
    ensures var s := Body(num, 10, precision, f);
      Read(s) == Magnitude(num, f) && |s| == Precise(num, precision, f) > 0 && AllDecimal(s)
  {
    var d := AllDigits(Magnitude(num, f), 10);
    BodyParts(num, precision, f);
    hide *;
    AllDigitsDecode(Magnitude(num, f), 10);
    DigitsInFull(d, precision, f.small);
  }

  lemma BodyParts(num: uint32, precision: int, f: Flags)
    ensures var d := AllDigits(Magnitude(num, f), 10);
      && Body(num, 10, precision, f) == Repeat('0', precision - |d|) + Printed(d, f.small)
      && Precise(num, precision, f) == (if |d| > precision then |d| else precision) > 0
  {
    hide Repeat, Printed, AllDigits, Magnitude;
  }

  lemma DigitsInFull(d: seq<nat>, precision: int, small: bool)
    requires d != [] && forall i :: 0 <= i < |d| ==> d[i] < 10
    ensures var s := Repeat('0', precision - |d|) + Printed(d, small);
      Read(s) == Value(d, 10) && |s| == (if |d| > precision then |d| else precision) && AllDecimal(s)
  {
    ReadPrinted(d, small);
    hide Read, Value, Printed, Repeat, AllDecimal;
    ZerosInFront(precision - |d|, Printed(d, small));
  }

  lemma ZerosInFront(n: int, s: string)
    requires AllDecimal(s)
    ensures Read(Repeat('0', n) + s) == Read(s) && AllDecimal(Repeat('0', n) + s)
    ensures |Repeat('0', n) + s| == |s| + if n > 0 then n else 0
  {
    ReadSum(Repeat('0', n), s);
    if n > 0 {
      ReadRepeat('0', n);
    }
    hide Read;
  }

  // ---------- reading the whole text ----------

  // What is read for b blanks, a sign, l digits that stand for m, and t blanks.
  function Total(b: nat, sign: string, m: int, l: nat, t: nat): int {
    ((-16 * Ones(b)) * Pow10(|sign| + l) + (Read(sign) * Pow10(l) + m)) * Pow10(t) - 16 * Ones(t)
  }

  lemma ReadWhole(b: nat, sign: string, digits: string, t: nat)
    ensures Read(Blanks(b) + sign + digits + Blanks(t)) == Total(b, sign, Read(digits), |digits|, t)
  {
    ReadRepeat(' ', b);
    ReadRepeat(' ', t);
    hide Read, Repeat;
    ReadSum(sign, digits);
    ReadSum(Blanks(b), sign + digits);
    assert Blanks(b) + (sign + digits) == Blanks(b) + sign + digits;
    ReadSum(Blanks(b) + sign + digits, Blanks(t));
  }

  predicate IsSign(sign: string) {
    sign == "" || sign == "-" || sign == "+" || sign == " "
  }

  lemma ReadSign(sign: string)
    requires IsSign(sign)
    ensures Read(sign) == if sign == "" then 0 else if sign == "-" then -3 else if sign == "+" then -5 else -16
  {
    assert sign != "" ==> sign[..0] == "";
  }

  predicate Plain(s: string) {
    forall i :: 0 <= i < |s| ==> s[i] == ' ' || s[i] == '+' || s[i] == '-' || '0' <= s[i] <= '9'
  }

  lemma {:induction false} PlainText(s: string)
    requires Plain(s)
    ensures Text(s) == s
  {
    if s != [] {
      PlainText(s[1..]);
    }
  }

  lemma WholeIsPlain(b: nat, sign: string, digits: string, t: nat)
    requires IsSign(sign) && digits != [] && AllDecimal(digits)
    ensures var s := Blanks(b) + sign + digits + Blanks(t);
      && Plain(s) && s != [] && (s[0] == '-' <==> b == 0 && sign == "-")
      && (b == 0 && sign == "-" ==> s[1..] == Blanks(0) + "" + digits + Blanks(t))
  {
    assert Plain(Blanks(b)) && Plain(sign) && Plain(digits) && Plain(Blanks(t));
    assert b > 0 ==> Blanks(b)[0] == ' ';
    assert Blanks(0) == "";
    hide Repeat, Blanks;
    var s := Blanks(b) + sign + digits + Blanks(t);
    if b == 0 {
      assert s == sign + digits + Blanks(t);
    }
  }

  // There is no NUL in it, and it starts with a minus sign only if that is the sign.
  lemma ParsedWhole(b: nat, sign: string, digits: string, t: nat)
    requires IsSign(sign) && digits != [] && AllDecimal(digits)
    ensures Parsed(Blanks(b) + sign + digits + Blanks(t)) ==
      if b == 0 && sign == "-" then S32(-Total(0, "", Read(digits), |digits|, t)) else S32(Total(b, sign, Read(digits), |digits|, t))
  {
    hide *;
    WholeIsPlain(b, sign, digits, t);
    var s := Blanks(b) + sign + digits + Blanks(t);
    if b == 0 && sign == "-" {
      ReadWhole(0, "", digits, t);
      ParsedAs(s, true, Total(0, "", Read(digits), |digits|, t));
    } else {
      ReadWhole(b, sign, digits, t);
      ParsedAs(s, false, 0);
    }
  }

  lemma ParsedAs(s: string, minus: bool, v: int)
    requires Plain(s) && s != [] && (s[0] == '-' <==> minus) && (minus ==> Read(s[1..]) == v)
    ensures Parsed(s) == if minus then S32(-v) else S32(Read(s))
  {
    PlainText(s);
    hide Read, S32, Text, Code, Plain;
  }

  // ---------- when the number comes back ----------

  // b blanks, a sign, l digits that stand for m, and t blanks, where b or t is 0.
  predicate Returns(b: nat, sign: string, m: nat, l: nat, t: nat) {
    if t > 0 then
      if sign == "" || sign == "-" then (9 * m - 16) % TWO32 == 0
      else (Ones(t) * (9 * m - 16) - (if sign == "+" then 5 else 16) * Pow10(l + t)) % TWO32 == 0
    else if sign == "+" then l >= 32
    else if sign == "-" then b == 0 || (2 * m - (160 * Ones(b) + 3) * Pow10(l)) % TWO32 == 0
    else l >= 28 || (b == 0 && sign == "")
  }

  function Signed(sign: string, m: int): int {
    if sign == "-" then -m else m
  }

  // The difference between what is read and what was printed.
  function Error(b: nat, sign: string, m: nat, l: nat, t: nat): int {
    if b == 0 && sign == "-" then m - Total(0, "", m, l, t)
    else Total(b, sign, m, l, t) - Signed(sign, m)
  }

  lemma ErrorIs(b: nat, sign: string, m: nat, l: nat, t: nat)
    requires IsSign(sign) && (b == 0 || t == 0)
    ensures var e := Error(b, sign, m, l, t);
      && (t > 0 && sign == "" ==> e == Ones(t) * (9 * m - 16))
      && (t > 0 && sign == "-" ==> -e == Ones(t) * (9 * m - 16))
      && (t > 0 && sign == "+" ==> e == Ones(t) * (9 * m - 16) - 5 * Pow10(l + t))
      && (t > 0 && sign == " " ==> e == Ones(t) * (9 * m - 16) - 16 * Pow10(l + t))
      && (t == 0 && sign == "" ==> -e == 16 * (Ones(b) * Pow10(l)))
      && (t == 0 && sign == " " ==> -e == 16 * (Ones(b + 1) * Pow10(l)))
      && (t == 0 && sign == "+" ==> -e == (160 * Ones(b) + 5) * Pow10(l))
      && (t == 0 && sign == "-" ==> e == if b == 0 then 0 else 2 * m - (160 * Ones(b) + 3) * Pow10(l))
  {
    ReadSign(sign);
    ReadSign("");
    OnesIs(t);
    Pow10Sum(l, t);
    hide Read;
    var o, p, q := Ones(b), Pow10(l), Pow10(t);
    if t > 0 {
      TrailingBlanks(m, Ones(t), q, p);
    } else {
      LeadingBlanks(o, p);
    }
  }

  lemma TrailingBlanks(m: int, o: int, q: int, p: int)
    requires q == 9 * o + 1
    ensures (0 + m) * q - 16 * o - m == o * (9 * m - 16)
    ensures (-5 * p + m) * q - 16 * o - m == o * (9 * m - 16) - 5 * (p * q)
    ensures (-16 * p + m) * q - 16 * o - m == o * (9 * m - 16) - 16 * (p * q)
  {
    assert (k => k * p * q)(5) == 5 * (p * q);
  }

  lemma LeadingBlanks(o: int, p: int)
    ensures (-16 * o) * p == -16 * (o * p)
    ensures (-16 * o) * (10 * p) - 16 * p == -16 * ((10 * o + 1) * p)
    ensures (-16 * o) * (10 * p) - 5 * p == -((160 * o + 5) * p)
    ensures (-16 * o) * (10 * p) - 3 * p == -((160 * o + 3) * p)
  {
  }

  lemma ErrorReturns(b: nat, sign: string, m: nat, l: nat, t: nat)
    requires IsSign(sign) && (b == 0 || t == 0)
    ensures Error(b, sign, m, l, t) % TWO32 == 0 <==> Returns(b, sign, m, l, t)
  {
    ErrorIs(b, sign, m, l, t);
    Negated(Error(b, sign, m, l, t));
    hide Error, Ones, Pow10;
    if t > 0 {
      OnesCancel(t, 9 * m - 16);
    } else {
      InFrontReturns(b, sign, m, l, Error(b, sign, m, l, t));
    }
  }

  lemma InFrontReturns(b: nat, sign: string, m: nat, l: nat, e: int)
    requires IsSign(sign) && (e % TWO32 == 0 <==> -e % TWO32 == 0)
    requires sign == "" ==> -e == 16 * (Ones(b) * Pow10(l))
    requires sign == " " ==> -e == 16 * (Ones(b + 1) * Pow10(l))
    requires sign == "+" ==> -e == (160 * Ones(b) + 5) * Pow10(l)
    requires sign == "-" ==> e == if b == 0 then 0 else 2 * m - (160 * Ones(b) + 3) * Pow10(l)
    ensures e % TWO32 == 0 <==> Returns(b, sign, m, l, 0)
  {
    if sign == "+" {
      Odd160(b, l);
    } else if sign == "" && b > 0 {
      Sixteenth(b, l);
    } else if sign == " " {
      Sixteenth(b + 1, l);
    }
    NoBlanks(l);
    hide Ones, Pow10;
  }

  lemma NoBlanks(l: nat)
    ensures 16 * (Ones(0) * Pow10(l)) == 0
  {
  }

  lemma Negated(e: int)
    ensures e % TWO32 == 0 <==> -e % TWO32 == 0
  {
  }

  lemma OnesCancel(t: nat, x: int)
    requires t > 0
    ensures (Ones(t) * x) % TWO32 == 0 <==> x % TWO32 == 0
  {
    OnesIs(t);
    OddCancels(Ones(t), x, 32);
    TwosOfWord(Ones(t) * x);
    TwosOfWord(x);
  }

  lemma Odd160(b: nat, l: nat)
    ensures ((160 * Ones(b) + 5) * Pow10(l)) % TWO32 == 0 <==> l >= 32
  {
    TensReach(160 * Ones(b) + 5, l, 32);
    TwosOfWord((160 * Ones(b) + 5) * Pow10(l));
  }

  lemma Sixteenth(b: nat, l: nat)
    requires b > 0
    ensures (16 * (Ones(b) * Pow10(l))) % TWO32 == 0 <==> l >= 28
  {
    var x := Ones(b) * Pow10(l);
    OnesIs(b);
    TwosOfWord(16 * x);
    SixteenIsFour(x, 32);
    TensReach(Ones(b), l, 28);
  }

  lemma MagnitudeIs(num: uint32, f: Flags)
    ensures IsSign(Sign(num, f)) && S32(num) == S32(Signed(Sign(num, f), Magnitude(num, f)))
  {
    if f.sign && num >= TWO31 {
      Periodic(num, 1);
    }
  }

  // atoi gives back the 32 bits that were printed in base 10 exactly under this condition:
  // always without blanks and plus sign, -2147483648 included; with a plus sign in front
  // or blanks in front of an unsigned number only if there are so many digits that the
  // wrong leading characters count for nothing in 32 bits; in the other cases by chance.
  lemma AtoiUndoesNumber(num: uint32, size: int, precision: int, f: Flags)
    ensures Parsed(Formatted(num, 10, size, precision, f)) == S32(num) <==>
      Returns(Front(num, size, precision, f), Sign(num, f), Magnitude(num, f), Wide(num, size, precision, f), Back(num, size, precision, f))
  {
    var b, t, l := Front(num, size, precision, f), Back(num, size, precision, f), Wide(num, size, precision, f);
    var sign, m, digits := Sign(num, f), Magnitude(num, f), DigitText(num, size, precision, f);
    assert b == 0 || t == 0;
    FormattedParts(num, size, precision, f);
    DigitTextIs(num, size, precision, f);
    MagnitudeIs(num, f);
    hide Formatted, Front, Back, Wide, Magnitude, Sign, DigitText, Blanks, Parsed, Read, IsSign;
    ParsedWhole(b, sign, digits, t);
    ErrorReturns(b, sign, m, l, t);
    hide Total, Returns, S32;
    SameError(b, sign, m, l, t);
  }

  lemma SameError(b: nat, sign: string, m: nat, l: nat, t: nat)
    ensures Error(b, sign, m, l, t) % TWO32 == 0 <==>
      (if b == 0 && sign == "-" then S32(-Total(0, "", m, l, t)) else S32(Total(b, sign, m, l, t))) == S32(Signed(sign, m))
  {
    hide Total, S32;
    if b == 0 && sign == "-" {
      SameWords(-Total(0, "", m, l, t), Signed(sign, m));
    } else {
      SameWords(Total(b, sign, m, l, t), Signed(sign, m));
    }
  }

  // A blank in front is taken for a digit: 5 printed in two columns is read as -155.
  lemma BlankIsRead()
    ensures var f := Flags(false, true, false, false, false, false, false);
      Formatted(5, 10, 2, 0, f) == " 5" && Parsed(" 5") == -155
  {
    FiveIsPrinted();
    hide *;
    FiveIsRead();
  }

  lemma FiveIsPrinted()
    ensures Formatted(5, 10, 2, 0, Flags(false, true, false, false, false, false, false)) == " 5"
  {
    assert Digits(5, 10) == [5];
    assert Printed([5], false) == "5";
    assert Repeat(' ', 1) == " ";
  }

  lemma FiveIsRead()
    ensures Parsed(" 5") == -155
  {
    FiveInTwo();
    assert Blanks(1) + "" + "5" + Blanks(0) == " 5";
    assert AllDecimal("5") && IsSign("") && S32(-155) == -155;
    hide *;
    ParsedWhole(1, "", "5", 0);
  }

  lemma FiveInTwo()
    ensures Total(1, "", Read("5"), 1, 0) == -155
  {
    assert Read("5") == 5 && Read("") == 0;
    assert Ones(1) == 1 && Ones(0) == 0 && Pow10(0) == 1 && Pow10(1) == 10;
  }
}
