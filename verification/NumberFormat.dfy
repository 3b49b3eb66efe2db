/**
 The digit printer `number` of src/lib/stdio.cpp, its integer branch.
 */
module NumberFormat {
  import opened Words

  datatype Flags = Flags(zeropad: bool, sign: bool, plus: bool, space: bool, left: bool, special: bool, small: bool)

  // ---------- digits ----------

  function Quot(n: nat, base: nat): (q: nat)
    requires base >= 2
    ensures n > 0 ==> q < n
  {
    Halves(n, base);
    n / base
  }

  function Rem(n: nat, base: nat): (r: nat)
    requires base >= 2
    ensures r < base
  {
    n % base
  }

  // tmp as the loop of `number` leaves it: the digits of n, the lowest first.
  function Digits(n: nat, base: nat): (d: seq<nat>)
    requires base >= 2
    ensures forall i :: 0 <= i < |d| ==> d[i] < base
    decreases n
  {
    if n == 0 then [] else [Rem(n, base)] + Digits(Quot(n, base), base)
  }

  function AllDigits(n: nat, base: nat): (d: seq<nat>)
    requires base >= 2
    ensures |d| > 0 && forall i :: 0 <= i < |d| ==> d[i] < base
  {
    if n == 0 then [0] else Digits(n, base)
  }

  function Mul(a: nat, b: nat): nat {
    a * b
  }

  function Value(d: seq<nat>, base: nat): nat {
    if d == [] then 0 else d[0] + Mul(base, Value(d[1..], base))
  }

  // The digits stand for the number they were made from.
  lemma {:induction false} DigitsDecode(n: nat, base: nat)
    requires base >= 2
    ensures Value(Digits(n, base), base) == n
    decreases n
  {
    hide Quot, Rem, Mul, Digits;
    DigitStep(n, base);
    if n > 0 {
      var d := Digits(Quot(n, base), base);
      DigitsDecode(Quot(n, base), base);
      QuotRem(n, base);
      assert ([Rem(n, base)] + d)[1..] == d;
      assert Value([Rem(n, base)] + d, base) == Rem(n, base) + Mul(base, Value(d, base));
    }
  }

  lemma QuotRem(n: nat, base: nat)
    requires base >= 2
    ensures Rem(n, base) + Mul(base, Quot(n, base)) == n
  {
  }

  function Pow2(k: nat): nat {
    if k == 0 then 1 else 2 * Pow2(k - 1)
  }

  // A number below 2^k has at most k digits, in every base; tmp has room for 36.
  lemma {:induction false} FewDigits(n: nat, base: nat, k: nat)
    requires base >= 2 && n < Pow2(k)
    ensures |Digits(n, base)| <= k
    decreases n
  {
    if n > 0 {
      assert n / base <= n / 2 by {
        Halves(n, base);
      }
      FewDigits(n / base, base, k - 1);
    }
  }

  lemma Halves(n: nat, base: nat)
    requires base >= 2
    ensures n / base <= n / 2
  {
    var q := n / base;
    assert base * q <= n;
    assert 2 * q <= base * q;
  }

  lemma Pow2Is32()
    ensures Pow2(32) == TWO32
  {
    assert Pow2(8) == 256;
    assert Pow2(16) == 65536 by {
      assert Pow2(12) == 4096;
    }
    assert Pow2(24) == 0x100_0000 by {
      assert Pow2(20) == 0x10_0000;
    }
    assert Pow2(28) == 0x1000_0000;
  }

  lemma RoomInTmp(n: uint32, base: nat)
    requires base >= 2
    ensures 1 <= |AllDigits(n, base)| <= 32
  {
    Pow2Is32();
    FewDigits(n, base, 32);
  }

  // ---------- the text ----------

  function Char(d: nat, small: bool): char
    requires d < 36
  {
    if d < 10 then '0' + d as char else if small then 'a' + (d - 10) as char else 'A' + (d - 10) as char
  }

  // The digits as they are printed: the highest first.
  function Printed(d: seq<nat>, small: bool): (s: string)
    requires forall i :: 0 <= i < |d| ==> d[i] < 36
    ensures |s| == |d|
  {
    if d == [] then [] else Printed(d[1..], small) + [Char(d[0], small)]
  }

  const CAPITALS := "0123456789ABCDEFGHIJKLMNOPQRSTUVWXYZ"
  const SMALLS := "0123456789abcdefghijklmnopqrstuvwxyz"

  lemma CharIs(d: nat, small: bool)
    requires d < 36
    ensures |CAPITALS| == |SMALLS| == 36 && Char(d, small) == if small then SMALLS[d] else CAPITALS[d]
  {
    if d < 10 {
      assert d == 0 || d == 1 || d == 2 || d == 3 || d == 4 || d == 5 || d == 6 || d == 7 || d == 8 || d == 9;
    } else if d < 23 {
      assert d == 10 || d == 11 || d == 12 || d == 13 || d == 14 || d == 15 || d == 16 || d == 17 || d == 18 || d == 19 || d == 20
          || d == 21 || d == 22;
    } else {
      assert d == 23 || d == 24 || d == 25 || d == 26 || d == 27 || d == 28 || d == 29 || d == 30 || d == 31 || d == 32 || d == 33
          || d == 34 || d == 35;
    }
  }

  // What a reader takes a character for, in either case; -1 if it is no digit.
  function DigitOf(c: char): int {
    if '0' <= c <= '9' then c as int - '0' as int
    else if 'A' <= c <= 'Z' then c as int - 'A' as int + 10
    else if 'a' <= c <= 'z' then c as int - 'a' as int + 10
    else -1
  }

  // The number that a text is in a base, the highest digit first.
  function Reading(s: string, base: nat): int {
    if s == "" then 0 else Times(Reading(s[..|s| - 1], base), base) + DigitOf(s[|s| - 1])
  }

  function Times(a: int, b: nat): int {
    a * b
  }

  lemma {:induction false} PrintedStandsFor(d: seq<nat>, base: nat, small: bool)
    requires forall i :: 0 <= i < |d| ==> d[i] < 36
    ensures Reading(Printed(d, small), base) == Value(d, base)
  {
    if d != [] {
      hide Times, Mul;
      PrintedStandsFor(d[1..], base, small);
      var s := Printed(d[1..], small);
      assert (s + [Char(d[0], small)])[..|s|] == s;
      Commutes(Value(d[1..], base), base);
    }
  }

  lemma Commutes(a: nat, b: nat)
    ensures Times(a, b) == Mul(b, a)
  {
  }

  // Whatever base and case, the digits that are printed read as the number.
  lemma PrintedReadsBack(n: nat, base: nat, small: bool)
    requires 2 <= base <= 36
    ensures Reading(Printed(AllDigits(n, base), small), base) == n
  {
    PrintedStandsFor(AllDigits(n, base), base, small);
    if n > 0 {
      DigitsDecode(n, base);
    } else {
      assert Mul(base, 0) == 0;
    }
  }

  function Repeat(c: char, n: int): (s: string)
    ensures |s| == (if n > 0 then n else 0) && forall i :: 0 <= i < |s| ==> s[i] == c
  {
    if n <= 0 then [] else Repeat(c, n - 1) + [c]
  }

  // The magnitude that is printed, and the sign in front of it.
  function Magnitude(num: uint32, f: Flags): uint32 {
    if f.sign && num >= TWO31 then TWO32 - num else num
  }

  function Sign(num: uint32, f: Flags): string {
    if f.sign && num >= TWO31 then "-" else if f.plus then "+" else if f.space then " " else ""
  }

  function Prefix(base: nat, f: Flags): string {
    if !f.special then "" else if base == 8 then "0" else if base == 16 then (if f.small then "0x" else "0X") else ""
  }

  // The number without any padding to the width: sign, prefix, leading zeros, digits.
  function Zeros(num: uint32, base: nat, precision: int, f: Flags): int
    requires 2 <= base
  {
    precision - |AllDigits(Magnitude(num, f), base)|
  }

  // What is missing to the width.
  function Slack(num: uint32, base: nat, size: int, precision: int, f: Flags): int
    requires 2 <= base
  {
    var n := |AllDigits(Magnitude(num, f), base)|;
    size - |Sign(num, f)| - |Prefix(base, f)| - if n > precision then n else precision
  }

  // The padding is spaces in front, zeros behind sign and prefix, or spaces behind.
  function Laid(sign: string, digits: string, slack: int, f: Flags): string {
    if f.left then sign + digits + Repeat(' ', slack)
    else if f.zeropad then sign + Repeat('0', slack) + digits
    else Repeat(' ', slack) + sign + digits
  }

  function Body(num: uint32, base: nat, precision: int, f: Flags): string
    requires 2 <= base <= 36
  {
    Repeat('0', Zeros(num, base, precision, f)) + Printed(AllDigits(Magnitude(num, f), base), f.small)
  }

  function Formatted(num: uint32, base: nat, size: int, precision: int, f: Flags): string
    requires 2 <= base <= 36
  {
    Laid(Sign(num, f) + Prefix(base, f), Body(num, base, precision, f), Slack(num, base, size, precision, f), f)
  }

  // Sign and magnitude stand for the number, as an int32 if the conversion is signed.
  lemma SignedReading(num: uint32, f: Flags)
    ensures var m: int := Magnitude(num, f); (if Sign(num, f) == "-" then -m else m) == if f.sign then S32(num) else num
    ensures Sign(num, f) == "-" <==> f.sign && S32(num) < 0
  {
  }

  // From left to right: blanks, sign, prefix, zeros, the digits, blanks.  Blanks are only
  // on one side, and zeros beyond the precision only where neither side has blanks.
  ghost predicate Shaped(t: string, num: uint32, base: nat, precision: int, f: Flags, before: nat, zeros: nat, behind: nat)
    requires 2 <= base <= 36
  {
    && t == Repeat(' ', before) + (Sign(num, f) + Prefix(base, f)) + Repeat('0', zeros)
            + Printed(AllDigits(Magnitude(num, f), base), f.small) + Repeat(' ', behind)
    && (before > 0 ==> !f.left && !f.zeropad) && (behind > 0 ==> f.left)
    && var n := |AllDigits(Magnitude(num, f), base)|;
       if f.zeropad && !f.left then n + zeros >= precision else n + zeros == if n > precision then n else precision
  }

  lemma FormattedShape(num: uint32, base: nat, size: int, precision: int, f: Flags)
    requires 2 <= base <= 36
    ensures exists before, zeros, behind :: Shaped(Formatted(num, base, size, precision, f), num, base, precision, f, before, zeros, behind)
  {
    var slack, z := Slack(num, base, size, precision, f), Zeros(num, base, precision, f);
    var digits := Printed(AllDigits(Magnitude(num, f), base), f.small);
    var before, zeros, behind := LaidShape(Sign(num, f) + Prefix(base, f), z, digits, slack, f);
    hide Laid, Sign, Prefix, AllDigits, Slack, Repeat, Printed;
    assert Shaped(Formatted(num, base, size, precision, f), num, base, precision, f, before, zeros, behind);
  }

  lemma LaidShape(sign: string, z: int, digits: string, slack: int, f: Flags) returns (before: nat, zeros: nat, behind: nat)
    ensures Laid(sign, Repeat('0', z) + digits, slack, f) == Repeat(' ', before) + sign + Repeat('0', zeros) + digits + Repeat(' ', behind)
    ensures (before > 0 ==> !f.left && !f.zeropad) && (behind > 0 ==> f.left)
    ensures if f.zeropad && !f.left then zeros >= z else zeros == if z > 0 then z else 0
  {
    before, zeros, behind := 0, if z > 0 then z else 0, 0;
    NoPad(0);
    NoPad(slack);
    NoPad(z);
    if f.left {
      behind := if slack > 0 then slack else 0;
      hide Repeat;
      Regroup(sign, Repeat('0', zeros), digits, Repeat(' ', behind));
    } else if f.zeropad {
      var pad: nat := if slack > 0 then slack else 0;
      ZerosAdd(pad, zeros);
      hide Repeat;
      Regroup(sign, Repeat('0', pad), Repeat('0', zeros), digits);
      zeros := pad + zeros;
    } else {
      before := if slack > 0 then slack else 0;
      hide Repeat;
      Regroup(Repeat(' ', before), sign, Repeat('0', zeros), digits);
    }
  }

  lemma Regroup(a: string, b: string, c: string, d: string)
    ensures a + (b + c) + d == "" + a + b + c + d
    ensures a + b + (c + d) == "" + a + (b + c) + d + ""
    ensures a + b + (c + d) == a + b + c + d + ""
  {
    Associative(a, b, c);
    Associative(a + b, c, d);
  }

  lemma {:induction false} ZerosAdd(a: nat, b: nat)
    ensures Repeat('0', a) + Repeat('0', b) == Repeat('0', a + b)
  {
    if b > 0 {
      ZerosAdd(a, b - 1);
    }
  }

  lemma FormattedLength(num: uint32, base: nat, size: int, precision: int, f: Flags)
    requires 2 <= base <= 36
    ensures var n := |AllDigits(Magnitude(num, f), base)|;
      var body := |Sign(num, f)| + |Prefix(base, f)| + if n > precision then n else precision;
      |Formatted(num, base, size, precision, f)| == if size > body then size else body
  {
  }

  // The digits of num into tmp, the lowest first; the number of them.
  method Convert(num0: uint32, base: nat, small: bool, tmp: array<char>) returns (i: nat)
    requires 2 <= base <= 36 && tmp.Length == 36
    modifies tmp
    ensures var d := AllDigits(num0, base);
      i == |d| <= tmp.Length && forall k :: 0 <= k < i ==> tmp[k] == Char(d[k], small)
  {
    ghost var d := AllDigits(num0, base);
    RoomInTmp(num0, base);
    var num: nat := num0;
    i := 0;
    if num == 0 {
      tmp[i] := '0';
      return 1;
    }
    hide Digits, Char, AllDigits, Quot, Rem;
    while num != 0
      invariant i <= |d| && d[i..] == Digits(num, base) && (num == 0 ==> i == |d|)
      invariant forall k :: 0 <= k < i ==> tmp[k] == Char(d[k], small)
      decreases num
    {
      DigitStep(num, base);
      assert d[i..][0] == d[i] && d[i..][1..] == d[i + 1..];
      tmp[i] := Char(Rem(num, base), small);
      num := Quot(num, base);
      i := i + 1;
      NoDigits(base);
    }
  }

  lemma DigitStep(n: nat, base: nat)
    requires base >= 2
    ensures Digits(n, base) == if n == 0 then [] else [Rem(n, base)] + Digits(Quot(n, base), base)
  {
  }

  lemma NoDigits(base: nat)
    requires base >= 2
    ensures Digits(0, base) == []
  {
  }

  // while (size-- > 0) *str++ = c;
  method Pad(str0: string, c: char, size0: int) returns (str: string, size: int)
    ensures str == str0 + Repeat(c, size0) && size == (if size0 > 0 then -1 else size0 - 1)
  {
    str, size := str0, size0;
    ghost var n := 0;
    while size > 0
      invariant n + size == size0 && (size >= 0 || n == 0) && n >= 0 && str == str0 + Repeat(c, n)
    {
      str := str + [c];
      size := size - 1;
      n := n + 1;
    }
    size := size - 1;
  }

  // The first part of number: the sign, and what sign and prefix leave of the width.
  method Header(num0: uint32, base: int, size0: int, flags: Flags) returns (num: uint32, sign: string, size: int)
    requires 2 <= base <= 36
    ensures num == Magnitude(num0, flags) && sign == Sign(num0, flags) && size == size0 - |sign| - |Prefix(base, flags)|
  {
    num, size := num0, size0;
    sign := if flags.plus then "+" else if flags.space then " " else "";
    if flags.sign && num >= TWO31 {
      sign := "-";
      num := TWO32 - num;
    }
    if sign != "" {
      size := size - 1;
    }
    if flags.special {
      if base == 16 {
        size := size - 2;
      } else if base == 8 {
        size := size - 1;
      }
    }
  }

  lemma SameHeader(num: uint32, base: nat, f: Flags, g: Flags)
    requires 2 <= base <= 36 && g == f.(zeropad := g.zeropad)
    ensures Magnitude(num, g) == Magnitude(num, f) && Sign(num, g) == Sign(num, f) && Prefix(base, g) == Prefix(base, f)
  {
  }

  // number(str, num, base, size, precision, flags); `ok` is false where it returns null.
  method Number(num0: uint32, base: int, size0: int, precision0: int, flags0: Flags) returns (ok: bool, str: string)
    ensures ok <==> 2 <= base <= 36
    ensures ok ==> str == Formatted(num0, base, size0, precision0, flags0)
  {
    var num, size, precision, flags := num0, size0, precision0, flags0;
    str := "";
    if flags.left {
      flags := flags.(zeropad := false);
    }
    if base < 2 || base > 36 {
      return false, "";
    }
    hide AllDigits, Repeat, Printed, Laid, Magnitude, Sign, Prefix;
    var sign;
    num, sign, size := Header(num, base, size, flags);
    SameHeader(num0, base, flags0, flags);
    var tmp := new char[36];
    ghost var digits := AllDigits(num, base);
    var i := Convert(num, base, flags.small, tmp);
    if i > precision {
      precision := i;
    }
    size := size - precision;
    assert size == Slack(num0, base, size0, precision0, flags0);
    str := Layout(base, sign, size, precision - i, tmp, i, digits, flags);
    FormattedIs(num0, base, size0, precision0, flags0, flags);
    return true, str;
  }

  lemma FormattedIs(num: uint32, base: nat, size: int, precision: int, f: Flags, g: Flags)
    requires 2 <= base <= 36 && g == (if f.left then f.(zeropad := false) else f)
    ensures var n := |AllDigits(Magnitude(num, f), base)|;
      Formatted(num, base, size, precision, f) ==
        Laid(Sign(num, f) + Prefix(base, g), Repeat('0', if n > precision then 0 else precision - n) + Printed(AllDigits(Magnitude(num, f), base), g.small),
             Slack(num, base, size, precision, f), g)
  {
    NoPad(Zeros(num, base, precision, f));
    NoPad(0);
  }

  // The second half of number: what is known about the width and the digits is printed.
  method Layout(base: nat, sign: string, size0: int, zeros: nat, tmp: array<char>, i: nat, ghost digits: seq<nat>, flags: Flags)
    returns (str: string)
    requires i == |digits| <= tmp.Length && forall k :: 0 <= k < i ==> digits[k] < 36 && tmp[k] == Char(digits[k], flags.small)
    requires flags.left ==> !flags.zeropad
    ensures str == Laid(sign + Prefix(base, flags), Repeat('0', zeros) + Printed(digits, flags.small), size0, flags)
  {
    hide Repeat, Printed, Laid;
    var size := size0;
    NoPad(size);
    NoPad(size - 1);
    NoPad(-1);
    str := "";
    ghost var front, middle := "", "";
    if !flags.zeropad && !flags.left {
      str, size := Pad(str, ' ', size);
      front := str;
    }
    str := str + sign;
    if flags.special {
      if base == 8 {
        str := str + "0";
      } else if base == 16 {
        str := str + (if flags.small then "0x" else "0X");
      }
    }
    assert str == front + (sign + Prefix(base, flags));
    if !flags.left {
      var pad := if flags.zeropad then '0' else ' ';
      middle := Repeat(pad, size);
      str, size := Pad(str, pad, size);
    }
    var rest;
    ghost var start := str;
    assert start == front + (sign + Prefix(base, flags)) + middle;
    str, rest := Pad(str, '0', zeros);
    str := Emit(str, tmp, i, digits, flags.small);
    ghost var all := Repeat('0', zeros) + Printed(digits, flags.small);
    Associative(start, Repeat('0', zeros), Printed(digits, flags.small));
    assert str == start + all;
    ghost var back := Repeat(' ', size);
    str, size := Pad(str, ' ', size);
    LaidIs(front, sign + Prefix(base, flags), middle, all, back, size0, flags);
  }

  lemma Associative(a: string, b: string, c: string)
    ensures a + b + c == a + (b + c)
  {
  }

  lemma NoPad(n: int)
    ensures n <= 0 ==> forall c :: Repeat(c, n) == ""
  {
  }

  lemma LaidIs(front: string, sign: string, middle: string, digits: string, back: string, slack: int, f: Flags)
    requires f.left ==> !f.zeropad
    requires front == if f.left || f.zeropad then "" else Repeat(' ', slack)
    requires middle == if f.zeropad then Repeat('0', slack) else ""
    requires back == if f.left then Repeat(' ', slack) else ""
    ensures front + sign + middle + digits + back == Laid(sign, digits, slack, f)
  {
    hide Repeat;
  }

  method Emit(str0: string, tmp: array<char>, i0: nat, ghost d: seq<nat>, small: bool) returns (str: string)
    requires i0 == |d| <= tmp.Length && forall k :: 0 <= k < i0 ==> d[k] < 36 && tmp[k] == Char(d[k], small)
    ensures str == str0 + Printed(d, small)
  {
    str := str0;
    var i := i0;
    while i > 0
      invariant 0 <= i <= |d| && str == str0 + Printed(d[i..], small)
    {
      i := i - 1;
      assert d[i..][1..] == d[i + 1..];
      str := str + [tmp[i]];
    }
    assert d[0..] == d;
  }
}
