/** Integer formatting: number() of lib/printk.c. */
module Number {
  import opened Basics
  import opened Page

  /** The bits of `type`. */
  datatype Flags = Flags(zeropad: bool, sign: bool, plus: bool, space: bool, left: bool, special: bool, small: bool)

  /** A C int. */
  type int32 = x: int | -0x8000_0000 <= x < 0x8000_0000

  /** Character d of the string `digits`: the decimal digits, then the letters. */
  function Digit(d: nat, small: bool): char
    requires d < 36
  {
    if d < 10 then ('0' as nat + d) as char
    else if small then ('a' as nat + d - 10) as char
    else ('A' as nat + d - 10) as char
  }

  /** do_div divides the 32 bits as an unsigned number: this one, once the sign is taken off. */
  function Magnitude(num: int32, flags: Flags): word {
    if flags.sign && num < 0 then -(num as int) else if num < 0 then num + 0x1_0000_0000 else num
  }

  /** The two results of do_div.  Quotient and remainder are all the proofs below see of the division. */
  function Quot(u: nat, base: nat): nat
    requires base >= 2
  {
    u / base
  }

  function Rem(u: nat, base: nat): nat
    requires base >= 2
  {
    u % base
  }

  lemma Divided(u: nat, base: nat)
    requires base >= 2
    ensures u == Quot(u, base) * base + Rem(u, base) && Rem(u, base) < base
  {
  }

  lemma Smaller(u: nat, base: nat)
    requires base >= 2
    ensures 2 * Quot(u, base) <= u
    ensures u > 0 ==> Quot(u, base) < u
  {
    hide Quot, Rem;
    Divided(u, base);
    var q := Quot(u, base);
    assert q * base == 2 * q + q * (base - 2) && q * (base - 2) >= 0;
  }

  /** The digits of u, none for 0. */
  function Significant(u: nat, base: nat, small: bool): string
    requires 2 <= base <= 36
  {
    if u == 0 then "" else
      hide Quot, Rem;
      Smaller(u, base);
      Divided(u, base);
      Significant(Quot(u, base), base, small) + [Digit(Rem(u, base), small)]
  }

  function Digits(u: nat, base: nat, small: bool): (s: string)
    requires 2 <= base <= 36
    ensures s != ""
  {
    if u == 0 then "0" else Significant(u, base, small)
  }

  function Sign(num: int32, flags: Flags): string {
    if flags.sign && num < 0 then "-" else if flags.plus then "+" else if flags.space then " " else ""
  }

  function Prefix(base: nat, flags: Flags): string {
    if flags.special && base == 8 then "0"
    else if flags.special && base == 16 then ['0', Digit(33, flags.small)]
    else ""
  }

  function Fill(c: char, n: int): (s: string)
    ensures |s| == if n > 0 then n else 0
    ensures forall i: nat :: i < |s| ==> s[i] == c
  {
    if n > 0 then Fill(c, n - 1) + [c] else ""
  }

  /** The characters number() writes. */
  function Text(num: int32, base: nat, size: int, precision: int, flags: Flags): string
    requires 2 <= base <= 36
  {
    var digits := Digits(Magnitude(num, flags), base, flags.small);
    var body := Fill('0', precision - |digits|) + digits;
    var head := Sign(num, flags) + Prefix(base, flags);
    var pad := size - |head| - |body|;
    if flags.left then head + body + Fill(' ', pad)
    else if flags.zeropad then head + Fill('0', pad) + body
    else Fill(' ', pad) + head + body
  }

  /** The output is exactly as wide as asked for, or as wide as it must be. */
  lemma Width(num: int32, base: nat, size: int, precision: int, flags: Flags)
    requires 2 <= base <= 36
    ensures |Text(num, base, size, precision, flags)| ==
            Max(size, |Sign(num, flags)| + |Prefix(base, flags)| +
              Max(precision, |Digits(Magnitude(num, flags), base, flags.small)|))
  {
    hide Significant;
  }

  // Character by character

  /** How many characters stand before the digits. */
  function Ahead(num: int32, base: nat, flags: Flags): nat {
    (if (flags.sign && num < 0) || flags.plus || flags.space then 1 else 0)
    + (if !flags.special then 0 else if base == 16 then 2 else if base == 8 then 1 else 0)
  }

  predicate IsDigit(c: char, small: bool) {
    '0' <= c <= '9' || if small then 'a' <= c <= 'z' else 'A' <= c <= 'Z'
  }

  lemma {:induction false} SignificantDigits(u: nat, base: nat, small: bool)
    requires 2 <= base <= 36
    ensures forall i: nat :: i < |Significant(u, base, small)| ==> IsDigit(Significant(u, base, small)[i], small)
  {
    hide Quot, Rem;
    if u > 0 {
      Smaller(u, base);
      Divided(u, base);
      SignificantDigits(Quot(u, base), base, small);
    }
  }

  lemma Body(num: int32, base: nat, precision: int, flags: Flags) returns (body: string)
    requires 2 <= base <= 36
    ensures Text(num, base, 0, precision, flags) == Sign(num, flags) + Prefix(base, flags) + body
    ensures body != "" && forall i: nat :: i < |body| ==> IsDigit(body[i], flags.small)
  {
    hide Significant, Fill, Prefix, Sign;
    var u := Magnitude(num, flags);
    var digits := Digits(u, base, flags.small);
    SignificantDigits(u, base, flags.small);
    body := Fill('0', precision - |digits|) + digits;
    var pad := 0 - |Sign(num, flags) + Prefix(base, flags)| - |body|;
    assert Fill(' ', pad) == "" && Fill('0', pad) == "";
  }

  /** What number() writes when no width is asked for: the sign, '-' before the flags for '+' and ' '; then what marks
      the base, in the case of the letters; then digits, in that case. */
  lemma Characters(num: int32, base: nat, precision: int, flags: Flags)
    requires 2 <= base <= 36
    ensures var t, h := Text(num, base, 0, precision, flags), Ahead(num, base, flags);
            && |t| > h
            && (flags.sign && num < 0 ==> t[0] == '-')
            && (!(flags.sign && num < 0) && flags.plus ==> t[0] == '+')
            && (!(flags.sign && num < 0) && !flags.plus && flags.space ==> t[0] == ' ')
            && (flags.special && base == 16 ==> t[h - 2] == '0' && t[h - 1] == if flags.small then 'x' else 'X')
            && (flags.special && base == 8 ==> t[h - 1] == '0')
            && forall i: nat :: h <= i < |t| ==> IsDigit(t[i], flags.small)
  {
    hide Text, Magnitude;
    var body := Body(num, base, precision, flags);
    assert |Sign(num, flags) + Prefix(base, flags)| == Ahead(num, base, flags);
  }

  /** The width adds blanks behind with the flag for the left; else zeros before the digits with the flag for them, and
      blanks before everything without. */
  lemma Padding(num: int32, base: nat, size: int, precision: int, flags: Flags)
    requires 2 <= base <= 36
    ensures var t, s, h := Text(num, base, 0, precision, flags), Text(num, base, size, precision, flags), Ahead(num, base, flags);
            var pad := Max(0, size - |t|);
            && |s| == |t| + pad && |t| > h
            && (flags.left ==> s[..|t|] == t && forall i: nat :: |t| <= i < |s| ==> s[i] == ' ')
            && (!flags.left && flags.zeropad ==>
                  s[..h] == t[..h] && s[h + pad..] == t[h..] && forall i: nat :: h <= i < h + pad ==> s[i] == '0')
            && (!flags.left && !flags.zeropad ==> s[pad..] == t && forall i: nat :: i < pad ==> s[i] == ' ')
  {
    var head, body := Unpadded(num, base, precision, flags);
    WithPad(num, base, size, precision, flags, head, body);
    hide Text, Ahead;
    var n := size - |head| - |body|;
    if flags.left {
      Behind(head, body, n);
    } else if flags.zeropad {
      Between(head, body, n);
    } else {
      Before(head, body, n);
    }
  }

  lemma Unpadded(num: int32, base: nat, precision: int, flags: Flags) returns (head: string, body: string)
    requires 2 <= base <= 36
    ensures head == Sign(num, flags) + Prefix(base, flags) && |head| == Ahead(num, base, flags) && body != ""
    ensures body == var digits := Digits(Magnitude(num, flags), base, flags.small); Fill('0', precision - |digits|) + digits
    ensures Text(num, base, 0, precision, flags) == head + body
  {
    hide Digits, Magnitude;
    var digits := Digits(Magnitude(num, flags), base, flags.small);
    head, body := Sign(num, flags) + Prefix(base, flags), Fill('0', precision - |digits|) + digits;
    assert |head| == Ahead(num, base, flags);
  }

  lemma WithPad(num: int32, base: nat, size: int, precision: int, flags: Flags, head: string, body: string)
    requires 2 <= base <= 36 && head == Sign(num, flags) + Prefix(base, flags)
    requires body == var digits := Digits(Magnitude(num, flags), base, flags.small); Fill('0', precision - |digits|) + digits
    ensures Text(num, base, size, precision, flags) ==
            var n := size - |head| - |body|;
            if flags.left then head + body + Fill(' ', n)
            else if flags.zeropad then head + Fill('0', n) + body else Fill(' ', n) + head + body
  {
    hide Digits, Magnitude, Sign, Prefix, Fill;
  }

  lemma Behind(head: string, body: string, n: int)
    ensures var t, s := head + body, head + body + Fill(' ', n);
            |s| == |t| + Max(0, n) && s[..|t|] == t && forall i: nat :: |t| <= i < |s| ==> s[i] == ' '
  {
  }

  lemma Between(head: string, body: string, n: int)
    ensures var t, s, h, pad := head + body, head + Fill('0', n) + body, |head|, Max(0, n);
            && |s| == |t| + pad && s[..h] == t[..h] && s[h + pad..] == t[h..]
            && forall i: nat :: h <= i < h + pad ==> s[i] == '0'
  {
  }

  lemma Before(head: string, body: string, n: int)
    ensures var t, s, pad := head + body, Fill(' ', n) + head + body, Max(0, n);
            |s| == |t| + pad && s[pad..] == t && forall i: nat :: i < pad ==> s[i] == ' '
  {
  }

  // Reading back

  function DigitValue(c: char): nat {
    if '0' <= c <= '9' then c as nat - '0' as nat
    else if 'A' <= c <= 'Z' then c as nat - 'A' as nat + 10
    else if 'a' <= c <= 'z' then c as nat - 'a' as nat + 10
    else 0
  }

  function Value(s: string, base: nat): nat {
    if s == "" then 0 else Value(s[..|s| - 1], base) * base + DigitValue(s[|s| - 1])
  }

  function TrimLeft(s: string): string {
    if s != "" && s[0] == ' ' then TrimLeft(s[1..]) else s
  }

  function TrimRight(s: string): string {
    if s != "" && s[|s| - 1] == ' ' then TrimRight(s[..|s| - 1]) else s
  }

  /** Reads a number: blanks around it, a sign, a prefix of the given length, digits.  The result is a 32-bit word. */
  function Read(s: string, base: nat, prefix: nat): word {
    var t := TrimRight(TrimLeft(s));
    var negative := t != "" && t[0] == '-';
    var u := if t != "" && (t[0] == '-' || t[0] == '+') then t[1..] else t;
    var v := if prefix <= |u| then Value(u[prefix..], base) else 0;
    (if negative then -v else v) % 0x1_0000_0000
  }

  lemma DigitRead(d: nat, small: bool)
    requires d < 36
    ensures DigitValue(Digit(d, small)) == d
    ensures Digit(d, small) != ' ' && Digit(d, small) != '-' && Digit(d, small) != '+'
  {
  }

  predicate Plain(s: string) {
    forall i: nat :: i < |s| ==> s[i] != ' ' && s[i] != '-' && s[i] != '+'
  }

  lemma SignificantNext(u: nat, base: nat, small: bool)
    requires 2 <= base <= 36 && u > 0
    ensures Quot(u, base) < u && Rem(u, base) < base
    ensures Significant(u, base, small) == Significant(Quot(u, base), base, small) + [Digit(Rem(u, base), small)]
  {
    hide Quot, Rem, Digit;
    Smaller(u, base);
    Divided(u, base);
  }

  lemma {:induction false} SignificantRead(u: nat, base: nat, small: bool)
    requires 2 <= base <= 36
    ensures Value(Significant(u, base, small), base) == u
  {
    if u > 0 {
      hide Quot, Rem, Significant, Value, Digit, DigitValue;
      SignificantNext(u, base, small);
      SignificantRead(Quot(u, base), base, small);
      DigitRead(Rem(u, base), small);
      Divided(u, base);
      LastDigit(Significant(Quot(u, base), base, small), Digit(Rem(u, base), small), base);
    }
  }

  lemma LastDigit(s: string, c: char, base: nat)
    ensures Value(s + [c], base) == Value(s, base) * base + DigitValue(c)
  {
    hide DigitValue;
    assert (s + [c])[..|s|] == s;
  }

  lemma {:induction false} SignificantPlain(u: nat, base: nat, small: bool)
    requires 2 <= base <= 36
    ensures Plain(Significant(u, base, small))
  {
    if u > 0 {
      hide Quot, Rem, Significant, Digit;
      SignificantNext(u, base, small);
      SignificantPlain(Quot(u, base), base, small);
      DigitRead(Rem(u, base), small);
    }
  }

  lemma DigitsRead(u: nat, base: nat, small: bool)
    requires 2 <= base <= 36
    ensures Value(Digits(u, base, small), base) == u && Plain(Digits(u, base, small))
  {
    hide Significant, Digit;
    SignificantRead(u, base, small);
    SignificantPlain(u, base, small);
    assert "0"[..0] == "";
  }

  lemma {:induction false} ZerosRead(n: int, s: string, base: nat)
    ensures Value(Fill('0', n) + s, base) == Value(s, base)
  {
    if s != "" {
      var t := Fill('0', n) + s;
      assert t[..|t| - 1] == Fill('0', n) + s[..|s| - 1];
      ZerosRead(n, s[..|s| - 1], base);
    } else {
      assert Fill('0', n) + s == Fill('0', n);
      if n > 0 {
        var t := Fill('0', n);
        assert t[..|t| - 1] == Fill('0', n - 1) + "";
        ZerosRead(n - 1, "", base);
      }
    }
  }

  lemma {:induction false} TrimmedLeft(n: int, s: string)
    requires s != "" && s[0] != ' '
    ensures TrimLeft(Fill(' ', n) + s) == s
    decreases n
  {
    if n > 0 {
      var t := Fill(' ', n) + s;
      assert t[1..] == Fill(' ', n - 1) + s;
      TrimmedLeft(n - 1, s);
    } else {
      assert Fill(' ', n) + s == s;
    }
  }

  lemma {:induction false} TrimmedRight(s: string, n: int)
    requires s != "" && s[|s| - 1] != ' '
    ensures TrimRight(s + Fill(' ', n)) == s
    decreases n
  {
    if n > 0 {
      var t := s + Fill(' ', n);
      assert t[..|t| - 1] == s + Fill(' ', n - 1);
      TrimmedRight(s, n - 1);
    } else {
      assert s + Fill(' ', n) == s;
    }
  }

  /** The sign, when it is not a blank. */
  function Mark(num: int32, flags: Flags): string {
    if Sign(num, flags) == " " then "" else Sign(num, flags)
  }

  /** Between the blanks. */
  function Core(num: int32, base: nat, zeros: int, flags: Flags): string
    requires 2 <= base <= 36
  {
    Mark(num, flags) + Prefix(base, flags) + (Fill('0', zeros) + Digits(Magnitude(num, flags), base, flags.small))
  }

  lemma FillMore(c: char, n: int, m: int)
    requires n >= 0 && m >= 0
    ensures Fill(c, n) + Fill(c, m) == Fill(c, n + m)
  {
    hide Fill;
  }

  /** Text, with every number of fill characters taken to be at least 0. */
  function Laid(sign: string, prefix: string, zeros: nat, digits: string, pad: nat, flags: Flags): string {
    if flags.left then sign + prefix + (Fill('0', zeros) + digits) + Fill(' ', pad)
    else if flags.zeropad then sign + prefix + Fill('0', pad) + (Fill('0', zeros) + digits)
    else Fill(' ', pad) + (sign + prefix) + (Fill('0', zeros) + digits)
  }

  lemma TextIsLaid(num: int32, base: nat, size: int, precision: int, flags: Flags) returns (zeros: nat, pad: nat)
    requires 2 <= base <= 36
    ensures Text(num, base, size, precision, flags) ==
            Laid(Sign(num, flags), Prefix(base, flags), zeros, Digits(Magnitude(num, flags), base, flags.small), pad, flags)
  {
    hide Fill, Digits, Prefix, Sign;
    var digits := Digits(Magnitude(num, flags), base, flags.small);
    var head := Sign(num, flags) + Prefix(base, flags);
    zeros := Max(0, precision - |digits|);
    pad := Max(0, size - |head| - (zeros + |digits|));
    NoFill('0', precision - |digits|);
    NoFill(' ', size - |head| - (zeros + |digits|));
    NoFill('0', size - |head| - (zeros + |digits|));
  }

  lemma NoFill(c: char, n: int)
    ensures Fill(c, n) == Fill(c, Max(0, n))
  {
  }

  lemma Regroup(f: string, blank: string, mark: string, prefix: string, body: string, g: string)
    ensures f + (blank + mark + prefix) + body + g == (f + blank) + ((mark + prefix + body) + g)
  {
  }

  /** Only blanks stand around the mark, the prefix, zeros and the digits. */
  lemma Blanks(mark: string, prefix: string, digits: string, blank: nat, zeros: nat, pad: nat, flags: Flags)
    returns (before: nat, zeros': nat, after: nat)
    ensures Laid(Fill(' ', blank) + mark, prefix, zeros, digits, pad, flags) ==
            Fill(' ', before) + ((mark + prefix + (Fill('0', zeros') + digits)) + Fill(' ', after))
  {
    hide Fill;
    var sign := Fill(' ', blank) + mark;
    before, zeros', after := blank, zeros, 0;
    var body := Fill('0', zeros) + digits;
    if flags.left {
      after := pad;
      Regroup("", Fill(' ', blank), mark, prefix, body, Fill(' ', pad));
      assert "" + (sign + prefix) + body + Fill(' ', pad) == sign + prefix + body + Fill(' ', pad);
    } else if flags.zeropad {
      FillMore('0', pad, zeros);
      zeros' := pad + zeros;
      var more := Fill('0', pad) + body;
      assert more == Fill('0', zeros') + digits;
      Regroup("", Fill(' ', blank), mark, prefix, more, "");
      assert "" + (sign + prefix) + more + "" == sign + prefix + Fill('0', pad) + body;
    } else {
      FillMore(' ', pad, blank);
      before := pad + blank;
      Regroup(Fill(' ', pad), Fill(' ', blank), mark, prefix, body, "");
      assert Fill(' ', pad) + (sign + prefix) + body + "" == Fill(' ', pad) + (sign + prefix) + body;
    }
  }

  lemma SignIsMark(num: int32, flags: Flags) returns (blank: nat)
    ensures Sign(num, flags) == Fill(' ', blank) + Mark(num, flags)
  {
    blank := if Sign(num, flags) == " " then 1 else 0;
    assert Fill(' ', 1) == Fill(' ', 0) + [' '] == " ";
  }

  lemma CoreRead(num: int32, base: nat, zeros: int, flags: Flags)
    requires 2 <= base <= 36
    ensures var core := Core(num, base, zeros, flags);
            && core != "" && core[0] != ' ' && core[|core| - 1] != ' '
            && (core[0] == '-' <==> flags.sign && num < 0)
            && (core[0] == '+' <==> Mark(num, flags) == "+")
  {
    hide Digits, Fill;
    DigitsRead(Magnitude(num, flags), base, flags.small);
  }

  /** Trimming the output leaves what stands between the blanks. */
  lemma Trimmed(num: int32, base: nat, size: int, precision: int, flags: Flags) returns (zeros: nat)
    requires 2 <= base <= 36
    ensures TrimRight(TrimLeft(Text(num, base, size, precision, flags))) == Core(num, base, zeros, flags)
  {
    hide Text, Digits, Fill, Prefix, TrimLeft, TrimRight, Core, Mark;
    var pad;
    zeros, pad := TextIsLaid(num, base, size, precision, flags);
    var digits := Digits(Magnitude(num, flags), base, flags.small);
    var blank := SignIsMark(num, flags);
    var before, after;
    before, zeros, after := Blanks(Mark(num, flags), Prefix(base, flags), digits, blank, zeros, pad, flags);
    hide Laid;
    CoreIs(num, base, zeros, flags);
    CoreRead(num, base, zeros, flags);
    TrimmedLeft(before, Core(num, base, zeros, flags) + Fill(' ', after));
    TrimmedRight(Core(num, base, zeros, flags), after);
  }

  lemma CoreIs(num: int32, base: nat, zeros: int, flags: Flags)
    requires 2 <= base <= 36
    ensures Core(num, base, zeros, flags) ==
            Mark(num, flags) + Prefix(base, flags) + (Fill('0', zeros) + Digits(Magnitude(num, flags), base, flags.small))
  {
  }

  /** Reading what stands between the blanks. */
  lemma CoreValue(num: int32, base: nat, zeros: int, flags: Flags)
    requires 2 <= base <= 36
    ensures var u := Core(num, base, zeros, flags)[|Mark(num, flags)|..];
            && |Prefix(base, flags)| <= |u|
            && Value(u[|Prefix(base, flags)|..], base) == Magnitude(num, flags)
  {
    hide Digits, Fill, Prefix, Value, Mark, Magnitude;
    var digits := Digits(Magnitude(num, flags), base, flags.small);
    var u := Core(num, base, zeros, flags)[|Mark(num, flags)|..];
    assert u[|Prefix(base, flags)|..] == Fill('0', zeros) + digits;
    ZerosRead(zeros, digits, base);
    DigitsRead(Magnitude(num, flags), base, flags.small);
  }

  /** Reading what number() wrote gives the 32-bit word it was given, the most negative int included. */
  lemma ReadBack(num: int32, base: nat, size: int, precision: int, flags: Flags)
    requires 2 <= base <= 36
    ensures Read(Text(num, base, size, precision, flags), base, |Prefix(base, flags)|) == num % 0x1_0000_0000
  {
    hide Text, Prefix, Value, TrimLeft, TrimRight, Core;
    var zeros := Trimmed(num, base, size, precision, flags);
    CoreRead(num, base, zeros, flags);
    CoreValue(num, base, zeros, flags);
    SameWord(num, flags);
  }

  /** The magnitude and the sign make up the word. */
  lemma SameWord(num: int32, flags: Flags)
    ensures (if flags.sign && num < 0 then -(Magnitude(num, flags) as int) else Magnitude(num, flags)) % 0x1_0000_0000 == num % 0x1_0000_0000
  {
  }

  // The program

  /** What the array holds once s is written at `at`. */
  function Put(a: seq<char>, at: nat, s: string): (r: seq<char>)
    requires at + |s| <= |a|
    ensures |r| == |a|
  {
    a[..at] + s + a[at + |s|..]
  }

  lemma PutBoth(a: seq<char>, at: nat, s: string, t: string)
    requires at + |s| + |t| <= |a|
    ensures Put(Put(a, at, s), at + |s|, t) == Put(a, at, s + t)
  {
  }

  lemma PutOne(a: seq<char>, at: nat, s: string, c: char)
    requires at + |s| < |a|
    ensures Put(a, at, s)[at + |s| := c] == Put(a, at, s + [c])
  {
  }

  /** The filling loops: `size` counts down past 0. */
  method Pad(str: array<char>, at: nat, size: int, c: char) returns (end: nat, left: int)
    requires at + |Fill(c, size)| <= str.Length
    modifies str
    ensures end == at + |Fill(c, size)| && str[..] == Put(old(str[..]), at, Fill(c, size))
    ensures left == if size > 0 then -1 else size - 1
  {
    end, left := at, size;
    ghost var n := 0;
    assert str[..] == Put(str[..], at, Fill(c, 0));
    hide Put;
    while left > 0
      invariant left == size - n && (size > 0 ==> left >= 0) && (size <= 0 ==> n == 0)
      invariant 0 <= n <= |Fill(c, size)| && end == at + n
      invariant str[..] == Put(old(str[..]), at, Fill(c, n))
    {
      PutOne(old(str[..]), at, Fill(c, n), c);
      str[end] := c;
      end, left, n := end + 1, left - 1, n + 1;
    }
    left := left - 1;
  }

  function Backwards(s: string): (r: string)
    ensures |r| == |s|
  {
    if s == "" then "" else [s[|s| - 1]] + Backwards(s[..|s| - 1])
  }

  /** The dividing loop: the digits, the last first. */
  method Convert(u: word, base: nat, small: bool, tmp: array<char>) returns (i: nat)
    requires 2 <= base <= 36 && tmp.Length == 36
    modifies tmp
    ensures i <= 32 && Backwards(tmp[..i]) == Digits(u, base, small)
  {
    if u == 0 {
      tmp[0] := '0';
      assert tmp[..1] == "0" && "0"[..0] == "";
      return 1;
    }
    i := Divide(u, base, small, tmp);
    Ends(u, base, small);
  }

  method Divide(u: word, base: nat, small: bool, tmp: array<char>) returns (i: nat)
    requires 2 <= base <= 36 && tmp.Length == 36
    modifies tmp
    ensures i <= 32 && Backwards(tmp[..i]) == Significant(u, base, small)
  {
    hide Significant, Backwards, Digit, Quot, Rem;
    i := 0;
    WordDigits(u, base, small);
    Ends(0, base, small);
    assert tmp[..0] == "";
    var num: nat := u;
    while num != 0
      invariant i + |Significant(num, base, small)| == |Significant(u, base, small)|
      invariant Significant(u, base, small) == Significant(num, base, small) + Backwards(tmp[..i])
    {
      NextDigit(num, base, small, tmp[..i]);
      StoreDigit(tmp, i, Digit(Rem(num, base), small));
      num := Quot(num, base);
      i := i + 1;
    }
  }

  method StoreDigit(tmp: array<char>, i: nat, c: char)
    requires i < tmp.Length
    modifies tmp
    ensures tmp[..i + 1] == old(tmp[..i]) + [c]
  {
    tmp[i] := c;
  }

  lemma Ends(u: nat, base: nat, small: bool)
    requires 2 <= base <= 36
    ensures Backwards("") == "" && Significant(0, base, small) == ""
    ensures u != 0 ==> Digits(u, base, small) == Significant(u, base, small)
  {
  }

  lemma NextDigit(num: nat, base: nat, small: bool, done: string)
    requires 2 <= base <= 36 && num > 0
    ensures Quot(num, base) < num && Rem(num, base) < base
    ensures var d := Digit(Rem(num, base), small);
            && |Significant(num, base, small)| == |Significant(Quot(num, base), base, small)| + 1
            && Significant(Quot(num, base), base, small) + Backwards(done + [d]) == Significant(num, base, small) + Backwards(done)
  {
    hide Digit, Quot, Rem, Significant;
    SignificantNext(num, base, small);
    assert (done + [Digit(Rem(num, base), small)])[..|done|] == done;
  }

  function Power2(k: nat): nat {
    if k == 0 then 1 else 2 * Power2(k - 1)
  }

  lemma Power2Byte(k: nat)
    ensures Power2(k + 8) == 0x100 * Power2(k)
  {
    assert Power2(k + 2) == 4 * Power2(k);
    assert Power2(k + 4) == 4 * Power2(k + 2);
    assert Power2(k + 6) == 4 * Power2(k + 4);
    assert Power2(k + 8) == 4 * Power2(k + 6);
  }

  /** A word has at most 32 digits. */
  lemma WordDigits(u: word, base: nat, small: bool)
    requires 2 <= base <= 36
    ensures |Significant(u, base, small)| <= 32
  {
    hide Significant;
    Power2Byte(0);
    Power2Byte(8);
    Power2Byte(16);
    Power2Byte(24);
    DigitCount(u, base, small, 32);
  }

  lemma {:induction false} DigitCount(u: nat, base: nat, small: bool, k: nat)
    requires 2 <= base <= 36 && u < Power2(k)
    ensures |Significant(u, base, small)| <= k
  {
    if u > 0 {
      hide Significant, Quot, Rem;
      SignificantNext(u, base, small);
      Smaller(u, base);
      DigitCount(Quot(u, base), base, small, k - 1);
    }
  }

  lemma PutNone(a: seq<char>, at: nat)
    requires at <= |a|
    ensures Put(a, at, "") == a
  {
  }

  lemma CopyEnds(s: string)
    ensures "" + Backwards(s) == Backwards(s) && Backwards("") == ""
  {
  }

  lemma LastFirst(s: string, c: char)
    ensures Backwards(s + [c]) == [c] + Backwards(s)
  {
    assert (s + [c])[..|s|] == s;
  }

  /** The copying loop. */
  method Copy(str: array<char>, at: nat, tmp: array<char>, n: nat) returns (end: nat)
    requires n <= tmp.Length && at + n <= str.Length && str != tmp
    modifies str
    ensures end == at + n && str[..] == Put(old(str[..]), at, Backwards(tmp[..n]))
  {
    hide Backwards, Put;
    var i := n;
    end := at;
    ghost var done := "";
    PutNone(str[..], at);
    CopyEnds(tmp[..n]);
    while i > 0
      invariant 0 <= i <= n && end == at + (n - i) && |done| == n - i
      invariant done + Backwards(tmp[..i]) == Backwards(tmp[..n])
      invariant str[..] == Put(old(str[..]), at, done)
    {
      i := i - 1;
      assert tmp[..i + 1] == tmp[..i] + [tmp[i]];
      LastFirst(tmp[..i], tmp[i]);
      PutOne(old(str[..]), at, done, tmp[i]);
      ghost var was := str[..];
      str[end] := tmp[i];
      assert str[..] == was[end := tmp[i]];
      done := done + [tmp[i]];
      end := end + 1;
    }
    assert tmp[..0] == "" && done + "" == done;
  }

  /** What comes before the digits, and the digits with what comes after them. */
  function Front(sign: string, prefix: string, pad: int, flags: Flags): string {
    (if flags.zeropad || flags.left then "" else Fill(' ', pad)) + sign + prefix
      + (if flags.zeropad && !flags.left then Fill('0', pad) else "")
  }

  function Back(zeros: int, digits: string, pad: int, flags: Flags): string {
    Fill('0', zeros) + digits + (if flags.left then Fill(' ', pad) else "")
  }

  lemma FrontAndBack(num: int32, base: nat, size: int, precision: int, flags: Flags)
    requires 2 <= base <= 36
    ensures var digits := Digits(Magnitude(num, flags), base, flags.small);
            var sign, prefix := Sign(num, flags), Prefix(base, flags);
            var zeros := precision - |digits|;
            var pad := size - |sign| - |prefix| - Max(|digits|, precision);
            Text(num, base, size, precision, flags) == Front(sign, prefix, pad, flags) + Back(zeros, digits, pad, flags)
  {
    hide Digits, Prefix, Sign;
    var digits := Digits(Magnitude(num, flags), base, flags.small);
    var sign, prefix := Sign(num, flags), Prefix(base, flags);
    FrontBack(sign, prefix, Fill('0', precision - |digits|), digits, size - |sign| - |prefix| - Max(|digits|, precision), flags);
  }

  lemma FrontBack(sign: string, prefix: string, zeros: string, digits: string, pad: int, flags: Flags)
    ensures var body := zeros + digits;
            (if flags.left then sign + prefix + body + Fill(' ', pad)
             else if flags.zeropad then sign + prefix + Fill('0', pad) + body
             else Fill(' ', pad) + (sign + prefix) + body) ==
            Front(sign, prefix, pad, flags) + (zeros + digits + (if flags.left then Fill(' ', pad) else ""))
  {
    hide Fill;
  }

  /** A string of at most two characters: the sign, the prefix. */
  method Write(str: array<char>, at: nat, s: string) returns (end: nat)
    requires at + |s| <= str.Length && |s| <= 2
    modifies str
    ensures end == at + |s| && str[..] == Put(old(str[..]), at, s)
  {
    end := at;
    if |s| > 0 {
      str[end] := s[0];
      end := end + 1;
    }
    if |s| > 1 {
      str[end] := s[1];
      end := end + 1;
    }
  }

  /** Everything before the digits. */
  method Lead(str: array<char>, at: nat, sign: string, prefix: string, size: int, flags: Flags) returns (end: nat, left: int)
    requires at + |Front(sign, prefix, size, flags)| <= str.Length && |sign| <= 1 && |prefix| <= 2
    modifies str
    ensures end == at + |Front(sign, prefix, size, flags)|
    ensures str[..] == Put(old(str[..]), at, Front(sign, prefix, size, flags))
    ensures if flags.left then left == size else left < 0
  {
    hide Fill, Put;
    ghost var a := str[..];
    end, left := at, size;
    ghost var done := "";
    PutNone(a, at);
    if !(flags.zeropad || flags.left) {
      end, left := Pad(str, end, left, ' ');
      done := Fill(' ', size);
    }
    PutBoth(a, at, done, sign);
    end := Write(str, end, sign);
    PutBoth(a, at, done + sign, prefix);
    end := Write(str, end, prefix);
    done := done + sign + prefix;
    if !flags.left {
      NoFill(if flags.zeropad then '0' else ' ', left);
      PutBoth(a, at, done, Fill(if flags.zeropad then '0' else ' ', left));
      ghost var filled := Fill(if flags.zeropad then '0' else ' ', left);
      end, left := Pad(str, end, left, if flags.zeropad then '0' else ' ');
      done := done + filled;
    }
    assert done == Front(sign, prefix, size, flags);
  }

  /** The digits, and what comes before and after them. */
  method Tail(str: array<char>, at: nat, tmp: array<char>, i: nat, precision: int, size: int, flags: Flags) returns (end: nat)
    requires i <= tmp.Length && str != tmp && (flags.left || size < 0)
    requires at + |Back(precision - i, Backwards(tmp[..i]), size, flags)| <= str.Length
    modifies str
    ensures end == at + |Back(precision - i, Backwards(tmp[..i]), size, flags)|
    ensures str[..] == Put(old(str[..]), at, Back(precision - i, Backwards(tmp[..i]), size, flags))
  {
    hide Fill, Put, Backwards;
    ghost var a, digits := str[..], Backwards(tmp[..i]);
    ghost var zeros := Fill('0', precision - i);
    var left;
    end, left := Pad(str, at, precision - i, '0');
    PutBoth(a, at, zeros, digits);
    end := Copy(str, end, tmp, i);
    PutBoth(a, at, zeros + digits, Fill(' ', size));
    end, left := Pad(str, end, size, ' ');
    NoFill(' ', size);
    assert zeros + digits + Fill(' ', size) == Back(precision - i, digits, size, flags);
  }

  /** number(): writes Text at str[at..] and gives the place behind it; NULL (-1) for a base it does not know. */
  method Format(str: array<char>, at: nat, num: int32, base: int, size: int, precision: int, flags: Flags) returns (end: int)
    requires 2 <= base <= 36 ==> at + |Text(num, base, size, precision, flags)| <= str.Length
    modifies str
    ensures end == -1 <==> base < 2 || base > 36
    ensures end == -1 ==> str[..] == old(str[..])
    ensures end != -1 ==> end == at + |Text(num, base, size, precision, flags)|
    ensures end != -1 ==> str[..] == Put(old(str[..]), at, Text(num, base, size, precision, flags))
  {
    hide Digits, Text, Fill, Front, Back, Put, Backwards;
    if base < 2 || base > 36 {
      return -1;
    }
    var sign := Sign(num, flags);
    var prefix := Prefix(base, flags);
    var left := size - |sign| - |prefix|;
    var tmp := new char[36];
    var i := Convert(Magnitude(num, flags), base, flags.small, tmp);
    left := left - Max(i, precision);
    FrontAndBack(num, base, size, precision, flags);
    ghost var a, front, back := str[..], Front(sign, prefix, left, flags), Back(precision - i, Backwards(tmp[..i]), left, flags);
    PutBoth(a, at, front, back);
    var left', middle := left, at;
    middle, left' := Lead(str, at, sign, prefix, left, flags);
    OnlyLeft(precision - i, Backwards(tmp[..i]), left, left', flags);
    end := Tail(str, middle, tmp, i, precision, left', flags);
  }

  lemma OnlyLeft(zeros: int, digits: string, pad: int, pad': int, flags: Flags)
    requires flags.left ==> pad == pad'
    ensures Back(zeros, digits, pad, flags) == Back(zeros, digits, pad', flags)
  {
  }
}
