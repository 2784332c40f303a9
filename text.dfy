/** The handful of JavaScript string built-ins the dashboard relies on,
    written out over `string` (a `seq<char>`):
    `String.prototype.replace` with a string pattern, `parseInt` without a radix,
    `String(n)` for a natural number, `padStart` and `includes`. */
module Text {

  datatype Option<+T> = None | Some(value: T)

  predicate IsDigit(c: char) {
    '0' <= c <= '9'
  }

  predicate AllDigits(s: string) {
    forall i :: 0 <= i < |s| ==> IsDigit(s[i])
  }

  function DigitValue(c: char): (d: nat)
    requires IsDigit(c)
    ensures d < 10
  {
    (c as int) - ('0' as int)
  }

  function DigitChar(d: nat): (c: char)
    requires d < 10
    ensures IsDigit(c) && DigitValue(c) == d
  {
    (('0' as int) + d) as char
  }

  /** The decimal value of a digit string, most significant digit first. */
  function Value(s: string): nat
    requires AllDigits(s)
  {
    if s == [] then 0 else 10 * Value(s[..|s| - 1]) + DigitValue(s[|s| - 1])
  }

  /** `String(n)`: the decimal digits of `n`, without leading zeros. */
  function NatToString(n: nat): (s: string)
    ensures AllDigits(s) && 1 <= |s|
    ensures s[0] == '0' ==> n == 0
  {
    if n < 10 then [DigitChar(n)] else NatToString(n / 10) + [DigitChar(n % 10)]
  }

  lemma {:induction false} ValueOfNatToString(n: nat)
    ensures Value(NatToString(n)) == n
  {
    if n >= 10 {
      ValueOfNatToString(n / 10);
      var s := NatToString(n);
      assert s[..|s| - 1] == NatToString(n / 10);
    }
  }

  function Repeat(c: char, k: nat): (s: string)
    ensures |s| == k
    ensures forall i :: 0 <= i < k ==> s[i] == c
  {
    if k == 0 then [] else Repeat(c, k - 1) + [c]
  }

  /** `s.padStart(width, c)`: `s` prefixed with copies of `c` up to `width`
      characters; a longer `s` is returned whole, never cut. */
  function PadStart(s: string, width: nat, c: char): (r: string)
    ensures |r| == if |s| < width then width else |s|
    ensures r[|r| - |s|..] == s
    ensures forall i :: 0 <= i < |r| - |s| ==> r[i] == c
  {
    if |s| < width then Repeat(c, width - |s|) + s else s
  }

  lemma {:induction false} ValueOfZeros(k: nat)
    ensures AllDigits(Repeat('0', k)) && Value(Repeat('0', k)) == 0
  {
    if k > 0 {
      ValueOfZeros(k - 1);
      var z := Repeat('0', k);
      assert z[..k - 1] == Repeat('0', k - 1);
      assert AllDigits(z);
      assert Value(z) == 10 * Value(z[..k - 1]) + DigitValue(z[k - 1]);
    }
  }

  /** Leading zeros do not change the value of a digit string. */
  lemma {:induction false} ValueIgnoresLeadingZeros(k: nat, s: string)
    requires AllDigits(s)
    ensures AllDigits(Repeat('0', k) + s)
    ensures Value(Repeat('0', k) + s) == Value(s)
  {
    if s == [] {
      ValueOfZeros(k);
      assert Repeat('0', k) + s == Repeat('0', k);
    } else {
      var z := Repeat('0', k);
      var t := s[..|s| - 1];
      ValueIgnoresLeadingZeros(k, t);
      assert (z + s)[..|z + s| - 1] == z + t;
    }
  }

  /** The longest prefix of `s` made of digits. */
  function LeadingDigits(s: string): (d: string)
    ensures d <= s && AllDigits(d)
    ensures |d| < |s| ==> !IsDigit(s[|d|])
  {
    if s == [] || !IsDigit(s[0]) then [] else [s[0]] + LeadingDigits(s[1..])
  }

  predicate IsHexDigit(c: char) {
    IsDigit(c) || 'a' <= c <= 'f' || 'A' <= c <= 'F'
  }

  predicate AllHexDigits(s: string) {
    forall i :: 0 <= i < |s| ==> IsHexDigit(s[i])
  }

  function HexDigitValue(c: char): (d: nat)
    requires IsHexDigit(c)
    ensures d < 16
    ensures IsDigit(c) ==> d == DigitValue(c)
  {
    if IsDigit(c) then DigitValue(c)
    else if 'a' <= c <= 'f' then (c as int) - ('a' as int) + 10
    else (c as int) - ('A' as int) + 10
  }

  /** The hexadecimal value of a hex-digit string, most significant first. */
  function HexValue(s: string): nat
    requires AllHexDigits(s)
  {
    if s == [] then 0 else 16 * HexValue(s[..|s| - 1]) + HexDigitValue(s[|s| - 1])
  }

  /** The longest prefix of `s` made of hexadecimal digits. */
  function LeadingHexDigits(s: string): (d: string)
    ensures d <= s && AllHexDigits(d)
    ensures |d| < |s| ==> !IsHexDigit(s[|d|])
  {
    if s == [] || !IsHexDigit(s[0]) then [] else [s[0]] + LeadingHexDigits(s[1..])
  }

  /** Without a radix, `parseInt` reads a string starting `0x` or `0X` as
      hexadecimal. */
  predicate HasHexPrefix(s: string) {
    |s| >= 2 && s[0] == '0' && (s[1] == 'x' || s[1] == 'X')
  }

  /** `parseInt(s)` with no radix, for a string without leading white space
      or sign: after a `0x`/`0X` prefix the value of the hexadecimal digits
      that follow it, otherwise the decimal value of the leading digits.
      `None` stands for `NaN`: no digit where the number should start. */
  function ParseInt(s: string): (r: Option<nat>)
    ensures HasHexPrefix(s) ==> (r.None? <==> |s| == 2 || !IsHexDigit(s[2]))
    ensures !HasHexPrefix(s) ==> (r.None? <==> s == [] || !IsDigit(s[0]))
    ensures r.Some? && HasHexPrefix(s) ==> r.value == HexValue(LeadingHexDigits(s[2..]))
    ensures r.Some? && !HasHexPrefix(s) ==> r.value == Value(LeadingDigits(s))
  {
    if HasHexPrefix(s) then
      var h := LeadingHexDigits(s[2..]);
      if h == [] then None else Some(HexValue(h))
    else
      var d := LeadingDigits(s);
      if d == [] then None else Some(Value(d))
  }

  lemma {:induction false} LeadingDigitsOfDigits(s: string, rest: string)
    requires AllDigits(s)
    requires rest == [] || !IsDigit(rest[0])
    ensures LeadingDigits(s + rest) == s
  {
    if s != [] {
      LeadingDigitsOfDigits(s[1..], rest);
      assert (s + rest)[1..] == s[1..] + rest;
    }
  }

  /** A non-empty decimal digit string, leading zeros included, parses to
      its value: its second character is a digit, so it is never read as
      hexadecimal. */
  lemma ParseIntOfDigits(s: string)
    requires AllDigits(s) && s != []
    ensures ParseInt(s) == Some(Value(s))
  {
    LeadingDigitsOfDigits(s, []);
    assert s + [] == s;
  }

  /** `sub` occurs in `s` starting at index `i`. */
  predicate OccursAt(s: string, sub: string, i: int) {
    0 <= i <= |s| && sub <= s[i..]
  }

  /** `i` is the first index at which `sub` occurs in `s`. */
  predicate FirstAt(s: string, sub: string, i: int) {
    OccursAt(s, sub, i) && forall j :: 0 <= j < i ==> !OccursAt(s, sub, j)
  }

  lemma OccursShift(s: string, sub: string, i: int)
    requires s != [] && 0 <= i
    ensures OccursAt(s[1..], sub, i) <==> OccursAt(s, sub, i + 1)
  {
    if i <= |s| - 1 {
      assert s[1..][i..] == s[i + 1..];
    }
  }

  lemma FirstAtShift(s: string, sub: string, i: int)
    requires s != [] && 0 < i && !(sub <= s)
    ensures FirstAt(s, sub, i) <==> FirstAt(s[1..], sub, i - 1)
  {
    assert s[0..] == s;
    forall j | 0 <= j < i - 1
      ensures OccursAt(s[1..], sub, j) <==> OccursAt(s, sub, j + 1)
    {
      OccursShift(s, sub, j);
    }
    OccursShift(s, sub, i - 1);
    if FirstAt(s[1..], sub, i - 1) {
      forall j | 0 <= j < i
        ensures !OccursAt(s, sub, j)
      {
        if j > 0 {
          assert !OccursAt(s[1..], sub, j - 1);
        }
      }
    }
  }

  lemma ContainsStep(s: string, sub: string)
    requires s != [] && !(sub <= s)
    ensures (exists i :: OccursAt(s, sub, i)) <==> (exists i :: OccursAt(s[1..], sub, i))
  {
    assert s[0..] == s;
    if i :| OccursAt(s, sub, i) {
      OccursShift(s, sub, i - 1);
      assert OccursAt(s[1..], sub, i - 1);
    }
    if i :| OccursAt(s[1..], sub, i) {
      OccursShift(s, sub, i);
      assert OccursAt(s, sub, i + 1);
    }
  }

  /** `s.includes(sub)`. */
  predicate Contains(s: string, sub: string)
  {
    sub <= s || (s != [] && Contains(s[1..], sub))
  }

  /** `includes` holds exactly when `sub` occurs in `s` at some index. */
  lemma {:induction false} ContainsIffOccurs(s: string, sub: string)
    ensures Contains(s, sub) <==> exists i :: OccursAt(s, sub, i)
  {
    assert s[0..] == s;
    if sub <= s {
      assert OccursAt(s, sub, 0);
    } else if s != [] {
      ContainsIffOccurs(s[1..], sub);
      ContainsStep(s, sub);
    }
  }

  /** One step of `ReplaceFirst` at a first occurrence past index 0:
      putting back the first character keeps the removal in place. */
  lemma ReplaceStepAt(s: string, p: string, rest: string, i: int)
    requires s != [] && !(p <= s) && FirstAt(s, p, i)
    requires FirstAt(s[1..], p, i - 1) ==> rest == s[1..][..i - 1] + s[1..][i - 1 + |p|..]
    ensures [s[0]] + rest == s[..i] + s[i + |p|..]
  {
    assert s[0..] == s;
    assert i > 0;
    FirstAtShift(s, p, i);
    assert s[1..][..i - 1] == s[1..i];
    assert s[1..][i - 1 + |p|..] == s[i + |p|..];
    assert [s[0]] + s[1..i] == s[..i];
    assert [s[0]] + (s[1..i] + s[i + |p|..]) == ([s[0]] + s[1..i]) + s[i + |p|..];
  }

  /** One step of `ReplaceFirst`: putting back the first character keeps
      the removal at the first occurrence. */
  lemma ReplaceStep(s: string, p: string, rest: string)
    requires s != [] && !(p <= s)
    requires !Contains(s[1..], p) ==> rest == s[1..]
    requires forall i :: FirstAt(s[1..], p, i) ==> rest == s[1..][..i] + s[1..][i + |p|..]
    ensures !Contains(s, p) ==> [s[0]] + rest == s
    ensures forall i :: FirstAt(s, p, i) ==> [s[0]] + rest == s[..i] + s[i + |p|..]
  {
    if !Contains(s, p) {
      assert [s[0]] + s[1..] == s;
    }
    forall i | FirstAt(s, p, i)
      ensures [s[0]] + rest == s[..i] + s[i + |p|..]
    {
      ReplaceStepAt(s, p, rest, i);
    }
  }

  /** `s.replace(p, "")` with a string pattern: removes the first occurrence
      of `p` in `s`, and returns `s` unchanged when `p` does not occur. */
  function ReplaceFirst(s: string, p: string): (r: string)
    ensures !Contains(s, p) ==> r == s
    ensures forall i :: FirstAt(s, p, i) ==> r == s[..i] + s[i + |p|..]
    ensures p <= s ==> r == s[|p|..]
    ensures |r| <= |s|
  {
    if p <= s then
      assert OccursAt(s, p, 0) by { assert s[0..] == s; }
      assert forall i :: FirstAt(s, p, i) ==> i == 0;
      assert s[..0] + s[|p|..] == s[|p|..];
      s[|p|..]
    else if s == [] then
      assert s[0..] == s;
      s
    else
      var rest := ReplaceFirst(s[1..], p);
      ReplaceStep(s, p, rest);
      [s[0]] + rest
  }
}
