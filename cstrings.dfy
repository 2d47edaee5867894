/** C strings and the `strtol` conversion of ISO/IEC 9899:2011 section 7.22.1.4,
    for the "C" locale. A C string is held as a `string`; reading at or past
    its end gives NUL, so an embedded NUL ends the string as it does in C. */
module CStrings {
  import opened LongInt

  const NUL: char := '\0'

  /** The character `s[i]` of a C string, NUL once the string has ended. */
  function At(s: string, i: nat): char
  {
    if i < |s| then s[i] else NUL
  }

  /** `isspace` in the "C" locale. */
  predicate IsSpace(c: char)
  {
    c == ' ' || c == '\t' || c == '\n' || c == '\U{000B}' || c == '\U{000C}' || c == '\r'
  }

  predicate IsDecimalDigit(c: char) { '0' <= c <= '9' }

  /** The value of `c` as a digit: 0-9 for the decimal digits, 10-35 for the
      letters of either case, and 36 (a digit in no base) for anything else. */
  function DigitValue(c: char): (d: nat)
    ensures d <= 36
    ensures d < 10 <==> IsDecimalDigit(c)
    ensures c == NUL ==> d == 36
  {
    if '0' <= c <= '9' then c as int - '0' as int
    else if 'a' <= c <= 'z' then c as int - 'a' as int + 10
    else if 'A' <= c <= 'Z' then c as int - 'A' as int + 10
    else 36
  }

  /** The index of the first non-space character at or after `i`. */
  function SkipSpace(s: string, i: nat): (j: nat)
    requires i <= |s|
    ensures i <= j <= |s|
    ensures forall k :: i <= k < j ==> IsSpace(s[k])
    ensures !IsSpace(At(s, j))
    decreases |s| - i
  {
    if i < |s| && IsSpace(s[i]) then SkipSpace(s, i + 1) else i
  }

  /** The end of the longest run of digits of base `radix` starting at `i`. */
  function DigitRun(s: string, i: nat, radix: nat): (j: nat)
    requires i <= |s| && 2 <= radix <= 36
    ensures i <= j <= |s|
    ensures forall k :: i <= k < j ==> DigitValue(s[k]) < radix
    ensures DigitValue(At(s, j)) >= radix
    decreases |s| - i
  {
    if i < |s| && DigitValue(s[i]) < radix then DigitRun(s, i + 1, radix) else i
  }

  /** The value of the digits `s[i..j]` in base `radix`, most significant first. */
  function Magnitude(s: string, i: nat, j: nat, radix: nat): nat
    requires i <= j <= |s|
    decreases j - i
  {
    if j == i then 0 else Magnitude(s, i, j - 1, radix) * radix + DigitValue(s[j - 1])
  }

  /** Where the digits start and in which radix they are read, given the index
      `q` just after the optional sign: base 0 reads "0x"/"0X" as hexadecimal,
      a leading 0 as octal and anything else as decimal; base 16 also admits the
      "0x" prefix. The prefix counts only when a hexadecimal digit follows it. */
  function Radix(s: string, q: nat, base: nat): (r: (nat, nat))
    requires q <= |s| && (base == 0 || 2 <= base <= 36)
    ensures 2 <= r.0 <= 36 && q <= r.1 <= |s|
    ensures base != 0 ==> r.0 == base
    ensures base == 0 && At(s, q) != '0' ==> r == (10, q)
  {
    if (base == 0 || base == 16) && At(s, q) == '0' && (At(s, q + 1) == 'x' || At(s, q + 1) == 'X')
       && DigitValue(At(s, q + 2)) < 16
    then (16, q + 2)
    else if base == 0 && At(s, q) == '0' then (8, q)
    else if base == 0 then (10, q)
    else (base, q)
  }

  /** The index just after the white space and the optional sign that start s. */
  function AfterSign(s: string): (q: nat)
    ensures SkipSpace(s, 0) <= q <= |s|
    ensures q == SkipSpace(s, 0) + 1 <==> At(s, SkipSpace(s, 0)) == '+' || At(s, SkipSpace(s, 0)) == '-'
  {
    var p := SkipSpace(s, 0);
    if At(s, p) == '-' || At(s, p) == '+' then p + 1 else p
  }

  /** The result of a call `strtol(s, &end, base)`: the returned value, the offset
      of `end` from `s`, and whether errno was set to ERANGE. */
  datatype Conversion = Conversion(value: int, end: nat, rangeError: bool)

  /** `strtol`: leading white space, an optional sign, then the longest run of
      digits. Without digits nothing is converted: 0 is returned and `end` is
      `s` itself. A value outside the range of `long` gives LONG_MIN or
      LONG_MAX and ERANGE. */
  function Strtol(s: string, base: nat): (r: Conversion)
    requires base == 0 || 2 <= base <= 36
    ensures InLong(r.value) && r.end <= |s|
    ensures r.end == 0 ==> r.value == 0 && !r.rangeError
    ensures r.end == 0 <==> DigitValue(At(s, AfterSign(s))) >= if base == 0 then 10 else base
    ensures r.rangeError ==> r.value == LONG_MIN || r.value == LONG_MAX
    ensures r.value < 0 ==> At(s, SkipSpace(s, 0)) == '-'
  {
    var p := SkipSpace(s, 0);
    var negative := At(s, p) == '-';
    var q := if At(s, p) == '-' || At(s, p) == '+' then p + 1 else p;
    var (radix, d) := Radix(s, q, base);
    var e := DigitRun(s, d, radix);
    if e == d then Conversion(0, 0, false)
    else
      var m := Magnitude(s, d, e, radix);
      var v := if negative then -(m as int) else m as int;
      if v > LONG_MAX then Conversion(LONG_MAX, e, true)
      else if v < LONG_MIN then Conversion(LONG_MIN, e, true)
      else Conversion(v, e, false)
  }

  /** A non-empty string of decimal digits. */
  predicate IsNumeral(ds: string)
  {
    |ds| > 0 && forall k :: 0 <= k < |ds| ==> IsDecimalDigit(ds[k])
  }

  function NumeralValue(ds: string): nat
  {
    Magnitude(ds, 0, |ds|, 10)
  }

  /** A string of white space only. */
  predicate AllSpace(sp: string)
  {
    forall k :: 0 <= k < |sp| ==> IsSpace(sp[k])
  }

  /** No sign, a plus sign or a minus sign. */
  predicate IsSign(sign: string)
  {
    |sign| <= 1 && (|sign| == 1 ==> sign[0] == '+' || sign[0] == '-')
  }

  /** The sign is a minus sign. */
  predicate IsMinus(sign: string)
  {
    |sign| == 1 && sign[0] == '-'
  }

  /** A non-empty string of digits of base `radix`. */
  predicate IsDigits(ds: string, radix: nat)
  {
    |ds| > 0 && forall k :: 0 <= k < |ds| ==> DigitValue(ds[k]) < radix
  }

  /** The magnitude m with the sign applied. */
  function Signed(sign: string, m: nat): int
  {
    if IsMinus(sign) then -(m as int) else m as int
  }

  /** What `strtol` returns when the digits, read with their sign, stand for v
      and end at e: v itself, or LONG_MAX or LONG_MIN with ERANGE when v is
      outside the range of `long`. */
  function Converted(v: int, e: nat): (r: Conversion)
    ensures InLong(r.value) && r.end == e
    ensures r.rangeError <==> !InLong(v)
    ensures InLong(v) ==> r.value == v
    ensures v > LONG_MAX ==> r.value == LONG_MAX
    ensures v < LONG_MIN ==> r.value == LONG_MIN
  {
    if v > LONG_MAX then Conversion(LONG_MAX, e, true)
    else if v < LONG_MIN then Conversion(LONG_MIN, e, true)
    else Conversion(v, e, false)
  }

  /** White space, an optional sign and a decimal numeral followed by a
      character that is not a digit: the whole numeral is converted with its
      sign, in base 10 and, when it does not start with 0, in base 0. */
  lemma {:induction false} StrtolSigned(sp: string, sign: string, ds: string, tail: string, base: nat)
    requires AllSpace(sp) && IsSign(sign) && IsNumeral(ds) && !IsDecimalDigit(At(tail, 0))
    requires base == 10 || (base == 0 && ds[0] != '0')
    ensures Strtol(sp + sign + ds + tail, base) ==
              Converted(Signed(sign, NumeralValue(ds)), |sp| + |sign| + |ds|)
  {
    var s := sp + sign + ds + tail;
    assert IsDigits(ds, 10);
    NumeralLayout(sp, sign, ds, tail, s, 10);
    DecimalRadix(s, |sp| + |sign|, base);
    StrtolFrom(s, base, |sp|, sign, 10, |sp| + |sign|, ds);
  }

  /** Base 10, and base 0 when no 0 comes first, read decimal digits from q on. */
  lemma {:induction false} DecimalRadix(s: string, q: nat, base: nat)
    requires q <= |s| && (base == 10 || (base == 0 && At(s, q) != '0'))
    ensures Radix(s, q, base) == (10, q)
  {
  }

  /** Base 0 with "0x" or "0X" and a run of hexadecimal digits reads them in
      base 16, with the sign. */
  lemma {:induction false} StrtolHex(sp: string, sign: string, x: char, hs: string, tail: string)
    requires AllSpace(sp) && IsSign(sign) && (x == 'x' || x == 'X')
    requires IsDigits(hs, 16) && DigitValue(At(tail, 0)) >= 16
    ensures Strtol(sp + sign + ['0', x] + hs + tail, 0) ==
              Converted(Signed(sign, Magnitude(hs, 0, |hs|, 16)), |sp| + |sign| + 2 + |hs|)
  {
    var s := sp + sign + ['0', x] + hs + tail;
    HexLayout(sp, sign, x, hs, tail, s);
    StrtolFrom(s, 0, |sp|, sign, 16, |sp| + |sign| + 2, hs);
  }

  /** Where the parts of a hexadecimal numeral sit in the string. */
  lemma {:induction false} HexLayout(sp: string, sign: string, x: char, hs: string, tail: string, s: string)
    requires AllSpace(sp) && IsSign(sign) && (x == 'x' || x == 'X')
    requires IsDigits(hs, 16) && DigitValue(At(tail, 0)) >= 16
    requires s == sp + sign + ['0', x] + hs + tail
    ensures SkipSpace(s, 0) == |sp| && |sp| + |sign| + 2 + |hs| <= |s|
    ensures (At(s, |sp|) == '-') == IsMinus(sign) && (At(s, |sp|) == '-' || At(s, |sp|) == '+') == (|sign| == 1)
    ensures Radix(s, |sp| + |sign|, 0) == (16, |sp| + |sign| + 2)
    ensures DigitRun(s, |sp| + |sign| + 2, 16) == |sp| + |sign| + 2 + |hs|
    ensures s[|sp| + |sign| + 2..|sp| + |sign| + 2 + |hs|] == hs
  {
    SignedLayout(sp, sign, ['0', x] + hs + tail, s);
    assert At(s, |sp| + |sign|) == '0' && At(s, |sp| + |sign| + 1) == x;
    Placed(sp + sign + ['0', x], hs, tail, s);
    assert |sp + sign + ['0', x]| == |sp| + |sign| + 2;
    DigitsAt(s, |sp| + |sign| + 2, hs, 16);
  }

  /** Base 0 with a leading 0 not starting a hexadecimal prefix reads the run
      of octal digits from that 0 on, with the sign. A "0x" or "0X" without a
      hexadecimal digit after it is no prefix: the 0 alone is read. */
  lemma {:induction false} StrtolOctal(sp: string, sign: string, ds: string, tail: string)
    requires AllSpace(sp) && IsSign(sign)
    requires IsDigits(ds, 8) && ds[0] == '0' && DigitValue(At(tail, 0)) >= 8
    requires |ds| > 1 || (At(tail, 0) != 'x' && At(tail, 0) != 'X') || DigitValue(At(tail, 1)) >= 16
    ensures Strtol(sp + sign + ds + tail, 0) ==
              Converted(Signed(sign, Magnitude(ds, 0, |ds|, 8)), |sp| + |sign| + |ds|)
  {
    var s := sp + sign + ds + tail;
    NumeralLayout(sp, sign, ds, tail, s, 8);
    OctalRadix(s, |sp| + |sign|);
    StrtolFrom(s, 0, |sp|, sign, 8, |sp| + |sign|, ds);
  }

  /** A 0 not followed by "0x" or "0X" and a hexadecimal digit starts an
      octal numeral in base 0. */
  lemma {:induction false} OctalRadix(s: string, q: nat)
    requires q <= |s| && At(s, q) == '0'
    requires (At(s, q + 1) != 'x' && At(s, q + 1) != 'X') || DigitValue(At(s, q + 2)) >= 16
    ensures Radix(s, q, 0) == (8, q)
  {
  }

  /** "0x" with no hexadecimal digit after it converts only its 0. */
  lemma HexPrefixWithoutDigits()
    ensures Strtol("0xg", 0) == Conversion(0, 1, false)
  {
    StrtolOctal("", "", "0", "xg");
    assert "" + "" + "0" + "xg" == "0xg";
  }

  /** Where white space, a sign and a run of digits of base `radix` sit in
      `sp + sign + ds + tail`. */
  lemma {:induction false} NumeralLayout(sp: string, sign: string, ds: string, tail: string, s: string, radix: nat)
    requires AllSpace(sp) && IsSign(sign) && 2 <= radix <= 36
    requires IsDigits(ds, radix) && DigitValue(At(tail, 0)) >= radix
    requires s == sp + sign + ds + tail
    ensures SkipSpace(s, 0) == |sp| && |sp| + |sign| + |ds| <= |s|
    ensures (At(s, |sp|) == '-') == IsMinus(sign) && (At(s, |sp|) == '-' || At(s, |sp|) == '+') == (|sign| == 1)
    ensures At(s, |sp| + |sign|) == ds[0]
    ensures |ds| == 1 ==> At(s, |sp| + |sign| + 1) == At(tail, 0) && At(s, |sp| + |sign| + 2) == At(tail, 1)
    ensures |ds| > 1 ==> At(s, |sp| + |sign| + 1) == ds[1]
    ensures DigitRun(s, |sp| + |sign|, radix) == |sp| + |sign| + |ds|
    ensures s[|sp| + |sign|..|sp| + |sign| + |ds|] == ds
  {
    assert DigitValue(ds[0]) < radix;
    SignedLayout(sp, sign, ds + tail, s);
    Placed(sp + sign, ds, tail, s);
    assert |sp + sign| == |sp| + |sign|;
    DigitsAt(s, |sp| + |sign|, ds, radix);
  }

  /** Where `mid` sits in `pre + mid + post`. */
  lemma {:induction false} Placed(pre: string, mid: string, post: string, s: string)
    requires s == pre + mid + post
    ensures |pre| + |mid| <= |s| && s[|pre|..|pre| + |mid|] == mid
    ensures At(s, |pre| + |mid|) == At(post, 0)
    ensures |mid| > 0 ==> At(s, |pre|) == mid[0]
    ensures |mid| > 1 ==> At(s, |pre| + 1) == mid[1]
    ensures |mid| == 1 ==> At(s, |pre| + 1) == At(post, 0) && At(s, |pre| + 2) == At(post, 1)
  {
  }

  /** In s == sp + sign + rest the white space ends at |sp| and the sign, if
      any, is the character there. */
  lemma {:induction false} SignedLayout(sp: string, sign: string, rest: string, s: string)
    requires AllSpace(sp) && IsSign(sign) && s == sp + sign + rest && |rest| > 0 && !IsSpace(rest[0])
    requires rest[0] != '+' && rest[0] != '-'
    ensures SkipSpace(s, 0) == |sp|
    ensures (At(s, |sp|) == '-') == IsMinus(sign)
    ensures (At(s, |sp|) == '-' || At(s, |sp|) == '+') == (|sign| == 1)
  {
    forall k | 0 <= k < |sp|
      ensures IsSpace(s[k])
    {
      assert s[k] == sp[k];
    }
    assert At(s, |sp|) == if |sign| == 0 then rest[0] else sign[0];
    SkipSpaceTo(s, 0, |sp|);
  }

  /** A run `ds` of digits of base `radix` at d in s, not followed by another
      such digit, is what `DigitRun` finds there, and has the same value. */
  lemma {:induction false} DigitsAt(s: string, d: nat, ds: string, radix: nat)
    requires 2 <= radix <= 36 && IsDigits(ds, radix) && d + |ds| <= |s|
    requires s[d..d + |ds|] == ds && DigitValue(At(s, d + |ds|)) >= radix
    ensures DigitRun(s, d, radix) == d + |ds|
  {
    forall k | d <= k < d + |ds|
      ensures DigitValue(s[k]) < radix
    {
      assert s[k] == s[d..d + |ds|][k - d];
    }
    DigitRunTo(s, d, d + |ds|, radix);
  }

  /** `strtol` on s once its white space, sign, radix and digits are known:
      the white space ends at p, `sign` follows it, and the digits `ds` of the
      radix found after the sign run from d on. */
  lemma {:induction false} StrtolFrom(s: string, base: nat, p: nat, sign: string, radix: nat, d: nat, ds: string)
    requires base == 0 || 2 <= base <= 36
    requires p <= |s| && SkipSpace(s, 0) == p && IsSign(sign) && p + |sign| <= |s|
    requires (At(s, p) == '-') == IsMinus(sign) && (At(s, p) == '-' || At(s, p) == '+') == (|sign| == 1)
    requires Radix(s, p + |sign|, base) == (radix, d) && |ds| > 0 && d + |ds| <= |s|
    requires DigitRun(s, d, radix) == d + |ds|
    requires s[d..d + |ds|] == ds
    ensures Strtol(s, base) == Converted(Signed(sign, Magnitude(ds, 0, |ds|, radix)), d + |ds|)
  {
    var m := Magnitude(ds, 0, |ds|, radix);
    assert Magnitude(s, d, d + |ds|, radix) == m by {
      MagnitudeShift(s, ds, d, 0, |ds|, radix);
      assert 0 + |ds| == |ds|;
    }
    StrtolUnfold(s, base, p, p + |sign|, radix, d, d + |ds|, Signed(sign, m));
  }

  /** `strtol` read off its definition once the positions are known. */
  lemma {:induction false} StrtolUnfold(s: string, base: nat, p: nat, q: nat, radix: nat, d: nat, e: nat, v: int)
    requires base == 0 || 2 <= base <= 36
    requires p <= |s| && SkipSpace(s, 0) == p
    requires q == p + (if At(s, p) == '-' || At(s, p) == '+' then 1 else 0) && q <= |s|
    requires Radix(s, q, base) == (radix, d) && d < e <= |s| && DigitRun(s, d, radix) == e
    requires v == if At(s, p) == '-' then -(Magnitude(s, d, e, radix) as int) else Magnitude(s, d, e, radix) as int
    ensures Strtol(s, base) == Converted(v, e)
  {
  }

  lemma {:induction false} SkipSpaceTo(s: string, i: nat, n: nat)
    requires i <= n <= |s| && (forall k :: i <= k < n ==> IsSpace(s[k])) && !IsSpace(At(s, n))
    ensures SkipSpace(s, i) == n
    decreases n - i
  {
    if i < n {
      SkipSpaceTo(s, i + 1, n);
    }
  }

  lemma {:induction false} DigitRunTo(s: string, i: nat, n: nat, radix: nat)
    requires 2 <= radix <= 36 && i <= n <= |s|
    requires (forall k :: i <= k < n ==> DigitValue(s[k]) < radix) && DigitValue(At(s, n)) >= radix
    ensures DigitRun(s, i, radix) == n
    decreases n - i
  {
    if i < n {
      DigitRunTo(s, i + 1, n, radix);
    }
  }

  /** Equal runs of digits have equal values. */
  lemma {:induction false} MagnitudeShift(s: string, t: string, i: nat, j: nat, n: nat, radix: nat)
    requires i + n <= |s| && j + n <= |t| && s[i..i + n] == t[j..j + n]
    ensures Magnitude(s, i, i + n, radix) == Magnitude(t, j, j + n, radix)
    decreases n
  {
    if n > 0 {
      assert s[i + n - 1] == s[i..i + n][n - 1] == t[j + n - 1];
      assert s[i..i + n - 1] == s[i..i + n][..n - 1];
      assert t[j..j + n - 1] == t[j..j + n][..n - 1];
      MagnitudeShift(s, t, i, j, n - 1, radix);
    }
  }

  /** A decimal numeral followed by a character that is not a digit is converted
      whole, in base 10 and, when it does not start with 0, in base 0. */
  lemma {:induction false} StrtolNumeral(ds: string, tail: string, base: nat)
    requires IsNumeral(ds) && !IsDecimalDigit(At(tail, 0))
    requires base == 10 || (base == 0 && ds[0] != '0')
    ensures Strtol(ds + tail, base) ==
              if NumeralValue(ds) > LONG_MAX then Conversion(LONG_MAX, |ds|, true)
              else Conversion(NumeralValue(ds), |ds|, false)
  {
    StrtolSigned("", "", ds, tail, base);
    assert "" + "" + ds + tail == ds + tail;
  }
}
