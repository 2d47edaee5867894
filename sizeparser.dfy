/** The size argument of `-s`: `bkm_scale_by_power_custom`, `xstrtol_custom`,
    `xdectoimax_custom` and the modifier prefix read in `main`. */
module SizeParser {
  import opened LongInt
  import opened CStrings
  import opened Results

  /** A scaled value and whether some step of the scaling overflowed `long`. */
  datatype Scaled = Scaled(value: int, overflow: bool)

  /** What `bkm_scale_by_power_custom` leaves behind: `power` times, the value
      is multiplied by `base` and the low 64 bits of the product are kept (the
      saturated value stored on overflow is overwritten by the wrapped product);
      the overflow flag, once raised, stays raised. */
  function ScaleSpec(x: int, base: int, power: nat): (r: Scaled)
    requires InLong(x)
    ensures InLong(r.value)
    ensures !r.overflow ==> r.value == x * Pow(base, power)
    ensures r.overflow <==> OverflowsWithin(x, base, power)
    decreases power
  {
    if power == 0 then Scaled(x, false)
    else
      var prev := ScaleSpec(x, base, power - 1);
      var product := prev.value * base;
      ScaleStep(x, base, power, prev.value, prev.overflow);
      Scaled(Wrap64(product), prev.overflow || !InLong(product))
  }

  /** Some product x * base^k with 1 <= k <= power leaves the range of `long`. */
  predicate OverflowsWithin(x: int, base: int, power: nat)
  {
    exists k :: 1 <= k <= power && !InLong(x * Pow(base, k))
  }

  /** One step of ScaleSpec: without an earlier overflow, the product is x * base^power. */
  lemma ScaleStep(x: int, base: int, power: nat, prev: int, prevOverflow: bool)
    requires power >= 1
    requires !prevOverflow ==> prev == x * Pow(base, power - 1)
    requires prevOverflow <==> OverflowsWithin(x, base, power - 1)
    ensures !prevOverflow ==> prev * base == x * Pow(base, power)
    ensures (prevOverflow || !InLong(prev * base)) <==> OverflowsWithin(x, base, power)
  {
    if OverflowsWithin(x, base, power) && !prevOverflow {
      var k :| 1 <= k <= power && !InLong(x * Pow(base, k));
      assert k == power;
    }
    if prevOverflow {
      var k :| 1 <= k <= power - 1 && !InLong(x * Pow(base, k));
      assert 1 <= k <= power;
    }
    if !prevOverflow {
      calc {
        prev * base;
        (x * Pow(base, power - 1)) * base;
        x * (base * Pow(base, power - 1));
        x * Pow(base, power);
      }
    }
  }

  /** `bkm_scale_by_power_custom`: the loop of the source, with its dead store. */
  method ScaleByPower(x: int, base: int, power: nat) returns (r: int, overflow: bool)
    requires InLong(x)
    ensures Scaled(r, overflow) == ScaleSpec(x, base, power)
    ensures InLong(r)
    ensures !overflow ==> r == x * Pow(base, power)
  {
    r, overflow := x, false;
    var left := power;
    while left > 0
      invariant 0 <= left <= power
      invariant Scaled(r, overflow) == ScaleSpec(x, base, power - left)
    {
      var product := r * base;
      var scaled := Wrap64(product);
      if !InLong(product) {
        r := if r < 0 then LONG_MIN else LONG_MAX;
        overflow := true;
      }
      r := scaled;
      left := left - 1;
    }
  }

  /** With base 1000 or 1024 (any base >= 1) the scaling overflows exactly when
      the true product x * base^power leaves the range of `long`. */
  lemma {:induction false} ScaleOverflowIff(x: int, base: int, power: nat)
    requires InLong(x) && base >= 1
    ensures ScaleSpec(x, base, power).overflow <==> !InLong(x * Pow(base, power))
  {
    PowMonotone(base, power, power);
    if power >= 1 && !InLong(x * Pow(base, power)) {
      assert 1 <= power <= power && !InLong(x * Pow(base, power));
    }
    if ScaleSpec(x, base, power).overflow {
      var k :| 1 <= k <= power && !InLong(x * Pow(base, k));
      PowMonotone(base, k, power);
      ProductGrows(x, Pow(base, k), Pow(base, power));
    }
  }

  lemma ProductGrows(x: int, p: int, q: int)
    requires 1 <= p <= q
    ensures x >= 0 ==> x * p <= x * q
    ensures x < 0 ==> x * q <= x * p
  {
  }

  /** A value above LONG_MAX / 1000 cannot take any suffix: the scaling
      reports overflow instead of a wrapped value. */
  lemma {:induction false} LargeValueOverflows(x: int, base: int, power: nat)
    requires InLong(x) && x > LONG_MAX / 1000
    requires (base == 1000 || base == 1024) && power >= 1
    ensures ScaleSpec(x, base, power).overflow
  {
    ScaleOverflowIff(x, base, power);
    PowMonotone(base, 1, power);
    assert Pow(base, 1) == base;
    ProductGrows(x, base, Pow(base, power));
  }

  /** The unit letters `xstrtol_custom` accepts. */
  predicate IsSuffixLetter(c: char)
  {
    c in "EgGkKmMPtTYZ"
  }

  /** The power of the base a unit letter stands for. */
  function SuffixPower(c: char): (p: nat)
    requires IsSuffixLetter(c)
    ensures 1 <= p <= 8
  {
    if c == 'k' || c == 'K' then 1
    else if c == 'm' || c == 'M' then 2
    else if c == 'g' || c == 'G' then 3
    else if c == 't' || c == 'T' then 4
    else if c == 'P' then 5
    else if c == 'E' then 6
    else if c == 'Z' then 7
    else 8
  }

  /** The base and the number of characters of a unit, given the two characters
      after its letter: "iB" keeps base 1024 over three characters, "B" or "D"
      selects base 1000 over two, anything else is the bare letter in base 1024. */
  function SuffixUnit(next: char, after: char): (r: (int, nat))
    ensures r.0 == 1000 || r.0 == 1024
    ensures 1 <= r.1 <= 3
  {
    if next == 'i' then (1024, if after == 'B' then 3 else 1)
    else if next == 'B' || next == 'D' then (1000, 2)
    else (1024, 1)
  }

  /** The outcome of `xstrtol_custom`: LONGINT_INVALID, or a value with the
      LONGINT_OVERFLOW and LONGINT_INVALID_SUFFIX_CHAR flags. */
  datatype Scan = Invalid | Scanned(value: int, overflow: bool, badSuffix: bool)
  {
    predicate IsOk() { Scanned? && !overflow && !badSuffix }
  }

  /** `xstrtol_custom`: a base-10 `strtol`, then an optional unit. */
  function XStrtol(s: string): (r: Scan)
    ensures r.Scanned? ==> InLong(r.value)
    ensures r.Invalid? <==> Strtol(s, 10).end == 0 && !IsSuffixLetter(At(s, 0))
    ensures r.Scanned? && !r.overflow && r.value < 0 ==> At(s, SkipSpace(s, 0)) == '-'
  {
    var conv := Strtol(s, 10);
    if conv.end == 0 && !IsSuffixLetter(At(s, 0)) then Invalid
    else
      var tmp := if conv.end == 0 then 1 else conv.value;
      var overflow := conv.end != 0 && conv.rangeError;
      var t := conv.end;
      if At(s, t) == NUL then Scanned(tmp, overflow, false)
      else if !IsSuffixLetter(At(s, t)) then Scanned(tmp, overflow, true)
      else
        var (base, width) := SuffixUnit(At(s, t + 1), At(s, t + 2));
        var scaled := ScaleSpec(tmp, base, SuffixPower(At(s, t)));
        ScaledSign(tmp, base, SuffixPower(At(s, t)));
        Scanned(scaled.value, overflow || scaled.overflow, At(s, t + width) != NUL)
  }

  datatype ParseError = InvalidNumber(token: string)

  /** `xdectoimax_custom`: the value of `xstrtol_custom`, or a fatal
      "Invalid number" for every outcome other than LONGINT_OK. */
  function XDecToIMax(s: string): (r: Result<int, ParseError>)
    ensures r.Ok? <==> XStrtol(s).IsOk()
    ensures r.Ok? ==> InLong(r.value) && r.value == XStrtol(s).value
    ensures r.Err? ==> r.error == InvalidNumber(s)
  {
    var scan := XStrtol(s);
    if scan.IsOk() then Ok(scan.value) else Err(InvalidNumber(s))
  }

  /** A whole argument made of white space, an optional sign and a decimal
      numeral, with no unit: `xstrtol_custom` gives the signed value of the
      numeral, or LONG_MAX or LONG_MIN with LONGINT_OVERFLOW when that value
      does not fit a `long`; `xdectoimax_custom` accepts it exactly when it fits. */
  lemma {:induction false} PlainNumeral(sp: string, sign: string, ds: string)
    requires AllSpace(sp) && IsSign(sign) && IsNumeral(ds)
    ensures var v := Signed(sign, NumeralValue(ds));
            (InLong(v) ==> XStrtol(sp + sign + ds) == Scanned(v, false, false)) &&
            (v > LONG_MAX ==> XStrtol(sp + sign + ds) == Scanned(LONG_MAX, true, false)) &&
            (v < LONG_MIN ==> XStrtol(sp + sign + ds) == Scanned(LONG_MIN, true, false)) &&
            (XDecToIMax(sp + sign + ds) == if InLong(v) then Ok(v) else Err(InvalidNumber(sp + sign + ds)))
  {
    var s := sp + sign + ds;
    assert s == sp + sign + ds + "";
    StrtolSigned(sp, sign, ds, "", 10);
    assert At(s, |sp| + |sign| + |ds|) == NUL;
  }

  /** The base a unit given as text selects. */
  function UnitBase(unit: string): int
  {
    if unit == "B" || unit == "D" then 1000 else 1024
  }

  /** A numeral with a unit letter, bare or followed by "B", "D" or "iB", after
      white space and an optional sign, is the signed numeral scaled by
      UnitBase(unit) to the power the letter stands for: "10K" is 10240, "-10KB"
      is -10000, "+10KiB" is 10240. When that product does not fit a `long` (the
      numeral alone may already not fit), the result carries LONGINT_OVERFLOW
      and `xdectoimax_custom` refuses it. */
  lemma {:induction false} SuffixScaling(sp: string, sign: string, ds: string, letter: char, unit: string)
    requires AllSpace(sp) && IsSign(sign) && IsNumeral(ds) && IsSuffixLetter(letter)
    requires unit == "" || unit == "B" || unit == "D" || unit == "iB"
    ensures var s := sp + sign + ds + [letter] + unit;
            var product := Signed(sign, NumeralValue(ds)) * Pow(UnitBase(unit), SuffixPower(letter));
            (InLong(product) ==> XStrtol(s) == Scanned(product, false, false)) &&
            (!InLong(product) ==> XStrtol(s).Scanned? && XStrtol(s).overflow && !XStrtol(s).badSuffix) &&
            (XDecToIMax(s).Ok? <==> InLong(product))
  {
    var s := sp + sign + ds + [letter] + unit;
    var tail := [letter] + unit;
    assert s == sp + sign + ds + tail;
    assert At(tail, 0) == letter && At(tail, 1) == At(unit, 0) && At(tail, 2) == At(unit, 1);
    assert At(tail, 1 + |unit|) == NUL;
    StrtolSigned(sp, sign, ds, tail, 10);
    var e := |sp| + |sign| + |ds|;
    TailAt(sp + sign + ds, tail, s, e, 1 + |unit|);
    UnitAfter(s, Signed(sign, NumeralValue(ds)), e, letter, unit);
  }

  /** A unit that ends the string right after a number `strtol` read up to e as
      v (saturated when outside `long`) scales v, and overflow is reported
      exactly when the scaled value leaves `long`. */
  lemma {:induction false} UnitAfter(s: string, v: int, e: nat, letter: char, unit: string)
    requires e > 0 && Strtol(s, 10) == Converted(v, e)
    requires IsSuffixLetter(letter) && (unit == "" || unit == "B" || unit == "D" || unit == "iB")
    requires At(s, e) == letter && At(s, e + 1) == At(unit, 0) && At(s, e + 2) == At(unit, 1)
    requires At(s, e + 1 + |unit|) == NUL
    ensures var product := v * Pow(UnitBase(unit), SuffixPower(letter));
            (InLong(product) ==> XStrtol(s) == Scanned(product, false, false)) &&
            (!InLong(product) ==> XStrtol(s).Scanned? && XStrtol(s).overflow && !XStrtol(s).badSuffix) &&
            (XDecToIMax(s).Ok? <==> InLong(product))
  {
    UnitScan(s, e, letter, unit);
    ScaleConverted(v, e, UnitBase(unit), SuffixPower(letter));
  }

  /** The scan of a unit that ends the string right after the number. */
  lemma {:induction false} UnitScan(s: string, e: nat, letter: char, unit: string)
    requires e > 0 && Strtol(s, 10).end == e
    requires IsSuffixLetter(letter) && (unit == "" || unit == "B" || unit == "D" || unit == "iB")
    requires At(s, e) == letter && At(s, e + 1) == At(unit, 0) && At(s, e + 2) == At(unit, 1)
    requires At(s, e + 1 + |unit|) == NUL
    ensures var sc := ScaleSpec(Strtol(s, 10).value, UnitBase(unit), SuffixPower(letter));
            XStrtol(s) == Scanned(sc.value, Strtol(s, 10).rangeError || sc.overflow, false)
  {
    assert SuffixUnit(At(s, e + 1), At(s, e + 2)) == (UnitBase(unit), 1 + |unit|);
  }

  /** Scaling what `strtol` returned for v: exact when v * base^p fits a
      `long`, and flagged as overflow, by `strtol` or by the scaling, when not. */
  lemma {:induction false} ScaleConverted(v: int, e: nat, base: int, p: nat)
    requires base >= 1
    ensures var c := Converted(v, e);
            var sc := ScaleSpec(c.value, base, p);
            (InLong(v * Pow(base, p)) ==> !c.rangeError && !sc.overflow && sc.value == v * Pow(base, p)) &&
            (!InLong(v * Pow(base, p)) ==> c.rangeError || sc.overflow)
  {
    PowMonotone(base, 0, p);
    ProductGrows(v, 1, Pow(base, p));
    if InLong(v) {
      ScaleOverflowIff(v, base, p);
    }
  }

  /** The characters of `tail` in `pre + tail`, which start at e == |pre|. */
  lemma {:induction false} TailAt(pre: string, tail: string, s: string, e: nat, k: nat)
    requires s == pre + tail && |pre| == e
    ensures At(s, e) == At(tail, 0) && At(s, e + 1) == At(tail, 1) && At(s, e + 2) == At(tail, 2)
    ensures At(s, e + k) == At(tail, k)
  {
  }

  /** A unit letter alone stands for 1 of that unit: "K" is 1024 and "MB" is
      1000000, while "Z", "Y", "ZB" and "YB" exceed `long` and are refused. */
  lemma {:induction false} DigitlessSuffix(letter: char, unit: string)
    requires IsSuffixLetter(letter)
    requires unit == "" || unit == "B" || unit == "D" || unit == "iB"
    ensures var power := Pow(UnitBase(unit), SuffixPower(letter));
            (InLong(power) ==> XStrtol([letter] + unit) == Scanned(power, false, false)) &&
            (!InLong(power) ==> XStrtol([letter] + unit).Scanned? && XStrtol([letter] + unit).overflow &&
                                !XStrtol([letter] + unit).badSuffix) &&
            (XDecToIMax([letter] + unit).Ok? <==> InLong(power))
  {
    var s := [letter] + unit;
    assert At(s, 0) == letter && !IsSpace(letter);
    assert SkipSpace(s, 0) == 0;
    assert Strtol(s, 10).end == 0;
    assert At(s, 1) == At(unit, 0) && At(s, 2) == At(unit, 1);
    assert At(s, 1 + |unit|) == NUL;
    ScaleOverflowIff(1, UnitBase(unit), SuffixPower(letter));
  }

  /** A token with no digit after its white space and sign that does not start
      with a unit letter is LONGINT_INVALID: "x", "+", "-K" and " K" are. */
  lemma {:induction false} DigitlessInvalid(s: string)
    requires !IsDecimalDigit(At(s, AfterSign(s)))
    requires !IsSuffixLetter(At(s, 0))
    ensures XStrtol(s) == Invalid
  {
    assert Strtol(s, 10).end == 0;
  }

  /** After a number that ends at e, a character that is no unit letter flags
      an invalid suffix and leaves the number as `strtol` read it. */
  lemma {:induction false} NonUnitFlag(s: string, e: nat)
    requires Strtol(s, 10).end == e && e > 0
    requires At(s, e) != NUL && !IsSuffixLetter(At(s, e))
    ensures XStrtol(s) == Scanned(Strtol(s, 10).value, Strtol(s, 10).rangeError, true)
  {
  }

  /** After a number that ends at e, or at the start of a token with no digits
      (e == 0, where the unit letter stands for 1), anything left after the unit
      flags an invalid suffix. */
  lemma {:induction false} UnitFlag(s: string, e: nat)
    requires Strtol(s, 10).end == e
    requires IsSuffixLetter(At(s, e)) && At(s, e + SuffixUnit(At(s, e + 1), At(s, e + 2)).1) != NUL
    ensures XStrtol(s).Scanned? && XStrtol(s).badSuffix
  {
  }

  /** An "i" after a unit letter that is not followed by "B" is left unconsumed
      and makes the suffix invalid, with or without a sign: "5Ki", "-5Ki". */
  lemma {:induction false} LoneIRejected(sp: string, sign: string, ds: string, letter: char, rest: string)
    requires AllSpace(sp) && IsSign(sign) && IsNumeral(ds) && IsSuffixLetter(letter) && At(rest, 0) != 'B'
    ensures XStrtol(sp + sign + ds + [letter, 'i'] + rest).Scanned?
    ensures XStrtol(sp + sign + ds + [letter, 'i'] + rest).badSuffix
    ensures XDecToIMax(sp + sign + ds + [letter, 'i'] + rest).Err?
  {
    var s := sp + sign + ds + [letter, 'i'] + rest;
    var tail := [letter, 'i'] + rest;
    assert s == sp + sign + ds + tail;
    assert At(tail, 0) == letter && At(tail, 1) == 'i' && At(tail, 2) == At(rest, 0);
    StrtolSigned(sp, sign, ds, tail, 10);
    var e := |sp| + |sign| + |ds|;
    TailAt(sp + sign + ds, tail, s, e, 1);
    UnitFlag(s, e);
  }

  /** A character after the digits that is no unit letter is an invalid
      suffix, with or without a sign: "5x", "-5x". */
  lemma {:induction false} TrailingCharRejected(sp: string, sign: string, ds: string, c: char, rest: string)
    requires AllSpace(sp) && IsSign(sign) && IsNumeral(ds)
    requires c != NUL && !IsDecimalDigit(c) && !IsSuffixLetter(c)
    ensures XStrtol(sp + sign + ds + [c] + rest).Scanned?
    ensures XStrtol(sp + sign + ds + [c] + rest).badSuffix
    ensures XDecToIMax(sp + sign + ds + [c] + rest).Err?
  {
    var s := sp + sign + ds + [c] + rest;
    var tail := [c] + rest;
    assert s == sp + sign + ds + tail;
    assert At(tail, 0) == c;
    StrtolSigned(sp, sign, ds, tail, 10);
    var e := |sp| + |sign| + |ds|;
    TailAt(sp + sign + ds, tail, s, e, 0);
    NonUnitFlag(s, e);
  }

  /** Anything left after a complete unit ("B", "D" or "iB") is an invalid
      suffix, with or without a sign: "5KBx", "+5KBx". */
  lemma {:induction false} TrailingAfterUnitRejected(sp: string, sign: string, ds: string, letter: char,
                                                     unit: string, rest: string)
    requires AllSpace(sp) && IsSign(sign) && IsNumeral(ds) && IsSuffixLetter(letter)
    requires unit == "B" || unit == "D" || unit == "iB"
    requires At(rest, 0) != NUL
    ensures XStrtol(sp + sign + ds + [letter] + unit + rest).Scanned?
    ensures XStrtol(sp + sign + ds + [letter] + unit + rest).badSuffix
    ensures XDecToIMax(sp + sign + ds + [letter] + unit + rest).Err?
  {
    var s := sp + sign + ds + [letter] + unit + rest;
    var tail := [letter] + unit + rest;
    assert s == sp + sign + ds + tail;
    UnitTail(letter, unit, rest, tail);
    StrtolSigned(sp, sign, ds, tail, 10);
    var e := |sp| + |sign| + |ds|;
    TailAt(sp + sign + ds, tail, s, e, 1 + |unit|);
    UnitFlag(s, e);
  }

  /** A unit letter without digits followed by anything the unit does not
      consume is an invalid suffix: "Kx", "Ki", "KBx" and "KiBx" are refused. The
      unit is taken whole, so a bare letter must not be followed by "B", "D" or "iB". */
  lemma {:induction false} DigitlessTrailingRejected(letter: char, unit: string, rest: string)
    requires IsSuffixLetter(letter) && At(rest, 0) != NUL
    requires unit == "" || unit == "B" || unit == "D" || unit == "iB"
    requires unit == "" ==> At(rest, 0) != 'B' && At(rest, 0) != 'D' && !(At(rest, 0) == 'i' && At(rest, 1) == 'B')
    ensures XStrtol([letter] + unit + rest).Scanned?
    ensures XStrtol([letter] + unit + rest).badSuffix
    ensures XDecToIMax([letter] + unit + rest).Err?
  {
    var s := [letter] + unit + rest;
    assert At(s, 0) == letter && !IsSpace(letter);
    assert SkipSpace(s, 0) == 0;
    assert Strtol(s, 10).end == 0;
    if unit == "" {
      assert s == [letter] + rest;
      assert At(s, 1) == At(rest, 0) && At(s, 2) == At(rest, 1);
    } else {
      UnitTail(letter, unit, rest, s);
    }
    UnitFlag(s, 0);
  }

  /** In `[letter] + unit + rest` the unit is read whole, and `rest` follows it. */
  lemma {:induction false} UnitTail(letter: char, unit: string, rest: string, tail: string)
    requires unit == "B" || unit == "D" || unit == "iB"
    requires tail == [letter] + unit + rest
    ensures At(tail, 0) == letter
    ensures SuffixUnit(At(tail, 1), At(tail, 2)).1 == 1 + |unit|
    ensures At(tail, 1 + |unit|) == At(rest, 0)
  {
    assert At(tail, 1) == unit[0] && At(tail, 2) == At(unit + rest, 1);
  }

  /** Scaling without overflow keeps the sign. */
  lemma ScaledSign(x: int, base: int, power: nat)
    requires InLong(x) && base >= 1
    ensures !ScaleSpec(x, base, power).overflow && ScaleSpec(x, base, power).value < 0 ==> x < 0
  {
    if !ScaleSpec(x, base, power).overflow {
      PowMonotone(base, 0, power);
      ProductGrows(x, 1, Pow(base, power));
    }
  }

  /** The adjustment a size argument selects (`enum rel_mode`). */
  datatype RelMode = Absolute | Relative | AtLeast | AtMost | RoundDown | RoundUp
  {
    predicate IsRounding() { this == RoundDown || this == RoundUp }
  }

  /** The mode a prefix character selects: '<' at most (rm_max), '>' at least
      (rm_min), '/' round down, '%' round up. */
  function Modifier(c: char): (r: Option<RelMode>)
    ensures r.Some? <==> c == '<' || c == '>' || c == '/' || c == '%'
    ensures r.Some? ==> r.value != Absolute && r.value != Relative
  {
    if c == '<' then Some(AtMost)
    else if c == '>' then Some(AtLeast)
    else if c == '/' then Some(RoundDown)
    else if c == '%' then Some(RoundUp)
    else None
  }

  datatype SizeError = MultipleModifiers | BadNumber(error: ParseError) | DivisionByZero

  /** The mode after the prefix of a `-s` argument, and where its number starts:
      white space, an optional prefix character, white space. */
  function Prefix(prev: RelMode, arg: string): (r: (RelMode, nat))
    ensures r.1 <= |arg| && !IsSpace(At(arg, r.1))
    ensures r.0 == Modifier(At(arg, SkipSpace(arg, 0))).GetOr(prev)
    ensures Modifier(At(arg, SkipSpace(arg, 0))).Some? <==> r.1 > SkipSpace(arg, 0)
    ensures forall k :: 0 <= k < r.1 ==> IsSpace(arg[k]) || (k == SkipSpace(arg, 0) && Modifier(arg[k]).Some?)
  {
    var p := SkipSpace(arg, 0);
    match Modifier(At(arg, p))
    case Some(m) => (m, SkipSpace(arg, p + 1))
    case None => (prev, p)
  }

  /** One `-s` argument, given the mode left by earlier `-s` options (`rel_mode`
      is not reset between them): after the prefix, a sign selects Relative (and
      stays part of the number), and rounding to a multiple of 0 is refused.
      Only Relative can carry a negative size, and only when no earlier `-s`
      set a mode, so rounding sizes are positive. */
  function SizeOption(prev: RelMode, arg: string): (r: Result<(RelMode, int), SizeError>)
    ensures r.Ok? ==> InLong(r.value.1)
    ensures r.Ok? && r.value.1 < 0 ==> r.value.0 == Relative && prev == Absolute
    ensures r.Ok? && r.value.0.IsRounding() ==> r.value.1 > 0
  {
    var (mode, q) := Prefix(prev, arg);
    var signed := At(arg, q) == '+' || At(arg, q) == '-';
    if signed && mode != Absolute then Err(MultipleModifiers)
    else
      var mode' := if signed then Relative else mode;
      match XDecToIMax(arg[q..])
      case Err(e) => Err(BadNumber(e))
      case Ok(size) =>
        if mode'.IsRounding() && size == 0 then Err(DivisionByZero)
        else
          SignedStart(arg, q, size);
          Ok((mode', size))
  }

  /** A negative number read from `arg[q..]`, where `q` is not white space, starts with '-'. */
  lemma SignedStart(arg: string, q: nat, size: int)
    requires q <= |arg| && !IsSpace(At(arg, q)) && XDecToIMax(arg[q..]) == Ok(size)
    ensures size < 0 ==> At(arg, q) == '-'
  {
    var rest := arg[q..];
    assert At(rest, 0) == At(arg, q);
    assert SkipSpace(rest, 0) == 0;
  }

  /** An argument `sp1 + [c] + sp2 + tok` with a prefix character c: a sign at
      the start of tok is refused, and otherwise the mode is the one c selects
      and the size is the value of tok (refused when it rounds to a multiple of 0). */
  lemma {:induction false} SizeOptionPrefixed(prev: RelMode, arg: string, sp1: string, c: char, sp2: string, tok: string)
    requires arg == sp1 + [c] + sp2 + tok
    requires AllSpace(sp1) && AllSpace(sp2) && Modifier(c).Some? && !IsSpace(At(tok, 0))
    ensures var mode := Modifier(c).value;
            var signed := At(tok, 0) == '+' || At(tok, 0) == '-';
            (signed ==> SizeOption(prev, arg) == Err(MultipleModifiers)) &&
            (!signed && XDecToIMax(tok).Err? ==> SizeOption(prev, arg) == Err(BadNumber(XDecToIMax(tok).error))) &&
            (!signed && XDecToIMax(tok).Ok? ==>
               SizeOption(prev, arg) ==
                 if mode.IsRounding() && XDecToIMax(tok).value == 0 then Err(DivisionByZero)
                 else Ok((mode, XDecToIMax(tok).value)))
  {
    forall k | 0 <= k < |sp1|
      ensures IsSpace(arg[k])
    {
      assert arg[k] == sp1[k];
    }
    assert At(arg, |sp1|) == c;
    SkipSpaceTo(arg, 0, |sp1|);
    forall k | |sp1| + 1 <= k < |sp1| + 1 + |sp2|
      ensures IsSpace(arg[k])
    {
      assert arg[k] == sp2[k - |sp1| - 1];
    }
    assert At(arg, |sp1| + 1 + |sp2|) == At(tok, 0);
    SkipSpaceTo(arg, |sp1| + 1, |sp1| + 1 + |sp2|);
    assert arg[|sp1| + 1 + |sp2|..] == tok;
  }

  /** An argument `sp + tok` without a prefix character keeps the mode of the
      earlier `-s` options, except that a sign selects Relative, and is refused
      when an earlier option already set a mode. */
  lemma {:induction false} SizeOptionUnprefixed(prev: RelMode, arg: string, sp: string, tok: string)
    requires arg == sp + tok
    requires AllSpace(sp) && !IsSpace(At(tok, 0)) && Modifier(At(tok, 0)).None?
    ensures var signed := At(tok, 0) == '+' || At(tok, 0) == '-';
            var mode := if signed then Relative else prev;
            (signed && prev != Absolute ==> SizeOption(prev, arg) == Err(MultipleModifiers)) &&
            (!(signed && prev != Absolute) && XDecToIMax(tok).Err? ==>
               SizeOption(prev, arg) == Err(BadNumber(XDecToIMax(tok).error))) &&
            (!(signed && prev != Absolute) && XDecToIMax(tok).Ok? ==>
               SizeOption(prev, arg) ==
                 if mode.IsRounding() && XDecToIMax(tok).value == 0 then Err(DivisionByZero)
                 else Ok((mode, XDecToIMax(tok).value)))
  {
    forall k | 0 <= k < |sp|
      ensures IsSpace(arg[k])
    {
      assert arg[k] == sp[k];
    }
    assert At(arg, |sp|) == At(tok, 0);
    SkipSpaceTo(arg, 0, |sp|);
    assert arg[|sp|..] == tok;
  }

  /** The prefix character decides the mode: '<' AtMost, '>' AtLeast, '/'
      RoundDown, '%' RoundUp; and a sign after such a prefix is refused. */
  lemma {:induction false} PrefixSelectsMode(prev: RelMode, arg: string)
    requires Modifier(At(arg, SkipSpace(arg, 0))).Some?
    ensures var m := Modifier(At(arg, SkipSpace(arg, 0))).value;
            var q := SkipSpace(arg, SkipSpace(arg, 0) + 1);
            (At(arg, q) == '+' || At(arg, q) == '-' ==> SizeOption(prev, arg) == Err(MultipleModifiers)) &&
            (SizeOption(prev, arg).Ok? ==> SizeOption(prev, arg).value.0 == m)
  {
    var p := SkipSpace(arg, 0);
    assert Prefix(prev, arg) == (Modifier(At(arg, p)).value, SkipSpace(arg, p + 1));
  }

  /** With no prefix and no earlier mode, a leading sign selects Relative and the
      size is the signed number. */
  lemma {:induction false} SignSelectsRelative(arg: string)
    requires var c := At(arg, SkipSpace(arg, 0)); c == '+' || c == '-'
    requires XDecToIMax(arg[SkipSpace(arg, 0)..]).Ok?
    ensures SizeOption(Absolute, arg) == Ok((Relative, XDecToIMax(arg[SkipSpace(arg, 0)..]).value))
  {
    var p := SkipSpace(arg, 0);
    assert Modifier(At(arg, p)).None?;
    assert SkipSpace(arg, p) == p;
  }

  /** "10K" is 10240 and "10KB" is 10000. */
  lemma {:induction false} ScalingExamples()
    ensures XDecToIMax("10K") == Ok(10240)
    ensures XDecToIMax("10KB") == Ok(10000)
  {
    assert DigitValue('1') == 1 && DigitValue('0') == 0;
    assert Magnitude("10", 0, 1, 10) == 1;
    assert IsNumeral("10") && NumeralValue("10") == 10;
    assert "10K" == "" + "" + "10" + ['K'] + "";
    assert "10KB" == "" + "" + "10" + ['K'] + "B";
    SuffixScaling("", "", "10", 'K', "");
    SuffixScaling("", "", "10", 'K', "B");
  }

  /** "-5K" is -5120: the sign is scaled with the number. */
  lemma {:induction false} SignedScalingExample()
    ensures XDecToIMax("-5K") == Ok(-5120)
  {
    assert DigitValue('5') == 5;
    assert Magnitude("5", 0, 0, 10) == 0;
    assert IsNumeral("5") && NumeralValue("5") == 5;
    assert Pow(1024, 1) == 1024;
    assert "-5K" == "" + "-" + "5" + ['K'] + "";
    SuffixScaling("", "-", "5", 'K', "");
  }

  /** A unit of 1024^7 or more does not fit a `long`: "Z" is refused. */
  lemma {:induction false} BareUnitOverflows()
    ensures XDecToIMax("Z").Err?
  {
    assert "Z" == ['Z'] + "";
    assert Pow(1024, 7) == 0x40_0000_0000_0000_0000 by {
      assert Pow(1024, 3) == 0x4000_0000;
    }
    assert UnitBase("") == 1024 && SuffixPower('Z') == 7;
    assert !InLong(Pow(1024, 7));
    DigitlessSuffix('Z', "");
  }

  /** A sign with no digits after it is not a number: "+" is refused. */
  lemma {:induction false} SignOnlyRefused()
    ensures SizeOption(Absolute, "+") == Err(BadNumber(InvalidNumber("+")))
  {
    assert "" + "+" == "+" && At("+", 0) == '+';
    SizeOptionUnprefixed(Absolute, "+", "", "+");
    SignAloneInvalid();
  }

  lemma {:induction false} SignAloneInvalid()
    ensures XDecToIMax("+") == Err(InvalidNumber("+"))
  {
    assert SkipSpace("+", 0) == 0 && AfterSign("+") == 1 && At("+", 1) == NUL;
    DigitlessInvalid("+");
  }

  /** "<500" sets a size of at most 500 bytes. */
  lemma {:induction false} AtMostExample()
    ensures SizeOption(Absolute, "<500") == Ok((AtMost, 500))
  {
    SizeOptionPrefixed(Absolute, "<500", "", '<', "", "500");
    Reads500();
  }

  /** ">500" sets a size of at least 500 bytes. */
  lemma {:induction false} AtLeastExample()
    ensures SizeOption(Absolute, ">500") == Ok((AtLeast, 500))
  {
    SizeOptionPrefixed(Absolute, ">500", "", '>', "", "500");
    Reads500();
  }

  /** "%512" rounds up to a multiple of 512 bytes. */
  lemma {:induction false} RoundUpExample()
    ensures SizeOption(Absolute, "%512") == Ok((RoundUp, 512))
  {
    SizeOptionPrefixed(Absolute, "%512", "", '%', "", "512");
    Reads512();
  }

  /** "100" sets an absolute size of 100 bytes. */
  lemma {:induction false} AbsoluteExample()
    ensures SizeOption(Absolute, "100") == Ok((Absolute, 100))
  {
    SizeOptionUnprefixed(Absolute, "100", "", "100");
    Reads100();
  }

  /** "-5" shrinks by 5 bytes. */
  lemma {:induction false} RelativeExample()
    ensures SizeOption(Absolute, "-5") == Ok((Relative, -5))
  {
    SizeOptionUnprefixed(Absolute, "-5", "", "-5");
    ReadsMinus5();
  }

  /** A sign after an earlier `-s` that set a mode is refused. */
  lemma {:induction false} MultipleModifiersExample()
    ensures SizeOption(AtMost, "+5") == Err(MultipleModifiers)
  {
    SizeOptionUnprefixed(AtMost, "+5", "", "+5");
  }

  /** Rounding to a multiple of 0 is refused. */
  lemma {:induction false} DivisionByZeroExample()
    ensures SizeOption(Absolute, "/0") == Err(DivisionByZero)
  {
    assert "" + ['/'] + "" + "0" == "/0" && Modifier('/') == Some(RoundDown) && At("0", 0) == '0';
    SizeOptionPrefixed(Absolute, "/0", "", '/', "", "0");
    Reads0();
  }

  lemma {:induction false} Reads500()
    ensures XDecToIMax("500") == Ok(500)
  {
    assert DigitValue('5') == 5 && DigitValue('0') == 0;
    assert Magnitude("500", 0, 2, 10) == 50;
    assert IsNumeral("500") && NumeralValue("500") == 500;
    PlainNumeral("", "", "500");
    assert "" + "" + "500" == "500";
  }

  lemma {:induction false} Reads512()
    ensures XDecToIMax("512") == Ok(512)
  {
    assert DigitValue('5') == 5 && DigitValue('1') == 1 && DigitValue('2') == 2;
    assert Magnitude("512", 0, 2, 10) == 51;
    assert IsNumeral("512") && NumeralValue("512") == 512;
    PlainNumeral("", "", "512");
    assert "" + "" + "512" == "512";
  }

  lemma {:induction false} Reads100()
    ensures XDecToIMax("100") == Ok(100)
  {
    assert DigitValue('1') == 1 && DigitValue('0') == 0;
    assert Magnitude("100", 0, 2, 10) == 10;
    assert IsNumeral("100") && NumeralValue("100") == 100;
    PlainNumeral("", "", "100");
    assert "" + "" + "100" == "100";
  }

  lemma {:induction false} ReadsMinus5()
    ensures XDecToIMax("-5") == Ok(-5)
  {
    assert DigitValue('5') == 5;
    assert Magnitude("5", 0, 0, 10) == 0;
    assert IsNumeral("5") && NumeralValue("5") == 5;
    PlainNumeral("", "-", "5");
    assert "" + "-" + "5" == "-5";
  }

  lemma {:induction false} Reads0()
    ensures XDecToIMax("0") == Ok(0)
  {
    assert DigitValue('0') == 0;
    assert Magnitude("0", 0, 0, 10) == 0;
    assert IsNumeral("0") && NumeralValue("0") == 0;
    PlainNumeral("", "", "0");
    assert "" + "" + "0" == "0";
  }
}
