/** The size computation of `do_ftruncate`: block scaling, the base size, the
    adjustment each mode makes, and the clamp at zero. Sizes and the block size
    are plain inputs here; the engine obtains them from the file. */
module ResizeCalc {
  import opened LongInt
  import opened Results
  import opened SizeParser

  datatype CalcError =
    | BlockOverflow(size: int, blockSize: int)  // "overflow in ... byte blocks"
    | SizeUnavailable                           // negative st_size, or lseek failed
    | ExtendOverflow                            // "overflow extending size"

  /** The new length, and the base size `fsize` when it was computed (it is
      computed whenever the mode is not Absolute or padding is requested). */
  datatype Target = Target(size: int, base: Option<int>)

  /** The base size: the size of the reference file when there is one
      (`rsize >= 0`), otherwise the current size, which must not be negative. */
  function BaseSize(rsize: int, cur: int): (r: Result<int, CalcError>)
    ensures r.Ok? ==> r.value >= 0 && r.value == (if rsize >= 0 then rsize else cur)
    ensures r.Err? <==> rsize < 0 && cur < 0
  {
    if 0 <= rsize then Ok(rsize)
    else if cur < 0 then Err(SizeUnavailable)
    else Ok(cur)
  }

  /** In block mode the size counts blocks: it is multiplied by the block size,
      and a product outside `off_t` is an error. */
  function BlockScaled(ssize: int, blockMode: bool, blksize: int): (r: Result<int, CalcError>)
    requires InLong(ssize) && blksize > 0
    ensures r.Ok? ==> InLong(r.value)
    ensures r.Ok? ==> r.value == if blockMode then ssize * blksize else ssize
    ensures r.Err? <==> blockMode && !InLong(ssize * blksize)
    ensures r.Ok? && ssize > 0 ==> r.value > 0
  {
    if !blockMode then Ok(ssize)
    else
      PositiveProduct(ssize, blksize);
      if InLong(ssize * blksize) then Ok(ssize * blksize) else Err(BlockOverflow(ssize, blksize))
  }

  lemma PositiveProduct(a: int, b: int)
    requires b > 0
    ensures a > 0 ==> a * b > 0
  {
  }

  /** The adjustment of a relative mode to the base size `fsize`. */
  function Adjust(mode: RelMode, fsize: int, ssize: int): (r: Result<int, CalcError>)
    requires mode != Absolute
    requires 0 <= fsize <= LONG_MAX && InLong(ssize)
    requires mode.IsRounding() ==> ssize > 0
    ensures r.Ok? ==> InLong(r.value)
    ensures r.Err? ==> r.error == ExtendOverflow && (mode.Relative? || mode.RoundUp?)
  {
    if mode == AtLeast then Ok(if fsize > ssize then fsize else ssize)
    else if mode == AtMost then Ok(if fsize < ssize then fsize else ssize)
    else if mode == RoundDown then Ok(fsize - CRem(fsize, ssize))
    else
      // Relative adds ssize; RoundUp adds the distance to the next multiple of ssize
      var delta := if mode == RoundUp then (var r := CRem(fsize, ssize); if r == 0 then 0 else ssize - r)
                   else ssize;
      if InLong(fsize + delta) then Ok(fsize + delta) else Err(ExtendOverflow)
  }

  /** Negative results become 0. */
  function Clamp(n: int): (r: int)
    ensures r == Max(0, n)
  {
    if n < 0 then 0 else n
  }

  /** The target length of one file (lines 109-192), with the absolute size used
      as the target also when padding is requested. */
  function Resolve(ssize: int, rsize: int, mode: RelMode, padding: bool, blockMode: bool,
                   cur: int, blksize: int): (r: Result<Target, CalcError>)
    requires InLong(ssize) && InLong(rsize) && InLong(cur) && 0 < blksize <= LONG_MAX
    requires mode.IsRounding() ==> ssize > 0
    ensures r.Ok? ==> 0 <= r.value.size <= LONG_MAX
    ensures r.Ok? && (mode != Absolute || padding) ==>
              BaseSize(rsize, cur).Ok? && r.value.base == Some(BaseSize(rsize, cur).value)
    ensures r.Ok? && mode == Absolute && !padding ==> r.value.base == None
    ensures r.Ok? && mode == Absolute ==>
              BlockScaled(ssize, blockMode, blksize).Ok? && r.value.size == Clamp(BlockScaled(ssize, blockMode, blksize).value)
    ensures blockMode && !InLong(ssize * blksize) ==> r == Err(BlockOverflow(ssize, blksize))
  {
    match BlockScaled(ssize, blockMode, blksize)
    case Err(e) => Err(e)
    case Ok(s) =>
      if mode != Absolute || padding then
        match BaseSize(rsize, cur)
        case Err(e) => Err(e)
        case Ok(fsize) =>
          if mode == Absolute then Ok(Target(Clamp(s), Some(fsize)))
          else
            match Adjust(mode, fsize, s)
            case Err(e) => Err(e)
            case Ok(n) => Ok(Target(Clamp(n), Some(fsize)))
      else Ok(Target(Clamp(s), None))
  }

  /** Lines 109-192 as written: with an absolute size and padding the branch at
      126 is taken but no mode assigns `nsize`, so the target is indeterminate
      (None here). */
  function ResolveAsWritten(ssize: int, rsize: int, mode: RelMode, padding: bool, blockMode: bool,
                            cur: int, blksize: int): (r: Option<Result<Target, CalcError>>)
    requires InLong(ssize) && InLong(rsize) && InLong(cur) && 0 < blksize <= LONG_MAX
    requires mode.IsRounding() ==> ssize > 0
    ensures r.None? <==> mode == Absolute && padding && BlockScaled(ssize, blockMode, blksize).Ok? &&
                         BaseSize(rsize, cur).Ok?
    ensures r.Some? ==> r.value == Resolve(ssize, rsize, mode, padding, blockMode, cur, blksize)
  {
    match BlockScaled(ssize, blockMode, blksize)
    case Err(e) => Some(Err(e))
    case Ok(s) =>
      if mode != Absolute || padding then
        match BaseSize(rsize, cur)
        case Err(e) => Some(Err(e))
        case Ok(fsize) =>
          if mode == Absolute then None
          else
            match Adjust(mode, fsize, s)
            case Err(e) => Some(Err(e))
            case Ok(n) => Some(Ok(Target(Clamp(n), Some(fsize))))
      else Some(Ok(Target(Clamp(s), None)))
  }

  /** `-s 100 -C ...` on an empty file: the code leaves the target undefined,
      where 100 bytes were meant. */
  lemma AbsolutePaddingUnassigned()
    ensures ResolveAsWritten(100, -1, Absolute, true, false, 0, 4096).None?
    ensures Resolve(100, -1, Absolute, true, false, 0, 4096) == Ok(Target(100, Some(0)))
  {
  }

  /** With an absolute size the target is that size (clamped) whatever the
      reference, padding or not: the repaired behaviour. */
  lemma {:induction false} AbsoluteRule(ssize: int, rsize: int, padding: bool, cur: int, blksize: int)
    requires InLong(ssize) && InLong(rsize) && InLong(cur) && 0 < blksize <= LONG_MAX
    requires !padding || rsize >= 0 || cur >= 0
    ensures Resolve(ssize, rsize, Absolute, padding, false, cur, blksize).Ok?
    ensures Resolve(ssize, rsize, Absolute, padding, false, cur, blksize).value.size == Clamp(ssize)
  {
  }

  /** Block mode is the same computation on ssize * blksize, or an overflow error. */
  lemma {:induction false} BlockModeRule(ssize: int, rsize: int, mode: RelMode, padding: bool,
                                         cur: int, blksize: int)
    requires InLong(ssize) && InLong(rsize) && InLong(cur) && 0 < blksize <= LONG_MAX
    requires mode.IsRounding() ==> ssize > 0
    ensures InLong(ssize * blksize) && mode.IsRounding() ==> ssize * blksize > 0
    ensures Resolve(ssize, rsize, mode, padding, true, cur, blksize) ==
              if !InLong(ssize * blksize) then Err(BlockOverflow(ssize, blksize))
              else Resolve(ssize * blksize, rsize, mode, padding, false, cur, blksize)
  {
    PositiveProduct(ssize, blksize);
  }

  /** AtLeast (`>`) gives max(base, s). */
  lemma {:induction false} AtLeastRule(s: int, rsize: int, padding: bool, cur: int, blksize: int)
    requires InLong(s) && InLong(rsize) && InLong(cur) && 0 < blksize <= LONG_MAX
    requires rsize >= 0 || cur >= 0
    ensures var b := BaseSize(rsize, cur).value;
            Resolve(s, rsize, AtLeast, padding, false, cur, blksize) == Ok(Target(Max(b, s), Some(b)))
  {
  }

  /** AtMost (`<`) gives min(base, s), clamped at 0. */
  lemma {:induction false} AtMostRule(s: int, rsize: int, padding: bool, cur: int, blksize: int)
    requires InLong(s) && InLong(rsize) && InLong(cur) && 0 < blksize <= LONG_MAX
    requires rsize >= 0 || cur >= 0
    ensures var b := BaseSize(rsize, cur).value;
            Resolve(s, rsize, AtMost, padding, false, cur, blksize) == Ok(Target(Clamp(Min(b, s)), Some(b)))
  {
  }

  /** AtLeast never goes below a larger base's result, and AtMost never exceeds
      its bound or a larger base's result. */
  lemma {:induction false} AtLeastAtMostMonotone(s: int, b1: int, b2: int, blksize: int)
    requires InLong(s) && 0 <= b1 <= b2 <= LONG_MAX && 0 < blksize <= LONG_MAX
    ensures Resolve(s, b1, AtLeast, false, false, 0, blksize).value.size
              <= Resolve(s, b2, AtLeast, false, false, 0, blksize).value.size
    ensures Resolve(s, b1, AtMost, false, false, 0, blksize).value.size
              <= Resolve(s, b2, AtMost, false, false, 0, blksize).value.size
    ensures s >= 0 ==> Resolve(s, b2, AtMost, false, false, 0, blksize).value.size <= s
    ensures Resolve(s, b1, AtLeast, false, false, 0, blksize).value.size >= s
  {
    AtLeastRule(s, b1, false, 0, blksize);
    AtLeastRule(s, b2, false, 0, blksize);
    AtMostRule(s, b1, false, 0, blksize);
    AtMostRule(s, b2, false, 0, blksize);
  }

  /** The largest multiple of s not above b: an independent statement of round-down. */
  function FloorMultiple(b: int, s: int): int
    requires s > 0
  {
    (b / s) * s
  }

  /** The smallest multiple of s not below b. */
  function CeilMultiple(b: int, s: int): int
    requires s > 0
  {
    ((b + s - 1) / s) * s
  }

  lemma {:induction false} FloorMultipleIsFloor(b: int, s: int)
    requires s > 0
    ensures FloorMultiple(b, s) % s == 0
    ensures FloorMultiple(b, s) <= b < FloorMultiple(b, s) + s
  {
    MultipleMod(b / s, s);
  }

  lemma {:induction false} CeilMultipleIsCeil(b: int, s: int)
    requires s > 0
    ensures CeilMultiple(b, s) % s == 0
    ensures b <= CeilMultiple(b, s) < b + s
    ensures b % s == 0 ==> CeilMultiple(b, s) == b
  {
    MultipleMod((b + s - 1) / s, s);
    var q := (b + s - 1) / s;
    assert b + s - 1 == q * s + (b + s - 1) % s;
    if b % s == 0 {
      assert b == (b / s) * s;
      DivOfShifted(b / s, s);
    }
  }

  lemma MultipleMod(q: int, s: int)
    requires s > 0
    ensures (q * s) % s == 0
  {
    var m := q * s;
    assert m == s * q + 0;
    DivModUnique(m, s, q, 0);
  }

  lemma DivModUnique(m: int, s: int, q: int, r: int)
    requires s > 0 && 0 <= r < s && m == q * s + r
    ensures m / s == q && m % s == r
  {
    var q', r' := m / s, m % s;
    assert m == q' * s + r';
    assert (q' - q) * s == r - r' by {
      assert (q' - q) * s == q' * s - q * s;
    }
    if q' > q {
      MultipleAtLeast(q' - q, s);
    } else if q' < q {
      MultipleAtLeast(q - q', s);
    }
  }

  lemma MultipleAtLeast(k: int, s: int)
    requires k >= 1 && s > 0
    ensures k * s >= s
  {
  }

  lemma DivOfShifted(q: int, s: int)
    requires s > 0
    ensures (q * s + s - 1) / s == q
  {
    DivModUnique(q * s + s - 1, s, q, s - 1);
  }

  /** For a non-negative dividend C's `%` and `/` agree with Dafny's. */
  lemma CRemOfNatural(b: int, s: int)
    requires b >= 0 && s > 0
    ensures CRem(b, s) == b % s && b - CRem(b, s) == FloorMultiple(b, s)
  {
    var r := CRem(b, s);
    var q := CQuot(b, s);
    assert b == q * s + r;
    DivModUnique(b, s, q, r);
  }

  /** A mode other than Absolute, without block mode, adjusts the base size
      and clamps the result. */
  lemma ResolveRelative(s: int, rsize: int, mode: RelMode, padding: bool, cur: int, blksize: int)
    requires InLong(s) && InLong(rsize) && InLong(cur) && 0 < blksize <= LONG_MAX
    requires mode != Absolute && (mode.IsRounding() ==> s > 0) && (rsize >= 0 || cur >= 0)
    ensures var b := BaseSize(rsize, cur).value;
            0 <= b <= LONG_MAX &&
            Resolve(s, rsize, mode, padding, false, cur, blksize) ==
              match Adjust(mode, b, s)
              case Err(e) => Err(e)
              case Ok(n) => Ok(Target(Clamp(n), Some(b)))
  {
  }

  /** Round-down of a non-negative base is its floor multiple. */
  lemma AdjustRoundDown(b: int, s: int)
    requires 0 <= b <= LONG_MAX && 0 < s <= LONG_MAX
    ensures Adjust(RoundDown, b, s) == Ok(FloorMultiple(b, s)) && FloorMultiple(b, s) >= 0
  {
    CRemOfNatural(b, s);
    ModAtMost(b, s);
  }

  lemma ModAtMost(b: int, s: int)
    requires b >= 0 && s > 0
    ensures b % s <= b
  {
    if b < s {
      DivModUnique(b, s, 0, b);
    }
  }

  /** RoundDown (`/`) gives the largest multiple of s that is not above the base. */
  lemma {:induction false} RoundDownRule(s: int, rsize: int, padding: bool, cur: int, blksize: int)
    requires 0 < s <= LONG_MAX && InLong(rsize) && InLong(cur) && 0 < blksize <= LONG_MAX
    requires rsize >= 0 || cur >= 0
    ensures var b := BaseSize(rsize, cur).value;
            Resolve(s, rsize, RoundDown, padding, false, cur, blksize) == Ok(Target(FloorMultiple(b, s), Some(b)))
  {
    ResolveRelative(s, rsize, RoundDown, padding, cur, blksize);
    AdjustRoundDown(BaseSize(rsize, cur).value, s);
  }

  /** Round-up of a non-negative base is its ceiling multiple, or an overflow
      error when that is beyond LONG_MAX. */
  lemma AdjustRoundUp(b: int, s: int)
    requires 0 <= b <= LONG_MAX && 0 < s <= LONG_MAX
    ensures CeilMultiple(b, s) >= 0
    ensures Adjust(RoundUp, b, s) ==
              if CeilMultiple(b, s) <= LONG_MAX then Ok(CeilMultiple(b, s)) else Err(ExtendOverflow)
  {
    CRemOfNatural(b, s);
    var r := b % s;
    var q := b / s;
    assert b == q * s + r;
    if r == 0 {
      DivOfShifted(q, s);
      assert CeilMultiple(b, s) == b;
    } else {
      assert b + s - 1 == (q + 1) * s + (r - 1);
      DivModUnique(b + s - 1, s, q + 1, r - 1);
      assert CeilMultiple(b, s) == (q + 1) * s;
      assert (q + 1) * s == q * s + s;
    }
  }

  /** RoundUp (`%`) gives the smallest multiple of s that is not below the base,
      or an overflow error when that multiple is beyond LONG_MAX. */
  lemma {:induction false} RoundUpRule(s: int, rsize: int, padding: bool, cur: int, blksize: int)
    requires 0 < s <= LONG_MAX && InLong(rsize) && InLong(cur) && 0 < blksize <= LONG_MAX
    requires rsize >= 0 || cur >= 0
    ensures var b := BaseSize(rsize, cur).value;
            Resolve(s, rsize, RoundUp, padding, false, cur, blksize) ==
              if CeilMultiple(b, s) <= LONG_MAX then Ok(Target(CeilMultiple(b, s), Some(b)))
              else Err(ExtendOverflow)
  {
    ResolveRelative(s, rsize, RoundUp, padding, cur, blksize);
    AdjustRoundUp(BaseSize(rsize, cur).value, s);
  }

  /** Rounding an aligned base changes nothing. */
  lemma {:induction false} RoundingAligned(s: int, b: int, cur: int, blksize: int)
    requires 0 < s <= LONG_MAX && 0 <= b <= LONG_MAX && b % s == 0
    requires InLong(cur) && 0 < blksize <= LONG_MAX
    ensures Resolve(s, b, RoundDown, false, false, cur, blksize) == Ok(Target(b, Some(b)))
    ensures Resolve(s, b, RoundUp, false, false, cur, blksize) == Ok(Target(b, Some(b)))
  {
    RoundDownRule(s, b, false, cur, blksize);
    RoundUpRule(s, b, false, cur, blksize);
    CeilMultipleIsCeil(b, s);
    assert b == (b / s) * s + b % s;
  }

  /** Rounding is idempotent: rounding the result again, from it as the base, gives it back. */
  lemma {:induction false} RoundingIdempotent(s: int, mode: RelMode, rsize: int, cur: int, blksize: int)
    requires mode.IsRounding()
    requires 0 < s <= LONG_MAX && InLong(rsize) && InLong(cur) && 0 < blksize <= LONG_MAX
    requires Resolve(s, rsize, mode, false, false, cur, blksize).Ok?
    ensures var n := Resolve(s, rsize, mode, false, false, cur, blksize).value.size;
            Resolve(s, n, mode, false, false, cur, blksize) == Ok(Target(n, Some(n)))
  {
    var n := Resolve(s, rsize, mode, false, false, cur, blksize).value.size;
    assert 0 <= n <= LONG_MAX;
    var b := BaseSize(rsize, cur).value;
    if mode == RoundDown {
      RoundDownRule(s, rsize, false, cur, blksize);
      FloorMultipleIsFloor(b, s);
      assert n == FloorMultiple(b, s);
    } else {
      RoundUpRule(s, rsize, false, cur, blksize);
      CeilMultipleIsCeil(b, s);
      assert n == CeilMultiple(b, s);
    }
    RoundingAligned(s, n, cur, blksize);
  }

  /** Relative (`+`/`-`) adds s to the base, with an error when the sum passes
      LONG_MAX and 0 when it is negative. */
  lemma {:induction false} RelativeRule(s: int, rsize: int, padding: bool, cur: int, blksize: int)
    requires InLong(s) && InLong(rsize) && InLong(cur) && 0 < blksize <= LONG_MAX
    requires rsize >= 0 || cur >= 0
    ensures var b := BaseSize(rsize, cur).value;
            Resolve(s, rsize, Relative, padding, false, cur, blksize) ==
              if b + s > LONG_MAX then Err(ExtendOverflow) else Ok(Target(Clamp(b + s), Some(b)))
  {
  }

  /** Extending by d and then reducing by d returns to the base, when the
      intermediate size is neither clamped nor overflowed. */
  lemma {:induction false} RelativeRoundTrip(d: int, b: int, blksize: int)
    requires InLong(d) && InLong(-d) && 0 <= b <= LONG_MAX && 0 <= b + d <= LONG_MAX
    requires 0 < blksize <= LONG_MAX
    ensures Resolve(d, b, Relative, false, false, 0, blksize) == Ok(Target(b + d, Some(b)))
    ensures Resolve(-d, b + d, Relative, false, false, 0, blksize) == Ok(Target(b, Some(b + d)))
  {
    RelativeRule(d, b, false, 0, blksize);
    RelativeRule(-d, b + d, false, 0, blksize);
  }

  /** Four worked targets: "<500" on 1000 bytes gives 500, "%512"
      on 1000 bytes gives 1024, two blocks of 4096 give 8192, and "100" on an
      empty file gives 100. */
  lemma Examples()
    ensures Resolve(500, -1, AtMost, false, false, 1000, 4096) == Ok(Target(500, Some(1000)))
    ensures Resolve(512, -1, RoundUp, false, false, 1000, 4096) == Ok(Target(1024, Some(1000)))
    ensures Resolve(2, -1, Absolute, false, true, 0, 4096) == Ok(Target(8192, None))
    ensures Resolve(100, -1, Absolute, false, false, 0, 4096) == Ok(Target(100, None))
  {
  }
}
