/** The command line of `truncate`: the options it reads, the checks it makes
    before touching any file, how a reference size is combined with a size
    option, and the exit status after all named files were processed. */
module Truncate {
  import opened LongInt
  import opened CStrings
  import opened Results
  import opened SizeParser

  /** The options `main` acts on, as `getopt_long` delivers them. */
  datatype Opt =
    | NoCreate              // -c, --no-create
    | IoBlocks              // -o, --io-blocks
    | Reference             // -r FILE, --reference=FILE
    | Size(arg: string)     // -s SIZE, --size=SIZE
    | Character(arg: string) // -C CODE, --character=CODE

  /** Why `main` stops before processing any file. */
  datatype UsageError =
    | BadCharCode(arg: string)
    | CharCodeRange(code: int)
    | BadSize(error: SizeError)
    | MissingSizeOrReference
    | ReferenceNeedsRelativeSize
    | BlocksWithoutSize
    | MissingFileOperand

  /** The variables of `main` the option loop sets. */
  datatype Options = Options(gotSize: bool, size: int, mode: RelMode, noCreate: bool, blockMode: bool,
                             hasRef: bool, pad: Option<bv8>)

  const Initial := Options(false, 0, Absolute, false, false, false, None)

  /** What the option loop keeps true: a size was read exactly when a mode
      other than absolute could be set; the size fits a long; only a relative
      size is negative; a rounding size is positive. */
  predicate Coherent(o: Options)
  {
    (!o.gotSize ==> o.mode == Absolute) &&
    InLong(o.size) &&
    (o.size < 0 ==> o.mode == Relative) &&
    (o.mode.IsRounding() ==> o.size > 0)
  }

  /** The `-C` argument as the source checks it (lines 482-492): `strtol` in
      base 0, the long result converted to int, rejected when the argument was
      consumed to its end, and then checked to lie in 0..255. */
  function CharCodeAsWritten(arg: string): (r: Result<int, UsageError>)
    ensures r.Ok? ==> 0 <= r.value <= 255 && At(arg, Strtol(arg, 0).end) != NUL
    ensures r.Err? && r.error.BadCharCode? <==> At(arg, Strtol(arg, 0).end) == NUL
    ensures r.Err? && r.error.CharCodeRange? <==>
              At(arg, Strtol(arg, 0).end) != NUL && !(0 <= Wrap32(Strtol(arg, 0).value) <= 255)
    ensures r.Err? && r.error.CharCodeRange? ==> r.error.code == Wrap32(Strtol(arg, 0).value)
    ensures r.Ok? ==> r.value == Wrap32(Strtol(arg, 0).value)
  {
    var conv := Strtol(arg, 0);
    var code := Wrap32(conv.value);
    if At(arg, conv.end) == NUL then Err(BadCharCode(arg))
    else if code < 0 || code > 255 then Err(CharCodeRange(code))
    else Ok(code)
  }

  /** With the check as written, a plain number is refused and the same
      number followed by junk is taken. */
  lemma CharCodeCheckInverted()
    ensures CharCodeAsWritten("65").Err?
    ensures CharCodeAsWritten("65x") == Ok(65)
  {
    assert IsNumeral("65") && NumeralValue("65") == 65 by {
      assert Magnitude("65", 0, 1, 10) == 6;
    }
    StrtolNumeral("65", "", 0);
    assert "65" + "" == "65";
    StrtolNumeral("65", "x", 0);
    assert "65" + "x" == "65x";
  }

  /** With the check as written, a string with no digits at all is taken as 0. */
  lemma CharCodeWithoutDigits()
    ensures CharCodeAsWritten("x") == Ok(0)
  {
    assert Strtol("x", 0).end == 0;
  }

  /** The `-C` argument as evidently intended: a whole-argument number in
      0..255. */
  function CharCode(arg: string): (r: Result<int, UsageError>)
    ensures r.Ok? <==> Strtol(arg, 0).end != 0 && At(arg, Strtol(arg, 0).end) == NUL &&
                       0 <= Strtol(arg, 0).value <= 255
    ensures r.Ok? ==> r.value == Strtol(arg, 0).value
  {
    var conv := Strtol(arg, 0);
    if conv.end == 0 || At(arg, conv.end) != NUL then Err(BadCharCode(arg))
    else if conv.value < 0 || conv.value > 255 then Err(CharCodeRange(conv.value))
    else Ok(conv.value)
  }

  /** A decimal numeral not starting with 0 is accepted exactly when its value
      is at most 255, and then as that value. */
  lemma {:induction false} CharCodeNumeral(ds: string)
    requires IsNumeral(ds) && ds[0] != '0'
    ensures CharCode(ds).Ok? <==> NumeralValue(ds) <= 255
    ensures NumeralValue(ds) <= 255 ==> CharCode(ds) == Ok(NumeralValue(ds))
  {
    StrtolNumeral(ds, "", 0);
    assert ds + "" == ds;
  }

  /** One option, as the `switch` in the option loop handles it (lines
      467-566); `-h` and `-v`, which exit at once, are not modelled. */
  function Apply(o: Options, opt: Opt): (r: Result<Options, UsageError>)
    ensures Coherent(o) && r.Ok? ==> Coherent(r.value)
    ensures r.Ok? && !opt.Size? ==> r.value.(noCreate := o.noCreate, blockMode := o.blockMode,
                                           hasRef := o.hasRef, pad := o.pad) == o
    ensures opt.Size? ==> (r.Ok? <==> SizeOption(o.mode, opt.arg).Ok?)
    ensures r.Ok? && opt.Size? ==> SizeOption(o.mode, opt.arg) == Ok((r.value.mode, r.value.size)) &&
                                   r.value.gotSize
    ensures r.Err? ==> opt.Size? || opt.Character?
    ensures opt.NoCreate? ==> r == Ok(o.(noCreate := true))
    ensures opt.IoBlocks? ==> r == Ok(o.(blockMode := true))
    ensures opt.Reference? ==> r == Ok(o.(hasRef := true))
    ensures opt.Character? ==> (r.Ok? <==> CharCode(opt.arg).Ok?)
    ensures opt.Character? && r.Ok? ==> r.value == o.(pad := Some(CharCode(opt.arg).value as bv8))
    ensures opt.Character? && r.Err? ==> r.error == CharCode(opt.arg).error
    ensures opt.Size? && r.Ok? ==>
              r.value == o.(gotSize := true, mode := SizeOption(o.mode, opt.arg).value.0,
                            size := SizeOption(o.mode, opt.arg).value.1)
    ensures opt.Size? && r.Err? ==> r.error == BadSize(SizeOption(o.mode, opt.arg).error)
  {
    match opt
    case NoCreate => Ok(o.(noCreate := true))
    case IoBlocks => Ok(o.(blockMode := true))
    case Reference => Ok(o.(hasRef := true))
    case Character(arg) =>
      (match CharCode(arg)
       case Err(e) => Err(e)
       case Ok(code) => Ok(o.(pad := Some(code as bv8))))
    case Size(arg) =>
      (match SizeOption(o.mode, arg)
       case Err(e) => Err(BadSize(e))
       case Ok(ms) => Ok(o.(gotSize := true, mode := ms.0, size := ms.1)))
  }

  /** The options read in order, stopping at the first one that is refused. */
  function Parsed(opts: seq<Opt>): (r: Result<Options, UsageError>)
    ensures r.Ok? ==> Coherent(r.value)
    decreases |opts|
  {
    if opts == [] then Ok(Initial)
    else
      match Parsed(opts[..|opts| - 1])
      case Err(e) => Err(e)
      case Ok(o) => Apply(o, opts[|opts| - 1])
  }

  /** The option loop of `main`. */
  method ReadOptions(opts: seq<Opt>) returns (r: Result<Options, UsageError>)
    ensures r == Parsed(opts)
    ensures r.Ok? ==> Coherent(r.value)
  {
    var o := Initial;
    var i := 0;
    while i < |opts|
      invariant 0 <= i <= |opts|
      invariant Parsed(opts[..i]) == Ok(o)
    {
      assert opts[..i + 1][..i] == opts[..i];
      var next := Apply(o, opts[i]);
      if next.Err? {
        assert Parsed(opts[..i + 1]) == next;
        ParsedStopsAtError(opts, i + 1);
        return next;
      }
      o := next.value;
      i := i + 1;
    }
    assert opts[..i] == opts;
    return Ok(o);
  }

  /** Once an option is refused, the later ones are never read. */
  lemma {:induction false} ParsedStopsAtError(opts: seq<Opt>, i: nat)
    requires i <= |opts| && Parsed(opts[..i]).Err?
    ensures Parsed(opts) == Parsed(opts[..i])
    decreases |opts| - i
  {
    if i < |opts| {
      assert opts[..i + 1][..i] == opts[..i];
      ParsedStopsAtError(opts, i + 1);
    } else {
      assert opts[..i] == opts;
    }
  }

  /** The relative mode and the size come from the last `-s`; a modifier-free
      later `-s` keeps the mode the earlier one chose. */
  lemma LastSizeWins(opts: seq<Opt>, arg: string)
    requires Parsed(opts).Ok? && SizeOption(Parsed(opts).value.mode, arg).Ok?
    ensures var r := Parsed(opts + [Size(arg)]);
            r.Ok? && (r.value.mode, r.value.size) == SizeOption(Parsed(opts).value.mode, arg).value
  {
    assert (opts + [Size(arg)])[..|opts|] == opts;
    assert Parsed(opts + [Size(arg)]) == Apply(Parsed(opts).value, Size(arg));
  }

  /** The checks of lines 571-597, in the source's order. */
  function Validate(o: Options, fileCount: nat): (r: Option<UsageError>)
    ensures r.None? <==> (o.hasRef || o.gotSize) && !(o.hasRef && o.gotSize && o.mode == Absolute) &&
                         !(o.blockMode && !o.gotSize) && fileCount >= 1
    ensures r == Some(MissingSizeOrReference) <==> !o.hasRef && !o.gotSize
    ensures r == Some(ReferenceNeedsRelativeSize) <==> o.hasRef && o.gotSize && o.mode == Absolute
    ensures r == Some(BlocksWithoutSize) <==> o.blockMode && !o.gotSize && o.hasRef
    ensures r == Some(MissingFileOperand) <==>
              fileCount == 0 && (o.hasRef || o.gotSize) && !(o.hasRef && o.gotSize && o.mode == Absolute) &&
              !(o.blockMode && !o.gotSize)
  {
    if !o.hasRef && !o.gotSize then Some(MissingSizeOrReference)
    else if o.hasRef && o.gotSize && o.mode == Absolute then Some(ReferenceNeedsRelativeSize)
    else if o.blockMode && !o.gotSize then Some(BlocksWithoutSize)
    else if fileCount < 1 then Some(MissingFileOperand)
    else None
  }

  /** What every file is processed with: `do_ftruncate`'s arguments and the
      open mode. */
  datatype Job = Job(ssize: int, rsize: int, mode: RelMode, pad: Option<bv8>, blockMode: bool, noCreate: bool)

  /** The options read, checked, and combined with the reference file's size
      (lines 599-642): without `-s` the reference size is the size, with it
      the reference size is the base (`rsize`) the relative size applies to. */
  function Plan(opts: seq<Opt>, fileCount: nat, refSize: nat): (r: Result<Job, UsageError>)
    requires refSize <= LONG_MAX
    ensures r.Ok? <==> Parsed(opts).Ok? && Validate(Parsed(opts).value, fileCount).None?
    ensures r.Ok? ==> InLong(r.value.ssize) && InLong(r.value.rsize) &&
                      (r.value.mode.IsRounding() ==> r.value.ssize > 0)
    ensures r.Ok? ==> var o := Parsed(opts).value;
                      (r.value.rsize >= 0 <==> o.hasRef && o.gotSize) &&
                      (r.value.rsize >= 0 ==> r.value.rsize == refSize && r.value.mode != Absolute) &&
                      (r.value.rsize < 0 ==> r.value.rsize == -1) &&
                      (!o.gotSize ==> r.value.ssize == refSize && r.value.mode == Absolute) &&
                      (o.gotSize ==> r.value.ssize == o.size && r.value.mode == o.mode) &&
                      r.value.pad == o.pad && r.value.blockMode == o.blockMode && r.value.noCreate == o.noCreate
  {
    match Parsed(opts)
    case Err(e) => Err(e)
    case Ok(o) =>
      match Validate(o, fileCount)
      case Some(e) => Err(e)
      case None =>
        var ssize := if o.hasRef && !o.gotSize then refSize else o.size;
        var rsize := if o.hasRef && o.gotSize then refSize else -1;
        Ok(Job(ssize, rsize, o.mode, o.pad, o.blockMode, o.noCreate))
  }

  /** `truncate -r FILE f` plans the Job that sets f to the size of FILE. */
  lemma ReferenceOnly(refSize: nat)
    requires refSize <= LONG_MAX
    ensures Plan([Reference], 1, refSize) == Ok(Job(refSize, -1, Absolute, None, false, false))
  {
    assert [Reference][..0] == [];
  }

  /** `--io-blocks` with only a reference is refused. */
  lemma BlocksNeedSize(refSize: nat)
    requires refSize <= LONG_MAX
    ensures Plan([IoBlocks, Reference], 1, refSize) == Err(BlocksWithoutSize)
  {
    assert [IoBlocks, Reference][..1] == [IoBlocks];
    assert [IoBlocks][..0] == [];
  }

  /** How processing one named file ended: `open` failed (and whether with
      ENOENT), or it was opened, `do_ftruncate` succeeded or not, and `close`
      succeeded or not. */
  datatype FileOutcome = OpenFailed(missing: bool) | Opened(truncated: bool, closed: bool)

  /** An outcome counts as an error, except a missing file under `-c`. */
  predicate Failed(o: FileOutcome, noCreate: bool)
  {
    match o
    case OpenFailed(missing) => !(noCreate && missing)
    case Opened(truncated, closed) => !truncated || !closed
  }

  /** The file loop's `errors` flag (lines 647-673) and the exit status it
      yields: 1 when any file's outcome is an error, 0 otherwise. */
  method ExitStatus(outcomes: seq<FileOutcome>, noCreate: bool) returns (status: int)
    ensures status == 0 || status == 1
    ensures status == 1 <==> exists k :: 0 <= k < |outcomes| && Failed(outcomes[k], noCreate)
  {
    var errors := false;
    for i := 0 to |outcomes|
      invariant errors <==> exists k :: 0 <= k < i && Failed(outcomes[k], noCreate)
    {
      match outcomes[i]
      case OpenFailed(missing) =>
        if !(noCreate && missing) {
          errors := true;
        }
      case Opened(truncated, closed) =>
        if !truncated {
          errors := true;
        }
        if !closed {
          errors := true;
        }
    }
    status := if errors then 1 else 0;
  }
}
