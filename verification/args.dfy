/**
 * The verbosity flags of libpt-cli: the counts of `-v` and `-q` (each a `u8`) give a number
 * `value`, 2 for no flags, which selects one of the five tracing levels.
 */
module CliArgs {

  /** The tracing levels, from the most to the least severe. */
  datatype Level = Error | Warn | Info | Debug | Trace

  /** `u8` */
  newtype u8 = x: int | 0 <= x < 256

  /** `u8::saturating_sub` */
  function SaturatingSub(a: u8, b: u8): u8
  {
    if a >= b then a - b else 0
  }

  /** `u8::saturating_add` */
  function SaturatingAdd(a: u8, b: u8): u8
  {
    if a as int + b as int > 255 then 255 else a + b
  }

  function MinU8(a: u8, b: u8): u8
  {
    if a <= b then a else b
  }

  /** `level_value`: the rank of a level, 0 for ERROR up to 4 for TRACE. */
  function LevelValue(level: Level): (r: u8)
    ensures r <= 4
  {
    match level
    case Trace => 4
    case Debug => 3
    case Info => 2
    case Warn => 1
    case Error => 0
  }

  /** The `match` in `level`: 0 to 4 name a level, anything above 4 is TRACE. */
  function LevelOf(v: u8): (r: Level)
    ensures r == Trace <==> v >= 4
    ensures r == Error <==> v == 0
  {
    match v
    case 0 => Error
    case 1 => Warn
    case 2 => Info
    case 3 => Debug
    case 4 => Trace
    case _ => if v > 4 then Trace else Error
  }

  datatype VerbosityLevel = VerbosityLevel(verbose: u8, quiet: u8)
  {
    /** `changed`: whether any `-v` or `-q` was given. */
    predicate Changed()
      ensures !Changed() ==> Level() == Info
    {
      verbose != 0 || quiet != 0
    }

    /** `value`: INFO's rank, lowered by at most 10 quiets (not below 0), raised by at most 10 verboses. */
    function Value(): (r: u8)
      ensures r <= 12
      // without `-q` the value is at least INFO's, without `-v` at most INFO's
      ensures quiet == 0 ==> r >= LevelValue(Info)
      ensures verbose == 0 ==> r <= LevelValue(Info)
    {
      SaturatingAdd(SaturatingSub(LevelValue(Info), MinU8(quiet, 10)), MinU8(verbose, 10))
    }

    /** `level`: no `-q` never selects less than INFO, no `-v` never more. */
    function Level(): (r: Level)
      ensures quiet == 0 ==> LevelValue(r) >= LevelValue(Info)
      ensures verbose == 0 ==> LevelValue(r) <= LevelValue(Info)
    {
      LevelOf(Value())
    }
  }

  const TRACE := VerbosityLevel(2, 0)
  const DEBUG := VerbosityLevel(1, 0)
  const INFO := VerbosityLevel(0, 0)
  const WARN := VerbosityLevel(0, 1)
  const ERROR := VerbosityLevel(0, 2)

  /** `Default::default` */
  function Default(): (r: VerbosityLevel)
    ensures r.Level() == Info && !r.Changed()
  {
    INFO
  }

  function Max0(x: int): int
  {
    if x < 0 then 0 else x
  }

  /**
   * Neither saturating operation ever saturates at the top: the value is
   * max(0, 2 - min(quiet, 10)) + min(verbose, 10), so it lies in 0..12.
   */
  lemma ValueFormula(x: VerbosityLevel)
    ensures x.Value() as int == Max0(2 - MinU8(x.quiet, 10) as int) + MinU8(x.verbose, 10) as int
    ensures x.Value() <= 12
  {
  }

  /** `level` undoes `level_value` ... */
  lemma LevelOfValue(l: Level)
    ensures LevelOf(LevelValue(l)) == l
  {
  }

  /** ... and on values, `level_value(level(v))` is v capped at 4. */
  lemma ValueOfLevel(v: u8)
    ensures LevelValue(LevelOf(v)) == if v > 4 then 4 else v
  {
  }

  /** A higher value never selects a less verbose level. */
  lemma LevelOfMonotone(a: u8, b: u8)
    requires a <= b
    ensures LevelValue(LevelOf(a)) <= LevelValue(LevelOf(b))
  {
    ValueOfLevel(a);
    ValueOfLevel(b);
  }

  /** More `-v` never makes the output less verbose. */
  lemma VerboseMonotone(x: VerbosityLevel, more: u8)
    requires x.verbose <= more
    ensures LevelValue(x.Level()) <= LevelValue(x.(verbose := more).Level())
  {
    ValueFormula(x);
    ValueFormula(x.(verbose := more));
    LevelOfMonotone(x.Value(), x.(verbose := more).Value());
  }

  /** More `-q` never makes the output more verbose. */
  lemma QuietMonotone(x: VerbosityLevel, more: u8)
    requires x.quiet <= more
    ensures LevelValue(x.(quiet := more).Level()) <= LevelValue(x.Level())
  {
    ValueFormula(x);
    ValueFormula(x.(quiet := more));
    LevelOfMonotone(x.(quiet := more).Value(), x.Value());
  }

  /** Two or more `-q` without `-v` reach ERROR, and further ones change nothing. */
  lemma QuietSaturates(q: u8)
    requires q >= 2
    ensures VerbosityLevel(0, q).Level() == Error
  {
    ValueFormula(VerbosityLevel(0, q));
  }

  /** Two or more `-v` without `-q` give TRACE. */
  lemma VerboseSaturates(v: u8)
    requires v >= 2
    ensures VerbosityLevel(v, 0).Level() == Trace
  {
    ValueFormula(VerbosityLevel(v, 0));
  }

  /** The named constants select the levels they are named after, and the default is INFO. */
  lemma Constants()
    ensures TRACE.Level() == Trace && DEBUG.Level() == Debug && INFO.Level() == Info
    ensures WARN.Level() == Warn && ERROR.Level() == Error
    ensures Default().Level() == Info && !Default().Changed()
  {
  }

  /**
   * `changed` holds exactly when a flag was given, i.e. when the counts differ from the
   * default; its doc comment says the opposite.
   */
  lemma ChangedMeansFlagsGiven(x: VerbosityLevel)
    ensures x.Changed() <==> x != Default()
  {
  }

  /**
   * The argument parser refuses `-v` together with `-q` (`quiet` conflicts with `verbose`), so
   * at least one of the two counts is zero.
   */
  predicate Accepted(x: VerbosityLevel)
  {
    x.verbose == 0 || x.quiet == 0
  }

  /** On the flag sets the parser accepts, a change from the default always changes the level. */
  lemma ChangedIffNotInfo(x: VerbosityLevel)
    requires Accepted(x)
    ensures x.Changed() <==> x.Level() != Info
  {
    ValueFormula(x);
  }
}
