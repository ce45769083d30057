/** The logger of include/log.hpp: which messages are emitted and with
    which prefix. Formatting, the mutex and stderr are not modelled. */
module Log {
  import opened Wrappers

  /** `loglevel`, in declaration order. */
  datatype Level = Fatal | Warning | Info | Debug | Trace

  /** The underlying `int8_t` value of a level: its position in the
      order fatal < warning < info < debug < trace. */
  function Rank(l: Level): (r: nat)
    ensures r <= 4
    ensures l == Fatal ==> r == 0
    ensures l == Warning ==> r == 1
    ensures l == Info ==> r == 2
    ensures l == Debug ==> r == 3
    ensures l == Trace ==> r == 4
  {
    match l
    case Fatal => 0
    case Warning => 1
    case Info => 2
    case Debug => 3
    case Trace => 4
  }

  lemma RankInjective(a: Level, b: Level)
    ensures Rank(a) == Rank(b) <==> a == b
  {
  }

  /** The levels form the chain the `level <= level_` filter relies on. */
  lemma LevelsOrdered()
    ensures Rank(Fatal) < Rank(Warning) < Rank(Info) < Rank(Debug) < Rank(Trace)
  {
  }

  /** The logger state: `enable_` and `level_`. */
  datatype Logger = Logger(enabled: bool, level: Level)

  /** The private constructor: disabled, level `info`. */
  function Initial(): (r: Logger)
    ensures !r.enabled && r.level == Info
  {
    Logger(false, Info)
  }

  /** `log::enable(b)`. */
  function Enable(lg: Logger, b: bool): (r: Logger)
    ensures r.enabled == b && r.level == lg.level
  {
    lg.(enabled := b)
  }

  /** `log::level(l)`. */
  function SetLevel(lg: Logger, l: Level): (r: Logger)
    ensures r.level == l && r.enabled == lg.enabled
  {
    lg.(level := l)
  }

  /** The filter of `dump`: enabled and configured at least as verbose as
      the message. */
  predicate Emits(lg: Logger, msg: Level)
  {
    lg.enabled && Rank(lg.level) >= Rank(msg)
  }

  /** The five logging entry points. */
  datatype Call = TraceCall | DebugCall | InfoCall | WarnCall | FatalCall

  /** The level each entry point hands to `dump`. */
  function LevelOf(c: Call): Level
  {
    match c
    case TraceCall => Trace
    case DebugCall => Debug
    case InfoCall => Info
    case WarnCall => Warning
    case FatalCall => Fatal
  }

  /** Whether the entry point calls `dump` at all: all but `fatal` are
      compiled out unless the build defines `ENABLE_LOG`. */
  predicate ReachesDump(enableLog: bool, c: Call)
  {
    c == FatalCall || enableLog
  }

  /** `prefix_for`: the tag printed in brackets before a message. */
  function PrefixFor(l: Level): (r: string)
    ensures |r| == 3
  {
    match l
    case Fatal => "X_X"
    case Warning => "O_O"
    case Info => "o.o"
    case Debug => ">_<"
    case Trace => "T.T"
  }

  /** Reads the level back from its prefix. */
  function LevelOfPrefix(p: string): Option<Level>
  {
    if p == "X_X" then Some(Fatal)
    else if p == "O_O" then Some(Warning)
    else if p == "o.o" then Some(Info)
    else if p == ">_<" then Some(Debug)
    else if p == "T.T" then Some(Trace)
    else None
  }

  /** Distinct levels have distinct prefixes. */
  lemma PrefixRoundTrip(l: Level)
    ensures LevelOfPrefix(PrefixFor(l)) == Some(l)
  {
  }

  /** What one logging call prints before the message text, if anything. */
  function Emitted(lg: Logger, enableLog: bool, c: Call): (r: Option<string>)
    ensures r.Some? <==> ReachesDump(enableLog, c) && lg.enabled && Rank(lg.level) >= Rank(LevelOf(c))
    ensures r.Some? ==> LevelOfPrefix(r.value) == Some(LevelOf(c))
  {
    if ReachesDump(enableLog, c) && Emits(lg, LevelOf(c)) then Some(PrefixFor(LevelOf(c))) else None
  }

  /** A freshly constructed logger prints nothing. */
  lemma InitialIsSilent(enableLog: bool, c: Call)
    ensures Emitted(Initial(), enableLog, c) == None
  {
  }

  /** Verbosity is monotone: whatever a level lets through, every more
      verbose level lets through too. */
  lemma EmitsMonotone(lg: Logger, more: Level, msg: Level)
    requires Rank(lg.level) <= Rank(more)
    ensures Emits(lg, msg) ==> Emits(SetLevel(lg, more), msg)
  {
  }

  /** With logging enabled, `fatal` is printed at every level and by every
      build. */
  lemma FatalAlwaysEmitted(lg: Logger, enableLog: bool)
    requires lg.enabled
    ensures Emitted(lg, enableLog, FatalCall) == Some("X_X")
  {
  }
}
