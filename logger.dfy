/**
 * The environment-aware logger: a rank table over four levels, a current
 * level chosen by the build mode, and a gate that decides for each level
 * whether its method writes to the console or does nothing. The build mode
 * (`import.meta.env.DEV`) is the parameter `dev`.
 */
module Logger {

  datatype LogLevel = Debug | Info | Warn | Error

  /** The `LOG_LEVELS` rank table. */
  function Rank(level: LogLevel): nat {
    match level
    case Debug => 0
    case Info => 1
    case Warn => 2
    case Error => 3
  }

  /** Ranks follow the declared order debug < info < warn < error. */
  lemma RanksIncrease()
    ensures Rank(Debug) < Rank(Info) < Rank(Warn) < Rank(Error)
  {
  }

  /** `currentLevel`: debug in development, error otherwise. */
  function CurrentLevel(dev: bool): LogLevel {
    if dev then Debug else Error
  }

  /**
   * `shouldLog`. In development every level reaches the current level
   * (debug, the lowest rank); otherwise the `dev &&` gate shuts all of them,
   * error included, so the production current level never decides anything.
   */
  function ShouldLog(dev: bool, level: LogLevel): (emit: bool)
    ensures emit <==> dev
  {
    dev && Rank(level) >= Rank(CurrentLevel(dev))
  }

  /** The console prefix each level writes. */
  function Tag(level: LogLevel): (tag: string)
    ensures |tag| > 2 && tag[0] == '[' && tag[|tag| - 1] == ']'
  {
    match level
    case Debug => "[DEBUG]"
    case Info => "[INFO]"
    case Warn => "[WARN]"
    case Error => "[ERROR]"
  }

  /** A logger method: the no-op, or a writer to one console channel with a prefix. */
  datatype LogFn = Noop | Emit(channel: LogLevel, tag: string)

  /** The `logger` object: one method per level. */
  datatype LoggerObject = LoggerObject(debug: LogFn, info: LogFn, warn: LogFn, error: LogFn)

  /** The method a level gets: a writer on its own channel with its own prefix exactly when it passes the gate. */
  function MethodFor(dev: bool, level: LogLevel): (f: LogFn)
    ensures f.Noop? <==> !dev
    ensures f.Emit? ==> f.channel == level && f.tag == Tag(level)
  {
    if ShouldLog(dev, level) then Emit(level, Tag(level)) else Noop
  }

  /**
   * The logger built at load time: outside development every method is the
   * no-op; in development each method writes to its own console channel
   * with its own level's prefix.
   */
  function MakeLogger(dev: bool): (l: LoggerObject)
    ensures !dev ==> l == LoggerObject(Noop, Noop, Noop, Noop)
    ensures dev ==> l.debug == Emit(Debug, "[DEBUG]") && l.info == Emit(Info, "[INFO]")
    ensures dev ==> l.warn == Emit(Warn, "[WARN]") && l.error == Emit(Error, "[ERROR]")
  {
    LoggerObject(MethodFor(dev, Debug), MethodFor(dev, Info), MethodFor(dev, Warn), MethodFor(dev, Error))
  }
}
