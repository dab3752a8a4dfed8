/** The level-threshold logger of `cxxtools/log/cxxtools.h`: a `Logger` has
    a category and a level and lets a message through when its level is at
    least the message's; the logging macros emit only through an existing,
    enabled logger, looked up once per source file by `log_define`. */
module CxxLog {

  /** `Logger::log_level_type`. */
  datatype Level = FATAL | ERROR | WARN | INFO | DEBUG | TRACE
  {
    /** The enumerator's numeric value. */
    function Value(): int
    {
      match this
      case FATAL => 0
      case ERROR => 100
      case WARN => 200
      case INFO => 300
      case DEBUG => 400
      case TRACE => 500
    }

    /** `#level`: the enumerator's name, passed to `LogMessage`. */
    function Name(): string
    {
      match this
      case FATAL => "FATAL"
      case ERROR => "ERROR"
      case WARN => "WARN"
      case INFO => "INFO"
      case DEBUG => "DEBUG"
      case TRACE => "TRACE"
    }
  }

  /** The levels a logger set to `level` lets through, listed by hand: each
      level adds one more to those of the level below it. */
  function LevelsUpTo(level: Level): set<Level>
  {
    match level
    case FATAL => {FATAL}
    case ERROR => {FATAL, ERROR}
    case WARN => {FATAL, ERROR, WARN}
    case INFO => {FATAL, ERROR, WARN, INFO}
    case DEBUG => {FATAL, ERROR, WARN, INFO, DEBUG}
    case TRACE => {FATAL, ERROR, WARN, INFO, DEBUG, TRACE}
  }

  class Logger {
    const category: string
    var level: Level

    /** `Logger(c, l)`. */
    constructor (c: string, l: Level)
      ensures GetCategory() == c && GetLogLevel() == l
    {
      category := c;
      level := l;
    }

    /** `Logger::isEnabled(l)`: `level >= l` on the enumerator values. */
    function IsEnabled(l: Level): (r: bool)
      reads this
      ensures r <==> l in LevelsUpTo(level)
    {
      level.Value() >= l.Value()
    }

    /** `Logger::getCategory`: the category given at construction; it never
        changes. */
    function GetCategory(): (c: string)
      ensures c == category
    {
      category
    }

    /** `Logger::getLogLevel`: the level reported is the threshold of
        `isEnabled`, which lets through exactly the levels up to it. */
    function GetLogLevel(): (l: Level)
      reads this
      ensures IsEnabled(l)
      ensures forall k: Level :: IsEnabled(k) <==> k in LevelsUpTo(l)
    {
      level
    }

    /** `Logger::setLogLevel`: only the level changes (the category is
        fixed at construction). */
    method SetLogLevel(l: Level)
      modifies this`level
      ensures GetLogLevel() == l
    {
      level := l;
    }
  }

  /** Enablement is monotone: a logger that lets level `l` through lets
      every lower level through. */
  lemma EnabledIsMonotone(logger: Logger, l: Level, k: Level)
    requires logger.IsEnabled(l) && k.Value() <= l.Value()
    ensures logger.IsEnabled(k)
  {
  }

  /** FATAL, the lowest level, is let through by every logger. */
  lemma FatalAlwaysEnabled(logger: Logger)
    ensures logger.IsEnabled(FATAL)
    ensures forall l: Level :: FATAL in LevelsUpTo(l)
  {
  }

  /** `_cxxtools_log_enabled(level)`: a logger exists and is enabled. */
  function LogEnabled(logger: Logger?, level: Level): (r: bool)
    reads logger
    ensures r <==> logger != null && level in LevelsUpTo(logger.level)
  {
    logger != null && logger.IsEnabled(level)
  }

  /** A finished `LogMessage`: the logger's category, the level's name and
      the text streamed into it. */
  datatype Record = Record(category: string, level: string, text: string)

  /** Where finished messages go (the `LogMessage` implementation is not
      part of this model). */
  class LogSink {
    var records: seq<Record>

    constructor ()
      ensures records == []
    {
      records := [];
    }
  }

  /** `_cxxtools_log(level, expr)` with the logger `getLogger()` returned:
      exactly one message when the logger exists and is enabled, none
      otherwise, and `expr` evaluated only when a message is made. */
  method Log(sink: LogSink, logger: Logger?, level: Level, expr: () -> string)
    returns (ghost evaluated: bool)
    modifies sink
    ensures evaluated <==> LogEnabled(logger, level)
    ensures sink.records == old(sink.records)
              + (if LogEnabled(logger, level) then [Record(logger.category, level.Name(), expr())] else [])
  {
    evaluated := false;
    var l := logger;
    if l != null && l.IsEnabled(level) {
      var text := expr();
      evaluated := true;
      sink.records := sink.records + [Record(l.category, level.Name(), text)];
    }
  }

  /** `_cxxtools_log_if(level, cond, expr)`: as `Log`, and `cond` must
      hold too; `cond` is evaluated only after the logger was found and
      enabled. */
  method LogIf(sink: LogSink, logger: Logger?, level: Level, cond: () -> bool, expr: () -> string)
    returns (ghost condEvaluated: bool, ghost evaluated: bool)
    modifies sink
    ensures condEvaluated <==> LogEnabled(logger, level)
    ensures evaluated <==> LogEnabled(logger, level) && cond()
    ensures sink.records == old(sink.records)
              + (if LogEnabled(logger, level) && cond()
                 then [Record(logger.category, level.Name(), expr())] else [])
  {
    condEvaluated, evaluated := false, false;
    var l := logger;
    if l != null && l.IsEnabled(level) {
      condEvaluated := true;
      if cond() {
        var text := expr();
        evaluated := true;
        sink.records := sink.records + [Record(l.category, level.Name(), text)];
      }
    }
  }

  /** The `getLogger()` that `log_define(category)` defines, with its
      function-local static `logger`. */
  class LogSite {
    const category: string
    /** The cached logger (the static, initially null). */
    var logger: Logger?
    /** The categories asked of `LogManager::getLogger`, oldest first. */
    ghost var lookups: seq<string>

    constructor (category: string)
      ensures this.category == category && logger == null && lookups == []
    {
      this.category := category;
      logger := null;
      lookups := [];
    }

    /** `getLogger()` while `LogManager::isEnabled()` is `managerEnabled`,
        where `LogManager::getLogger(category)` would answer `found`:
        null while logging is disabled; otherwise the cached logger, looked
        up only while none is cached. */
    method GetLogger(managerEnabled: bool, found: Logger?) returns (r: Logger?)
      modifies this`logger, this`lookups
      ensures !managerEnabled ==> r == null && logger == old(logger) && lookups == old(lookups)
      ensures managerEnabled && old(logger) != null ==>
                r == old(logger) && logger == old(logger) && lookups == old(lookups)
      ensures managerEnabled && old(logger) == null ==>
                r == found && logger == found && lookups == old(lookups) + [category]
    {
      if !managerEnabled {
        return null;
      }
      if logger == null {
        lookups := lookups + [category];
        logger := found;
      }
      r := logger;
    }
  }

  /** `log_define`'s cache: once a lookup found a logger, later calls
      return that same logger without another lookup, whatever the manager
      would now answer. */
  method LookupHappensOnce(site: LogSite, first: Logger, later: Logger?) returns (a: Logger?, b: Logger?)
    requires site.logger == null
    modifies site`logger, site`lookups
    ensures a == first && b == first
    ensures site.lookups == old(site.lookups) + [site.category]
  {
    a := site.GetLogger(true, first);
    b := site.GetLogger(true, later);
  }
}
