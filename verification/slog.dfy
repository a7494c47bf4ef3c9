/**
  The emission path of `slog::Logger`: the process-wide threshold, the
  text written so far, `setLevel`, the filtering `log`, and the five entry
  points that fix each level's tag and colour. Holding the mutex while a
  line is written makes one emitted call one uninterrupted write, which is
  how the output is modelled: a sequence with one element per emitted call,
  oldest first. Each element ends with the newline of `std::endl` and is a
  single line when none of its pieces holds a newline
  (`Format.ComposedLineIsOneLine`). A write cut short by an exception from
  an argument's `operator<<` or from the stream leaves a partial line on
  the console; that case is not modelled.
 */
module Slog {

  import opened Options
  import opened Decimal
  import Levels
  import Format

  datatype Logger = Logger(threshold: Levels.Level, output: seq<string>)

  /** The state at program start: nothing written, and every level but TRACE passes. */
  function Initial(): (s: Logger)
    ensures s.output == []
    ensures forall l: Levels.Level :: l in Levels.AtOrAbove(s.threshold) <==> l != Levels.Trace
  {
    Logger(Levels.DefaultThreshold(), [])
  }

  /** `setLevel`: overwrites the threshold and writes nothing. */
  function SetLevel(s: Logger, newLevel: Levels.Level): (s': Logger)
    ensures s'.threshold == newLevel
    ensures s'.output == s.output
  {
    s.(threshold := newLevel)
  }

  /**
    `log`: returns early when the threshold is greater than the call's
    level; otherwise appends the one line composed from the colour and tag
    the entry point passed.
   */
  function Log(s: Logger, message: string, level: Levels.Level, file: string, line: int32,
               colour: string, tag: string, args: seq<string>): (s': Logger)
    ensures s'.threshold == s.threshold
    ensures s.output <= s'.output
    ensures |s'.output| == |s.output| + (if level in Levels.AtOrAbove(s.threshold) then 1 else 0)
    ensures |s'.output| > |s.output| ==>
              s'.output[|s.output|] == Format.Compose(colour, tag, message, args, file, line)
  {
    if Levels.Greater(s.threshold, level) then s
    else s.(output := s.output + [Format.Compose(colour, tag, message, args, file, line)])
  }

  /** `trace`: written only while the threshold is TRACE. */
  function Trace(s: Logger, message: string, file: string, line: int32, args: seq<string>): (s': Logger)
    ensures s'.threshold == s.threshold
    ensures s'.output == if s.threshold == Levels.Trace
                         then s.output + [Format.Compose(Format.Gray, "TRC", message, args, file, line)]
                         else s.output
  {
    Log(s, message, Levels.Trace, file, line, Format.Gray, "TRC", args)
  }

  /** `debug`: written while the threshold is TRACE or DEBUG. */
  function Debug(s: Logger, message: string, file: string, line: int32, args: seq<string>): (s': Logger)
    ensures s'.threshold == s.threshold
    ensures s'.output == if s.threshold in {Levels.Trace, Levels.Debug}
                         then s.output + [Format.Compose(Format.Blue, "DBG", message, args, file, line)]
                         else s.output
  {
    Log(s, message, Levels.Debug, file, line, Format.Blue, "DBG", args)
  }

  /** `info`: suppressed only by the thresholds WARNING and ERROR. */
  function Info(s: Logger, message: string, file: string, line: int32, args: seq<string>): (s': Logger)
    ensures s'.threshold == s.threshold
    ensures s'.output == if s.threshold in {Levels.Warning, Levels.Error}
                         then s.output
                         else s.output + [Format.Compose(Format.Green, "NFO", message, args, file, line)]
  {
    Log(s, message, Levels.Info, file, line, Format.Green, "NFO", args)
  }

  /** `warning`: suppressed only by the threshold ERROR. */
  function Warning(s: Logger, message: string, file: string, line: int32, args: seq<string>): (s': Logger)
    ensures s'.threshold == s.threshold
    ensures s'.output == if s.threshold == Levels.Error
                         then s.output
                         else s.output + [Format.Compose(Format.Yellow, "WRN", message, args, file, line)]
  {
    Log(s, message, Levels.Warning, file, line, Format.Yellow, "WRN", args)
  }

  /** `error`: always written, whatever the threshold. */
  function Error(s: Logger, message: string, file: string, line: int32, args: seq<string>): (s': Logger)
    ensures s'.threshold == s.threshold
    ensures s'.output == s.output + [Format.Compose(Format.Red, "ERR", message, args, file, line)]
  {
    Log(s, message, Levels.Error, file, line, Format.Red, "ERR", args)
  }

  /** The entry point for `level`. */
  function Emit(s: Logger, level: Levels.Level, message: string, file: string, line: int32,
                args: seq<string>): (s': Logger)
    ensures s'.threshold == s.threshold
    ensures level in Levels.AtOrAbove(s.threshold) ==>
              s'.output == s.output + [Format.Compose(Format.ColourOf(level), Format.TagOf(level),
                                                      message, args, file, line)]
    ensures level !in Levels.AtOrAbove(s.threshold) ==> s'.output == s.output
  {
    match level
    case Trace => Trace(s, message, file, line, args)
    case Debug => Debug(s, message, file, line, args)
    case Info => Info(s, message, file, line, args)
    case Warning => Warning(s, message, file, line, args)
    case Error => Error(s, message, file, line, args)
  }

  /** Setting the same threshold twice is the same as setting it once. */
  lemma SetLevelIdempotent(s: Logger, l: Levels.Level)
    ensures SetLevel(SetLevel(s, l), l) == SetLevel(s, l)
  {
  }

  /** Of two consecutive `setLevel` calls, the later one decides. */
  lemma SetLevelLastWins(s: Logger, a: Levels.Level, b: Levels.Level)
    ensures SetLevel(SetLevel(s, a), b) == SetLevel(s, b)
  {
  }

  /**
    A call at exactly the threshold is written; a call one level below it is
    not, and leaves the logger as it was.
   */
  lemma Boundary(s: Logger, message: string, file: string, line: int32, args: seq<string>)
    ensures |Emit(s, s.threshold, message, file, line, args).output| == |s.output| + 1
    ensures s.threshold != Levels.Trace ==>
              Emit(s, Levels.OneBelow(s.threshold), message, file, line, args) == s
  {
  }

  /**
    The line an entry point writes names its level and reads back as the
    message with its arguments, the file and the line number, provided the
    file name holds no space.
   */
  lemma EmittedLineReadsBack(s: Logger, level: Levels.Level, message: string, file: string,
                             line: int32, args: seq<string>)
    requires ' ' !in file
    requires level in Levels.AtOrAbove(s.threshold)
    ensures var out := Emit(s, level, message, file, line, args).output;
      Format.ParseLine(out[|out| - 1])
      == Some(Format.Record(level, message + Format.ArgsText(args), file, line as int))
  {
    Format.ParseComposedLine(level, message, args, file, line);
  }

  /** One call made on the logger, as the program would make it. */
  datatype Call =
    | SetLevelCall(newLevel: Levels.Level)
    | LogCall(level: Levels.Level, message: string, file: string, line: int32, args: seq<string>)

  function Step(s: Logger, c: Call): (s': Logger)
  {
    match c
    case SetLevelCall(l) => SetLevel(s, l)
    case LogCall(level, message, file, line, args) => Emit(s, level, message, file, line, args)
  }

  /** The calls made one after another, each seeing the state the previous one left. */
  function Run(s: Logger, calls: seq<Call>): (s': Logger)
    decreases |calls|
  {
    if calls == [] then s else Run(Step(s, calls[0]), calls[1..])
  }

  /** The threshold after `calls`: the last one they set, or `t` if they set none. */
  function FinalThreshold(t: Levels.Level, calls: seq<Call>): (t': Levels.Level)
    decreases |calls|
  {
    if calls == [] then t
    else if calls[|calls| - 1].SetLevelCall? then calls[|calls| - 1].newLevel
    else FinalThreshold(t, calls[..|calls| - 1])
  }

  /**
    The lines `calls` write, starting from threshold `t`: the composed line
    of every log call whose level is at or above the threshold in force when
    it is made, in call order.
   */
  function EmittedLines(t: Levels.Level, calls: seq<Call>): (lines: seq<string>)
    decreases |calls|
  {
    if calls == [] then []
    else
      var before := calls[..|calls| - 1];
      var c := calls[|calls| - 1];
      var t' := FinalThreshold(t, before);
      if c.LogCall? && c.level in Levels.AtOrAbove(t') then
        EmittedLines(t, before)
        + [Format.Compose(Format.ColourOf(c.level), Format.TagOf(c.level), c.message, c.args, c.file, c.line)]
      else EmittedLines(t, before)
  }

  lemma {:induction false} RunSplitLast(s: Logger, calls: seq<Call>)
    requires calls != []
    ensures Run(s, calls) == Step(Run(s, calls[..|calls| - 1]), calls[|calls| - 1])
    decreases |calls|
  {
    if |calls| > 1 {
      RunSplitLast(Step(s, calls[0]), calls[1..]);
      assert calls[1..][..|calls[1..]| - 1] == calls[..|calls| - 1][1..];
    }
  }

  /** One more call extends the reference account exactly as `Step` extends the state. */
  lemma StepExtendsEmittedLines(out: seq<string>, t: Levels.Level, calls: seq<Call>)
    requires calls != []
    ensures var before := calls[..|calls| - 1];
      Step(Logger(FinalThreshold(t, before), out + EmittedLines(t, before)), calls[|calls| - 1])
      == Logger(FinalThreshold(t, calls), out + EmittedLines(t, calls))
  {
    var before := calls[..|calls| - 1];
    var c := calls[|calls| - 1];
    if c.LogCall? {
      var written := EmittedLines(t, before);
      var line := Format.Compose(Format.ColourOf(c.level), Format.TagOf(c.level), c.message, c.args, c.file, c.line);
      if c.level in Levels.AtOrAbove(FinalThreshold(t, before)) {
        assert EmittedLines(t, calls) == written + [line];
        assert out + written + [line] == out + (written + [line]);
      }
    }
  }

  /**
    A run of calls keeps every line already written, appends exactly the
    lines of the calls that pass the filter in force when they are made, in
    call order, and ends with the threshold the last `setLevel` chose.
   */
  lemma {:induction false} RunAppendsEmittedLines(s: Logger, calls: seq<Call>)
    ensures Run(s, calls) == Logger(FinalThreshold(s.threshold, calls),
                                    s.output + EmittedLines(s.threshold, calls))
    decreases |calls|
  {
    if calls != [] {
      RunSplitLast(s, calls);
      RunAppendsEmittedLines(s, calls[..|calls| - 1]);
      StepExtendsEmittedLines(s.output, s.threshold, calls);
    }
  }

  /** Emission at DEBUG under INFO is suppressed; after `setLevel(DEBUG)` the same call is written. */
  lemma ThresholdChangeScenario(message: string, file: string, line: int32, args: seq<string>)
    ensures Run(Logger(Levels.Info, []),
                [LogCall(Levels.Debug, message, file, line, args),
                 SetLevelCall(Levels.Debug),
                 LogCall(Levels.Debug, message, file, line, args)])
            == Logger(Levels.Debug, [Format.Compose(Format.Blue, "DBG", message, args, file, line)])
  {
    var calls := [LogCall(Levels.Debug, message, file, line, args),
                  SetLevelCall(Levels.Debug),
                  LogCall(Levels.Debug, message, file, line, args)];
    var s0 := Logger(Levels.Info, []);
    var s1 := Step(s0, calls[0]);
    var s2 := Step(s1, calls[1]);
    assert s1 == s0;
    assert s2 == Logger(Levels.Debug, []);
    assert calls[1..][1..] == [calls[2]];
    assert Run(s0, calls) == Run(s1, calls[1..]) == Run(s2, [calls[2]]) == Step(s2, calls[2]);
  }

  /** From program start, TRACE calls are dropped and DEBUG calls are written. */
  lemma InitialThreshold(message: string, file: string, line: int32, args: seq<string>)
    ensures Trace(Initial(), message, file, line, args) == Initial()
    ensures |Debug(Initial(), message, file, line, args).output| == 1
  {
  }

}
