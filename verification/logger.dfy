/** The ANSI colour table of the `logger` crate (libs/logger/src/log_color.rs). */
module LogColors {
  import opened Strings

  const ESCAPE: char := '\U{1B}'

  /** `RESET_COLOR`: the escape character that opens every sequence. */
  const RESET_COLOR: string := [ESCAPE]

  datatype LogColor =
    | BrightBlue | BrightGreen | BrightRed | BrightYellow
    | Blue | Green | Red | Yellow
    | White | Grey

  /** `LogColor::to_string`: the select-graphic-rendition sequence. */
  function Code(c: LogColor): string
  {
    match c
    case Green => RESET_COLOR + "[32m"
    case BrightGreen => RESET_COLOR + "[32;1m"
    case Blue => RESET_COLOR + "[34m"
    case BrightBlue => RESET_COLOR + "[34;1m"
    case Yellow => RESET_COLOR + "[33m"
    case BrightYellow => RESET_COLOR + "[33;1m"
    case Red => RESET_COLOR + "[31m"
    case BrightRed => RESET_COLOR + "[31;1m"
    case White => RESET_COLOR + "[37;0m"
    case Grey => RESET_COLOR + "[37;2m"
  }

  predicate IsParamChar(ch: char)
  {
    IsDigit(ch) || ch == ';'
  }

  /** Every code is the escape character, `[`, parameters made of digits
      and semicolons, and a closing `m`. */
  lemma CodeShape(c: LogColor)
    ensures var s := Code(c);
      && 5 <= |s| <= 7 && s[0] == ESCAPE && s[1] == '[' && s[|s| - 1] == 'm'
      && forall i :: 2 <= i < |s| - 1 ==> IsParamChar(s[i])
  {
  }

  /** The colour a code selects, if any. */
  function ColorOfCode(s: string): (r: Option<LogColor>)
    ensures r.Some? ==> Code(r.value) == s
  {
    if s == Code(BrightBlue) then Some(BrightBlue)
    else if s == Code(BrightGreen) then Some(BrightGreen)
    else if s == Code(BrightRed) then Some(BrightRed)
    else if s == Code(BrightYellow) then Some(BrightYellow)
    else if s == Code(Blue) then Some(Blue)
    else if s == Code(Green) then Some(Green)
    else if s == Code(Red) then Some(Red)
    else if s == Code(Yellow) then Some(Yellow)
    else if s == Code(White) then Some(White)
    else if s == Code(Grey) then Some(Grey)
    else None
  }

  /** No two colours share a code: the length, the colour digit and the
      last parameter tell them apart. */
  lemma CodeInjective(a: LogColor, b: LogColor)
    ensures Code(a) == Code(b) ==> a == b
  {
    if Code(a) == Code(b) {
      assert |Code(a)| == |Code(b)|;
      assert Code(a)[3] == Code(b)[3];
      assert Code(a)[|Code(a)| - 2] == Code(b)[|Code(b)| - 2];
    }
  }

  /** Reading a code back gives the colour that printed it. */
  lemma ColorOfCodeInverse(c: LogColor)
    ensures ColorOfCode(Code(c)) == Some(c)
  {
    var r := ColorOfCode(Code(c));
    CodeInjective(r.value, c);
  }

  predicate IsBase(c: LogColor)
  {
    c == Blue || c == Green || c == Red || c == Yellow
  }

  /** The bright variant of a base colour. */
  function Bright(c: LogColor): (b: LogColor)
    requires IsBase(c)
    ensures !IsBase(b) && b != White && b != Grey
  {
    match c
    case Blue => BrightBlue
    case Green => BrightGreen
    case Red => BrightRed
    case Yellow => BrightYellow
  }

  /** A bright code is its base code with `;1` inserted before the `m`. */
  lemma BrightInsertsBold(c: LogColor)
    requires IsBase(c)
    ensures Code(Bright(c)) == Code(c)[..|Code(c)| - 1] + ";1m"
  {
  }
}

/** Severities of the `logger` crate (libs/logger/src/log_severity.rs):
    their derived order, labels and colours. */
module LogSeverities {
  import opened Strings
  import opened LogColors

  datatype LogSeverity = Debug | Info | Warning | Error

  /** Position in the declaration: the derived `PartialOrd` compares it. */
  function Rank(s: LogSeverity): nat
  {
    match s
    case Debug => 0
    case Info => 1
    case Warning => 2
    case Error => 3
  }

  /** `a >= b` under the derived order. */
  predicate AtLeast(a: LogSeverity, b: LogSeverity)
  {
    Rank(a) >= Rank(b)
  }

  /** The derived order is total and antisymmetric, `Debug` is its least
      and `Error` its greatest element. */
  lemma OrderIsTotal(a: LogSeverity, b: LogSeverity, c: LogSeverity)
    ensures AtLeast(a, b) || AtLeast(b, a)
    ensures AtLeast(a, b) && AtLeast(b, a) ==> a == b
    ensures AtLeast(a, b) && AtLeast(b, c) ==> AtLeast(a, c)
    ensures AtLeast(a, Debug) && AtLeast(Error, a)
  {
  }

  /** Debug < Info < Warning < Error. */
  lemma DeclarationOrder()
    ensures !AtLeast(Debug, Info) && !AtLeast(Info, Warning) && !AtLeast(Warning, Error)
  {
  }

  /** `LogSeverity::to_string`. */
  function Label(s: LogSeverity): (t: string)
    ensures 4 <= |t| <= 5
  {
    match s
    case Debug => "debug"
    case Info => "info"
    case Warning => "warn"
    case Error => "error"
  }

  /** `get_color`: the bright colour of each severity. */
  function Color(s: LogSeverity): (c: LogColor)
    ensures !IsBase(c) && c != White && c != Grey
  {
    match s
    case Debug => BrightGreen
    case Info => BrightBlue
    case Warning => BrightYellow
    case Error => BrightRed
  }

  /** The severity whose colour is `c`, if any. */
  function SeverityOfColor(c: LogColor): (r: Option<LogSeverity>)
    ensures r.Some? ==> Color(r.value) == c
  {
    match c
    case BrightGreen => Some(Debug)
    case BrightBlue => Some(Info)
    case BrightYellow => Some(Warning)
    case BrightRed => Some(Error)
    case _ => None
  }

  /** Colours and labels both tell severities apart. */
  lemma ColorAndLabelInjective(a: LogSeverity, b: LogSeverity)
    ensures Color(a) == Color(b) ==> a == b
    ensures Label(a) == Label(b) ==> a == b
    ensures SeverityOfColor(Color(a)) == Some(a)
  {
    if Label(a) == Label(b) {
      assert Label(a)[0] == Label(b)[0];
      assert |Label(a)| == |Label(b)|;
    }
  }

  const LABEL_WIDTH: nat := 7

  /** `{: <7}` applied to `[label]`: the bracketed label never exceeds seven
      characters, so the cell is exactly seven wide, the label first. */
  function PaddedLabel(s: LogSeverity): (t: string)
    ensures |t| == LABEL_WIDTH
    ensures StartsWith(t, "[" + Label(s) + "]")
    ensures forall i :: |Label(s)| + 2 <= i < |t| ==> t[i] == ' '
  {
    PadRight("[" + Label(s) + "]", LABEL_WIDTH, ' ')
  }
}

/** The logger's write-once threshold and its filter (libs/logger/src/lib.rs).
    `println!` is not modelled; a call returns the text it would print. */
module Logger {
  import opened Strings
  import opened LogColors
  import opened LogSeverities

  /** The `OnceLock` behind `SEVERITY`: empty until its first write. */
  datatype SeverityCell = Unset | Holding(severity: LogSeverity)

  const DEFAULT_SEVERITY: LogSeverity := Info

  /** The threshold a cell stands for: what it holds, or the default that
      `get_or_init` would store. */
  function Threshold(cell: SeverityCell): LogSeverity
  {
    if cell.Holding? then cell.severity else DEFAULT_SEVERITY
  }

  /** `get_logging_severity`: reads the threshold, storing `Info` in an
      empty cell. */
  function GetLoggingSeverity(cell: SeverityCell): (r: (LogSeverity, SeverityCell))
    ensures r.1 == Holding(r.0)
    ensures cell.Holding? ==> r.1 == cell
    ensures cell.Unset? ==> r.0 == Info
  {
    match cell
    case Unset => (Info, Holding(Info))
    case Holding(s) => (s, cell)
  }

  /** `set_logging_severity`: `OnceLock::set` succeeds only on an empty
      cell and leaves a full one as it was. */
  function SetLoggingSeverity(cell: SeverityCell, s: LogSeverity): (r: (bool, SeverityCell))
    ensures r.0 <==> cell.Unset?
    ensures r.0 ==> r.1 == Holding(s)
    ensures !r.0 ==> r.1 == cell
  {
    match cell
    case Unset => (true, Holding(s))
    case Holding(_) => (false, cell)
  }

  /** The line `log` prints for a message. */
  function LogLine(message: string, severity: LogSeverity): string
  {
    Code(Color(severity)) + PaddedLabel(severity) + Code(Grey) + " " + message + Code(White)
  }

  /** `log`: the printed text (the line and `println!`'s newline) when the
      severity reaches the threshold, and the cell after the read. */
  function Log(cell: SeverityCell, message: string, severity: LogSeverity): (r: (Option<string>, SeverityCell))
    ensures r.0.Some? <==> AtLeast(severity, Threshold(cell))
    ensures r.0.Some? ==> r.0.value == LogLine(message, severity) + "\n"
    ensures r.1 == Holding(Threshold(cell))
  {
    var (threshold, after) := GetLoggingSeverity(cell);
    if AtLeast(severity, threshold) then (Some(LogLine(message, severity) + "\n"), after) else (None, after)
  }

  /** `log_debug!`: printed only under a `Debug` threshold. */
  function LogDebug(cell: SeverityCell, message: string): (r: (Option<string>, SeverityCell))
    ensures r.0.Some? <==> Threshold(cell) == Debug
    ensures r.0.Some? ==> r.0.value == LogLine(message, Debug) + "\n"
    ensures r.1 == Holding(Threshold(cell))
  {
    Log(cell, message, Debug)
  }

  /** `log_info!`: printed unless the threshold is `Warning` or `Error`. */
  function LogInfo(cell: SeverityCell, message: string): (r: (Option<string>, SeverityCell))
    ensures r.0.Some? <==> Threshold(cell) != Warning && Threshold(cell) != Error
    ensures r.0.Some? ==> r.0.value == LogLine(message, Info) + "\n"
    ensures r.1 == Holding(Threshold(cell))
  {
    Log(cell, message, Info)
  }

  /** `log_warning!`: printed unless the threshold is `Error`. */
  function LogWarning(cell: SeverityCell, message: string): (r: (Option<string>, SeverityCell))
    ensures r.0.Some? <==> Threshold(cell) != Error
    ensures r.0.Some? ==> r.0.value == LogLine(message, Warning) + "\n"
    ensures r.1 == Holding(Threshold(cell))
  {
    Log(cell, message, Warning)
  }

  /** `log_error!`: printed at every threshold. */
  function LogError(cell: SeverityCell, message: string): (r: (Option<string>, SeverityCell))
    ensures r.0 == Some(LogLine(message, Error) + "\n")
    ensures r.1 == Holding(Threshold(cell))
  {
    Log(cell, message, Error)
  }

  // -----------------------------------------------------------------------
  // The printed line
  // -----------------------------------------------------------------------

  /** Bytes of a line around its message. */
  const LINE_OVERHEAD: nat := 29

  lemma LogLineLength(message: string, severity: LogSeverity)
    ensures |LogLine(message, severity)| == |message| + LINE_OVERHEAD
  {
    CodeShape(Color(severity));
  }

  /** A reader of printed lines: the colour code gives the severity, the
      message sits between the grey code and its space and the closing
      white code. */
  function ParseLogLine(line: string): Option<(LogSeverity, string)>
  {
    if |line| < LINE_OVERHEAD then None
    else
      match ColorOfCode(line[..7])
      case None => None
      case Some(c) =>
        match SeverityOfColor(c)
        case None => None
        case Some(severity) =>
          if line[7..14] != PaddedLabel(severity) || line[14..22] != Code(Grey) + " "
             || line[|line| - 7..] != Code(White)
          then None
          else Some((severity, line[22..|line| - 7]))
  }

  /** Every printed line reads back to its severity and its message,
      whatever the message holds. */
  lemma LogLineRoundTrip(message: string, severity: LogSeverity)
    ensures ParseLogLine(LogLine(message, severity)) == Some((severity, message))
  {
    var color := Code(Color(severity));
    var line := LogLine(message, severity);
    CodeShape(Color(severity));
    LogLineLength(message, severity);
    assert |color| == 7;
    assert line == color + (PaddedLabel(severity) + ((Code(Grey) + " ") + (message + Code(White))));
    assert line[..7] == color;
    assert line[7..14] == PaddedLabel(severity);
    assert line[14..22] == Code(Grey) + " ";
    assert line[|line| - 7..] == Code(White);
    assert line[22..|line| - 7] == message;
    ColorOfCodeInverse(Color(severity));
    ColorAndLabelInjective(severity, severity);
  }

  // -----------------------------------------------------------------------
  // Filtering
  // -----------------------------------------------------------------------

  /** With the threshold never set, `Debug` is filtered out and the other
      three severities are printed. */
  lemma DefaultIsInfo(message: string, severity: LogSeverity)
    ensures Log(Unset, message, severity).0.Some? <==> severity != Debug
  {
  }

  /** The first `log` stores the default, after which setting the threshold
      fails and changes nothing. */
  lemma LogBeforeSetPinsDefault(message: string, severity: LogSeverity, s: LogSeverity)
    ensures var after := Log(Unset, message, severity).1;
      SetLoggingSeverity(after, s) == (false, Holding(Info))
  {
  }

  /** Only the first `set_logging_severity` takes effect. */
  lemma SetIsWriteOnce(cell: SeverityCell, first: LogSeverity, second: LogSeverity)
    ensures var (ok1, c1) := SetLoggingSeverity(cell, first);
      var (ok2, c2) := SetLoggingSeverity(c1, second);
      !ok2 && c2 == c1 && Threshold(c2) == (if ok1 then first else Threshold(cell))
  {
  }

  /** A call of the logger API. */
  datatype Call = SetSeverity(severity: LogSeverity) | LogMessage(message: string, level: LogSeverity)

  function Lines(out: Option<string>): seq<string>
  {
    if out.Some? then [out.value] else []
  }

  /** The text printed by a run of calls and the cell it leaves behind. */
  function Run(cell: SeverityCell, calls: seq<Call>): (r: (seq<string>, SeverityCell))
    decreases |calls|
  {
    if |calls| == 0 then ([], cell)
    else
      match calls[0]
      case SetSeverity(s) => Run(SetLoggingSeverity(cell, s).1, calls[1..])
      case LogMessage(m, level) =>
        var step := Log(cell, m, level);
        var rest := Run(step.1, calls[1..]);
        (Lines(step.0) + rest.0, rest.1)
  }

  /** The reference filter: the lines of the messages at or above `t`. */
  function Filtered(t: LogSeverity, calls: seq<Call>): seq<string>
    decreases |calls|
  {
    if |calls| == 0 then []
    else
      var rest := Filtered(t, calls[1..]);
      match calls[0]
      case SetSeverity(_) => rest
      case LogMessage(m, level) => if AtLeast(level, t) then [LogLine(m, level) + "\n"] + rest else rest
  }

  /** The threshold a run from an empty cell ends up with: the first call
      decides it, a set by storing its severity, a log by storing `Info`. */
  function FirstThreshold(calls: seq<Call>): LogSeverity
  {
    if |calls| > 0 && calls[0].SetSeverity? then calls[0].severity else DEFAULT_SEVERITY
  }

  /** Once the cell holds a threshold, a run prints exactly the messages at
      or above it and no set changes it. */
  lemma {:induction false} RunWhileHolding(t: LogSeverity, calls: seq<Call>)
    ensures Run(Holding(t), calls) == (Filtered(t, calls), Holding(t))
    decreases |calls|
  {
    if |calls| > 0 {
      RunWhileHolding(t, calls[1..]);
      match calls[0]
      case SetSeverity(s) =>
        assert SetLoggingSeverity(Holding(t), s).1 == Holding(t);
      case LogMessage(m, level) =>
        var out := Log(Holding(t), m, level);
        assert out.1 == Holding(t);
        assert Lines(out.0) == (if AtLeast(level, t) then [LogLine(m, level) + "\n"] else []);
        assert Run(Holding(t), calls) == (Lines(out.0) + Run(Holding(t), calls[1..]).0, Holding(t));
        assert Filtered(t, calls) == Lines(out.0) + Filtered(t, calls[1..]);
    }
  }

  /** From an empty cell, a run prints exactly the messages at or above the
      threshold its first call fixes. */
  lemma RunFromStart(calls: seq<Call>)
    requires |calls| > 0
    ensures Run(Unset, calls) == (Filtered(FirstThreshold(calls), calls), Holding(FirstThreshold(calls)))
  {
    var t := FirstThreshold(calls);
    RunWhileHolding(t, calls[1..]);
    match calls[0]
    case SetSeverity(s) =>
      assert SetLoggingSeverity(Unset, s).1 == Holding(t);
    case LogMessage(m, level) =>
      var out := Log(Unset, m, level);
      assert out.1 == Holding(t);
      assert Lines(out.0) == (if AtLeast(level, t) then [LogLine(m, level) + "\n"] else []);
      assert Run(Unset, calls) == (Lines(out.0) + Run(Holding(t), calls[1..]).0, Holding(t));
      assert Filtered(t, calls) == Lines(out.0) + Filtered(t, calls[1..]);
  }

  /** Setting `Info` first suppresses every `Debug` message after it. */
  lemma InfoSuppressesDebug(messages: seq<string>)
    ensures var calls := [SetSeverity(Info)] + seq(|messages|, i requires 0 <= i < |messages| => LogMessage(messages[i], Debug));
      Run(Unset, calls).0 == []
  {
    var logs := seq(|messages|, i requires 0 <= i < |messages| => LogMessage(messages[i], Debug));
    var calls := [SetSeverity(Info)] + logs;
    RunFromStart(calls);
    assert calls[1..] == logs;
    NoDebugPassesInfo(logs);
  }

  lemma {:induction false} NoDebugPassesInfo(calls: seq<Call>)
    requires forall i :: 0 <= i < |calls| ==> calls[i].LogMessage? && calls[i].level == Debug
    ensures Filtered(Info, calls) == []
    decreases |calls|
  {
    if |calls| > 0 {
      NoDebugPassesInfo(calls[1..]);
    }
  }
}
