/** The manager configuration file: the machine name, the listening port,
    the heartbeat interval in milliseconds, and then the addresses to
    connect to, one per line. The input stream is the text still unread;
    each reader returns what it read together with the rest. */
module ManagerConfig {
  import opened Wrappers
  import opened CInts
  import opened Text
  import opened CNumerals

  /** `parse_integer_line<T>` as written: read a line, convert it with
      strtoll, and accept it when `endptr` reached the end of the line
      and the value lies in T's range [lo, hi]. An empty line converts
      nothing, so `endptr` is at the start, which is also the end:
      the line reads as 0. */
  function ParseIntegerLineAsWritten(input: string, lo: int, hi: int): (r: Option<(int, string)>)
    ensures r.Some? ==> lo <= r.value.0 <= hi
    ensures r.Some? ==> exists line :: GetLine(input) == Some((line, r.value.1))
  {
    match GetLine(input)
    case None => None
    case Some((line, rest)) =>
      var (value, consumed) := StrToL(line);
      if consumed != |line| || value < lo || value > hi then None
      else Some((value, rest))
  }

  /** An empty line is taken for the number 0. */
  lemma EmptyLineIsZero(rest: string)
    ensures ParseIntegerLineAsWritten("\n" + rest, 0, Two16 - 1) == Some((0, rest))
  {
    GetLineOfLine("", rest);
    assert "" + "\n" + rest == "\n" + rest;
  }

  /** `parse_integer_line<T>` as intended: the line must hold a numeral. */
  function ParseIntegerLine(input: string, lo: int, hi: int): (r: Option<(int, string)>)
    ensures r.Some? ==> lo <= r.value.0 <= hi
    ensures r.Some? ==> exists line :: GetLine(input) == Some((line, r.value.1)) && line != ""
    ensures r.Some? ==> r == ParseIntegerLineAsWritten(input, lo, hi)
  {
    match GetLine(input)
    case None => None
    case Some((line, rest)) =>
      var (value, consumed) := StrToL(line);
      if consumed == 0 || consumed != |line| || value < lo || value > hi then None
      else Some((value, rest))
  }

  /** The corrected reader refuses the empty line. */
  lemma ParseIntegerLineRejectsEmpty(rest: string, lo: int, hi: int)
    ensures ParseIntegerLine("\n" + rest, lo, hi).None?
  {
    GetLineOfLine("", rest);
    assert "" + "\n" + rest == "\n" + rest;
  }

  /** A number written on its own line is read back, with the stream left
      after that line. */
  lemma ParseRenderedInteger(n: nat, rest: string, lo: int, hi: int)
    requires lo <= n <= hi
    ensures ParseIntegerLine(NatToString(n) + "\n" + rest, lo, hi) == Some((n, rest))
  {
    NoNewlineInDigits(NatToString(n));
    GetLineOfLine(NatToString(n), rest);
    StrToLOfNatToString(n);
  }

  lemma NoNewlineInDigits(s: string)
    requires AllDigits(s)
    ensures '\n' !in s
  {
    forall i | 0 <= i < |s| ensures s[i] != '\n' {
      assert IsDigit(s[i]);
    }
  }

  /** The addresses: every remaining non-empty line, in order. */
  function RemainingLines(input: string): (lines: seq<string>)
    ensures forall i :: 0 <= i < |lines| ==> lines[i] != "" && '\n' !in lines[i]
    decreases |input|
  {
    match GetLine(input)
    case None => []
    case Some((line, rest)) =>
      var later := RemainingLines(rest);
      if line == "" then later else [line] + later
  }

  /** The lines of a list of addresses, each followed by a newline. */
  function RenderLines(lines: seq<string>): string
  {
    if |lines| == 0 then "" else lines[0] + "\n" + RenderLines(lines[1..])
  }

  lemma {:induction false} RemainingLinesOfRendered(lines: seq<string>)
    requires forall i :: 0 <= i < |lines| ==> lines[i] != "" && '\n' !in lines[i]
    ensures RemainingLines(RenderLines(lines)) == lines
    decreases |lines|
  {
    if |lines| > 0 {
      GetLineOfLine(lines[0], RenderLines(lines[1..]));
      RemainingLinesOfRendered(lines[1..]);
    }
  }

  /** Blank lines between the addresses are skipped. */
  lemma BlankLineSkipped(rest: string)
    ensures RemainingLines("\n" + rest) == RemainingLines(rest)
  {
    GetLineOfLine("", rest);
    assert "" + "\n" + rest == "\n" + rest;
  }

  /** `BuildManagerInfo`. */
  datatype BuildManagerInfo = BuildManagerInfo(
    name: string, port: U16, heartbeatIntervalInMs: U32, toConnectTo: seq<string>)

  /** `read_manager_config`: any missing or invalid header line gives no
      configuration. */
  function ReadManagerConfig(input: string): (r: Option<BuildManagerInfo>)
    ensures r.Some? ==> GetLine(input).Some? && r.value.name == GetLine(input).value.0
    ensures r.Some? ==> forall i :: 0 <= i < |r.value.toConnectTo| ==>
              r.value.toConnectTo[i] != "" && '\n' !in r.value.toConnectTo[i]
    ensures r.None? <==> GetLine(input).None?
                         || ParseIntegerLine(GetLine(input).value.1, 0, Two16 - 1).None?
                         || ParseIntegerLine(ParseIntegerLine(GetLine(input).value.1, 0, Two16 - 1).value.1,
                                             0, Two32 - 1).None?
  {
    match GetLine(input)
    case None => None
    case Some((name, afterName)) =>
      match ParseIntegerLine(afterName, 0, Two16 - 1)
      case None => None
      case Some((port, afterPort)) =>
        match ParseIntegerLine(afterPort, 0, Two32 - 1)
        case None => None
        case Some((heartbeat, afterHeartbeat)) =>
          Some(BuildManagerInfo(name, port, heartbeat, RemainingLines(afterHeartbeat)))
  }

  /** The file layout the reader expects. */
  function RenderManagerConfig(info: BuildManagerInfo): string
  {
    info.name + "\n" + NatToString(info.port) + "\n" + NatToString(info.heartbeatIntervalInMs) + "\n"
    + RenderLines(info.toConnectTo)
  }

  /** Writing a configuration out and reading it back gives the same
      configuration, when the name is one line and every address is a
      non-empty line. */
  lemma ManagerConfigRoundTrip(info: BuildManagerInfo)
    requires '\n' !in info.name
    requires forall i :: 0 <= i < |info.toConnectTo| ==> info.toConnectTo[i] != "" && '\n' !in info.toConnectTo[i]
    ensures ReadManagerConfig(RenderManagerConfig(info)) == Some(info)
  {
    var addrs := RenderLines(info.toConnectTo);
    var hb := NatToString(info.heartbeatIntervalInMs) + "\n" + addrs;
    var afterName := NatToString(info.port) + "\n" + hb;
    assert RenderManagerConfig(info) == info.name + "\n" + afterName;
    GetLineOfLine(info.name, afterName);
    ParseRenderedInteger(info.port, hb, 0, Two16 - 1);
    ParseRenderedInteger(info.heartbeatIntervalInMs, addrs, 0, Two32 - 1);
    RemainingLinesOfRendered(info.toConnectTo);
  }
}
