/** The lines the script sends to a switch's command line. Each is a value of
    `Command`; `Line` gives the text passed to `sendline`, which adds the line
    separator itself. */
module Commands {

  datatype Command =
    | Probe                        // an empty line, sent to make the prompt show
    | ShowClock
    | ShowSwitch
    | ShowStackPorts
    | ShowStackPortsSummary
    | ReadCrcErrors(member: char)  // the CRC error counter of one stack member
    | Exit

  const ReadCrcErrorsPrefix: string := "show platform port-asic 0 read register SifRacRwCrcErrorCnt switch "

  /** Only the prompt probe is an empty line. */
  function Line(cmd: Command): (l: string)
    ensures l == [] <==> cmd.Probe?
  {
    match cmd
    case Probe => ""
    case ShowClock => "show clock"
    case ShowSwitch => "show switch"
    case ShowStackPorts => "show switch stack-ports"
    case ShowStackPortsSummary => "show switch stack-ports summ"
    case ReadCrcErrors(member) => ReadCrcErrorsPrefix + [member]
    case Exit => "exit"
  }

  /** A register read names its member in the last character of the line. */
  lemma ReadCrcErrorsLine(member: char)
    ensures |Line(ReadCrcErrors(member))| == |ReadCrcErrorsPrefix| + 1
    ensures Line(ReadCrcErrors(member))[|ReadCrcErrorsPrefix|] == member
  {
  }

  /** Distinct commands are distinct lines, so a session that records commands
      records exactly the text sent. */
  lemma LineInjective(a: Command, b: Command)
    ensures Line(a) == Line(b) ==> a == b
  {
    if Line(a) == Line(b) {
      assert |Line(a)| == |Line(b)|;
      if a.ReadCrcErrors? && b.ReadCrcErrors? {
        ReadCrcErrorsLine(a.member);
        ReadCrcErrorsLine(b.member);
      }
    }
  }

  /** Distinct members are read with distinct lines. */
  lemma ReadCrcErrorsInjective(a: char, b: char)
    ensures Line(ReadCrcErrors(a)) == Line(ReadCrcErrors(b)) <==> a == b
  {
    ReadCrcErrorsLine(a);
    ReadCrcErrorsLine(b);
  }
}
