/** The two pieces of state the capture procedure works on: the interactive
    session with the switch, and the files it writes. */
module Terminal {
  import opened Wrappers
  import opened Commands

  /** One interactive shell session (the pexpect child `c`): the commands sent
      to it so far, and the text each following `expect` will find before the
      pattern it waits for, in order. */
  class Session {
    var sent: seq<Command>
    var pending: seq<string>

    constructor (responses: seq<string>)
      ensures sent == [] && pending == responses
    {
      sent := [];
      pending := responses;
    }

    /** `c.sendline(Line(cmd))`. */
    method SendLine(cmd: Command)
      modifies this
      ensures sent == old(sent) + [cmd] && pending == old(pending)
    {
      sent := sent + [cmd];
    }

    /** `c.expect(pattern)`, giving `c.before`; None when the pattern never
        comes, which in the script is a timeout exception. */
    method Expect() returns (before: Option<string>)
      modifies this
      ensures sent == old(sent)
      ensures old(pending) == [] ==> before == None && pending == []
      ensures old(pending) != [] ==> before == Some(old(pending)[0]) && pending == old(pending)[1..]
    {
      if pending == [] {
        before := None;
      } else {
        before := Some(pending[0]);
        pending := pending[1..];
      }
    }
  }

  /** The file system as the script sees it: file names to contents. */
  class FileStore {
    var files: map<string, string>

    constructor (initial: map<string, string>)
      ensures files == initial
    {
      files := initial;
    }

    /** What a file holds; a file that does not exist reads as empty. */
    function Contents(name: string): string
      reads this
    {
      if name in files then files[name] else []
    }

    /** A write to a file opened with mode 'a': the file is created if it is
        missing and the text goes after what it held. */
    method Append(name: string, text: string)
      modifies this
      ensures files == old(files)[name := old(Contents(name)) + text]
    {
      files := files[name := Contents(name) + text];
    }

    /** A file opened with mode 'w' and written once: it holds exactly `text`. */
    method Overwrite(name: string, text: string)
      modifies this
      ensures files == old(files)[name := text]
    {
      files := files[name := text];
    }
  }
}
