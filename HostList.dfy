/** Which lines of the host-list file name a switch, and in what order the
    script visits them. */
module HostList {
  import opened Wrappers
  import opened Text

  /** A line names a host when `line.split()` gives exactly two words; the
      second one is the hostname and the first is ignored. */
  function HostOf(line: string): (h: Option<string>)
    ensures h.Some? ==> h.value != [] && NoSpace(h.value)
  {
    var words := Split(line);
    if |words| == 2 then
      assert words[1] in words;
      Some(words[1])
    else None
  }

  /** The hosts of the file, in file order. */
  function Hosts(lines: seq<string>): seq<string>
  {
    if lines == [] then []
    else
      match HostOf(lines[0])
      case Some(h) => [h] + Hosts(lines[1..])
      case None => Hosts(lines[1..])
  }

  /** The `for line in file.readlines()` loop of the main program, keeping the
      hostname of every qualifying line. */
  method SelectHosts(lines: seq<string>) returns (hosts: seq<string>)
    ensures hosts == Hosts(lines)
  {
    hosts := [];
    var i := 0;
    while i < |lines|
      invariant 0 <= i <= |lines|
      invariant hosts + Hosts(lines[i..]) == Hosts(lines)
    {
      assert lines[i..] == [lines[i]] + lines[i + 1..];
      var words := Split(lines[i]);
      if |words| == 2 {
        hosts := hosts + [words[1]];
      }
      i := i + 1;
    }
    assert lines[i..] == [];
  }

  /** A line, leading and trailing whitespace and its terminator included,
      names a host exactly when it has two words, and the host is the second. */
  lemma HostOfWords(lead: string, words: seq<string>, gaps: seq<string>)
    requires AllSpace(lead) && Gapped(words, gaps)
    ensures HostOf(lead + JoinGapped(words, gaps)) == if |words| == 2 then Some(words[1]) else None
  {
    SplitJoinGapped(lead, words, gaps);
  }

  /** A host is selected exactly when some line names it. */
  lemma {:induction false} HostsNamedByLines(lines: seq<string>, h: string)
    ensures h in Hosts(lines) <==> exists i :: 0 <= i < |lines| && HostOf(lines[i]) == Some(h)
  {
    if lines != [] {
      HostsNamedByLines(lines[1..], h);
      if exists i :: 0 <= i < |lines| && HostOf(lines[i]) == Some(h) {
        var i :| 0 <= i < |lines| && HostOf(lines[i]) == Some(h);
        if i > 0 {
          assert HostOf(lines[1..][i - 1]) == Some(h);
        }
      }
      if h in Hosts(lines[1..]) {
        var i :| 0 <= i < |lines[1..]| && HostOf(lines[1..][i]) == Some(h);
        assert HostOf(lines[i + 1]) == Some(h);
      }
    }
  }

  /** File order is kept: the hosts of a file are those of its first part
      followed by those of the rest. */
  lemma {:induction false} HostsAppend(a: seq<string>, b: seq<string>)
    ensures Hosts(a + b) == Hosts(a) + Hosts(b)
  {
    if a == [] {
      assert a + b == b;
    } else {
      assert (a + b)[1..] == a[1..] + b;
      HostsAppend(a[1..], b);
    }
  }

  /** Lines as `readlines()` gives them, terminator included: a label and a
      hostname qualify, however they are spaced; a lone hostname does not, nor
      do three words. */
  lemma HostOfLabelled()
    ensures HostOf("r1 sw-a\n") == Some("sw-a")
  {
    HostOfWords([], ["r1", "sw-a"], [" ", "\n"]);
    assert [] + JoinGapped(["r1", "sw-a"], [" ", "\n"]) == "r1 sw-a\n";
  }

  lemma HostOfSpaced()
    ensures HostOf("  r2\tsw-b  \r\n") == Some("sw-b")
  {
    HostOfWords("  ", ["r2", "sw-b"], ["\t", "  \r\n"]);
    assert "  " + JoinGapped(["r2", "sw-b"], ["\t", "  \r\n"]) == "  r2\tsw-b  \r\n";
  }

  lemma HostOfLoneName()
    ensures HostOf("sw-a\n") == None
  {
    HostOfWords([], ["sw-a"], ["\n"]);
    assert [] + JoinGapped(["sw-a"], ["\n"]) == "sw-a\n";
  }

  lemma HostOfThreeWords()
    ensures HostOf("r1 sw-a spare\n") == None
  {
    HostOfWords([], ["r1", "sw-a", "spare"], [" ", " ", "\n"]);
    assert [] + JoinGapped(["r1", "sw-a", "spare"], [" ", " ", "\n"]) == "r1 sw-a spare\n";
  }
}
