/** save_switch_output: the fixed battery of commands run on one switch, and
    where their output goes. The session supplies, in order, the text each
    wait captures: the prompt probe, the four status commands, the prompt
    probe and `show switch` of get_switch_members, one register read per
    member, and the answer to `exit`. */
module Capture {
  import opened Wrappers
  import opened Text
  import opened Commands
  import opened Terminal
  import opened StackInventory

  /** Four blank lines, then a rule of 39 '=' characters. */
  const Separator: string := "\n\n\n\n" + "=======================================\n"

  /** The separator is four empty lines and then one line of 39 '=' characters. */
  lemma SeparatorLayout()
    ensures |Separator| == 44
    ensures forall i :: 0 <= i < 4 ==> Separator[i] == '\n'
    ensures forall i :: 4 <= i < 43 ==> Separator[i] == '='
    ensures Separator[43] == '\n'
  {
  }

  const StatusCommands: seq<Command> := [ShowClock, ShowSwitch, ShowStackPorts, ShowStackPortsSummary]

  /** The per-host log, opened in append mode on every run. */
  function LogName(host: string): string
  {
    host + ".output"
  }

  /** The per-member file, named by host, member and timestamp. */
  function MemberFileName(host: string, id: char, stamp: string): string
  {
    host + "_" + [id] + "_" + stamp
  }

  function RegisterReads(ids: seq<char>): (cmds: seq<Command>)
    ensures |cmds| == |ids|
  {
    if ids == [] then [] else RegisterReads(ids[..|ids| - 1]) + [ReadCrcErrors(ids[|ids| - 1])]
  }

  /** get_switch_members' commands: a prompt probe, then `show switch`. */
  const MemberCommands: seq<Command> := [Probe, ShowSwitch]

  /** Every command the procedure sends when nothing goes wrong, in order: the
      prompt probe, the status commands, get_switch_members' commands, one
      register read per member and `exit`. */
  function Plan(ids: seq<char>): (cmds: seq<Command>)
    ensures |cmds| == 8 + |ids|
    ensures cmds[0] == Probe && cmds[|cmds| - 1] == Exit
  {
    [Probe] + (StatusCommands + (MemberCommands + (RegisterReads(ids) + [Exit])))
  }

  // ---------------------------------------------------------------------
  // What happens for a given sequence `rs` of captured texts

  /** The member numbers, once `show switch` has been captured. */
  function Members(rs: seq<string>): seq<char>
  {
    if |rs| >= 7 then MemberIds(SplitLines(rs[6])) else []
  }

  /** The first prompt probe succeeded, so the log was opened. */
  predicate Opened(rs: seq<string>)
  {
    |rs| >= 1 && rs[0] != []
  }

  /** get_switch_members succeeded, so the register loop was entered. */
  predicate ReachesRegisters(rs: seq<string>)
  {
    Opened(rs) && |rs| >= 7 && rs[5] != []
  }

  /** Every wait succeeded, the last one being the answer to `exit`. */
  predicate Completes(rs: seq<string>)
  {
    ReachesRegisters(rs) && |rs| >= 8 + |Members(rs)|
  }

  /** How many register reads were captured. */
  function Registers(rs: seq<string>): nat
  {
    if ReachesRegisters(rs) then Min(|Members(rs)|, |rs| - 7) else 0
  }

  function RegisterOutputs(rs: seq<string>): (outs: seq<string>)
    ensures |outs| == Registers(rs)
  {
    if ReachesRegisters(rs) then rs[7..7 + Registers(rs)] else []
  }

  /** What goes into the log after the separator: the status outputs captured,
      then the register reads captured. */
  function Logged(rs: seq<string>): string
  {
    if Opened(rs) then Concat(rs[1..Min(|rs|, 5)]) + Concat(RegisterOutputs(rs)) else []
  }

  /** How many commands are sent: a failed wait still follows its send, and an
      empty prompt capture stops the procedure right after its wait. */
  function Sends(rs: seq<string>): (n: nat)
    ensures 1 <= n <= 8 + |Members(rs)|
  {
    if |rs| >= 1 && rs[0] == [] then 1
    else if |rs| >= 6 && rs[5] == [] then 6
    else Min(|rs| + 1, 8 + |Members(rs)|)
  }

  /** File names written one after another: the later write to a name wins. */
  function WriteAll(files: map<string, string>, names: seq<string>, contents: seq<string>): map<string, string>
    requires |names| == |contents|
  {
    if names == [] then files
    else WriteAll(files, names[..|names| - 1], contents[..|contents| - 1])[names[|names| - 1] := contents[|contents| - 1]]
  }

  /** The names of the first k member files. */
  function MemberNames(host: string, ids: seq<char>, clock: nat -> string, k: nat): (names: seq<string>)
    requires k <= |ids|
    ensures |names| == k
  {
    if k == 0 then [] else MemberNames(host, ids, clock, k - 1) + [MemberFileName(host, ids[k - 1], clock(k - 1))]
  }

  function OldLog(host: string, files: map<string, string>): string
  {
    if LogName(host) in files then files[LogName(host)] else []
  }

  /** The files after the procedure: the log extended, then the member files written. */
  function CapturedFiles(host: string, clock: nat -> string, rs: seq<string>, files: map<string, string>): (after: map<string, string>)
    ensures !Opened(rs) ==> after == files
  {
    if !Opened(rs) then files
    else
      WriteAll(files[LogName(host) := OldLog(host, files) + Separator + Logged(rs)],
               MemberNames(host, Members(rs), clock, Registers(rs)), RegisterOutputs(rs))
  }

  // ---------------------------------------------------------------------
  // Facts about names and writes

  lemma MemberFileIsNotLog(host: string, id: char, stamp: string)
    ensures MemberFileName(host, id, stamp) != LogName(host)
  {
    assert MemberFileName(host, id, stamp)[|host|] == '_';
    assert LogName(host)[|host|] == '.';
  }

  lemma MemberNamesAreNotLog(host: string, ids: seq<char>, clock: nat -> string, k: nat)
    requires k <= |ids|
    ensures LogName(host) !in MemberNames(host, ids, clock, k)
  {
    forall i | 0 <= i < k ensures MemberNames(host, ids, clock, k)[i] == MemberFileName(host, ids[i], clock(i)) {
      MemberNamesAt(host, ids, clock, k, i);
    }
    forall i | 0 <= i < k ensures MemberFileName(host, ids[i], clock(i)) != LogName(host) {
      MemberFileIsNotLog(host, ids[i], clock(i));
    }
  }

  lemma {:induction false} MemberNamesAt(host: string, ids: seq<char>, clock: nat -> string, k: nat, i: nat)
    requires i < k <= |ids|
    ensures MemberNames(host, ids, clock, k)[i] == MemberFileName(host, ids[i], clock(i))
  {
    if i < k - 1 {
      MemberNamesAt(host, ids, clock, k - 1, i);
    }
  }

  /** A name not among the written ones keeps its old state. */
  lemma {:induction false} WriteAllElsewhere(files: map<string, string>, names: seq<string>, contents: seq<string>, name: string)
    requires |names| == |contents| && name !in names
    ensures name in WriteAll(files, names, contents) <==> name in files
    ensures name in files ==> WriteAll(files, names, contents)[name] == files[name]
  {
    if names != [] {
      assert name !in names[..|names| - 1];
      WriteAllElsewhere(files, names[..|names| - 1], contents[..|contents| - 1], name);
    }
  }

  /** The writes create the names written and remove nothing. */
  lemma {:induction false} WriteAllKeys(files: map<string, string>, names: seq<string>, contents: seq<string>, name: string)
    requires |names| == |contents|
    ensures name in WriteAll(files, names, contents) <==> name in files || name in names
  {
    if names != [] {
      var init := names[..|names| - 1];
      WriteAllKeys(files, init, contents[..|contents| - 1], name);
      assert name in names <==> name in init || name == names[|names| - 1] by {
        assert names == init + [names[|names| - 1]];
      }
    }
  }

  /** Changing a name that is not written afterwards commutes with the writes. */
  lemma {:induction false} WriteAllCommutes(files: map<string, string>, names: seq<string>, contents: seq<string>, name: string, v: string)
    requires |names| == |contents| && name !in names
    ensures WriteAll(files, names, contents)[name := v] == WriteAll(files[name := v], names, contents)
  {
    if names != [] {
      assert name !in names[..|names| - 1];
      WriteAllCommutes(files, names[..|names| - 1], contents[..|contents| - 1], name, v);
    }
  }

  /** A name holds what the last write to it wrote. */
  lemma {:induction false} WriteAllLast(files: map<string, string>, names: seq<string>, contents: seq<string>, i: nat)
    requires |names| == |contents| && i < |names|
    requires forall j :: i < j < |names| ==> names[j] != names[i]
    ensures names[i] in WriteAll(files, names, contents)
    ensures WriteAll(files, names, contents)[names[i]] == contents[i]
  {
    if i < |names| - 1 {
      WriteAllLast(files, names[..|names| - 1], contents[..|contents| - 1], i);
    }
  }

  lemma {:induction false} RegisterReadsAt(ids: seq<char>, i: nat)
    requires i < |ids|
    ensures RegisterReads(ids)[i] == ReadCrcErrors(ids[i])
  {
    if i < |ids| - 1 {
      RegisterReadsAt(ids[..|ids| - 1], i);
    }
  }

  lemma ConcatStep(parts: seq<string>, k: nat)
    requires k < |parts|
    ensures Concat(parts[..k + 1]) == Concat(parts[..k]) + parts[k]
  {
    assert parts[..k + 1][..k] == parts[..k];
  }

  /** Appending the next part to a text that already holds the first k parts. */
  lemma AppendStep(text: string, parts: seq<string>, k: nat)
    requires k < |parts|
    ensures text + Concat(parts[..k]) + parts[k] == text + Concat(parts[..k + 1])
    ensures k == 0 ==> text + Concat(parts[..k]) == text
  {
    ConcatStep(parts, k);
    if k == 0 {
      assert parts[..0] == [];
    }
  }

  /** One more register read: the log grows by its output and its file is written. */
  lemma RegisterStep(files0: map<string, string>, host: string, text0: string, ids: seq<char>,
                     clock: nat -> string, rs: seq<string>, i: nat)
    requires i < |ids| && i < |rs|
    ensures var log := LogName(host);
            var before := WriteAll(files0[log := text0 + Concat(rs[..i])], MemberNames(host, ids, clock, i), rs[..i]);
            log in before && before[log] == text0 + Concat(rs[..i]) &&
            before[log := before[log] + rs[i]][MemberFileName(host, ids[i], clock(i)) := rs[i]]
              == WriteAll(files0[log := text0 + Concat(rs[..i + 1])], MemberNames(host, ids, clock, i + 1), rs[..i + 1])
  {
    var log := LogName(host);
    var names := MemberNames(host, ids, clock, i);
    var names' := MemberNames(host, ids, clock, i + 1);
    MemberNamesAreNotLog(host, ids, clock, i + 1);
    assert names' == names + [MemberFileName(host, ids[i], clock(i))];
    assert log !in names;
    var m := files0[log := text0 + Concat(rs[..i])];
    WriteAllElsewhere(m, names, rs[..i], log);
    ConcatStep(rs, i);
    var longer := text0 + Concat(rs[..i]) + rs[i];
    assert longer == text0 + Concat(rs[..i + 1]);
    WriteAllCommutes(m, names, rs[..i], log, longer);
    assert m[log := longer] == files0[log := longer];
    assert rs[..i + 1] == rs[..i] + [rs[i]];
    assert names'[..i] == names && rs[..i + 1][..i] == rs[..i];
  }

  /** Without register reads, only the log changes. */
  lemma CapturedFilesLogOnly(host: string, clock: nat -> string, rs: seq<string>, files: map<string, string>)
    requires Opened(rs) && RegisterOutputs(rs) == []
    ensures CapturedFiles(host, clock, rs, files)
         == files[LogName(host) := OldLog(host, files) + Separator + Logged(rs)]
  {
  }

  /** Once the register loop is entered, the files are the log extended by the
      status outputs, then the register reads appended and written one by one. */
  lemma RegisterFiles(host: string, clock: nat -> string, rs: seq<string>, files: map<string, string>)
    requires ReachesRegisters(rs)
    ensures var log := LogName(host);
            var status := OldLog(host, files) + Separator + Concat(rs[1..5]);
            var k := Min(|rs[7..]|, |Members(rs)|);
            k == Registers(rs) &&
            CapturedFiles(host, clock, rs, files)
              == WriteAll(files[log := status][log := status + Concat(rs[7..][..k])],
                          MemberNames(host, Members(rs), clock, k), rs[7..][..k])
  {
    var log := LogName(host);
    var status := OldLog(host, files) + Separator + Concat(rs[1..5]);
    var k := Registers(rs);
    assert rs[7..][..k] == RegisterOutputs(rs);
    assert Logged(rs) == Concat(rs[1..5]) + Concat(RegisterOutputs(rs));
    assert status + Concat(rs[7..][..k]) == OldLog(host, files) + Separator + Logged(rs);
    UpdateTwice(files, log, status, status + Concat(rs[7..][..k]));
  }

  // ---------------------------------------------------------------------
  // Sequence facts, stated for any element type so that no proof compares
  // commands or captured texts character by character

  lemma TakeStep<T>(s: seq<T>, i: nat)
    requires i < |s|
    ensures s[..i + 1] == s[..i] + [s[i]]
  {
  }

  lemma AppendAssoc<T>(a: seq<T>, b: seq<T>, c: seq<T>)
    ensures a + b + c == a + (b + c)
  {
  }

  lemma TakeAll<T>(s: seq<T>)
    ensures s[..|s|] == s
  {
  }

  lemma TakeFront<T>(r: seq<T>, e: seq<T>, j: nat)
    requires j <= |r|
    ensures (r + e)[..j] == r[..j]
  {
  }

  lemma SplitAt<T>(s: seq<T>, i: nat, j: nat)
    requires i <= j <= |s|
    ensures s[..j] == s[..i] + s[i..j]
  {
  }

  lemma UpdateTwice<K, V>(m: map<K, V>, k: K, a: V, b: V)
    ensures m[k := a][k := b] == m[k := b]
  {
  }

  lemma UpdateSame<K, V>(m: map<K, V>, k: K)
    requires k in m
    ensures m[k := m[k]] == m
  {
  }

  /** The pieces of `a + (b + (c + d))`. */
  lemma NestedParts<T>(a: seq<T>, b: seq<T>, c: seq<T>, d: seq<T>, k: nat, j: nat)
    requires k <= |b| && j <= |d|
    ensures (a + (b + (c + d)))[..|a| + k] == a + b[..k]
    ensures (a + (b + (c + d)))[|a| + |b|..|a| + |b| + |c| + j] == c + d[..j]
  {
    assert (a + (b + (c + d)))[|a| + |b|..] == c + d;
  }

  /** The plan up to the k-th status command, and from get_switch_members on. */
  lemma PlanParts(ids: seq<char>, k: nat, j: nat)
    requires k <= 4 && j <= |ids| + 1
    ensures Plan(ids)[..1 + k] == [Probe] + StatusCommands[..k]
    ensures Plan(ids)[5..7 + j] == MemberCommands + (RegisterReads(ids) + [Exit])[..j]
  {
    assert |StatusCommands| == 4 && |MemberCommands| == 2;
    NestedParts([Probe], StatusCommands, MemberCommands, RegisterReads(ids) + [Exit], k, j);
  }

  /** The plan from get_switch_members on, after the status commands. */
  lemma PlanAfterStatus(ids: seq<char>, n: nat)
    requires 5 <= n <= 8 + |ids|
    ensures Plan(ids)[..n] == ([Probe] + StatusCommands) + Plan(ids)[5..n]
  {
    PlanParts(ids, 4, 0);
    TakeAll(StatusCommands);
    SplitAt(Plan(ids), 5, n);
  }

  // ---------------------------------------------------------------------
  // Where the procedure stops, in terms of the captured texts

  /** The first prompt probe fails or captures nothing. */
  lemma StopsAtPrompt(rs: seq<string>)
    requires !Opened(rs)
    ensures !Completes(rs) && Sends(rs) == 1
    ensures Plan(Members(rs))[..Sends(rs)] == [Probe]
  {
    PlanParts(Members(rs), 0, 0);
    assert StatusCommands[..0] == [];
  }

  /** A status command's wait fails. */
  lemma StopsInStatus(rs: seq<string>)
    requires Opened(rs) && |rs| <= 4
    ensures !Completes(rs) && Sends(rs) == |rs| + 1 && RegisterOutputs(rs) == []
    ensures Plan(Members(rs))[..Sends(rs)] == [Probe] + StatusCommands[..|rs|]
    ensures Logged(rs) == Concat(rs[1..])
  {
    PlanParts(Members(rs), |rs|, 0);
    assert rs[1..Min(|rs|, 5)] == rs[1..];
    assert Concat(RegisterOutputs(rs)) == [];
  }

  /** A wait of get_switch_members fails, or its prompt capture is empty. */
  lemma StopsInMembers(rs: seq<string>)
    requires Opened(rs) && |rs| >= 5 && !ReachesRegisters(rs)
    ensures !Completes(rs) && RegisterOutputs(rs) == []
    ensures Logged(rs) == Concat(rs[1..5])
    ensures Sends(rs) == if |rs| >= 6 && rs[5] != [] then 7 else 6
    ensures Plan(Members(rs))[5..Sends(rs)] == if |rs| >= 6 && rs[5] != [] then MemberCommands else [Probe]
  {
    var ids := Members(rs);
    assert |rs| >= 6 && rs[5] != [] ==> |rs| == 6;
    PlanParts(ids, 0, 0);
    assert (RegisterReads(ids) + [Exit])[..0] == [];
    assert Plan(ids)[5..7] == MemberCommands;
    assert Plan(ids)[5..6] == Plan(ids)[5..7][..1];
    assert MemberCommands[..1] == [Probe];
  }

  /** A register read's wait fails. */
  lemma StopsInRegisters(rs: seq<string>)
    requires ReachesRegisters(rs) && |rs| < 7 + |Members(rs)|
    ensures !Completes(rs) && Sends(rs) == |rs| + 1
    ensures RegisterOutputs(rs) == rs[7..]
    ensures Logged(rs) == Concat(rs[1..5]) + Concat(rs[7..])
    ensures Plan(Members(rs))[5..Sends(rs)] == MemberCommands + RegisterReads(Members(rs))[..|rs| - 6]
  {
    var ids := Members(rs);
    PlanParts(ids, 0, |rs| - 6);
    TakeFront(RegisterReads(ids), [Exit], |rs| - 6);
  }

  /** Every register read is captured; what remains is the answer to `exit`. */
  lemma ReachesExit(rs: seq<string>)
    requires ReachesRegisters(rs) && |rs| >= 7 + |Members(rs)|
    ensures Completes(rs) <==> |rs| >= 8 + |Members(rs)|
    ensures Sends(rs) == 8 + |Members(rs)|
    ensures RegisterOutputs(rs) == rs[7..7 + |Members(rs)|]
    ensures Logged(rs) == Concat(rs[1..5]) + Concat(rs[7..7 + |Members(rs)|])
    ensures Plan(Members(rs))[5..Sends(rs)] == MemberCommands + (RegisterReads(Members(rs)) + [Exit])
  {
    var ids := Members(rs);
    PlanParts(ids, 0, |ids| + 1);
    TakeAll(RegisterReads(ids) + [Exit]);
  }

  // ---------------------------------------------------------------------
  // What the procedure promises

  /** The log's name is the host name followed by ".output". */
  lemma LogNameParts(host: string)
    ensures |LogName(host)| == |host| + 7
    ensures LogName(host)[..|host|] == host && LogName(host)[|host|..] == ".output"
  {
  }

  /** The name is the host name, then '_', the member number, '_' and the timestamp. */
  lemma MemberFileNameParts(host: string, id: char, stamp: string)
    ensures var name := MemberFileName(host, id, stamp);
            |name| == |host| + 3 + |stamp| && name[..|host|] == host &&
            name[|host|] == '_' && name[|host| + 1] == id && name[|host| + 2] == '_' &&
            name[|host| + 3..] == stamp
  {
  }

  /** The member files of different members have different names. */
  lemma MemberFileNameInjective(host: string, a: char, b: char, s: string, t: string)
    ensures MemberFileName(host, a, s) == MemberFileName(host, b, t) ==> a == b
  {
    assert MemberFileName(host, a, s)[|host| + 1] == a;
    assert MemberFileName(host, b, t)[|host| + 1] == b;
  }

  /** The i-th register read names the i-th member. */
  lemma PlanRegisterRead(ids: seq<char>, i: nat)
    requires i < |ids|
    ensures Plan(ids)[7 + i] == ReadCrcErrors(ids[i])
  {
    PlanParts(ids, 0, |ids|);
    TakeFront(RegisterReads(ids), [Exit], |ids|);
    TakeAll(RegisterReads(ids));
    assert Plan(ids)[7 + i] == Plan(ids)[5..7 + |ids|][2 + i];
    RegisterReadsAt(ids, i);
  }

  /** When every wait succeeds, the whole plan is sent and `exit` is last. */
  lemma CompletesWithExit(rs: seq<string>)
    requires Completes(rs)
    ensures Sends(rs) == |Plan(Members(rs))|
    ensures Plan(Members(rs))[Sends(rs) - 1] == Exit
  {
    var ids := Members(rs);
    PlanParts(ids, 0, |ids| + 1);
    TakeAll(RegisterReads(ids) + [Exit]);
    assert Plan(ids)[7 + |ids|] == Plan(ids)[5..8 + |ids|][2 + |ids|];
  }

  /** The log is opened in append mode: what it held stays at its front,
      followed by the separator. */
  lemma LogKeepsOldContents(host: string, clock: nat -> string, rs: seq<string>, files: map<string, string>)
    requires Opened(rs)
    ensures var after := CapturedFiles(host, clock, rs, files);
            LogName(host) in after && OldLog(host, files) + Separator <= after[LogName(host)]
  {
    var log := LogName(host);
    var text := OldLog(host, files) + Separator + Logged(rs);
    var names := MemberNames(host, Members(rs), clock, Registers(rs));
    MemberNamesAreNotLog(host, Members(rs), clock, Registers(rs));
    WriteAllElsewhere(files[log := text], names, RegisterOutputs(rs), log);
    assert text[..|OldLog(host, files) + Separator|] == OldLog(host, files) + Separator;
  }

  /** After a complete run the log has gained the separator, the four status
      outputs and every register read, in that order. */
  lemma LogOnCompletion(host: string, clock: nat -> string, rs: seq<string>, files: map<string, string>)
    requires Completes(rs)
    ensures var after := CapturedFiles(host, clock, rs, files);
            LogName(host) in after &&
            after[LogName(host)] == OldLog(host, files) + Separator + Concat(rs[1..5]) + Concat(rs[7..7 + |Members(rs)|])
  {
    var log := LogName(host);
    var text := OldLog(host, files) + Separator + Logged(rs);
    var names := MemberNames(host, Members(rs), clock, Registers(rs));
    MemberNamesAreNotLog(host, Members(rs), clock, Registers(rs));
    WriteAllElsewhere(files[log := text], names, RegisterOutputs(rs), log);
    ReachesExit(rs);
  }

  /** A member file holds exactly its register read, unless a later read
      writes a file of the same name (the same member at the same timestamp). */
  lemma MemberFileHoldsItsRead(host: string, clock: nat -> string, rs: seq<string>, files: map<string, string>, i: nat)
    requires i < Registers(rs)
    requires forall j :: i < j < Registers(rs) ==>
               MemberFileName(host, Members(rs)[j], clock(j)) != MemberFileName(host, Members(rs)[i], clock(i))
    ensures var after := CapturedFiles(host, clock, rs, files);
            var name := MemberFileName(host, Members(rs)[i], clock(i));
            name in after && after[name] == rs[7 + i]
  {
    var ids, k := Members(rs), Registers(rs);
    var names := MemberNames(host, ids, clock, k);
    forall j | i < j < k
      ensures names[j] != names[i]
    {
      MemberNamesAt(host, ids, clock, k, i);
      MemberNamesAt(host, ids, clock, k, j);
    }
    var log := LogName(host);
    WriteAllLast(files[log := OldLog(host, files) + Separator + Logged(rs)], names, RegisterOutputs(rs), i);
    MemberNamesAt(host, ids, clock, k, i);
  }

  /** The files that exist afterwards: those that existed, and, once the log
      was opened, the log and the member file of every register read captured.
      Nothing is removed. */
  lemma CapturedFileNames(host: string, clock: nat -> string, rs: seq<string>, files: map<string, string>, name: string)
    ensures name in CapturedFiles(host, clock, rs, files) <==>
              name in files ||
              (Opened(rs) &&
               (name == LogName(host) ||
                exists i :: 0 <= i < Registers(rs) && name == MemberFileName(host, Members(rs)[i], clock(i))))
  {
    if Opened(rs) {
      var ids, k := Members(rs), Registers(rs);
      var names := MemberNames(host, ids, clock, k);
      var log := LogName(host);
      WriteAllKeys(files[log := OldLog(host, files) + Separator + Logged(rs)], names, RegisterOutputs(rs), name);
      forall i | 0 <= i < k
        ensures names[i] == MemberFileName(host, ids[i], clock(i))
      {
        MemberNamesAt(host, ids, clock, k, i);
      }
      if name in names {
        var i :| 0 <= i < |names| && names[i] == name;
        assert name == MemberFileName(host, ids[i], clock(i));
      }
    }
  }

  /** Files other than the log and the member files written keep their state. */
  lemma OtherFilesUntouched(host: string, clock: nat -> string, rs: seq<string>, files: map<string, string>, name: string)
    requires name != LogName(host)
    requires forall i :: 0 <= i < Registers(rs) ==> name != MemberFileName(host, Members(rs)[i], clock(i))
    ensures var after := CapturedFiles(host, clock, rs, files);
            (name in after <==> name in files) && (name in files ==> after[name] == files[name])
  {
    if Opened(rs) {
      var ids, k := Members(rs), Registers(rs);
      var names := MemberNames(host, ids, clock, k);
      forall i | 0 <= i < k
        ensures names[i] != name
      {
        MemberNamesAt(host, ids, clock, k, i);
      }
      var log := LogName(host);
      WriteAllElsewhere(files[log := OldLog(host, files) + Separator + Logged(rs)], names, RegisterOutputs(rs), name);
    }
  }

  // ---------------------------------------------------------------------
  // The procedure

  /** Send one command, wait for the prompt, append what came before it to the log. */
  method SendAndLog(c: Session, store: FileStore, log: string, cmd: Command) returns (captured: bool)
    modifies c, store
    ensures c.sent == old(c.sent) + [cmd]
    ensures captured <==> old(c.pending) != []
    ensures c.pending == if captured then old(c.pending)[1..] else old(c.pending)
    ensures store.files == if captured then old(store.files)[log := old(store.Contents(log)) + old(c.pending)[0]]
                           else old(store.files)
  {
    c.SendLine(cmd);
    var before := c.Expect();
    captured := before.Some?;
    if captured {
      store.Append(log, before.value);
    }
  }

  /** The log is opened for appending and a separator written to it. */
  method WriteSeparator(host: string, store: FileStore)
    modifies store
    ensures store.files == old(store.files)[LogName(host) := OldLog(host, old(store.files)) + Separator]
  {
    var log := LogName(host);
    ghost var log0 := store.Contents(log);
    store.Append(log, "\n\n\n\n");
    store.Append(log, "=======================================\n");
    assert log0 + "\n\n\n\n" + "=======================================\n" == log0 + Separator;
  }

  /** Sending the next status command extends the status commands sent. */
  lemma StatusSent(sent0: seq<Command>, k: nat)
    requires k < 4
    ensures sent0 + StatusCommands[..k] + [StatusCommands[k]] == sent0 + StatusCommands[..k + 1]
    ensures k == 0 ==> sent0 + StatusCommands[..k] == sent0
  {
    TakeStep(StatusCommands, k);
    AppendAssoc(sent0, StatusCommands[..k], [StatusCommands[k]]);
    if k == 0 {
      assert StatusCommands[..0] == [];
    }
  }

  /** The four status commands, each output appended to the log as it arrives. */
  method LogStatus(c: Session, store: FileStore, log: string) returns (ok: bool)
    requires log in store.files
    modifies c, store
    ensures ok <==> |old(c.pending)| >= 4
    ensures c.sent == old(c.sent) + StatusCommands[..Min(|old(c.pending)| + 1, 4)]
    ensures c.pending == old(c.pending)[Min(|old(c.pending)|, 4)..]
    ensures store.files == old(store.files)[log := old(store.Contents(log)) + Concat(old(c.pending)[..Min(|old(c.pending)|, 4)])]
  {
    ghost var rs, sent0, files0, text0 := c.pending, c.sent, store.files, store.Contents(log);
    UpdateSame(files0, log);
    assert text0 + Concat(rs[..0]) == text0;
    ok := SendAndLog(c, store, log, ShowClock);
    StatusSent(sent0, 0);
    if !ok {
      return;
    }
    AppendStep(text0, rs, 0);
    UpdateTwice(files0, log, text0, text0 + rs[0]);
    assert c.pending == rs[1..];
    ok := SendAndLog(c, store, log, ShowSwitch);
    StatusSent(sent0, 1);
    if !ok {
      return;
    }
    AppendStep(text0, rs, 1);
    UpdateTwice(files0, log, text0 + Concat(rs[..1]), text0 + Concat(rs[..1]) + rs[1]);
    assert c.pending == rs[2..];
    ok := SendAndLog(c, store, log, ShowStackPorts);
    StatusSent(sent0, 2);
    if !ok {
      return;
    }
    AppendStep(text0, rs, 2);
    UpdateTwice(files0, log, text0 + Concat(rs[..2]), text0 + Concat(rs[..2]) + rs[2]);
    assert c.pending == rs[3..];
    ok := SendAndLog(c, store, log, ShowStackPortsSummary);
    StatusSent(sent0, 3);
    if !ok {
      return;
    }
    AppendStep(text0, rs, 3);
    UpdateTwice(files0, log, text0 + Concat(rs[..3]), text0 + Concat(rs[..3]) + rs[3]);
    assert c.pending == rs[4..];
  }

  /** One register read: its output is appended to the log and written to the
      member's own file, named with the timestamp `stamp`. */
  method ReadRegister(host: string, stamp: string, c: Session, store: FileStore, id: char) returns (captured: bool)
    modifies c, store
    ensures c.sent == old(c.sent) + [ReadCrcErrors(id)]
    ensures captured <==> old(c.pending) != []
    ensures c.pending == if captured then old(c.pending)[1..] else old(c.pending)
    ensures store.files
         == if captured
            then old(store.files)[LogName(host) := old(store.Contents(LogName(host))) + old(c.pending)[0]]
                                 [MemberFileName(host, id, stamp) := old(c.pending)[0]]
            else old(store.files)
  {
    c.SendLine(ReadCrcErrors(id));
    var before := c.Expect();
    captured := before.Some?;
    if captured {
      store.Append(LogName(host), before.value);
      store.Overwrite(MemberFileName(host, id, stamp), before.value);
    }
  }

  /** The register loop of save_switch_output: one read per member, its output
      appended to the log and written to the member's own file. */
  method LogRegisters(host: string, clock: nat -> string, c: Session, store: FileStore, switches: seq<char>)
    returns (ok: bool)
    requires LogName(host) in store.files
    modifies c, store
    ensures ok <==> |old(c.pending)| >= |switches|
    ensures c.sent == old(c.sent) + RegisterReads(switches)[..Min(|old(c.pending)| + 1, |switches|)]
    ensures c.pending == old(c.pending)[Min(|old(c.pending)|, |switches|)..]
    ensures var k := Min(|old(c.pending)|, |switches|);
            store.files == WriteAll(old(store.files)[LogName(host) := old(store.Contents(LogName(host))) + Concat(old(c.pending)[..k])],
                                    MemberNames(host, switches, clock, k), old(c.pending)[..k])
  {
    ghost var rs, sent0, files0, text0 := c.pending, c.sent, store.files, store.Contents(LogName(host));
    var log := LogName(host);
    assert rs[..0] == [];
    assert text0 + Concat(rs[..0]) == text0;
    assert files0[log := text0] == files0;
    var i := 0;
    while i < |switches|
      invariant 0 <= i <= |switches| && i <= |rs|
      invariant c.pending == rs[i..]
      invariant c.sent == sent0 + RegisterReads(switches)[..i]
      invariant store.files == WriteAll(files0[log := text0 + Concat(rs[..i])],
                                        MemberNames(host, switches, clock, i), rs[..i])
    {
      var captured := ReadRegister(host, clock(i), c, store, switches[i]);
      RegisterReadsAt(switches, i);
      TakeStep(RegisterReads(switches), i);
      AppendAssoc(sent0, RegisterReads(switches)[..i], [ReadCrcErrors(switches[i])]);
      if !captured {
        return false;
      }
      RegisterStep(files0, host, text0, switches, clock, rs, i);
      i := i + 1;
    }
    return true;
  }

  /** get_switch_members, the register loop and `exit`: the part of
      save_switch_output after the status commands. `rs` holds every text the
      procedure captures, of which the first five are already consumed. */
  method LogMembers(host: string, clock: nat -> string, c: Session, store: FileStore,
                    ghost rs: seq<string>, ghost files0: map<string, string>) returns (ok: bool)
    requires Opened(rs) && |rs| >= 5 && c.pending == rs[5..]
    requires store.files == files0[LogName(host) := OldLog(host, files0) + Separator + Concat(rs[1..5])]
    modifies c, store
    ensures ok == Completes(rs)
    ensures 5 <= Sends(rs) && c.sent == old(c.sent) + Plan(Members(rs))[5..Sends(rs)]
    ensures c.pending == rs[Min(Sends(rs), |rs|)..]
    ensures store.files == CapturedFiles(host, clock, rs, files0)
  {
    ghost var sent0 := c.sent;
    var members := GetSwitchMembers(c);
    if members.None? {
      StopsInMembers(rs);
      CapturedFilesLogOnly(host, clock, rs, files0);
      return false;
    }
    assert members.value == Members(rs) && ReachesRegisters(rs);
    ok := FinishRegisters(host, clock, c, store, members.value, rs, files0, sent0);
  }

  /** The register loop and `exit`, once get_switch_members has found the
      members `switches` and its two commands are sent. */
  method FinishRegisters(host: string, clock: nat -> string, c: Session, store: FileStore, switches: seq<char>,
                         ghost rs: seq<string>, ghost files0: map<string, string>, ghost sent0: seq<Command>)
    returns (ok: bool)
    requires ReachesRegisters(rs) && switches == Members(rs) && c.pending == rs[7..]
    requires c.sent == sent0 + MemberCommands
    requires store.files == files0[LogName(host) := OldLog(host, files0) + Separator + Concat(rs[1..5])]
    modifies c, store
    ensures ok == Completes(rs)
    ensures c.sent == sent0 + Plan(Members(rs))[5..Sends(rs)]
    ensures c.pending == rs[Min(Sends(rs), |rs|)..]
    ensures store.files == CapturedFiles(host, clock, rs, files0)
  {
    RegisterFiles(host, clock, rs, files0);
    ok := LogRegisters(host, clock, c, store, switches);
    if !ok {
      StopsInRegisters(rs);
      AppendAssoc(sent0, MemberCommands, RegisterReads(switches)[..|rs| - 6]);
      return;
    }
    ReachesExit(rs);
    TakeAll(RegisterReads(switches));
    c.SendLine(Exit);
    var done := c.Expect();
    AppendAssoc(sent0 + MemberCommands, RegisterReads(switches), [Exit]);
    AppendAssoc(sent0, MemberCommands, RegisterReads(switches) + [Exit]);
    return done.Some?;
  }

  /** save_switch_output for `host`; `clock(i)` is the timestamp read for the
      i-th member. Returns false where the script stops with an exception. */
  method SaveSwitchOutput(host: string, clock: nat -> string, c: Session, store: FileStore) returns (ok: bool)
    modifies c, store
    ensures ok == Completes(old(c.pending))
    ensures c.sent == old(c.sent) + Plan(Members(old(c.pending)))[..Sends(old(c.pending))]
    ensures c.pending == old(c.pending)[Min(Sends(old(c.pending)), |old(c.pending)|)..]
    ensures store.files == CapturedFiles(host, clock, old(c.pending), old(store.files))
  {
    ghost var rs, sent0, files0 := c.pending, c.sent, store.files;
    var prompt := GetPrompt(c);
    if prompt.None? {
      StopsAtPrompt(rs);
      return false;
    }
    var log := LogName(host);
    WriteSeparator(host, store);
    ghost var separated := OldLog(host, files0) + Separator;
    assert store.Contents(log) == separated;
    ok := LogStatus(c, store, log);
    if !ok {
      StopsInStatus(rs);
      CapturedFilesLogOnly(host, clock, rs, files0);
      assert rs[1..][..|rs| - 1] == rs[1..];
      UpdateTwice(files0, log, separated, separated + Concat(rs[1..]));
      AppendAssoc(sent0, [Probe], StatusCommands[..|rs|]);
      assert c.sent == sent0 + Plan(Members(rs))[..Sends(rs)];
      assert store.files == CapturedFiles(host, clock, rs, files0);
      return;
    }
    assert rs[1..][..4] == rs[1..5];
    UpdateTwice(files0, log, separated, separated + Concat(rs[1..5]));
    TakeAll(StatusCommands);
    AppendAssoc(sent0, [Probe], StatusCommands);
    ok := LogMembers(host, clock, c, store, rs, files0);
    PlanAfterStatus(Members(rs), Sends(rs));
    AppendAssoc(sent0, [Probe] + StatusCommands, Plan(Members(rs))[5..Sends(rs)]);
  }
}
