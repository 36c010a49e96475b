/** get_prompt and get_switch_members: the switch's prompt, and the stack
    member numbers read from the output of `show switch`. */
module StackInventory {
  import opened Wrappers
  import opened Text
  import opened Commands
  import opened Terminal

  // ---------------------------------------------------------------------
  // The prompt

  /** The prompt derived from the text the switch printed before its '#':
      the last line of that text, with the '#' put back. The script indexes
      `splitlines()[-1]`, which fails on empty text. */
  function PromptFrom(before: string): (prompt: string)
    requires before != []
    ensures |prompt| >= 1 && prompt[|prompt| - 1] == '#'
    ensures NoLineBreak(prompt[..|prompt| - 1])
  {
    var lines := SplitLines(before);
    var last := lines[|lines| - 1];
    assert last in lines;
    assert (last + "#")[..|last|] == last;
    last + "#"
  }

  /** Whatever lines come first, all ended by the same terminator, the prompt
      is the name the switch printed last, followed by '#'. */
  lemma PromptFromLastLine(lines: seq<string>, t: string, name: string)
    requires IsTerminator(t)
    requires forall l :: l in lines ==> NoLineBreak(l)
    requires name != [] && NoLineBreak(name)
    ensures PromptFrom(JoinLines(lines, t) + name) == name + "#"
  {
    SplitLinesJoinLinesThen(lines, t, name);
    SplitLinesOneLine(name);
  }

  /** When the capture ends with a terminator, `splitlines()` drops the empty
      text after it, and the prompt is still the last line printed. */
  lemma PromptFromTerminatedLines(lines: seq<string>, t: string, name: string)
    requires IsTerminator(t)
    requires forall l :: l in lines ==> NoLineBreak(l)
    requires NoLineBreak(name)
    ensures JoinLines(lines + [name], t) != []
    ensures PromptFrom(JoinLines(lines + [name], t)) == name + "#"
  {
    var all := lines + [name];
    assert forall l :: l in all ==> l in lines || l == name;
    SplitLinesJoinLines(all, t);
    assert all[|all| - 1] == name;
  }

  /** get_prompt on a session: send an empty line, wait for '#', derive the
      prompt. None when the '#' never comes (a timeout) or nothing came before
      it (an IndexError). */
  method GetPrompt(c: Session) returns (prompt: Option<string>)
    modifies c
    ensures c.sent == old(c.sent) + [Probe]
    ensures c.pending == if old(c.pending) == [] then [] else old(c.pending)[1..]
    ensures prompt.Some? <==> old(c.pending) != [] && old(c.pending)[0] != []
    ensures prompt.Some? ==> prompt.value == PromptFrom(old(c.pending)[0])
  {
    c.SendLine(Probe);
    var before := c.Expect();
    if before.None? || before.value == [] {
      return None;
    }
    return Some(PromptFrom(before.value));
  }

  // ---------------------------------------------------------------------
  // Stack members: `re.match('.([0-9]) .*(ctive|tandby|ember).*$', line)`

  /** A role marker ("ctive", "tandby" or "ember") starts at index k. */
  predicate RoleAt(line: string, k: nat)
  {
    OccursAt(line, "ctive", k) || OccursAt(line, "tandby", k) || OccursAt(line, "ember", k)
  }

  /** The row test, as computed: any first character, a digit, a space, and a
      role marker somewhere after them. */
  predicate IsMemberRow(line: string)
    ensures IsMemberRow(line) ==> |line| >= 8
  {
    |line| >= 3 && IsDigit(line[1]) && line[2] == ' ' &&
    (Find(line, "ctive", 3).Some? || Find(line, "tandby", 3).Some? || Find(line, "ember", 3).Some?)
  }

  /** IsMemberRow is the pattern: a line of `splitlines()` holds no "\n", so the
      leading `.` takes any character and the `.*` parts take any text. */
  lemma IsMemberRowSpec(line: string)
    ensures IsMemberRow(line) ==>
              |line| >= 3 && IsDigit(line[1]) && line[2] == ' ' && exists k: nat :: 3 <= k && RoleAt(line, k)
    ensures (|line| >= 3 && IsDigit(line[1]) && line[2] == ' ' && exists k: nat :: 3 <= k && RoleAt(line, k)) ==>
              IsMemberRow(line)
  {
    var a, b, m := Find(line, "ctive", 3), Find(line, "tandby", 3), Find(line, "ember", 3);
    if a.Some? {
      assert RoleAt(line, a.value);
    } else if b.Some? {
      assert RoleAt(line, b.value);
    } else if m.Some? {
      assert RoleAt(line, m.value);
    }
  }

  /** Any first character, a digit, a space, any text and then a role
      marker make a row: "Active", "active", "Standby" and "Member" all match. */
  lemma MarkedRowIsMember(c: char, d: char, pad: string, marker: string, rest: string)
    requires IsDigit(d)
    requires marker == "ctive" || marker == "tandby" || marker == "ember"
    ensures var line := [c, d, ' '] + pad + marker + rest;
            IsMemberRow(line) && MemberIds([line]) == [d]
  {
    var line := [c, d, ' '] + pad + marker + rest;
    var k := 3 + |pad|;
    assert line[k..k + |marker|] == marker;
    assert RoleAt(line, k);
    IsMemberRowSpec(line);
  }

  /** The member numbers of the rows among `lines`, in row order. */
  function MemberIds(lines: seq<string>): (ids: seq<char>)
    ensures |ids| <= |lines|
    ensures forall i :: 0 <= i < |ids| ==> IsDigit(ids[i])
  {
    if lines == [] then []
    else if IsMemberRow(lines[0]) then [lines[0][1]] + MemberIds(lines[1..])
    else MemberIds(lines[1..])
  }

  /** The loop of get_switch_members over the lines of `show switch`. */
  method ParseMembers(showSwitch: string) returns (ids: seq<char>)
    ensures ids == MemberIds(SplitLines(showSwitch))
  {
    var lines := SplitLines(showSwitch);
    ids := [];
    var i := 0;
    while i < |lines|
      invariant 0 <= i <= |lines|
      invariant ids + MemberIds(lines[i..]) == MemberIds(lines)
    {
      assert lines[i..] == [lines[i]] + lines[i + 1..];
      if IsMemberRow(lines[i]) {
        ids := ids + [lines[i][1]];
      }
      i := i + 1;
    }
    assert lines[i..] == [];
  }

  /** Row order is kept: the members of a text are those of its first part
      followed by those of the rest. */
  lemma {:induction false} MemberIdsAppend(a: seq<string>, b: seq<string>)
    ensures MemberIds(a + b) == MemberIds(a) + MemberIds(b)
  {
    if a == [] {
      assert a + b == b;
    } else {
      assert (a + b)[1..] == a[1..] + b;
      MemberIdsAppend(a[1..], b);
    }
  }

  /** A number is reported exactly when some row carries it. */
  lemma {:induction false} MemberIdsFromRows(lines: seq<string>, d: char)
    ensures d in MemberIds(lines) <==>
              exists i :: 0 <= i < |lines| && IsMemberRow(lines[i]) && lines[i][1] == d
  {
    if lines != [] {
      MemberIdsFromRows(lines[1..], d);
      if exists i :: 0 <= i < |lines| && IsMemberRow(lines[i]) && lines[i][1] == d {
        var i :| 0 <= i < |lines| && IsMemberRow(lines[i]) && lines[i][1] == d;
        if i > 0 {
          assert IsMemberRow(lines[1..][i - 1]);
        }
      }
      if d in MemberIds(lines[1..]) {
        var i :| 0 <= i < |lines[1..]| && IsMemberRow(lines[1..][i]) && lines[1..][i][1] == d;
        assert IsMemberRow(lines[i + 1]);
      }
    }
  }

  /** A row without a role marker yields no number, even with a digit in place. */
  lemma NoRoleNoMember(line: string)
    requires forall k: nat :: !RoleAt(line, k)
    ensures MemberIds([line]) == []
  {
    IsMemberRowSpec(line);
  }

  /** get_switch_members on a session: derive the prompt, run `show switch`,
      keep the member numbers. None when either wait fails. */
  method GetSwitchMembers(c: Session) returns (members: Option<seq<char>>)
    modifies c
    ensures var rs := old(c.pending);
            members.Some? <==> |rs| >= 2 && rs[0] != []
    ensures var rs := old(c.pending);
            members.Some? ==> members.value == MemberIds(SplitLines(rs[1]))
    ensures var rs := old(c.pending);
            c.sent == old(c.sent) + (if rs != [] && rs[0] != [] then [Probe, ShowSwitch] else [Probe])
    ensures var rs := old(c.pending);
            c.pending == rs[Min(|rs|, if rs != [] && rs[0] != [] then 2 else 1)..]
  {
    var prompt := GetPrompt(c);
    if prompt.None? {
      return None;
    }
    c.SendLine(ShowSwitch);
    var before := c.Expect();
    if before.None? {
      return None;
    }
    var ids := ParseMembers(before.value);
    return Some(ids);
  }
}
