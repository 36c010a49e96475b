/** The reachability check of ping_check: which platform it runs the ping
    on, and how it reads the ping summary. The platform name and the lines
    the ping prints are parameters. */
module Reachability {
  import opened Wrappers
  import opened Text

  const PacketsWord: string := "Packets"
  const SentWord: string := "Sent"
  const ReceivedLabel: string := "Received = "

  // ---------------------------------------------------------------------
  // The platform test `re.match('.*cygwin.*', platform, re.IGNORECASE)`

  /** The pattern matches exactly when the platform name, lower-cased,
      contains "cygwin" before any "\n": the leading `.*` cannot cross a
      newline, and the trailing one may match nothing. */
  function IsCygwin(platform: string): (r: bool)
    ensures r ==> exists k: nat :: OccursAt(Lower(BeforeNewline(platform)), "cygwin", k)
    ensures (exists k: nat :: OccursAt(Lower(BeforeNewline(platform)), "cygwin", k)) ==> r
  {
    Find(Lower(BeforeNewline(platform)), "cygwin", 0).Some?
  }

  // ---------------------------------------------------------------------
  // The summary pattern `.*Packets.*Sent.*Received = ([0-9]).*`

  /** "Received = " and a digit start at index r of s. */
  predicate ReceivedAt(s: string, r: nat)
  {
    OccursAt(s, ReceivedLabel, r) && r + |ReceivedLabel| < |s| && IsDigit(s[r + |ReceivedLabel|])
  }

  /** The pattern matches the text s (which holds no "\n") with "Received = "
      taken at index r: some "Packets" is followed by some "Sent" that is
      followed by this "Received = " and a digit. */
  ghost predicate SummaryAt(s: string, r: nat)
  {
    ReceivedAt(s, r) &&
    exists p: nat, q: nat :: OccursAt(s, PacketsWord, p) && OccursAt(s, SentWord, q) &&
                   p + |PacketsWord| <= q && q + |SentWord| <= r
  }

  /** The last index in [lo, hi) where "Received = " and a digit start. */
  function LastReceived(s: string, lo: nat, hi: nat): (r: Option<nat>)
    ensures r.Some? ==> lo <= r.value < hi && ReceivedAt(s, r.value)
    ensures forall k :: lo <= k < hi && (r.None? || r.value < k) ==> !ReceivedAt(s, k)
    decreases hi
  {
    if hi <= lo then None
    else if ReceivedAt(s, hi - 1) then Some(hi - 1)
    else LastReceived(s, lo, hi - 1)
  }

  /** Where the greedy match takes "Received = ": after the first "Sent" that
      follows the first "Packets", the last "Received = " with a digit. */
  function SummaryIndex(s: string): (r: Option<nat>)
    ensures r.Some? ==> ReceivedAt(s, r.value)
  {
    match Find(s, PacketsWord, 0)
    case None => None
    case Some(p) =>
      match Find(s, SentWord, p + |PacketsWord|)
      case None => None
      case Some(q) => LastReceived(s, q + |SentWord|, |s|)
  }

  /** SummaryIndex finds a match exactly when the pattern matches, and then
      the one whose "Received = " comes last, as greedy `.*` backtracking does. */
  lemma SummaryIndexSpec(s: string)
    ensures SummaryIndex(s).None? <==> forall k: nat :: !SummaryAt(s, k)
    ensures SummaryIndex(s).Some? ==>
              SummaryAt(s, SummaryIndex(s).value) &&
              forall k: nat :: SummaryAt(s, k) ==> k <= SummaryIndex(s).value
  {
    match Find(s, PacketsWord, 0)
    case None =>
    case Some(p) =>
      match Find(s, SentWord, p + |PacketsWord|)
      case None =>
      case Some(q) =>
        var lo := q + |SentWord|;
        forall k: nat | SummaryAt(s, k) ensures lo <= k < |s| {
          var p': nat, q': nat :| OccursAt(s, PacketsWord, p') && OccursAt(s, SentWord, q') &&
                        p' + |PacketsWord| <= q' && q' + |SentWord| <= k;
          assert p <= p';
          assert q <= q';
        }
        match LastReceived(s, lo, |s|)
        case None =>
        case Some(r) =>
          assert OccursAt(s, PacketsWord, p) && OccursAt(s, SentWord, q);
          assert SummaryAt(s, r);
  }

  /** The digit ping_check reads from one line of ping output, if the line matches. */
  function SummaryDigit(line: string): (d: Option<char>)
    ensures d.Some? ==> IsDigit(d.value)
  {
    var s := BeforeNewline(line);
    match SummaryIndex(s)
    case None => None
    case Some(r) =>
      SummaryIndexSpec(s);
      Some(s[r + |ReceivedLabel|])
  }

  /** Line i is the first line of the ping output that matches the summary pattern. */
  predicate DecidesAt(lines: seq<string>, i: int)
  {
    0 <= i < |lines| && SummaryDigit(lines[i]).Some? &&
    forall j :: 0 <= j < i ==> SummaryDigit(lines[j]).None?
  }

  lemma DecidesAtUnique(lines: seq<string>, i: int, i': int)
    ensures DecidesAt(lines, i) && DecidesAt(lines, i') ==> i == i'
  {
  }

  /** ping_check: off Cygwin the host counts as unreachable; otherwise the first
      summary line decides, reachable iff its received count does not start
      with '0', and output without a summary line means unreachable. */
  method PingCheck(platform: string, pingOutput: seq<string>) returns (reachable: bool)
    ensures !IsCygwin(platform) ==> !reachable
    ensures IsCygwin(platform) ==>
              (reachable <==> exists i :: DecidesAt(pingOutput, i) && SummaryDigit(pingOutput[i]) != Some('0'))
    ensures (forall i :: 0 <= i < |pingOutput| ==> SummaryDigit(pingOutput[i]).None?) ==> !reachable
  {
    if !IsCygwin(platform) {
      return false;
    }
    var i := 0;
    while i < |pingOutput|
      invariant 0 <= i <= |pingOutput|
      invariant forall j :: 0 <= j < i ==> SummaryDigit(pingOutput[j]).None?
    {
      var d := SummaryDigit(pingOutput[i]);
      if d.Some? {
        assert DecidesAt(pingOutput, i);
        forall i' | DecidesAt(pingOutput, i') ensures i' == i {
          DecidesAtUnique(pingOutput, i, i');
        }
        return d.value != '0';
      }
      i := i + 1;
    }
    return false;
  }
}
