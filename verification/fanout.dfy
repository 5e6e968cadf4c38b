/**
 * The roster fan-out worker of scripts/aws/transmit-training-files.py.
 *
 * A worker owns a roster of node addresses.  Each pass of its polling loop
 * pops the front address (only while no payload copy is in flight), probes
 * the node, starts at most one asynchronous payload copy, hands the first
 * half of the roster to a freshly launched child worker once a node is
 * ready, and reaps child handles.  The ssh/scp transport and `poll()` are
 * oracles (a `World`); what the worker does is recorded in an append-only
 * run log of `Event`s.
 */
module FanOut {
  import opened Wrappers

  type Addr = string

  // ---------------------------------------------------------------------------
  // Roster file: readlines, strip, drop blanks; and '\n'.join for writing
  // ---------------------------------------------------------------------------

  /** The characters Python's `str.strip()` removes. */
  predicate IsSpace(c: char) {
    c == ' ' || ('\t' <= c <= '\r') || ('\U{1C}' <= c <= '\U{1F}') ||
    c == '\U{85}' || c == '\U{A0}' || c == '\U{1680}' ||
    ('\U{2000}' <= c <= '\U{200A}') || c == '\U{2028}' || c == '\U{2029}' ||
    c == '\U{202F}' || c == '\U{205F}' || c == '\U{3000}'
  }

  /** An address as it survives loading: non-empty, stripped, one line. */
  predicate WellFormedAddr(a: Addr) {
    a != [] && '\n' !in a && !IsSpace(a[0]) && !IsSpace(a[|a| - 1])
  }

  predicate AllWellFormed(r: seq<Addr>) {
    forall i :: 0 <= i < |r| ==> WellFormedAddr(r[i])
  }

  lemma WellFormedSlices(r: seq<Addr>, k: nat)
    requires AllWellFormed(r) && k <= |r|
    ensures AllWellFormed(r[..k]) && AllWellFormed(r[k..])
  {
    assert forall i :: 0 <= i < |r| - k ==> r[k..][i] == r[k + i];
  }

  /** The number of whitespace characters `s` starts with. */
  function LeadingSpaces(s: string): (n: nat)
    ensures n <= |s|
    ensures forall k :: 0 <= k < n ==> IsSpace(s[k])
    ensures n < |s| ==> !IsSpace(s[n])
  {
    if s != [] && IsSpace(s[0]) then 1 + LeadingSpaces(s[1..]) else 0
  }

  /** The number of whitespace characters `s` ends with. */
  function TrailingSpaces(s: string): (n: nat)
    ensures n <= |s|
    ensures forall k :: |s| - n <= k < |s| ==> IsSpace(s[k])
    ensures n < |s| ==> !IsSpace(s[|s| - n - 1])
  {
    if s != [] && IsSpace(s[|s| - 1]) then 1 + TrailingSpaces(s[..|s| - 1]) else 0
  }

  /**
   * `line.strip()`: `s` without its maximal runs of leading and trailing
   * whitespace; a line of whitespace only becomes empty.
   */
  function Strip(s: string): (r: string)
    ensures r == [] || (!IsSpace(r[0]) && !IsSpace(r[|r| - 1]))
    ensures r == [] <==> forall k :: 0 <= k < |s| ==> IsSpace(s[k])
    ensures r != [] ==>
      LeadingSpaces(s) + TrailingSpaces(s) < |s| &&
      r == s[LeadingSpaces(s)..|s| - TrailingSpaces(s)]
    ensures (s == [] || (!IsSpace(s[0]) && !IsSpace(s[|s| - 1]))) ==> r == s
  {
    var n := LeadingSpaces(s);
    if n < |s| then
      var t := TrailingSpaces(s);
      s[n..|s| - t]
    else []
  }

  /** Index of the first '\n' of `s`, or `|s|` when there is none. */
  function FirstNewline(s: string): (i: nat)
    ensures i <= |s|
    ensures forall k :: 0 <= k < i ==> s[k] != '\n'
    ensures i < |s| ==> s[i] == '\n'
  {
    if s == [] || s[0] == '\n' then 0 else 1 + FirstNewline(s[1..])
  }

  /** The lines of a file's contents, the '\n' separators removed. */
  function SplitLines(s: string): (r: seq<string>)
    ensures |r| >= 1
    ensures forall i :: 0 <= i < |r| ==> '\n' !in r[i]
    decreases |s|
  {
    var i := FirstNewline(s);
    if i == |s| then [s] else [s[..i]] + SplitLines(s[i + 1..])
  }

  /** `'\n'.join(r)` */
  function JoinLines(r: seq<string>): string {
    if r == [] then []
    else if |r| == 1 then r[0]
    else r[0] + "\n" + JoinLines(r[1..])
  }

  function StripAll(lines: seq<string>): (r: seq<string>)
    ensures |r| == |lines|
    ensures forall i :: 0 <= i < |r| ==> r[i] == Strip(lines[i])
  {
    if lines == [] then [] else [Strip(lines[0])] + StripAll(lines[1..])
  }

  /** `a` is `b` with some of its elements left out, the rest kept in order. */
  predicate Subsequence<T(==)>(a: seq<T>, b: seq<T>) {
    a == [] || (b != [] && if a[0] == b[0] then Subsequence(a[1..], b[1..]) else Subsequence(a, b[1..]))
  }

  /** `[line for line in lines if line]`: every non-empty line, in order, and nothing else. */
  function NonBlank(lines: seq<string>): (r: seq<string>)
    ensures |r| <= |lines|
    ensures forall i :: 0 <= i < |r| ==> r[i] != [] && r[i] in lines
    ensures Subsequence(r, lines)
    ensures forall l :: l != [] ==> multiset(r)[l] == multiset(lines)[l]
    ensures (forall i :: 0 <= i < |lines| ==> lines[i] != []) ==> r == lines
  {
    if lines == [] then []
    else
      assert lines == [lines[0]] + lines[1..];
      var rest := NonBlank(lines[1..]);
      if lines[0] == [] then rest
      else
        var r := [lines[0]] + rest;
        assert r[1..] == rest;
        r
  }

  /** The roster a worker reads from its roster file (lines 15-19). */
  function LoadRoster(content: string): (r: seq<Addr>)
    ensures AllWellFormed(r)
  {
    var lines := SplitLines(content);
    var stripped := StripAll(lines);
    StrippedLines(lines);
    NonBlankWellFormed(stripped);
    NonBlank(stripped)
  }

  /** Stripped single lines hold no newline and have no whitespace at either end. */
  lemma StrippedLines(lines: seq<string>)
    requires forall i :: 0 <= i < |lines| ==> '\n' !in lines[i]
    ensures var stripped := StripAll(lines);
      forall i :: 0 <= i < |stripped| ==>
        '\n' !in stripped[i] &&
        (stripped[i] == [] || (!IsSpace(stripped[i][0]) && !IsSpace(stripped[i][|stripped[i]| - 1])))
  {
    var stripped := StripAll(lines);
    forall i | 0 <= i < |stripped|
      ensures '\n' !in stripped[i]
    {
      assert '\n' !in lines[i];
    }
  }

  /** Keeping the non-empty lines of stripped, single lines gives well-formed addresses. */
  lemma NonBlankWellFormed(stripped: seq<string>)
    requires forall i :: 0 <= i < |stripped| ==> '\n' !in stripped[i]
    requires forall i :: 0 <= i < |stripped| ==>
      stripped[i] == [] || (!IsSpace(stripped[i][0]) && !IsSpace(stripped[i][|stripped[i]| - 1]))
    ensures AllWellFormed(NonBlank(stripped))
  {
    var r := NonBlank(stripped);
    forall i | 0 <= i < |r|
      ensures WellFormedAddr(r[i])
    {
      var j :| 0 <= j < |stripped| && stripped[j] == r[i];
    }
  }

  lemma {:induction false} SplitJoin(r: seq<string>)
    requires r != []
    requires forall i :: 0 <= i < |r| ==> '\n' !in r[i]
    ensures SplitLines(JoinLines(r)) == r
  {
    if |r| == 1 {
      assert FirstNewline(r[0]) == |r[0]|;
    } else {
      var s := JoinLines(r);
      assert s == r[0] + "\n" + JoinLines(r[1..]);
      assert s[|r[0]|] == '\n';
      assert forall k :: 0 <= k < |r[0]| ==> s[k] == r[0][k];
      assert FirstNewline(s) == |r[0]|;
      assert s[..|r[0]|] == r[0];
      assert s[|r[0]| + 1..] == JoinLines(r[1..]);
      SplitJoin(r[1..]);
    }
  }

  /**
   * What a parent writes with '\n'.join (lines 35-36 and 75-76) is read back
   * by loading (lines 15-19) as exactly the same roster.
   */
  lemma {:induction false} RosterRoundTrip(r: seq<Addr>)
    requires AllWellFormed(r)
    ensures LoadRoster(JoinLines(r)) == r
  {
    if r == [] {
      assert SplitLines(JoinLines(r)) == [[]];
      assert StripAll([[]]) == [[]];
    } else {
      SplitJoin(r);
      var stripped := StripAll(r);
      assert stripped == r;
    }
  }

  // ---------------------------------------------------------------------------
  // The worker
  // ---------------------------------------------------------------------------

  /** One line of the run log: a remote command issued or a decision taken. */
  datatype Event =
    | RemoveRoster(addr: Addr)                  // master reset: `ssh addr rm neighbors`
    | ProbeRoster(addr: Addr)                   // `ssh addr test -f neighbors`
    | AlreadyWorking(addr: Addr)
    | ProbePayload(addr: Addr)                  // `ssh addr test -f /mnt/testing.bin`
    | HasPayload(addr: Addr)
    | CopyPayload(addr: Addr)                   // asynchronous scp of the payload
    | CopyObserved(addr: Addr)                  // "Files have been sent"
    | SendRoster(addr: Addr, roster: seq<Addr>) // scp of the child's roster file
    | ProbeCredential(addr: Addr)               // `ssh addr test -f <pem>`
    | CopyCredential(addr: Addr)                // scp of the pem file
    | Launch(addr: Addr)                        // `ssh addr python3 <this file> false`
    | Exited(addr: Addr)                        // a child handle dropped by the reaper

  /** A spawned child worker: its node and its process handle. */
  datatype Child = Child(addr: Addr, handle: nat)

  /**
   * The transport, as oracles.  A probe is true when the remote `test -f`
   * exits with status 0 (an unreachable host reads as false); `poll` is the
   * process handle's `poll()`: None while running, Some(status) once exited.
   * Every answer may depend on the loop pass in which it is asked.
   */
  datatype World = World(
    rosterPresent: (Addr, nat) -> bool,
    payloadPresent: (Addr, nat) -> bool,
    credentialPresent: (Addr, nat) -> bool,
    poll: (nat, nat) -> Option<int>)

  /** The addresses an event takes out of the roster. */
  function Handed(e: Event): seq<Addr> {
    match e
    case ProbeRoster(a) => [a]
    case SendRoster(_, r) => r
    case _ => []
  }

  /**
   * What a log says so far: the addresses that have left the roster, in
   * the order they left; the payload copies started and those observed
   * as finished; and whether every roster file sent held well-formed
   * addresses.
   */
  datatype Tally = Tally(departed: seq<Addr>, copies: nat, observed: nat, rostersOk: bool)

  /** The tally after one more event. */
  function Count(t: Tally, e: Event): (u: Tally)
    ensures u.departed == t.departed + Handed(e)
  {
    match e
    case ProbeRoster(a) => t.(departed := t.departed + [a])
    case SendRoster(_, r) => t.(departed := t.departed + r, rostersOk := t.rostersOk && AllWellFormed(r))
    case CopyPayload(_) => t.(copies := t.copies + 1)
    case CopyObserved(_) => t.(observed := t.observed + 1)
    case _ => t
  }

  /** The tally of a whole log. */
  function TallyOf(log: seq<Event>): Tally {
    if log == [] then Tally([], 0, 0, true)
    else Count(TallyOf(log[..|log| - 1]), log[|log| - 1])
  }

  /** The master's reset pass: one remote `rm` of the roster file per listed address, in order. */
  function ResetCommands(r: seq<Addr>): (cmds: seq<Event>)
    ensures |cmds| == |r|
    ensures forall i :: 0 <= i < |r| ==> cmds[i] == RemoveRoster(r[i])
  {
    if r == [] then [] else ResetCommands(r[..|r| - 1]) + [RemoveRoster(r[|r| - 1])]
  }

  /**
   * Lines 73-76, 103: the child gets `remain[:mid]`, the worker keeps
   * `remain[mid:]`, with `mid = int(len(remain) / 2)`.
   */
  function FanOutSplit(remain: seq<Addr>): (halves: (seq<Addr>, seq<Addr>))
    ensures halves.0 + halves.1 == remain
    ensures |halves.0| == |remain| / 2 && |halves.1| == |remain| - |remain| / 2
    ensures |remain| >= 2 ==> halves.0 != [] && |halves.1| < |remain|
  {
    var mid := |remain| / 2;
    (remain[..mid], remain[mid..])
  }

  /** The children the reaper keeps (lines 105-111, as written: those whose `poll()` is not None). */
  function Survivors(cs: seq<Child>, w: World, t: nat): (r: seq<Child>)
    ensures |r| <= |cs|
    ensures forall c :: c in r <==> c in cs && w.poll(c.handle, t).Some?
  {
    if cs == [] then []
    else
      var rest := Survivors(cs[..|cs| - 1], w, t);
      var c := cs[|cs| - 1];
      if w.poll(c.handle, t).Some? then rest + [c] else rest
  }

  /** No address is popped off the roster in these log lines. */
  predicate NoPop(es: seq<Event>) {
    forall i :: 0 <= i < |es| ==> !es[i].ProbeRoster?
  }

  /** What a phase appends after a prefix, followed by what the next phase appends. */
  lemma NoPopAppend(a: seq<Event>, b: seq<Event>, k: nat)
    requires k <= |a| && NoPop(a[k..]) && NoPop(b)
    ensures NoPop((a + b)[k..])
  {
    assert (a + b)[k..] == a[k..] + b;
    NoPopJoin(a[k..], b);
  }

  lemma NoPopJoin(a: seq<Event>, b: seq<Event>)
    requires NoPop(a) && NoPop(b)
    ensures NoPop(a + b)
  {
    forall i | 0 <= i < |a + b| ensures !(a + b)[i].ProbeRoster? {
      if i >= |a| {
        assert (a + b)[i] == b[i - |a|];
      }
    }
  }

  /** The log lines the reaper prints, in order. */
  function ExitEvents(cs: seq<Child>, w: World, t: nat): (es: seq<Event>)
    ensures NoPop(es)
    ensures forall i :: 0 <= i < |es| ==> es[i].Exited?
  {
    if cs == [] then []
    else
      var rest := ExitEvents(cs[..|cs| - 1], w, t);
      var c := cs[|cs| - 1];
      if w.poll(c.handle, t).Some? then rest else rest + [Exited(c.addr)]
  }

  /** The tally of a log grows one event at a time. */
  lemma TallyOfSnoc(log: seq<Event>, e: Event)
    ensures TallyOf(log + [e]) == Count(TallyOf(log), e)
  {
    assert (log + [e])[..|log|] == log;
  }

  /** A log line that changes nothing a tally counts. */
  predicate Uncounted(e: Event) {
    e.RemoveRoster? || e.AlreadyWorking? || e.ProbePayload? || e.HasPayload? ||
    e.ProbeCredential? || e.CopyCredential? || e.Launch? || e.Exited?
  }

  /** Appending uncounted lines leaves the tally as it was. */
  lemma {:induction false} UncountedNeutral(log: seq<Event>, es: seq<Event>)
    requires forall i :: 0 <= i < |es| ==> Uncounted(es[i])
    ensures TallyOf(log + es) == TallyOf(log)
    decreases |es|
  {
    if es == [] {
      assert log + es == log;
    } else {
      var init := es[..|es| - 1];
      UncountedNeutral(log, init);
      SnocSplit(log, es);
      TallyOfSnoc(log + init, es[|es| - 1]);
    }
  }

  lemma SnocSplit(log: seq<Event>, es: seq<Event>)
    requires es != []
    ensures log + es == (log + es[..|es| - 1]) + [es[|es| - 1]]
  {
  }

  /** The reaper's log lines change nothing a tally counts. */
  lemma ExitEventsNeutral(log: seq<Event>, cs: seq<Child>, w: World, t: nat)
    ensures TallyOf(log + ExitEvents(cs, w, t)) == TallyOf(log)
  {
    UncountedNeutral(log, ExitEvents(cs, w, t));
  }

  /** The master's reset commands change nothing a tally counts. */
  lemma ResetNeutral(r: seq<Addr>)
    ensures TallyOf(ResetCommands(r)) == Tally([], 0, 0, true)
  {
    UncountedNeutral([], ResetCommands(r));
    assert [] + ResetCommands(r) == ResetCommands(r);
  }

  /**
   * The script's variables between two statements of its loop body:
   * `remain`, `childs`, `cur_remote`, `next_remote` and `proc_send_file`
   * (a process handle, numbered in spawn order), and the run log.
   */
  datatype State = State(
    remain: seq<Addr>,
    childs: seq<Child>,
    curRemote: Option<Addr>,
    nextRemote: Option<Addr>,
    sendProc: Option<nat>,
    nextHandle: nat,
    log: seq<Event>,
    tally: Tally)      // what `log` says so far, kept beside it

  /** A copy in flight or a ready node always concerns a probed node. */
  predicate Linked(s: State) {
    (s.sendProc.Some? ==> s.nextRemote.Some?) && (s.curRemote.Some? ==> s.nextRemote.Some?)
  }

  /**
   * What holds between any two phases of a pass, for a worker that loaded
   * `roster`:
   *  - every address leaves the roster exactly once, in roster order;
   *  - every roster file handed to a child holds well-formed addresses;
   *  - single flight: every payload copy but the outstanding one has been
   *    seen to finish;
   *  - handles are numbered below the next one to be issued.
   */
  ghost predicate Consistent(s: State, roster: seq<Addr>) {
    var t := s.tally;
    t.departed + s.remain == roster &&
    AllWellFormed(s.remain) &&
    t.rostersOk &&
    t.copies == t.observed + (if s.sendProc.Some? then 1 else 0) &&
    Linked(s) && (s.sendProc.Some? ==> s.sendProc.value < s.nextHandle) &&
    (forall i :: 0 <= i < |s.childs| ==> s.childs[i].handle < s.nextHandle)
  }

  /** What holds at the head of the loop: a ready node is never left beside a splittable roster. */
  ghost predicate Valid(s: State, roster: seq<Addr>) {
    Consistent(s, roster) && (s.curRemote.None? || |s.remain| < 2)
  }

  /** The tally kept beside the log is the tally of the log. */
  ghost predicate Faithful(s: State) {
    s.tally == TallyOf(s.log)
  }

  /** One more line of the run log. */
  function Emit(s: State, e: Event): (r: State)
    ensures r.log == s.log + [e] && r.tally == Count(s.tally, e)
    ensures r.(log := s.log, tally := s.tally) == s
  {
    s.(log := s.log + [e], tally := Count(s.tally, e))
  }

  lemma EmitFaithful(s: State, e: Event)
    requires Faithful(s)
    ensures Faithful(Emit(s, e))
  {
    TallyOfSnoc(s.log, e);
  }

  /** Lines 39-63: pop the front address, probe it, and start a copy if it lacks the payload. */
  function Select(s: State, w: World, t: nat): (r: (State, bool))
    ensures r.0.childs == s.childs && s.log <= r.0.log
    ensures Linked(s) ==> Linked(r.0)
    ensures s.sendProc.Some? || s.remain == [] ==> r == (s, false)
    ensures s.sendProc.None? && s.remain != [] ==>
      r.0.remain == s.remain[1..] && r.0.nextRemote == Some(s.remain[0]) &&
      |r.0.log| > |s.log| && r.0.log[|s.log|] == ProbeRoster(s.remain[0])
    ensures r.1 <==> s.sendProc.None? && s.remain != [] && w.rosterPresent(s.remain[0], t)
    // already working (lines 47-49): nothing more happens in this pass
    ensures r.1 ==>
      r.0.curRemote == s.curRemote && r.0.sendProc.None? && r.0.nextHandle == s.nextHandle &&
      r.0.log == s.log + [ProbeRoster(s.remain[0]), AlreadyWorking(s.remain[0])]
    // holds the payload (lines 55-57): ready at once, no copy
    ensures (s.sendProc.None? && s.remain != [] && !w.rosterPresent(s.remain[0], t) &&
             w.payloadPresent(s.remain[0], t)) ==>
      r.0.curRemote == Some(s.remain[0]) && r.0.sendProc.None? && r.0.nextHandle == s.nextHandle &&
      r.0.log == s.log + [ProbeRoster(s.remain[0]), ProbePayload(s.remain[0]), HasPayload(s.remain[0])]
    // lacks the payload (lines 58-63): a copy starts under the next handle
    ensures (s.sendProc.None? && s.remain != [] && !w.rosterPresent(s.remain[0], t) &&
             !w.payloadPresent(s.remain[0], t)) ==>
      r.0.curRemote == s.curRemote && r.0.sendProc == Some(s.nextHandle) &&
      r.0.nextHandle == s.nextHandle + 1 &&
      r.0.log == s.log + [ProbeRoster(s.remain[0]), ProbePayload(s.remain[0]), CopyPayload(s.remain[0])]
    ensures r.0.sendProc.Some? ==> r.0.sendProc == s.sendProc || r.0.sendProc == Some(s.nextHandle)
  {
    if s.sendProc.Some? || s.remain == [] then (s, false)
    else
      var a := s.remain[0];
      var popped := Emit(s.(nextRemote := Some(a), remain := s.remain[1..]), ProbeRoster(a));
      if w.rosterPresent(a, t) then
        (Emit(popped, AlreadyWorking(a)), true)
      else
        var probed := Emit(popped, ProbePayload(a));
        if w.payloadPresent(a, t) then
          (Emit(probed.(curRemote := Some(a)), HasPayload(a)), false)
        else
          (Emit(probed.(sendProc := Some(s.nextHandle), nextHandle := s.nextHandle + 1), CopyPayload(a)), false)
  }

  /**
   * Lines 65-68.  As written, the copy counts as finished when `poll()`
   * is None, that is while the scp is still running.
   */
  function CheckTransfer(s: State, w: World, t: nat): (r: State)
    requires Linked(s)
    ensures Linked(r)
    ensures r.remain == s.remain && r.childs == s.childs && r.nextRemote == s.nextRemote
    ensures if s.sendProc.Some? && w.poll(s.sendProc.value, t).None? then
        r.sendProc.None? && r.curRemote == s.nextRemote &&
        r.log == s.log + [CopyObserved(s.nextRemote.value)]
      else r == s
  {
    if s.sendProc.Some? && w.poll(s.sendProc.value, t).None? then
      Emit(s.(curRemote := s.nextRemote, sendProc := None), CopyObserved(s.nextRemote.value))
    else s
  }

  /**
   * Lines 70-103: when a node is ready and at least two addresses remain,
   * send it the first half of the roster, make sure it holds the
   * credential, launch a child worker there and keep the second half.
   * As written, the credential probe (line 84) asks `next_remote`.
   */
  function FanOutStep(s: State, w: World, t: nat): (r: State)
    requires Linked(s)
    ensures s.curRemote.Some? && |s.remain| >= 2 ==>
      var c := s.curRemote.value;
      r.curRemote.None? && r.childs == s.childs + [Child(c, s.nextHandle)] &&
      |r.log| > |s.log| && r.log[|s.log|] == SendRoster(c, s.remain[..|s.remain| / 2]) &&
      s.remain[..|s.remain| / 2] + r.remain == s.remain && |r.remain| < |s.remain|
    ensures s.curRemote.Some? && |s.remain| >= 2 ==>
      var (c, p) := (s.curRemote.value, s.nextRemote.value);
      r.log == s.log + [SendRoster(c, s.remain[..|s.remain| / 2]), ProbeCredential(p)] +
        (if w.credentialPresent(p, t) then [] else [CopyCredential(c)]) + [Launch(c)]
    ensures !(s.curRemote.Some? && |s.remain| >= 2) ==> r == s
    ensures s.log <= r.log && NoPop(r.log[|s.log|..])
  {
    if s.curRemote.Some? && |s.remain| >= 2 then
      var c := s.curRemote.value;
      var (kids, keep) := FanOutSplit(s.remain);
      var probe := s.nextRemote.value;
      var sent := Emit(Emit(s, SendRoster(c, kids)), ProbeCredential(probe));
      var armed := if w.credentialPresent(probe, t) then sent else Emit(sent, CopyCredential(c));
      Emit(armed, Launch(c)).(childs := s.childs + [Child(c, s.nextHandle)],
        nextHandle := s.nextHandle + 1, curRemote := None, remain := keep)
    else s
  }

  /** Lines 105-111: keep the children whose `poll()` is not None (as written), log the rest. */
  method Reap(s: State, w: World, t: nat) returns (r: State)
    ensures r == s.(childs := Survivors(s.childs, w, t), log := s.log + ExitEvents(s.childs, w, t))
  {
    var newChilds: seq<Child> := [];
    var log := s.log;
    var i := 0;
    while i < |s.childs|
      invariant 0 <= i <= |s.childs|
      invariant newChilds == Survivors(s.childs[..i], w, t)
      invariant log == s.log + ExitEvents(s.childs[..i], w, t)
    {
      ReapStep(s.log, s.childs, i, w, t);
      var c := s.childs[i];
      if w.poll(c.handle, t).None? {
        log := log + [Exited(c.addr)];
      } else {
        newChilds := newChilds + [c];
      }
      i := i + 1;
    }
    assert s.childs[..i] == s.childs;
    r := s.(childs := newChilds, log := log);
  }

  /** The reaper's lists after one more child. */
  lemma ReapStep(log: seq<Event>, cs: seq<Child>, i: nat, w: World, t: nat)
    requires i < |cs|
    ensures w.poll(cs[i].handle, t).None? ==>
      Survivors(cs[..i + 1], w, t) == Survivors(cs[..i], w, t) &&
      log + ExitEvents(cs[..i + 1], w, t) == (log + ExitEvents(cs[..i], w, t)) + [Exited(cs[i].addr)]
    ensures w.poll(cs[i].handle, t).Some? ==>
      Survivors(cs[..i + 1], w, t) == Survivors(cs[..i], w, t) + [cs[i]] &&
      log + ExitEvents(cs[..i + 1], w, t) == log + ExitEvents(cs[..i], w, t)
  {
    assert cs[..i + 1][..i] == cs[..i];
    if w.poll(cs[i].handle, t).None? {
      var es := ExitEvents(cs[..i], w, t);
      assert ExitEvents(cs[..i + 1], w, t) == es + [Exited(cs[i].addr)];
      assert log + (es + [Exited(cs[i].addr)]) == (log + es) + [Exited(cs[i].addr)];
    }
  }

  // ---------------------------------------------------------------------------
  // The phases keep the invariant
  // ---------------------------------------------------------------------------

  lemma SelectKeeps(s: State, w: World, t: nat, roster: seq<Addr>)
    requires Consistent(s, roster)
    ensures Consistent(Select(s, w, t).0, roster)
  {
    if s.sendProc.None? && s.remain != [] {
      var a := s.remain[0];
      assert s.remain == [a] + s.remain[1..];
      assert s.tally.departed + [a] + s.remain[1..] == roster;
    }
  }

  lemma SelectFaithful(s: State, w: World, t: nat)
    requires Faithful(s)
    ensures Faithful(Select(s, w, t).0)
  {
    if s.sendProc.None? && s.remain != [] {
      var a := s.remain[0];
      var s0 := s.(nextRemote := Some(a), remain := s.remain[1..]);
      var popped := Emit(s0, ProbeRoster(a));
      EmitFaithful(s0, ProbeRoster(a));
      if w.rosterPresent(a, t) {
        EmitFaithful(popped, AlreadyWorking(a));
      } else {
        var probed := Emit(popped, ProbePayload(a));
        EmitFaithful(popped, ProbePayload(a));
        if w.payloadPresent(a, t) {
          EmitFaithful(probed.(curRemote := Some(a)), HasPayload(a));
        } else {
          EmitFaithful(probed.(sendProc := Some(s.nextHandle), nextHandle := s.nextHandle + 1), CopyPayload(a));
        }
      }
    }
  }

  lemma CheckTransferKeeps(s: State, w: World, t: nat, roster: seq<Addr>)
    requires Consistent(s, roster)
    ensures Consistent(CheckTransfer(s, w, t), roster)
  {
  }

  lemma CheckTransferFaithful(s: State, w: World, t: nat)
    requires Linked(s) && Faithful(s)
    ensures Faithful(CheckTransfer(s, w, t))
  {
    if s.sendProc.Some? && w.poll(s.sendProc.value, t).None? {
      EmitFaithful(s.(curRemote := s.nextRemote, sendProc := None), CopyObserved(s.nextRemote.value));
    }
  }

  /** After a fan-out no ready node is left beside a splittable roster. */
  lemma FanOutKeeps(s: State, w: World, t: nat, roster: seq<Addr>)
    requires Consistent(s, roster)
    ensures Valid(FanOutStep(s, w, t), roster)
  {
    if s.curRemote.Some? && |s.remain| >= 2 {
      FanOutStepState(s, w, t);
      HandOffKeeps(s, FanOutStep(s, w, t), roster);
    }
  }

  /** Handing the first half of the roster to a new child keeps the invariant. */
  lemma HandOffKeeps(s: State, r: State, roster: seq<Addr>)
    requires Consistent(s, roster) && s.curRemote.Some?
    requires var kids := s.remain[..|s.remain| / 2];
      r.tally == s.tally.(departed := s.tally.departed + kids, rostersOk := s.tally.rostersOk && AllWellFormed(kids)) &&
      r.remain == s.remain[|s.remain| / 2..] && r.curRemote.None? &&
      r.sendProc == s.sendProc && r.nextRemote == s.nextRemote &&
      r.childs == s.childs + [Child(s.curRemote.value, s.nextHandle)] && r.nextHandle == s.nextHandle + 1
    ensures Valid(r, roster)
  {
    var k := |s.remain| / 2;
    WellFormedSlices(s.remain, k);
    assert s.remain[..k] + s.remain[k..] == s.remain;
    assert (s.tally.departed + s.remain[..k]) + s.remain[k..] == s.tally.departed + (s.remain[..k] + s.remain[k..]);
    forall i | 0 <= i < |r.childs| ensures r.childs[i].handle < r.nextHandle {
      if i < |s.childs| {
        assert r.childs[i] == s.childs[i];
      }
    }
  }

  /** A fan-out hands the first half of the roster to a new child and counts it as departed. */
  lemma FanOutStepState(s: State, w: World, t: nat)
    requires Linked(s) && s.curRemote.Some? && |s.remain| >= 2
    ensures var r := FanOutStep(s, w, t);
      var kids := s.remain[..|s.remain| / 2];
      r.tally == s.tally.(departed := s.tally.departed + kids, rostersOk := s.tally.rostersOk && AllWellFormed(kids)) &&
      r.remain == s.remain[|s.remain| / 2..] && r.curRemote.None? &&
      r.sendProc == s.sendProc && r.nextRemote == s.nextRemote &&
      r.childs == s.childs + [Child(s.curRemote.value, s.nextHandle)] && r.nextHandle == s.nextHandle + 1
  {
    var c := s.curRemote.value;
    var (kids, keep) := FanOutSplit(s.remain);
    var probe := s.nextRemote.value;
    var s1 := Emit(s, SendRoster(c, kids));
    var sent := Emit(s1, ProbeCredential(probe));
    assert sent.tally == s1.tally;
    var armed := if w.credentialPresent(probe, t) then sent else Emit(sent, CopyCredential(c));
    assert armed.tally == s1.tally;
  }

  lemma FanOutFaithful(s: State, w: World, t: nat)
    requires Linked(s) && Faithful(s)
    ensures Faithful(FanOutStep(s, w, t))
  {
    if s.curRemote.Some? && |s.remain| >= 2 {
      var c := s.curRemote.value;
      var (kids, keep) := FanOutSplit(s.remain);
      var probe := s.nextRemote.value;
      var s1 := Emit(s, SendRoster(c, kids));
      EmitFaithful(s, SendRoster(c, kids));
      var sent := Emit(s1, ProbeCredential(probe));
      EmitFaithful(s1, ProbeCredential(probe));
      var armed := if w.credentialPresent(probe, t) then sent else Emit(sent, CopyCredential(c));
      if !w.credentialPresent(probe, t) {
        EmitFaithful(sent, CopyCredential(c));
      }
      EmitFaithful(armed, Launch(c));
    }
  }

  lemma ReapKeeps(s: State, w: World, t: nat, roster: seq<Addr>)
    requires Valid(s, roster)
    ensures Valid(s.(childs := Survivors(s.childs, w, t), log := s.log + ExitEvents(s.childs, w, t)), roster)
  {
    var r := s.(childs := Survivors(s.childs, w, t), log := s.log + ExitEvents(s.childs, w, t));
    forall i | 0 <= i < |r.childs| ensures r.childs[i].handle < r.nextHandle {
      assert r.childs[i] in s.childs;
    }
  }

  lemma ReapFaithful(s: State, w: World, t: nat)
    requires Faithful(s)
    ensures Faithful(s.(childs := Survivors(s.childs, w, t), log := s.log + ExitEvents(s.childs, w, t)))
  {
    ExitEventsNeutral(s.log, s.childs, w, t);
  }

  /**
   * At the fan-out test (line 70) a ready node beside a splittable roster
   * is always the node just probed, so the credential probe of line 84,
   * which names `next_remote`, asks the node the child is launched on.
   */
  lemma ReadyIsNext(s: State, w: World, t: nat, roster: seq<Addr>)
    requires Valid(s, roster)
    ensures var r := CheckTransfer(Select(s, w, t).0, w, t);
      r.curRemote.Some? && |r.remain| >= 2 ==> r.curRemote == r.nextRemote
  {
    SelectKeeps(s, w, t, roster);
  }

  // ---------------------------------------------------------------------------
  // The script
  // ---------------------------------------------------------------------------

  /** Lines 29-34: the master's remote `rm` of the roster file on every listed node, in order. */
  method ResetNodes(remain: seq<Addr>) returns (log: seq<Event>)
    ensures log == ResetCommands(remain)
    ensures TallyOf(log) == Tally([], 0, 0, true)
  {
    log := [];
    var i := 0;
    while i < |remain|
      invariant 0 <= i <= |remain|
      invariant log == ResetCommands(remain[..i])
    {
      assert remain[..i + 1] == remain[..i] + [remain[i]];
      log := log + [RemoveRoster(remain[i])];
      i := i + 1;
    }
    assert remain[..i] == remain;
    ResetNeutral(remain);
  }

  /**
   * Lines 11-36: load the roster; the master also resets every listed
   * node and rewrites its own roster file, which reads back as the same
   * roster.
   */
  method Start(argv1: string, rosterFile: string) returns (s: State, localFile: string)
    ensures Valid(s, LoadRoster(rosterFile)) && Faithful(s)
    ensures s.remain == LoadRoster(rosterFile)
    ensures s.childs == [] && s.curRemote == None && s.nextRemote == None && s.sendProc == None
    ensures Strip(argv1) == "true" ==> s.log == ResetCommands(s.remain)
    ensures Strip(argv1) != "true" ==> s.log == [] && localFile == rosterFile
    ensures LoadRoster(localFile) == s.remain
  {
    var remain := LoadRoster(rosterFile);
    var isMaster := Strip(argv1) == "true";
    var log: seq<Event> := [];
    localFile := rosterFile;
    if isMaster {
      log := ResetNodes(remain);
      localFile := JoinLines(remain);
      RosterRoundTrip(remain);
    }
    s := State(remain, [], None, None, None, 0, log, Tally([], 0, 0, true));
    assert [] + remain == remain;
  }

  /** Lines 39-103 of a pass that is not cut short keep the invariant. */
  lemma PrepareKeeps(s: State, w: World, t: nat, roster: seq<Addr>)
    requires Valid(s, roster) && Faithful(s)
    ensures var r := FanOutStep(CheckTransfer(Select(s, w, t).0, w, t), w, t);
      Valid(r, roster) && Faithful(r)
  {
    var s1 := Select(s, w, t).0;
    SelectKeeps(s, w, t, roster);
    SelectFaithful(s, w, t);
    var s2 := CheckTransfer(s1, w, t);
    CheckTransferKeeps(s1, w, t, roster);
    CheckTransferFaithful(s1, w, t);
    ReadyIsNext(s, w, t, roster);
    FanOutKeeps(s2, w, t, roster);
    FanOutFaithful(s2, w, t);
  }

  /**
   * Lines 39-103: the log only grows and the roster only shrinks, strictly
   * when an address could be popped; no address is popped while a copy is
   * in flight.
   */
  lemma PrepareProgress(s: State, w: World, t: nat)
    requires Linked(s)
    ensures var r := FanOutStep(CheckTransfer(Select(s, w, t).0, w, t), w, t);
      s.log <= r.log && |r.remain| <= |s.remain| &&
      (s.sendProc.None? && s.remain != [] ==> |r.remain| < |s.remain|) &&
      (s.sendProc.Some? ==> NoPop(r.log[|s.log|..]))
  {
    var s1 := Select(s, w, t).0;
    var s2 := CheckTransfer(s1, w, t);
    var r := FanOutStep(s2, w, t);
    LogGrows(s.log, s2.log, r.log);
    if s.sendProc.Some? {
      assert s1 == s;
      assert NoPop(s2.log[|s.log|..]);
      NoPopChain(s.log, s2.log, r.log);
    }
  }

  /** A log that grew twice grew. */
  lemma LogGrows(a: seq<Event>, b: seq<Event>, c: seq<Event>)
    requires a <= b <= c
    ensures a <= c
  {
  }

  /** Two runs of log lines that pop nothing, one after the other, pop nothing. */
  lemma NoPopChain(a: seq<Event>, b: seq<Event>, c: seq<Event>)
    requires a <= b <= c && NoPop(b[|a|..]) && NoPop(c[|b|..])
    ensures NoPop(c[|a|..])
  {
    forall i | 0 <= i < |c| - |a| ensures !c[|a|..][i].ProbeRoster? {
      if |a| + i < |b| {
        assert c[|a|..][i] == b[|a|..][i];
      } else {
        assert c[|a|..][i] == c[|b|..][|a| + i - |b|];
      }
    }
  }

  /**
   * One pass of the loop body (lines 39-113) at clock `t`; an address
   * whose node is already working ends the pass early (line 49).
   */
  method Pass(s: State, w: World, t: nat, ghost roster: seq<Addr>) returns (r: State)
    requires Valid(s, roster) && Faithful(s)
    ensures Valid(r, roster) && Faithful(r)
    ensures s.log <= r.log
    ensures |r.remain| <= |s.remain|
    ensures s.sendProc.None? && s.remain != [] ==> |r.remain| < |s.remain|
    ensures s.sendProc.Some? ==> NoPop(r.log[|s.log|..])
  {
    var (s1, skipped) := Select(s, w, t);
    if skipped {
      SelectKeeps(s, w, t, roster);
      SelectFaithful(s, w, t);
      r := s1;
      return;
    }
    var s2 := CheckTransfer(s1, w, t);
    var s3 := FanOutStep(s2, w, t);
    r := Reap(s3, w, t);
    PassKeeps(s, w, t, roster);
  }

  /** A pass that is not cut short keeps the state valid and makes progress. */
  lemma PassKeeps(s: State, w: World, t: nat, roster: seq<Addr>)
    requires Valid(s, roster) && Faithful(s)
    ensures var s3 := FanOutStep(CheckTransfer(Select(s, w, t).0, w, t), w, t);
      var r := s3.(childs := Survivors(s3.childs, w, t), log := s3.log + ExitEvents(s3.childs, w, t));
      Valid(r, roster) && Faithful(r) && s.log <= r.log && |r.remain| <= |s.remain| &&
      (s.sendProc.None? && s.remain != [] ==> |r.remain| < |s.remain|) &&
      (s.sendProc.Some? ==> NoPop(r.log[|s.log|..]))
  {
    var s3 := FanOutStep(CheckTransfer(Select(s, w, t).0, w, t), w, t);
    PrepareKeeps(s, w, t, roster);
    PrepareProgress(s, w, t);
    ReapKeeps(s3, w, t, roster);
    ReapFaithful(s3, w, t);
    if s.sendProc.Some? {
      NoPopAppend(s3.log, ExitEvents(s3.childs, w, t), |s.log|);
    }
  }

  /**
   * The loop `while childs or remain` (line 38), observed for at most
   * `fuel` passes.  It stops early exactly when nothing remains to hand
   * out and no child handle is held, and then the log shows every address
   * of the roster leaving it, in roster order.
   */
  method Run(argv1: string, rosterFile: string, w: World, fuel: nat) returns (s: State, finished: bool)
    ensures Valid(s, LoadRoster(rosterFile)) && Faithful(s)
    ensures finished <==> s.remain == [] && s.childs == []
    ensures finished ==> TallyOf(s.log).departed == LoadRoster(rosterFile)
  {
    var localFile;
    s, localFile := Start(argv1, rosterFile);
    ghost var roster := LoadRoster(rosterFile);
    var t := 0;
    while (|s.childs| > 0 || |s.remain| > 0) && t < fuel
      invariant Valid(s, roster) && Faithful(s)
      decreases fuel - t
    {
      s := Pass(s, w, t, roster);
      t := t + 1;
    }
    finished := |s.childs| == 0 && |s.remain| == 0;
  }
}
