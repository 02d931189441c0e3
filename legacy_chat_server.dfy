/**
 * The older server (the default-package `ChatServer`): the same handshake,
 * announcement and message loop as the newer one, with literal tags, no
 * validation of the name, the `MESSAGE<sender>...` framing, and a way out
 * that removes the handle without telling anybody.
 */
module LegacyChatServer {
  import opened JavaLang
  import opened ChatConstants
  import opened HandleRegistry
  import opened Protocol

  /** The port the server listens on, written as a literal. */
  const PORT: int := 9001

  /** Both revisions listen on the same port. */
  lemma SamePortAsNewerServer()
    ensures PORT == APP_PORT
  {
  }

  /** `MESSAGE<sender>: <body>`, `MESSAGE<sender>>><recipient><body>` and `ERROR: <text>`. */
  const Frames: Framing := Framing("MESSAGE", ": ", ">>", "ERROR: ")

  /** The framing with the space after the tag that the older client's `substring(8)` expects. */
  const CorrectedFrames: Framing := Framing("MESSAGE ", ": ", ">>", "ERROR: ")

  /** The lines the older message loop prints, spelled out the way it concatenates them. */
  lemma FramesAsSent(name: string, recipient: string, body: string)
    ensures BroadcastLine(Frames, name, body) == "MESSAGE" + name + ": " + body
    ensures DirectLine(Frames, name, recipient, body) == "MESSAGE" + name + ">>" + recipient + body
    ensures NotFoundLine(Frames, recipient) == "ERROR: User '" + recipient + "' not found."
    ensures InvalidLine(Frames) == "ERROR: Invalid P2P message format."
  {
  }

  /** The corrected framing differs only in the space after the tag. */
  lemma CorrectedFramesAsSent(name: string, recipient: string, body: string)
    ensures BroadcastLine(CorrectedFrames, name, body) == "MESSAGE " + name + ": " + body
    ensures DirectLine(CorrectedFrames, name, recipient, body) == "MESSAGE " + name + ">>" + recipient + body
    ensures NotFoundLine(CorrectedFrames, recipient) == NotFoundLine(Frames, recipient)
    ensures InvalidLine(CorrectedFrames) == InvalidLine(Frames)
  {
  }

  const SUBMITNAME: string := "SUBMITNAME"
  const NAMEACCEPTED: string := "NAMEACCEPTED"
  const USERLIST: string := "USERLIST"

  /**
   * The handshake over `rs`, starting with `name` in the field: prompt,
   * read; a null read ends it; any name not yet registered (the empty
   * name and "null" included) is registered; a taken one stays in the
   * field and is prompted for again. A read that throws leaves the field
   * as it was.
   */
  function NameLoop(writers: map<string, Writer>, rs: seq<Read>, name: Option<string>): (h: Handshake)
    ensures h.consumed <= |rs|
    ensures h.outcome == Accepted || h.outcome == Ended || h.outcome == Waiting || h.outcome.Failed?
    ensures h.outcome == Accepted ==>
              h.consumed >= 1 && h.name.Some? && rs[h.consumed - 1] == Line(h.name.value) && h.name.value !in writers
    ensures h.outcome == Ended ==> h.name == None
    ensures h.outcome == Waiting ==> h.consumed == |rs|
    decreases |rs|
  {
    if rs == [] then Handshake(Waiting, name, [SUBMITNAME], 0)
    else match rs[0]
      case EndOfStream => Handshake(Ended, None, [SUBMITNAME], 1)
      case ReadFailed(socketError) => Handshake(Failed(socketError), name, [SUBMITNAME], 1)
      case Line(s) =>
        if s !in writers then Handshake(Accepted, Some(s), [SUBMITNAME], 1)
        else Prompted(SUBMITNAME, NameLoop(writers, rs[1..], Some(s)))
  }

  /** A round that prompts again moves one prompt and one read from the rest of the loop to the rounds behind. */
  lemma RetryShifts(writers: map<string, Writer>, rs: seq<Read>, name: Option<string>, sent: seq<string>, k: nat)
    requires rs != [] && rs[0].Line? && rs[0].text in writers
    ensures Shift(sent, k, NameLoop(writers, rs, name))
         == Shift(sent + [SUBMITNAME], k + 1, NameLoop(writers, rs[1..], Some(rs[0].text)))
  {
  }

  /**
   * The handshake registers the name read at position `i` exactly when
   * that name is free and every read before it was a taken name; nothing
   * about the name itself is checked.
   */
  lemma {:induction false} AcceptsFirstFreeName(writers: map<string, Writer>, rs: seq<Read>, name: Option<string>, i: nat)
    requires i < |rs|
    ensures (NameLoop(writers, rs, name).outcome == Accepted && NameLoop(writers, rs, name).consumed == i + 1)
            <==> (rs[i].Line? && rs[i].text !in writers
                  && forall j :: 0 <= j < i ==> rs[j].Line? && rs[j].text in writers)
    decreases i
  {
    if i > 0 && rs[0].Line? && rs[0].text in writers {
      AcceptsFirstFreeName(writers, rs[1..], Some(rs[0].text), i - 1);
      assert forall j :: 0 <= j < i - 1 ==> rs[1..][j] == rs[j + 1];
      if forall j :: 0 <= j < i - 1 ==> rs[1..][j].Line? && rs[1..][j].text in writers {
        forall j | 0 <= j < i
          ensures rs[j].Line? && rs[j].text in writers
        {
          if j > 0 { assert rs[j] == rs[1..][j - 1]; }
        }
      }
    }
  }

  /** The names the newer server refuses or prompts again for are registered here when free. */
  lemma EmptyAndNullNamesAccepted(writers: map<string, Writer>, s: string, rest: seq<Read>)
    requires s == "" || s == "null"
    requires s !in writers
    ensures NameLoop(writers, [Line(s)] + rest, None) == Handshake(Accepted, Some(s), [SUBMITNAME], 1)
  {
  }

  /** The handshake prompts once per read it takes, and once more when it ends waiting for a read. */
  lemma {:induction false} HandshakeSends(writers: map<string, Writer>, rs: seq<Read>, name: Option<string>)
    ensures var h := NameLoop(writers, rs, name);
            h.sent == Repeat(SUBMITNAME, if h.outcome == Waiting then h.consumed + 1 else h.consumed)
    decreases |rs|
  {
    if rs != [] && rs[0].Line? && rs[0].text in writers {
      var h := NameLoop(writers, rs[1..], Some(rs[0].text));
      HandshakeSends(writers, rs[1..], Some(rs[0].text));
      RepeatCons(SUBMITNAME, if h.outcome == Waiting then h.consumed + 1 else h.consumed);
    }
  }

  /** The second `put` after acceptance finds the name already mapped to the same writer, and changes nothing. */
  lemma SecondPutUnchanged(writers: map<string, Writer>, name: string, self: Writer)
    requires name in writers && writers[name] == self
    ensures writers[name := self] == writers
  {
  }

  /** The outcome of the whole session: the handshake's, or how the message loop ended. */
  function SessionOutcome(writers: map<string, Writer>, rs: seq<Read>, name: Option<string>): Outcome
  {
    var h := NameLoop(writers, rs, name);
    if h.outcome == Accepted then Stop(rs[h.consumed..]) else h.outcome
  }

  /** The registry after the session with writer `self`, removing the name field's handle on the way out. */
  function SessionWriters(writers: map<string, Writer>, self: Writer, rs: seq<Read>, name: Option<string>): map<string, Writer>
  {
    var h := NameLoop(writers, rs, name);
    var registered := if h.outcome == Accepted then writers[h.name.value := self] else writers;
    if SessionOutcome(writers, rs, name) == Waiting then registered else WithoutHandle(registered, h.name)
  }

  /** A session that registered its name and then ended leaves the registry as it found it. */
  lemma FinishedSessionLeavesNoTrace(writers: map<string, Writer>, self: Writer, rs: seq<Read>, name: Option<string>)
    requires NameLoop(writers, rs, name).outcome == Accepted
    requires SessionOutcome(writers, rs, name) != Waiting
    ensures SessionWriters(writers, self, rs, name) == writers
  {
    var h := NameLoop(writers, rs, name);
    assert writers[h.name.value := self] - {h.name.value} == writers;
  }

  /** A null read during the handshake leaves the registry as it found it. */
  lemma EndedHandshakeKeepsRegistry(writers: map<string, Writer>, self: Writer, rs: seq<Read>, name: Option<string>)
    requires NameLoop(writers, rs, name).outcome == Ended
    ensures SessionWriters(writers, self, rs, name) == writers
  {
  }

  /**
   * As in the newer server, a name that lost a collision stays in the
   * field, and when the next read throws the way out removes the other
   * session's handle.
   */
  lemma LostCandidateEvictsOwner(writers: map<string, Writer>, self: Writer, taken: string, socketError: bool)
    requires taken in writers
    ensures SessionWriters(writers, self, [Line(taken), ReadFailed(socketError)], None) == writers - {taken}
  {
    var rs := [Line(taken), ReadFailed(socketError)];
    assert rs[1..] == [ReadFailed(socketError)];
    var h := NameLoop(writers, rs, None);
    assert NameLoop(writers, rs[1..], Some(taken)).outcome == Failed(socketError);
    assert h.outcome == Failed(socketError) && h.name == Some(taken);
  }

  /** The registry after the session when the way out removes only the session's own entry, `remove(name, out)`. */
  function SessionWritersOwnEntry(writers: map<string, Writer>, self: Writer, rs: seq<Read>, name: Option<string>): map<string, Writer>
  {
    var h := NameLoop(writers, rs, name);
    var registered := if h.outcome == Accepted then writers[h.name.value := self] else writers;
    if SessionOutcome(writers, rs, name) == Waiting then registered else WithoutEntry(registered, h.name, self)
  }

  /** With only `remove(name, out)` on the way out, a name that lost a collision leaves its owner registered. */
  lemma LostCandidateKeepsOwner(writers: map<string, Writer>, self: Writer, taken: string, socketError: bool)
    requires taken in writers && writers[taken] != self
    ensures SessionWritersOwnEntry(writers, self, [Line(taken), ReadFailed(socketError)], None) == writers
  {
    var rs := [Line(taken), ReadFailed(socketError)];
    assert rs[1..] == [ReadFailed(socketError)];
    var h := NameLoop(writers, rs, None);
    assert NameLoop(writers, rs[1..], Some(taken)).outcome == Failed(socketError);
    assert h.outcome == Failed(socketError) && h.name == Some(taken);
  }

  /**
   * Removing only the session's own entry never takes a handle from a
   * session using another writer, and a session that ended leaves the
   * registry as it found it.
   */
  lemma OwnEntryCleanupKeepsOthers(writers: map<string, Writer>, self: Writer, rs: seq<Read>, name: Option<string>)
    requires self !in writers.Values
    ensures var r := SessionWritersOwnEntry(writers, self, rs, name);
            (forall k :: k in writers ==> k in r && r[k] == writers[k])
            && (SessionOutcome(writers, rs, name) != Waiting ==> r == writers)
  {
    var h := NameLoop(writers, rs, name);
    if h.outcome == Accepted {
      assert writers[h.name.value := self] - {h.name.value} == writers;
    }
  }

  class Handler {
    /** The registry all handlers share (`userWriters`). */
    const reg: Registry
    /** This connection's writer, `out`. */
    const out: Writer
    /** The `name` field: the last name read, or null. */
    var name: Option<string>
    /** What `in.readLine()` will return from now on. */
    var pending: seq<Read>

    constructor (reg: Registry, out: Writer, input: seq<Read>)
      ensures this.reg == reg && this.out == out
      ensures name == None && pending == input
    {
      this.reg := reg;
      this.out := out;
      name := None;
      pending := input;
    }

    /**
     * The name loop: the outcome, the field and the reads left are those
     * of `NameLoop`; the registry gains the accepted name under `out` and
     * is otherwise untouched; only `out` prints, and it prints the lines
     * `NameLoop` sends (`SentSoFar`).
     */
    method AwaitName() returns (outcome: Outcome)
      modifies this, reg
      ensures var h := NameLoop(old(reg.writers), old(pending), old(name));
              outcome == h.outcome && name == h.name && pending == old(pending)[h.consumed..]
              && reg.writers == (if outcome == Accepted then old(reg.writers)[h.name.value := out] else old(reg.writers))
              && SentSoFar(old(reg.printed), reg.printed, out, h.sent)
      ensures Injective(old(reg.writers)) && out !in old(reg.writers).Values ==> Injective(reg.writers)
    {
      ghost var h0 := NameLoop(reg.writers, pending, name);
      ghost var start := reg.printed;
      ghost var sent: seq<string> := [];
      ghost var k: nat := 0;
      while true
        invariant k <= |old(pending)| && pending == old(pending)[k..]
        invariant reg.writers == old(reg.writers)
        invariant Shift(sent, k, NameLoop(reg.writers, pending, name)) == h0
        invariant SentSoFar(start, reg.printed, out, sent)
        decreases |pending|
      {
        ghost var before := reg.printed;
        reg.Println(out, SUBMITNAME);
        SendOne(start, before, reg.printed, out, sent, SUBMITNAME);
        if pending == [] {
          return Waiting;
        }
        ghost var rs, field := pending, name;
        var r := pending[0];
        pending := pending[1..];
        match r
        case EndOfStream =>
          name := None;
          return Ended;
        case ReadFailed(socketError) =>
          return Failed(socketError);
        case Line(s) =>
          name := Some(s);
          if !reg.ContainsKey(s) {
            if Injective(reg.writers) && out !in reg.writers.Values {
              PutFreshKeepsInjective(reg.writers, s, out);
            }
            reg.Put(s, out);
            return Accepted;
          }
          RetryShifts(reg.writers, rs, field, sent, k);
          sent := sent + [SUBMITNAME];
          k := k + 1;
      }
    }

    /**
     * What follows acceptance: NAMEACCEPTED to the client, the name put
     * again under `out`, then the handle list and the join notice to all.
     */
    method Announce() returns (listed: seq<string>)
      requires name.Some?
      modifies reg
      ensures reg.writers == old(reg.writers)[name.value := out]
      ensures old(name.value in reg.writers && reg.writers[name.value] == out) ==> reg.writers == old(reg.writers)
      ensures forall k :: k in listed <==> k in reg.writers
      ensures forall i, j :: 0 <= i < j < |listed| ==> listed[i] != listed[j]
      ensures forall w :: reg.Output(w) == old(reg.Output(w)) + Announcement(NAMEACCEPTED, USERLIST, name.value, listed, reg.writers, out, w)
    {
      if name.value in reg.writers && reg.writers[name.value] == out {
        SecondPutUnchanged(reg.writers, name.value, out);
      }
      ghost var p0 := reg.printed;
      reg.Println(out, NAMEACCEPTED);
      ghost var p1 := reg.printed;
      reg.Put(name.value, out);
      listed := reg.Keys();
      reg.SendToAll(UserListLine(USERLIST, listed));
      ghost var p2 := reg.printed;
      reg.SendToAll(JoinLine(name.value));
      forall w ensures reg.Output(w) == OutputIn(p0, w) + Announcement(NAMEACCEPTED, USERLIST, name.value, listed, reg.writers, out, w) {
        var a := if w == out then [NAMEACCEPTED] else [];
        var b := Repeat(UserListLine(USERLIST, listed), Fanout(reg.writers, w));
        var c := Repeat(JoinLine(name.value), Fanout(reg.writers, w));
        assert OutputIn(p1, w) == OutputIn(p0, w) + a;
        assert OutputIn(p2, w) == OutputIn(p1, w) + b;
        assert reg.Output(w) == OutputIn(p2, w) + c;
        AppendAssoc(OutputIn(p0, w), a, b);
        AppendAssoc(OutputIn(p0, w), a + b, c);
      }
    }

    /**
     * The message loop up to the first read that is not a line: every line
     * is routed as `Transcript` says, and that read is the next one left.
     */
    method RouteLines()
      modifies this, reg
      ensures name == old(name)
      ensures pending == old(pending)[|Lines(old(pending))|..]
      ensures reg.writers == old(reg.writers)
      ensures TranscriptSoFar(old(reg.printed), reg.printed, Frames, Str(name), out, Lines(old(pending)), reg.writers)
    {
      pending := RouteAll(reg, Frames, Str(name), out, pending);
    }

    /**
     * The message loop: every line up to the first read that is not a
     * line is routed as `Transcript` says, and the loop ends as `Stop` says.
     */
    method Serve() returns (outcome: Outcome)
      modifies this, reg
      ensures name == old(name)
      ensures outcome == Stop(old(pending))
      ensures pending == if |Lines(old(pending))| < |old(pending)| then old(pending)[|Lines(old(pending))| + 1..] else []
      ensures reg.writers == old(reg.writers)
      ensures forall w :: reg.Output(w) == old(reg.Output(w)) + Transcript(Frames, Str(name), out, Lines(old(pending)), reg.writers, w)
    {
      RouteLines();
      if pending == [] {
        return Waiting;
      }
      var r := pending[0];
      pending := pending[1..];
      outcome := if r.EndOfStream? then Ended else Failed(r.socketError);
    }

    /**
     * The `finally` clause: the handle in the name field, if any, is no
     * longer registered; nothing else changes and nobody is told.
     */
    method RemoveCurrentUser()
      modifies reg
      ensures reg.writers == WithoutHandle(old(reg.writers), name)
      ensures reg.printed == old(reg.printed)
    {
      if name.Some? {
        reg.Remove(name.value);
      }
      reg.RemoveEntry(name, out);
    }

    /**
     * `run`: the handshake, then, for an accepted name, the announcement
     * and the message loop, then the way out unless the thread is still
     * waiting for a read.
     */
    method Run() returns (outcome: Outcome)
      modifies this, reg
      ensures outcome == SessionOutcome(old(reg.writers), old(pending), old(name))
      ensures reg.writers == SessionWriters(old(reg.writers), out, old(pending), old(name))
    {
      outcome := AwaitName();
      if outcome == Accepted {
        var listed := Announce();
        outcome := Serve();
      }
      if outcome != Waiting {
        RemoveCurrentUser();
      }
    }
  }
}
