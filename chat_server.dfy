/**
 * The newer server (`chat.ChatServer`): one `Handler` per connection runs
 * the name handshake, announces the accepted handle, routes every line
 * of the message loop, and on the way out removes the handle and tells
 * everybody. The handlers share one `Registry`.
 */
module ChatServer {
  import opened JavaLang
  import opened ChatConstants
  import opened HandleRegistry
  import opened Protocol

  /** The port the server listens on. */
  const PORT: int := APP_PORT

  /** `MESSAGE <sender>:<body>`, `MESSAGE <sender>:<recipient><body>` and `ERROR <text>`. */
  const Frames: Framing := Framing(E_MESSAGE + " ", ":", ":", E_ERROR + " ")

  /** The lines the message loop prints, spelled out the way it concatenates them. */
  lemma FramesAsSent(name: string, recipient: string, body: string)
    ensures BroadcastLine(Frames, name, body) == E_MESSAGE + " " + name + ":" + body
    ensures DirectLine(Frames, name, recipient, body) == E_MESSAGE + " " + name + ":" + recipient + body
    ensures NotFoundLine(Frames, recipient) == E_ERROR + " " + "User '" + recipient + "' not found."
    ensures InvalidLine(Frames) == E_ERROR + " " + "Invalid P2P message format."
  {
  }

  /** The notice every writer prints when the session of `name` ends. */
  function LeaveLine(name: Option<string>): string
  {
    E_MESSAGE + " [Server]: " + Str(name) + " has left the chat."
  }

  /** A read that makes the handshake prompt again: an empty name or one already taken. */
  predicate Retry(writers: map<string, Writer>, r: Read)
  {
    r.Line? && r.text != "null" && (r.text == "" || r.text in writers)
  }

  /** A read that the handshake registers: a name that is not empty, not "null" and free. */
  predicate Free(writers: map<string, Writer>, r: Read)
  {
    r.Line? && r.text != "null" && r.text != "" && r.text !in writers
  }

  /**
   * The handshake over the reads `rs`, starting with `name` in the field:
   * prompt, read; a null read or the name "null" is answered with
   * FORCE_EXIT and ends it; an empty name clears the field and prompts
   * again; a free name is registered; a taken one stays in the field and
   * is prompted for again. A read that throws leaves the field as it was.
   */
  function NameLoop(writers: map<string, Writer>, rs: seq<Read>, name: Option<string>): (h: Handshake)
    ensures h.consumed <= |rs|
    ensures h.outcome == Accepted || h.outcome == Rejected || h.outcome == Waiting || h.outcome.Failed?
    ensures h.outcome == Accepted ==>
              h.consumed >= 1 && h.name.Some? && rs[h.consumed - 1] == Line(h.name.value) && Free(writers, rs[h.consumed - 1])
    ensures h.outcome == Rejected ==> h.name == None || h.name == Some("null")
    ensures h.outcome == Waiting ==> h.consumed == |rs|
    decreases |rs|
  {
    if rs == [] then Handshake(Waiting, name, [E_SUBMIT_NAME], 0)
    else match rs[0]
      case EndOfStream => Handshake(Rejected, None, [E_SUBMIT_NAME, E_FORCE_EXIT], 1)
      case ReadFailed(socketError) => Handshake(Failed(socketError), name, [E_SUBMIT_NAME], 1)
      case Line(s) =>
        if s == "null" then Handshake(Rejected, Some(s), [E_SUBMIT_NAME, E_FORCE_EXIT], 1)
        else if s == "" then Prompted(E_SUBMIT_NAME, NameLoop(writers, rs[1..], None))
        else if s !in writers then Handshake(Accepted, Some(s), [E_SUBMIT_NAME], 1)
        else Prompted(E_SUBMIT_NAME, NameLoop(writers, rs[1..], Some(s)))
  }

  /** A round that prompts again moves one prompt and one read from the rest of the loop to the rounds behind. */
  lemma RetryShifts(writers: map<string, Writer>, rs: seq<Read>, name: Option<string>, sent: seq<string>, k: nat)
    requires rs != [] && Retry(writers, rs[0])
    ensures Shift(sent, k, NameLoop(writers, rs, name))
         == Shift(sent + [E_SUBMIT_NAME], k + 1, NameLoop(writers, rs[1..], if rs[0].text == "" then None else Some(rs[0].text)))
  {
    var h := NameLoop(writers, rs[1..], if rs[0].text == "" then None else Some(rs[0].text));
    assert NameLoop(writers, rs, name) == Prompted(E_SUBMIT_NAME, h);
    AppendAssoc(sent, [E_SUBMIT_NAME], h.sent);
  }

  /**
   * The handshake registers the name read at position `i` exactly when
   * that name is free and every read before it was an empty or taken name.
   */
  lemma {:induction false} AcceptsFirstFreeName(writers: map<string, Writer>, rs: seq<Read>, name: Option<string>, i: nat)
    requires i < |rs|
    ensures (NameLoop(writers, rs, name).outcome == Accepted && NameLoop(writers, rs, name).consumed == i + 1)
            <==> (Free(writers, rs[i]) && forall j :: 0 <= j < i ==> Retry(writers, rs[j]))
    decreases i
  {
    if i > 0 {
      if Retry(writers, rs[0]) {
        var next := if rs[0].text == "" then None else Some(rs[0].text);
        AcceptsFirstFreeName(writers, rs[1..], next, i - 1);
        assert forall j :: 0 <= j < i - 1 ==> rs[1..][j] == rs[j + 1];
        if forall j :: 0 <= j < i - 1 ==> Retry(writers, rs[1..][j]) {
          forall j | 0 <= j < i
            ensures Retry(writers, rs[j])
          {
            if j > 0 { assert rs[j] == rs[1..][j - 1]; }
          }
        }
      }
    }
  }

  /** How many prompts a handshake that ended as `h` sent: one per read, and one more while still waiting. */
  function Prompts(h: Handshake): nat
  {
    if h.outcome == Waiting then h.consumed + 1 else h.consumed
  }

  /** What follows the prompts: FORCE_EXIT for a rejected client, nothing otherwise. */
  function Farewell(h: Handshake): seq<string>
  {
    if h.outcome == Rejected then [E_FORCE_EXIT] else []
  }

  /** One more prompting round in front keeps the shape prompts-then-farewell. */
  lemma PromptedSends(h: Handshake)
    requires h.sent == Repeat(E_SUBMIT_NAME, Prompts(h)) + Farewell(h)
    ensures Prompted(E_SUBMIT_NAME, h).sent == Repeat(E_SUBMIT_NAME, Prompts(Prompted(E_SUBMIT_NAME, h))) + Farewell(Prompted(E_SUBMIT_NAME, h))
  {
    RepeatCons(E_SUBMIT_NAME, Prompts(h));
    AppendAssoc([E_SUBMIT_NAME], Repeat(E_SUBMIT_NAME, Prompts(h)), Farewell(h));
  }

  /**
   * The handshake prompts once per read it takes (and once more when it
   * ends waiting for a read), and FORCE_EXIT follows the last prompt
   * exactly when it rejects the client.
   */
  lemma {:induction false} HandshakeSends(writers: map<string, Writer>, rs: seq<Read>, name: Option<string>)
    ensures var h := NameLoop(writers, rs, name);
            h.sent == Repeat(E_SUBMIT_NAME, Prompts(h)) + Farewell(h)
    decreases |rs|
  {
    var h0 := NameLoop(writers, rs, name);
    if rs != [] && Retry(writers, rs[0]) {
      var next := if rs[0].text == "" then None else Some(rs[0].text);
      HandshakeSends(writers, rs[1..], next);
      PromptedSends(NameLoop(writers, rs[1..], next));
    } else {
      assert Repeat(E_SUBMIT_NAME, 1) == [E_SUBMIT_NAME] by { assert Repeat(E_SUBMIT_NAME, 0) == []; }
      assert Prompts(h0) == 1;
    }
  }

  /** The outcome of the whole session: the handshake's, or how the message loop ended. */
  function SessionOutcome(writers: map<string, Writer>, rs: seq<Read>, name: Option<string>): Outcome
  {
    var h := NameLoop(writers, rs, name);
    if h.outcome == Accepted then Stop(rs[h.consumed..]) else h.outcome
  }

  /** The registry after the session with writer `self`, removing the name field's handle on the way out. */
  function SessionWriters(writers: map<string, Writer>, self: Writer, rs: seq<Read>, name: Option<string>): map<string, Writer>
  {
    var h := NameLoop(writers, rs, name);
    var registered := if h.outcome == Accepted then writers[h.name.value := self] else writers;
    if SessionOutcome(writers, rs, name) == Waiting then registered else WithoutHandle(registered, h.name)
  }

  /** The registry after the session when the way out removes only the session's own entry. */
  function SessionWritersOwnEntry(writers: map<string, Writer>, self: Writer, rs: seq<Read>, name: Option<string>): map<string, Writer>
  {
    var h := NameLoop(writers, rs, name);
    var registered := if h.outcome == Accepted then writers[h.name.value := self] else writers;
    if SessionOutcome(writers, rs, name) == Waiting then registered else WithoutEntry(registered, h.name, self)
  }

  /** A session that registered its name and then ended leaves the registry as it found it. */
  lemma FinishedSessionLeavesNoTrace(writers: map<string, Writer>, self: Writer, rs: seq<Read>, name: Option<string>)
    requires NameLoop(writers, rs, name).outcome == Accepted
    requires SessionOutcome(writers, rs, name) != Waiting
    ensures SessionWriters(writers, self, rs, name) == writers
  {
    var h := NameLoop(writers, rs, name);
    assert writers[h.name.value := self] - {h.name.value} == writers;
  }

  /**
   * The name "null" is never registered, so, starting from a registry
   * without it, no session adds it.
   */
  lemma NullNeverRegistered(writers: map<string, Writer>, self: Writer, rs: seq<Read>, name: Option<string>)
    requires "null" !in writers
    ensures "null" !in SessionWriters(writers, self, rs, name)
  {
  }

  /** A rejected client leaves the registry as it found it, unless "null" was registered. */
  lemma RejectionKeepsRegistry(writers: map<string, Writer>, self: Writer, rs: seq<Read>, name: Option<string>)
    requires "null" !in writers
    requires SessionOutcome(writers, rs, name) == Rejected
    ensures SessionWriters(writers, self, rs, name) == writers
  {
  }

  /**
   * A name that loses a collision stays in the field; when the next read
   * throws, the way out removes that name, which belongs to another
   * session.
   */
  lemma LostCandidateEvictsOwner(writers: map<string, Writer>, self: Writer, taken: string, socketError: bool)
    requires taken in writers && taken != "" && taken != "null"
    ensures SessionWriters(writers, self, [Line(taken), ReadFailed(socketError)], None) == writers - {taken}
  {
    var rs := [Line(taken), ReadFailed(socketError)];
    assert rs[1..] == [ReadFailed(socketError)];
    var h := NameLoop(writers, rs, None);
    assert NameLoop(writers, rs[1..], Some(taken)).outcome == Failed(socketError);
    assert h.outcome == Failed(socketError) && h.name == Some(taken);
  }

  /**
   * Removing only the session's own entry never takes a handle from a
   * session using another writer, and a session that ended leaves the
   * registry as it found it.
   */
  lemma OwnEntryCleanupKeepsOthers(writers: map<string, Writer>, self: Writer, rs: seq<Read>, name: Option<string>)
    requires self !in writers.Values
    ensures var r := SessionWritersOwnEntry(writers, self, rs, name);
            (forall k :: k in writers ==> k in r && r[k] == writers[k])
            && (SessionOutcome(writers, rs, name) != Waiting ==> r == writers)
  {
    var h := NameLoop(writers, rs, name);
    if h.outcome == Accepted {
      assert writers[h.name.value := self] - {h.name.value} == writers;
    }
  }

  /**
   * The name loop on the shared registry, starting from the reads `rs`
   * and the name field `field`: the outcome, the field and the reads left
   * are those of `NameLoop`; the registry gains the accepted name under
   * `out` and is otherwise untouched; only `out` prints, and it prints the
   * lines `NameLoop` sends (`SentSoFar`).
   */
  method Greet(reg: Registry, out: Writer, rs: seq<Read>, field: Option<string>) returns (outcome: Outcome, name: Option<string>, rest: seq<Read>)
    modifies reg
    ensures var h := NameLoop(old(reg.writers), rs, field);
            outcome == h.outcome && name == h.name && rest == rs[h.consumed..]
            && reg.writers == (if outcome == Accepted then old(reg.writers)[h.name.value := out] else old(reg.writers))
            && SentSoFar(old(reg.printed), reg.printed, out, h.sent)
  {
    name := field;
    rest := rs;
    ghost var h0 := NameLoop(reg.writers, rs, field);
    ghost var start := reg.printed;
    ghost var sent: seq<string> := [];
    ghost var k: nat := 0;
    while true
      invariant k <= |rs| && rest == rs[k..]
      invariant reg.writers == old(reg.writers)
      invariant Shift(sent, k, NameLoop(reg.writers, rest, name)) == h0
      invariant SentSoFar(start, reg.printed, out, sent)
      decreases |rest|
    {
      ghost var before := reg.printed;
      reg.Println(out, E_SUBMIT_NAME);
      SendOne(start, before, reg.printed, out, sent, E_SUBMIT_NAME);
      if rest == [] {
        return Waiting, name, rest;
      }
      ghost var round, last := rest, name;
      var r := rest[0];
      rest := rest[1..];
      match r
      case EndOfStream =>
        name := None;
        before := reg.printed;
        reg.Println(out, E_FORCE_EXIT);
        SendOne(start, before, reg.printed, out, sent + [E_SUBMIT_NAME], E_FORCE_EXIT);
        AppendPair(sent, E_SUBMIT_NAME, E_FORCE_EXIT);
        return Rejected, name, rest;
      case ReadFailed(socketError) =>
        return Failed(socketError), name, rest;
      case Line(s) =>
        name := Some(s);
        if s == "null" {
          before := reg.printed;
          reg.Println(out, E_FORCE_EXIT);
          SendOne(start, before, reg.printed, out, sent + [E_SUBMIT_NAME], E_FORCE_EXIT);
          AppendPair(sent, E_SUBMIT_NAME, E_FORCE_EXIT);
          return Rejected, name, rest;
        }
        if s == "" {
          name := None;
        } else if !reg.ContainsKey(s) {
          reg.Put(s, out);
          return Accepted, name, rest;
        }
        RetryShifts(reg.writers, round, last, sent, k);
        sent := sent + [E_SUBMIT_NAME];
        k := k + 1;
    }
  }

  class Handler {
    /** The registry all handlers share. */
    const reg: Registry
    /** This connection's writer, `out`. */
    const out: Writer
    /** The `name` field: the last name read, or null. */
    var name: Option<string>
    /** What `in.readLine()` will return from now on. */
    var pending: seq<Read>

    constructor (reg: Registry, out: Writer, input: seq<Read>)
      ensures this.reg == reg && this.out == out
      ensures name == None && pending == input
    {
      this.reg := reg;
      this.out := out;
      name := None;
      pending := input;
    }

    /** The name loop of `run`, reading from this connection into the `name` field: `Greet` on the handler's state. */
    method AwaitName() returns (outcome: Outcome)
      modifies this, reg
      ensures var h := NameLoop(old(reg.writers), old(pending), old(name));
              outcome == h.outcome && name == h.name && pending == old(pending)[h.consumed..]
              && reg.writers == (if outcome == Accepted then old(reg.writers)[h.name.value := out] else old(reg.writers))
              && SentSoFar(old(reg.printed), reg.printed, out, h.sent)
      ensures Injective(old(reg.writers)) && out !in old(reg.writers).Values ==> Injective(reg.writers)
    {
      outcome, name, pending := Greet(reg, out, pending, name);
      if outcome == Accepted && Injective(old(reg.writers)) && out !in old(reg.writers).Values {
        PutFreshKeepsInjective(old(reg.writers), name.value, out);
      }
    }

    /**
     * `broadcastActiveUserList`: every writer prints USER_LIST and the
     * handles, once per handle registered with it; the list names every
     * registered handle once, in no promised order.
     */
    method BroadcastActiveUserList() returns (listed: seq<string>)
      modifies reg
      ensures reg.writers == old(reg.writers)
      ensures forall k :: k in listed <==> k in reg.writers
      ensures forall i, j :: 0 <= i < j < |listed| ==> listed[i] != listed[j]
      ensures forall w :: reg.Output(w) == old(reg.Output(w)) + Repeat(UserListLine(E_USER_LIST, listed), Fanout(reg.writers, w))
    {
      listed := reg.Keys();
      reg.SendToAll(UserListLine(E_USER_LIST, listed));
    }

    /** What follows acceptance: NAME_ACCEPTED to the client, the handle list and the join notice to all. */
    method Announce() returns (listed: seq<string>)
      modifies reg
      ensures reg.writers == old(reg.writers)
      ensures forall k :: k in listed <==> k in reg.writers
      ensures forall i, j :: 0 <= i < j < |listed| ==> listed[i] != listed[j]
      ensures forall w :: reg.Output(w) == old(reg.Output(w)) + Announcement(E_NAME_ACCEPTED, E_USER_LIST, Str(name), listed, reg.writers, out, w)
    {
      ghost var p0 := reg.printed;
      reg.Println(out, E_NAME_ACCEPTED);
      ghost var p1 := reg.printed;
      listed := BroadcastActiveUserList();
      ghost var p2 := reg.printed;
      reg.SendToAll(JoinLine(Str(name)));
      forall w ensures reg.Output(w) == OutputIn(p0, w) + Announcement(E_NAME_ACCEPTED, E_USER_LIST, Str(name), listed, reg.writers, out, w) {
        var a := if w == out then [E_NAME_ACCEPTED] else [];
        var b := Repeat(UserListLine(E_USER_LIST, listed), Fanout(reg.writers, w));
        var c := Repeat(JoinLine(Str(name)), Fanout(reg.writers, w));
        assert OutputIn(p1, w) == OutputIn(p0, w) + a;
        assert OutputIn(p2, w) == OutputIn(p1, w) + b;
        assert reg.Output(w) == OutputIn(p2, w) + c;
        AppendAssoc(OutputIn(p0, w), a, b);
        AppendAssoc(OutputIn(p0, w), a + b, c);
      }
    }

    /**
     * The message loop up to the first read that is not a line: every line
     * is routed as `Transcript` says, and that read is the next one left.
     */
    method RouteLines()
      modifies this, reg
      ensures name == old(name)
      ensures pending == old(pending)[|Lines(old(pending))|..]
      ensures reg.writers == old(reg.writers)
      ensures TranscriptSoFar(old(reg.printed), reg.printed, Frames, Str(name), out, Lines(old(pending)), reg.writers)
    {
      pending := RouteAll(reg, Frames, Str(name), out, pending);
    }

    /**
     * The message loop: every line up to the first read that is not a
     * line is routed as `Transcript` says, and the loop ends as `Stop` says.
     */
    method Serve() returns (outcome: Outcome)
      modifies this, reg
      ensures name == old(name)
      ensures outcome == Stop(old(pending))
      ensures pending == if |Lines(old(pending))| < |old(pending)| then old(pending)[|Lines(old(pending))| + 1..] else []
      ensures reg.writers == old(reg.writers)
      ensures forall w :: reg.Output(w) == old(reg.Output(w)) + Transcript(Frames, Str(name), out, Lines(old(pending)), reg.writers, w)
    {
      RouteLines();
      if pending == [] {
        return Waiting;
      }
      var r := pending[0];
      pending := pending[1..];
      outcome := if r.EndOfStream? then Ended else Failed(r.socketError);
    }

    /** `removeCurrentUser`: the handle in the name field, if any, is no longer registered; nothing else changes. */
    method RemoveCurrentUser()
      modifies reg
      ensures reg.writers == WithoutHandle(old(reg.writers), name)
      ensures reg.printed == old(reg.printed)
    {
      if name.Some? {
        reg.Remove(name.value);
      }
      reg.RemoveEntry(name, out);
    }

    /** Removing only this session's own entry: the handle goes only if it is registered with `out`. */
    method RemoveOwnEntry()
      modifies reg
      ensures reg.writers == WithoutEntry(old(reg.writers), name, out)
      ensures reg.printed == old(reg.printed)
    {
      reg.RemoveEntry(name, out);
    }

    /**
     * The way out (the `catch` clauses and `finally`): the handle in the
     * name field is removed; a `SocketException` first makes every writer
     * print the handle list once more; then the handle list and the leave
     * notice go to every writer still registered.
     */
    method Cleanup(socketError: bool) returns (extra: Option<seq<string>>, listed: seq<string>)
      modifies reg
      ensures reg.writers == WithoutHandle(old(reg.writers), name)
      ensures extra.Some? <==> socketError
      ensures extra.Some? ==> forall k :: k in extra.value <==> k in reg.writers
      ensures extra.Some? ==> forall i, j :: 0 <= i < j < |extra.value| ==> extra.value[i] != extra.value[j]
      ensures forall k :: k in listed <==> k in reg.writers
      ensures forall i, j :: 0 <= i < j < |listed| ==> listed[i] != listed[j]
      ensures forall w :: reg.Output(w) == old(reg.Output(w))
                + (if extra.Some? then Repeat(UserListLine(E_USER_LIST, extra.value), Fanout(reg.writers, w)) else [])
                + Repeat(UserListLine(E_USER_LIST, listed), Fanout(reg.writers, w))
                + Repeat(LeaveLine(name), Fanout(reg.writers, w))
    {
      extra := None;
      RemoveCurrentUser();
      if socketError {
        var first := BroadcastActiveUserList();
        extra := Some(first);
      }
      RemoveCurrentUser();
      listed := BroadcastActiveUserList();
      reg.SendToAll(LeaveLine(name));
    }

    /**
     * `run`: the handshake, then, for an accepted name, the announcement
     * and the message loop, then the way out unless the thread is still
     * waiting for a read.
     */
    method Run() returns (outcome: Outcome)
      modifies this, reg
      ensures outcome == SessionOutcome(old(reg.writers), old(pending), old(name))
      ensures reg.writers == SessionWriters(old(reg.writers), out, old(pending), old(name))
    {
      outcome := AwaitName();
      if outcome == Accepted {
        var listed := Announce();
        outcome := Serve();
      }
      if outcome != Waiting {
        var extra, listed := Cleanup(outcome == Failed(true));
      }
    }
  }
}
