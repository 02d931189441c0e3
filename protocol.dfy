/**
 * The line protocol both server revisions share: what a connection read
 * can yield, how the message loop classifies a line (the same parse in
 * both revisions), and which lines each writer prints in answer. The two
 * revisions differ only in how they frame those lines (`Framing`).
 */
module Protocol {
  import opened JavaLang
  import opened ChatConstants
  import opened HandleRegistry

  /**
   * One `in.readLine()`: a line, the end of the stream (null), or an
   * exception, which is a `SocketException` (a reset connection) or some
   * other `IOException`.
   */
  datatype Read = Line(text: string) | EndOfStream | ReadFailed(socketError: bool)

  /**
   * How a stage of a session ends: a name was registered, the handshake
   * sent the client away, a null read ended the loop, a read threw, or the
   * reads ran out while the thread still waits for the next line.
   */
  datatype Outcome = Accepted | Rejected | Ended | Failed(socketError: bool) | Waiting

  /** The lines read before the first read that is not a line. */
  function Lines(rs: seq<Read>): (lines: seq<string>)
    ensures |lines| <= |rs|
    ensures forall i :: 0 <= i < |lines| ==> rs[i] == Line(lines[i])
    ensures |lines| < |rs| ==> !rs[|lines|].Line?
  {
    if rs == [] || !rs[0].Line? then [] else [rs[0].text] + Lines(rs[1..])
  }

  /** How the message loop over `rs` ends: at the first read that is not a line, or waiting. */
  function Stop(rs: seq<Read>): (o: Outcome)
    ensures o != Accepted && o != Rejected
    ensures o == Waiting <==> forall i :: 0 <= i < |rs| ==> rs[i].Line?
  {
    var n := |Lines(rs)|;
    if n == |rs| then Waiting
    else if rs[n].EndOfStream? then Ended
    else Failed(rs[n].socketError)
  }

  /** Taking one more line off the reads moves it from the lines ahead to the lines handled. */
  lemma LinesStep(all: seq<string>, handled: seq<string>, rs: seq<Read>)
    requires all == handled + Lines(rs)
    requires rs != [] && rs[0].Line?
    ensures all == (handled + [rs[0].text]) + Lines(rs[1..])
  {
    assert Lines(rs) == [rs[0].text] + Lines(rs[1..]);
    AppendAssoc(handled, [rs[0].text], Lines(rs[1..]));
  }

  /**
   * What a client's read loop makes of one line from the server: answer
   * the name prompt, unlock the text field, replace the handle list,
   * append text to the message log, nothing, or an exception that ends
   * the loop.
   */
  datatype Event = Prompt | Accept | UserList(users: seq<string>) | Show(text: string) | Ignore | Crash

  /** One line from the server, with the name the user would choose if that line asks for one. */
  datatype Incoming = Incoming(line: Option<string>, chosen: Option<string>)

  /** What the message loop makes of one line. */
  datatype Command =
    | Broadcast(body: string)
    | Direct(recipients: seq<string>, body: string)
    | BadDirect
    | Unknown

  /**
   * The message loop's parse: a `BROADCAST` line carries the trimmed rest;
   * a `P2P` line is cut at its first ':', which must come after index 3,
   * into the trimmed recipient list split at commas and the trimmed body.
   */
  function Classify(message: string): (cmd: Command)
    ensures cmd.Broadcast? <==> StartsWith(message, E_BROADCAST)
    ensures cmd.Unknown? <==> !StartsWith(message, E_BROADCAST) && !StartsWith(message, E_P2P)
    ensures cmd.BadDirect? <==> StartsWith(message, E_P2P) && (':' !in message || message[3] == ':')
    ensures cmd.Direct? ==> forall r :: r in cmd.recipients ==> ',' !in r
  {
    if StartsWith(message, E_BROADCAST) then
      assert message[..9][0] == 'B';
      DifferentFirstLetter(message, E_P2P);
      Broadcast(Trim(message[9..]))
    else if StartsWith(message, E_P2P) then
      var sep := IndexOf(message, ':');
      if sep > 3 then Direct(Split(Trim(message[3..sep])), Trim(message[sep + 1..]))
      else BadDirect
    else Unknown
  }

  /** A line made of "P2P", a recipient list without ':', a ':' and a body is a message to that list. */
  lemma ClassifyDirect(list: string, body: string)
    requires ':' !in list && list != ""
    ensures Classify(E_P2P + list + [':'] + body) == Direct(Split(Trim(list)), Trim(body))
  {
    var head := E_P2P + list;
    var line := head + [':'] + body;
    FirstAfter(head, ':', body);
    assert line[..3] == E_P2P;
    assert line[3..|head|] == list;
    assert line[|head| + 1..] == body;
    DifferentFirstLetter(line, E_BROADCAST);
  }

  /** A line with no recipients between "P2P" and the first ':' is malformed. */
  lemma ClassifyNoRecipients(body: string)
    ensures Classify(E_P2P + [':'] + body) == BadDirect
  {
    var line := E_P2P + [':'] + body;
    FirstAfter(E_P2P, ':', body);
    assert line[..3] == E_P2P;
    DifferentFirstLetter(line, E_BROADCAST);
  }

  /** The notice every writer prints when `name` joins. */
  function JoinLine(name: string): string
  {
    E_MESSAGE + " [Server]: " + name + " has joined the chat."
  }

  /** The announcement of the handle list, `tag` followed by the handles joined by commas. */
  function UserListLine(tag: string, handles: seq<string>): string
  {
    tag + Join(handles)
  }

  /** How a server revision frames the lines it sends in answer to a message. */
  datatype Framing = Framing(message: string, broadcastSep: string, directSep: string, error: string)

  /** A broadcast as every writer prints it. */
  function BroadcastLine(f: Framing, sender: string, body: string): string
  {
    f.message + sender + f.broadcastSep + body
  }

  /** A directed message as its recipient (and, for one recipient, its sender) prints it. */
  function DirectLine(f: Framing, sender: string, recipient: string, body: string): string
  {
    f.message + sender + f.directSep + recipient + body
  }

  /** The error the sender gets for a recipient that is not registered. */
  function NotFoundLine(f: Framing, recipient: string): string
  {
    f.error + "User '" + recipient + "' not found."
  }

  /** The error the sender gets for a directed message without a recipient segment. */
  function InvalidLine(f: Framing): string
  {
    f.error + "Invalid P2P message format."
  }

  /**
   * The writer that prints something while a directed message goes to
   * `recipient`: the recipient's, or the sender's when it is not registered.
   */
  function Target(writers: map<string, Writer>, self: Writer, recipient: string): Writer
  {
    if recipient in writers then writers[recipient] else self
  }

  /** The line that writer prints: the message itself, or the error naming the recipient. */
  function Reply(f: Framing, sender: string, body: string, writers: map<string, Writer>, recipient: string): string
  {
    if recipient in writers then DirectLine(f, sender, recipient, body) else NotFoundLine(f, recipient)
  }

  /** What writer `w` prints while a directed message is delivered to `recipient`. */
  function Delivery(f: Framing, sender: string, body: string, recipient: string,
                    writers: map<string, Writer>, self: Writer, w: Writer): seq<string>
  {
    if w == Target(writers, self, recipient) then [Reply(f, sender, body, writers, recipient)] else []
  }

  /** What writer `w` prints while a directed message goes to each of `recipients` in turn. */
  function Deliveries(f: Framing, sender: string, body: string, recipients: seq<string>,
                      writers: map<string, Writer>, self: Writer, w: Writer): seq<string>
    decreases |recipients|
  {
    if recipients == [] then []
    else
      Deliveries(f, sender, body, recipients[..|recipients| - 1], writers, self, w)
      + Delivery(f, sender, body, recipients[|recipients| - 1], writers, self, w)
  }

  /** The copy a sender gets of a directed message that has exactly one recipient. */
  function Echo(f: Framing, sender: string, recipients: seq<string>, body: string,
                self: Writer, w: Writer): seq<string>
  {
    if |recipients| == 1 && w == self then [DirectLine(f, sender, recipients[0], body)] else []
  }

  /** Everything writer `w` prints when the session of `sender` (writer `self`) carries out `cmd`. */
  function Answer(f: Framing, sender: string, self: Writer, cmd: Command,
                  writers: map<string, Writer>, w: Writer): seq<string>
  {
    match cmd
    case Broadcast(body) => Repeat(BroadcastLine(f, sender, body), Fanout(writers, w))
    case Direct(recipients, body) =>
      Echo(f, sender, recipients, body, self, w) + Deliveries(f, sender, body, recipients, writers, self, w)
    case BadDirect => if w == self then [InvalidLine(f)] else []
    case Unknown => []
  }

  /** Everything writer `w` prints when the session of `sender` (writer `self`) handles `message`. */
  function Inbox(f: Framing, sender: string, self: Writer, message: string,
                 writers: map<string, Writer>, w: Writer): seq<string>
  {
    Answer(f, sender, self, Classify(message), writers, w)
  }

  /** Everything writer `w` prints while the session handles `lines` one after the other. */
  function Transcript(f: Framing, sender: string, self: Writer, lines: seq<string>,
                      writers: map<string, Writer>, w: Writer): seq<string>
    decreases |lines|
  {
    if lines == [] then []
    else
      Transcript(f, sender, self, lines[..|lines| - 1], writers, w)
      + Inbox(f, sender, self, lines[|lines| - 1], writers, w)
  }

  /**
   * Delivering to one more recipient prints its one line on its one
   * writer, on top of what delivering to the earlier recipients printed.
   */
  lemma DeliverStep(start: map<Writer, seq<string>>, p: map<Writer, seq<string>>,
                    f: Framing, sender: string, body: string, recipients: seq<string>, i: nat,
                    writers: map<string, Writer>, self: Writer)
    requires i < |recipients|
    requires forall w :: OutputIn(p, w) == OutputIn(start, w) + Deliveries(f, sender, body, recipients[..i], writers, self, w)
    ensures var target := Target(writers, self, recipients[i]);
            var p' := p[target := OutputIn(p, target) + [Reply(f, sender, body, writers, recipients[i])]];
            forall w :: OutputIn(p', w) == OutputIn(start, w) + Deliveries(f, sender, body, recipients[..i + 1], writers, self, w)
  {
    var target := Target(writers, self, recipients[i]);
    var line := Reply(f, sender, body, writers, recipients[i]);
    var p' := p[target := OutputIn(p, target) + [line]];
    assert recipients[..i + 1][..i] == recipients[..i];
    forall w
      ensures OutputIn(p', w) == OutputIn(start, w) + Deliveries(f, sender, body, recipients[..i + 1], writers, self, w)
    {
      var soFar := Deliveries(f, sender, body, recipients[..i], writers, self, w);
      var extra := Delivery(f, sender, body, recipients[i], writers, self, w);
      assert OutputIn(p', w) == OutputIn(p, w) + extra;
      assert Deliveries(f, sender, body, recipients[..i + 1], writers, self, w) == soFar + extra;
      AppendAssoc(OutputIn(start, w), soFar, extra);
    }
  }

  /**
   * The loop over the recipients of a directed message: each registered
   * recipient's writer prints the message, each missing one is reported to
   * the sender, in the order the recipients were listed.
   */
  method DeliverAll(reg: Registry, f: Framing, sender: string, self: Writer, recipients: seq<string>, body: string)
    modifies reg
    ensures reg.writers == old(reg.writers)
    ensures forall w :: reg.Output(w) == old(reg.Output(w)) + Deliveries(f, sender, body, recipients, reg.writers, self, w)
  {
    ghost var start := reg.printed;
    var i := 0;
    while i < |recipients|
      invariant 0 <= i <= |recipients|
      invariant reg.writers == old(reg.writers)
      invariant forall w :: OutputIn(reg.printed, w) == OutputIn(start, w) + Deliveries(f, sender, body, recipients[..i], reg.writers, self, w)
    {
      var target := Target(reg.writers, self, recipients[i]);
      var line := Reply(f, sender, body, reg.writers, recipients[i]);
      DeliverStep(start, reg.printed, f, sender, body, recipients, i, reg.writers, self);
      reg.printed := reg.printed[target := OutputIn(reg.printed, target) + [line]];
      i := i + 1;
    }
    assert recipients[..|recipients|] == recipients;
  }

  /** A directed message: the sender's own copy when there is one recipient, then the deliveries. */
  method SendDirect(reg: Registry, f: Framing, sender: string, self: Writer, recipients: seq<string>, body: string)
    modifies reg
    ensures reg.writers == old(reg.writers)
    ensures forall w :: reg.Output(w) == old(reg.Output(w)) + Echo(f, sender, recipients, body, self, w)
                                            + Deliveries(f, sender, body, recipients, reg.writers, self, w)
  {
    if |recipients| == 1 {
      reg.Println(self, DirectLine(f, sender, recipients[0], body));
    }
    ghost var echoed := reg.printed;
    assert forall w :: OutputIn(echoed, w) == old(reg.Output(w)) + Echo(f, sender, recipients, body, self, w);
    DeliverAll(reg, f, sender, self, recipients, body);
  }

  /**
   * Carrying out a command: a broadcast goes to every writer; a directed
   * message is echoed to the sender when it has one recipient and then
   * goes to each recipient, or reports that recipient missing to the
   * sender; a malformed one is answered with an error; an unknown line is
   * ignored. The registry's entries do not change.
   */
  method Execute(reg: Registry, f: Framing, sender: string, self: Writer, cmd: Command)
    modifies reg
    ensures reg.writers == old(reg.writers)
    ensures forall w :: reg.Output(w) == old(reg.Output(w)) + Answer(f, sender, self, cmd, old(reg.writers), w)
  {
    match cmd
    case Broadcast(body) =>
      reg.SendToAll(BroadcastLine(f, sender, body));
    case Direct(recipients, body) =>
      SendDirect(reg, f, sender, self, recipients, body);
    case BadDirect =>
      reg.Println(self, InvalidLine(f));
    case Unknown =>
  }

  /** Handling one line of the message loop: classify it, then carry out what it asks for. */
  method Dispatch(reg: Registry, f: Framing, sender: string, self: Writer, message: string)
    modifies reg
    ensures reg.writers == old(reg.writers)
    ensures forall w :: reg.Output(w) == old(reg.Output(w)) + Inbox(f, sender, self, message, old(reg.writers), w)
  {
    var cmd := Classify(message);
    Execute(reg, f, sender, self, cmd);
  }

  /** Delivering to two lists in turn is delivering to the first, then to the second. */
  lemma {:induction false} DeliveriesAppend(f: Framing, sender: string, body: string,
                                            a: seq<string>, b: seq<string>,
                                            writers: map<string, Writer>, self: Writer, w: Writer)
    ensures Deliveries(f, sender, body, a + b, writers, self, w)
         == Deliveries(f, sender, body, a, writers, self, w) + Deliveries(f, sender, body, b, writers, self, w)
    decreases |b|
  {
    if b == [] {
      assert a + b == a;
    } else {
      var b' := b[..|b| - 1];
      var last := b[|b| - 1];
      assert (a + b)[..|a + b| - 1] == a + b';
      assert (a + b)[|a + b| - 1] == last;
      DeliveriesAppend(f, sender, body, a, b', writers, self, w);
    }
  }

  /** Writer `w` prints, for `recipients[k]`, exactly what delivering to that one recipient prints. */
  lemma DeliveriesSplitAt(f: Framing, sender: string, body: string, recipients: seq<string>, k: nat,
                          writers: map<string, Writer>, self: Writer, w: Writer)
    requires k < |recipients|
    ensures Deliveries(f, sender, body, recipients, writers, self, w)
         == Deliveries(f, sender, body, recipients[..k], writers, self, w)
          + Delivery(f, sender, body, recipients[k], writers, self, w)
          + Deliveries(f, sender, body, recipients[k + 1..], writers, self, w)
  {
    assert recipients == recipients[..k] + [recipients[k]] + recipients[k + 1..];
    DeliveriesAppend(f, sender, body, recipients[..k] + [recipients[k]], recipients[k + 1..], writers, self, w);
    DeliveriesAppend(f, sender, body, recipients[..k], [recipients[k]], writers, self, w);
    assert Deliveries(f, sender, body, [recipients[k]], writers, self, w)
        == Delivery(f, sender, body, recipients[k], writers, self, w);
  }

  /**
   * Every registered recipient's writer gets the message, whatever the
   * other recipients are: a missing recipient does not stop delivery to
   * the ones after it.
   */
  lemma RegisteredRecipientReached(f: Framing, sender: string, body: string, recipients: seq<string>, k: nat,
                                   writers: map<string, Writer>, self: Writer)
    requires k < |recipients| && recipients[k] in writers
    ensures DirectLine(f, sender, recipients[k], body)
            in Deliveries(f, sender, body, recipients, writers, self, writers[recipients[k]])
  {
    DeliveriesSplitAt(f, sender, body, recipients, k, writers, self, writers[recipients[k]]);
  }

  /** Every recipient that is not registered is reported to the sender by name. */
  lemma MissingRecipientReported(f: Framing, sender: string, body: string, recipients: seq<string>, k: nat,
                                 writers: map<string, Writer>, self: Writer)
    requires k < |recipients| && recipients[k] !in writers
    ensures NotFoundLine(f, recipients[k]) in Deliveries(f, sender, body, recipients, writers, self, self)
  {
    DeliveriesSplitAt(f, sender, body, recipients, k, writers, self, self);
  }

  /**
   * A writer other than the sender's gets nothing but the message itself,
   * once for each recipient registered with it; errors go to the sender only.
   */
  lemma {:induction false} OthersOnlyGetTheMessage(f: Framing, sender: string, body: string,
                                                   recipients: seq<string>,
                                                   writers: map<string, Writer>, self: Writer, w: Writer)
    requires w != self
    ensures forall line :: line in Deliveries(f, sender, body, recipients, writers, self, w) ==>
              exists r :: r in recipients && r in writers && writers[r] == w && line == DirectLine(f, sender, r, body)
    decreases |recipients|
  {
    if recipients != [] {
      var front := recipients[..|recipients| - 1];
      OthersOnlyGetTheMessage(f, sender, body, front, writers, self, w);
      forall line | line in Deliveries(f, sender, body, recipients, writers, self, w)
        ensures exists r :: r in recipients && r in writers && writers[r] == w && line == DirectLine(f, sender, r, body)
      {
        if line in Deliveries(f, sender, body, front, writers, self, w) {
          var r :| r in front && r in writers && writers[r] == w && line == DirectLine(f, sender, r, body);
          assert r in recipients;
        } else {
          assert recipients[|recipients| - 1] in recipients;
        }
      }
    }
  }

  /** When handles have distinct writers, a broadcast reaches each registered writer exactly once. */
  lemma BroadcastReachesEachWriterOnce(f: Framing, sender: string, self: Writer, message: string,
                                       writers: map<string, Writer>, w: Writer)
    requires Classify(message).Broadcast?
    requires Injective(writers)
    ensures Inbox(f, sender, self, message, writers, w)
         == if w in writers.Values then [BroadcastLine(f, sender, Classify(message).body)] else []
  {
    FanoutOfInjective(writers, w);
  }

  /** A `BROADCAST` line is always a broadcast of its trimmed remainder. */
  lemma BroadcastPrefixWins(message: string)
    requires StartsWith(message, E_BROADCAST)
    ensures Classify(message) == Broadcast(Trim(message[|E_BROADCAST|..]))
  {
  }

  /**
   * A `P2P` line whose first ':' is missing or at index 3 or less is
   * answered by exactly one error, to the sender, and by nothing else.
   */
  lemma MalformedDirectAnsweredOnce(f: Framing, sender: string, self: Writer, message: string,
                                    writers: map<string, Writer>, w: Writer)
    requires StartsWith(message, E_P2P) && IndexOf(message, ':') <= 3
    ensures Inbox(f, sender, self, message, writers, w) == if w == self then [InvalidLine(f)] else []
  {
    DifferentFirstLetter(message, E_BROADCAST);
  }

  /** A line with neither prefix makes no writer print anything. */
  lemma UnknownLineIgnored(f: Framing, sender: string, self: Writer, message: string,
                           writers: map<string, Writer>, w: Writer)
    requires !StartsWith(message, E_BROADCAST) && !StartsWith(message, E_P2P)
    ensures Inbox(f, sender, self, message, writers, w) == []
  {
  }

  /**
   * With exactly one recipient the sender first gets its own copy of the
   * message, whether or not that recipient is registered.
   */
  lemma SingleRecipientEchoedFirst(f: Framing, sender: string, self: Writer, message: string,
                                   writers: map<string, Writer>)
    requires Classify(message).Direct? && |Classify(message).recipients| == 1
    ensures var c := Classify(message);
            var inbox := Inbox(f, sender, self, message, writers, self);
            |inbox| >= 1 && inbox[0] == DirectLine(f, sender, c.recipients[0], c.body)
  {
  }

  /**
   * The partial-delivery example: to "alice" (registered, not the sender's
   * writer) and "ghost" (not registered), alice's writer gets the message
   * alone and the sender gets the error naming ghost alone.
   */
  lemma PartialDelivery(f: Framing, sender: string, self: Writer, message: string,
                        writers: map<string, Writer>)
    requires Classify(message).Direct? && Classify(message).recipients == ["alice", "ghost"]
    requires "alice" in writers && writers["alice"] != self && "ghost" !in writers
    ensures var body := Classify(message).body;
            Inbox(f, sender, self, message, writers, writers["alice"]) == [DirectLine(f, sender, "alice", body)]
            && Inbox(f, sender, self, message, writers, self) == [NotFoundLine(f, "ghost")]
  {
    var body := Classify(message).body;
    var rs := ["alice", "ghost"];
    assert rs[..1] == ["alice"] && rs[..1][..0] == [];
    assert Deliveries(f, sender, body, rs, writers, self, writers["alice"]) == [DirectLine(f, sender, "alice", body)];
    assert Deliveries(f, sender, body, rs, writers, self, self) == [NotFoundLine(f, "ghost")];
  }

  /**
   * A blank recipient segment splits into the one empty recipient: the
   * sender gets the single-recipient echo and then the error for the
   * recipient '' (when nobody registered the empty handle).
   */
  lemma BlankRecipientNotFound(f: Framing, sender: string, self: Writer, body: string, writers: map<string, Writer>)
    requires "" !in writers
    ensures Inbox(f, sender, self, "P2P :" + body, writers, self)
         == [DirectLine(f, sender, "", Trim(body)), NotFoundLine(f, "")]
  {
    var b := Trim(body);
    assert "P2P :" == E_P2P + " " + [':'];
    ClassifyDirect(" ", body);
    TrimOfSpace();
    SplitWithoutComma("");
    assert Classify("P2P :" + body) == Direct([""], b);
    assert Echo(f, sender, [""], b, self, self) == [DirectLine(f, sender, "", b)];
    assert Deliveries(f, sender, b, [""], writers, self, self) == [NotFoundLine(f, "")] by {
      assert [""][..0] == [];
    }
  }

  /**
   * A recipient list that is a lone comma splits into no recipients at
   * all: the line is well formed, yet no writer prints anything, not even
   * an error.
   */
  lemma CommaOnlyListSilent(f: Framing, sender: string, self: Writer, body: string,
                            writers: map<string, Writer>, w: Writer)
    ensures Classify("P2P,:" + body) == Direct([], Trim(body))
    ensures Inbox(f, sender, self, "P2P,:" + body, writers, w) == []
  {
    assert "P2P,:" == E_P2P + "," + [':'];
    ClassifyDirect(",", body);
    SplitOfComma();
  }

  /** Part way through the message loop: every writer has printed the transcript of the lines handled so far. */
  ghost predicate TranscriptSoFar(start: map<Writer, seq<string>>, p: map<Writer, seq<string>>, f: Framing, sender: string,
                                  self: Writer, handled: seq<string>, writers: map<string, Writer>)
  {
    forall w :: OutputIn(p, w) == OutputIn(start, w) + Transcript(f, sender, self, handled, writers, w)
  }

  /** Handling one more line, with its prints on top, extends the transcript by that line. */
  lemma TranscriptStep(start: map<Writer, seq<string>>, before: map<Writer, seq<string>>, after: map<Writer, seq<string>>,
                       f: Framing, sender: string, self: Writer, handled: seq<string>, message: string,
                       writers: map<string, Writer>)
    requires TranscriptSoFar(start, before, f, sender, self, handled, writers)
    requires forall w :: OutputIn(after, w) == OutputIn(before, w) + Inbox(f, sender, self, message, writers, w)
    ensures TranscriptSoFar(start, after, f, sender, self, handled + [message], writers)
  {
    forall w
      ensures OutputIn(after, w) == OutputIn(start, w) + Transcript(f, sender, self, handled + [message], writers, w)
    {
      var extra := Inbox(f, sender, self, message, writers, w);
      var soFar := Transcript(f, sender, self, handled, writers, w);
      assert OutputIn(after, w) == OutputIn(before, w) + extra;
      assert OutputIn(before, w) == OutputIn(start, w) + soFar;
      TranscriptSnoc(f, sender, self, handled, message, writers, w);
      assert Transcript(f, sender, self, handled + [message], writers, w) == soFar + extra;
      AppendAssoc(OutputIn(start, w), soFar, extra);
    }
  }

  /** Handling one more line appends what that line makes each writer print. */
  lemma TranscriptSnoc(f: Framing, sender: string, self: Writer, lines: seq<string>, line: string,
                       writers: map<string, Writer>, w: Writer)
    ensures Transcript(f, sender, self, lines + [line], writers, w)
         == Transcript(f, sender, self, lines, writers, w) + Inbox(f, sender, self, line, writers, w)
  {
    assert (lines + [line])[..|lines|] == lines;
  }

  /**
   * The message loop over the reads `rs`, up to the first read that is not
   * a line: each line is routed in turn, every writer ends up with the
   * transcript of those lines, and the reads from that one on are left.
   */
  method RouteAll(reg: Registry, f: Framing, sender: string, self: Writer, rs: seq<Read>) returns (rest: seq<Read>)
    modifies reg
    ensures rest == rs[|Lines(rs)|..]
    ensures reg.writers == old(reg.writers)
    ensures TranscriptSoFar(old(reg.printed), reg.printed, f, sender, self, Lines(rs), reg.writers)
  {
    ghost var handled: seq<string> := [];
    ghost var start := reg.printed;
    rest := rs;
    while rest != [] && rest[0].Line?
      invariant |handled| <= |rs| && rest == rs[|handled|..]
      invariant Lines(rs) == handled + Lines(rest)
      invariant reg.writers == old(reg.writers)
      invariant TranscriptSoFar(start, reg.printed, f, sender, self, handled, reg.writers)
      decreases |rest|
    {
      LinesStep(Lines(rs), handled, rest);
      var message := rest[0].text;
      rest := rest[1..];
      ghost var before := reg.printed;
      Dispatch(reg, f, sender, self, message);
      TranscriptStep(start, before, reg.printed, f, sender, self, handled, message, reg.writers);
      handled := handled + [message];
    }
    assert Lines(rest) == [];
    assert Lines(rs) == handled;
  }

  /**
   * Where the name handshake ends: its outcome, the `name` field at that
   * point, the lines it sent to its own client and how many reads it took.
   */
  datatype Handshake = Handshake(outcome: Outcome, name: Option<string>, sent: seq<string>, consumed: nat)

  /** One more round of the loop in front of `h`: a `prompt` sent and a read taken. */
  function Prompted(prompt: string, h: Handshake): Handshake
  {
    h.(sent := [prompt] + h.sent, consumed := h.consumed + 1)
  }

  /** `h` after `k` earlier rounds that sent `sent`. */
  function Shift(sent: seq<string>, k: nat, h: Handshake): Handshake
  {
    h.(sent := sent + h.sent, consumed := k + h.consumed)
  }

  /** So far during the handshake, only writer `self` has printed, and it has printed `sent`. */
  ghost predicate SentSoFar(start: map<Writer, seq<string>>, p: map<Writer, seq<string>>, self: Writer, sent: seq<string>)
  {
    forall w :: OutputIn(p, w) == OutputIn(start, w) + (if w == self then sent else [])
  }

  /** One more line printed on `self` extends what it has sent by that line. */
  lemma SendOne(start: map<Writer, seq<string>>, before: map<Writer, seq<string>>, after: map<Writer, seq<string>>,
                self: Writer, sent: seq<string>, line: string)
    requires SentSoFar(start, before, self, sent)
    requires after == before[self := OutputIn(before, self) + [line]]
    ensures SentSoFar(start, after, self, sent + [line])
  {
    AppendAssoc(OutputIn(start, self), sent, [line]);
  }

  /**
   * What the acceptance of `name` makes writer `w` print: the `ack` to the
   * new client, then the handle list (tagged `listTag`) and the join
   * notice, once per handle registered with `w`.
   */
  function Announcement(ack: string, listTag: string, name: string, listed: seq<string>,
                        writers: map<string, Writer>, self: Writer, w: Writer): seq<string>
  {
    (if w == self then [ack] else [])
    + Repeat(UserListLine(listTag, listed), Fanout(writers, w))
    + Repeat(JoinLine(name), Fanout(writers, w))
  }

  /**
   * With one handle per writer, the new client gets the acknowledgement,
   * then the handle list, then the join notice; every other registered
   * writer gets the list and the notice; nobody else gets anything.
   */
  lemma AnnouncementOrder(ack: string, listTag: string, name: string, listed: seq<string>,
                          writers: map<string, Writer>, self: Writer, w: Writer)
    requires Injective(writers) && self in writers.Values
    ensures Announcement(ack, listTag, name, listed, writers, self, w)
         == if w == self then [ack, UserListLine(listTag, listed), JoinLine(name)]
            else if w in writers.Values then [UserListLine(listTag, listed), JoinLine(name)]
            else []
  {
    FanoutOfInjective(writers, w);
  }
}
