/**
 * The older client (the default-package `ChatClient`): one selected
 * handle at most, no sanitizing, literal tags, and a read loop that cuts
 * fixed-width prefixes off the lines it displays.
 */
module LegacyChatClient {
  import opened JavaLang
  import opened ChatConstants
  import opened Protocol
  import opened LegacyChatServer

  /**
   * The line pressing Return sends, if any: in point-to-point mode with
   * no handle selected a warning dialog appears instead and nothing goes
   * out.
   */
  function Outgoing(p2pMode: bool, selected: Option<string>, message: string): (line: Option<string>)
    ensures line.None? <==> p2pMode && selected.None?
    ensures line.Some? ==> StartsWith(line.value, if p2pMode then "P2P" else "BROADCAST")
    ensures line.Some? ==> |message| <= |line.value| && line.value[|line.value| - |message|..] == message
  {
    if !p2pMode then Some("BROADCAST" + message)
    else if selected.Some? then Some("P2P " + selected.value + ": " + message)
    else None
  }

  /** A broadcast goes out as typed, and the server broadcasts its trimmed text. */
  lemma BroadcastRoundTrip(message: string)
    ensures Outgoing(false, None, message) == Some("BROADCAST" + message)
    ensures Classify(Outgoing(false, None, message).value) == Broadcast(Trim(message))
  {
    var line := "BROADCAST" + message;
    assert line[..9] == "BROADCAST" && line[9..] == message;
  }

  /**
   * A message to a selected handle without ':' or ',' reaches the server
   * as a message to that one handle (trimmed) with the trimmed text as
   * its body, ':' in the text included.
   */
  lemma DirectRoundTrip(recipient: string, message: string)
    requires ':' !in recipient && ',' !in recipient
    ensures Outgoing(true, Some(recipient), message).Some?
    ensures Classify(Outgoing(true, Some(recipient), message).value) == Direct([Trim(recipient)], Trim(message))
  {
    assert "P2P " + recipient + ": " + message == E_P2P + ([' '] + recipient) + [':'] + ([' '] + message);
    ClassifyDirect([' '] + recipient, [' '] + message);
    TrimSkipsLeadingBlank(' ', recipient);
    TrimSkipsLeadingBlank(' ', message);
    var t := Trim(recipient);
    TrimKeepsOut(recipient, ',');
    SplitWithoutComma(t);
  }

  /** With nothing selected in point-to-point mode nothing is sent. */
  lemma NoSelectionSendsNothing(message: string)
    ensures Outgoing(true, None, message) == None
  {
  }

  /**
   * The read loop's dispatch as written. A null line, or a tagged line
   * shorter than the prefix cut off it, makes it throw.
   */
  function Inbound(line: Option<string>): (e: Event)
    ensures e == Crash <==> line.None? || line.value in {"MESSAGE", "USERLIST", "P2P"}
    ensures e.UserList? ==> forall u :: u in e.users ==> ',' !in u
  {
    if line.None? then Crash
    else
      var l := line.value;
      if StartsWith(l, SUBMITNAME) then Prompt
      else if StartsWith(l, NAMEACCEPTED) then Accept
      else if StartsWith(l, "MESSAGE") then (if |l| < 8 then assert l == l[..7]; Crash else assert l[..7][0] == 'M'; Show(l[8..]))
      else if StartsWith(l, USERLIST) then (if |l| < 9 then assert l == l[..8]; Crash else UserList(Split(l[9..])))
      else if StartsWith(l, "P2P") then (if |l| < 4 then assert l == l[..3]; Crash else Show("[P2P] " + l[4..]))
      else Ignore
  }

  /** The handshake tags of the older server are the ones this client looks for. */
  lemma HandshakeTagsMatch()
    ensures Inbound(Some(SUBMITNAME)) == Prompt
    ensures Inbound(Some(NAMEACCEPTED)) == Accept
  {
    DifferentFirstLetter(NAMEACCEPTED, SUBMITNAME);
  }

  /** The join notice is shown from the bracketed sender on, as intended. */
  lemma JoinNoticeShown(name: string)
    ensures Inbound(Some(JoinLine(name))) == Show("[Server]: " + name + " has joined the chat.")
  {
    var l := JoinLine(name);
    assert l[..7] == "MESSAGE" && l[8..] == "[Server]: " + name + " has joined the chat.";
    DifferentFirstLetter(l, SUBMITNAME);
    DifferentFirstLetter(l, NAMEACCEPTED);
  }

  /** The server's error replies match no tag, so the user never sees them. */
  lemma ErrorsNotShown(recipient: string)
    ensures Inbound(Some(NotFoundLine(Frames, recipient))) == Ignore
    ensures Inbound(Some(InvalidLine(Frames))) == Ignore
  {
    var l := NotFoundLine(Frames, recipient);
    var b := InvalidLine(Frames);
    assert l[0] == 'E' && b[0] == 'E';
    DifferentFirstLetter(l, SUBMITNAME);
    DifferentFirstLetter(l, NAMEACCEPTED);
    DifferentFirstLetter(l, "MESSAGE");
    DifferentFirstLetter(l, USERLIST);
    DifferentFirstLetter(l, "P2P");
    DifferentFirstLetter(b, SUBMITNAME);
    DifferentFirstLetter(b, NAMEACCEPTED);
    DifferentFirstLetter(b, "MESSAGE");
    DifferentFirstLetter(b, USERLIST);
    DifferentFirstLetter(b, "P2P");
  }

  /** A handle-list line as the server sends it starts with the tag and with nothing the earlier tests catch. */
  lemma UserListLineTagged(listed: seq<string>)
    ensures var l := UserListLine(USERLIST, listed);
            |l| >= 8 && l[8..] == Join(listed) && StartsWith(l, USERLIST) &&
            !StartsWith(l, SUBMITNAME) && !StartsWith(l, NAMEACCEPTED) && !StartsWith(l, "MESSAGE")
  {
    var l := UserListLine(USERLIST, listed);
    assert l[..8] == USERLIST;
    DifferentFirstLetter(l, SUBMITNAME);
    DifferentFirstLetter(l, NAMEACCEPTED);
    DifferentFirstLetter(l, "MESSAGE");
  }

  /**
   * As written, the handle list is cut one character too far: the first
   * handle loses its first letter ("alice" and "bob" come out as "lice"
   * and "bob").
   */
  lemma HandleListLosesFirstLetter()
    ensures Inbound(Some(UserListLine(USERLIST, ["alice", "bob"]))) == UserList(["lice", "bob"])
  {
    UserListLineTagged(["alice", "bob"]);
    var l := UserListLine(USERLIST, ["alice", "bob"]);
    assert Join(["bob"]) == "bob";
    assert Join(["alice", "bob"]) == "alice,bob";
    assert l[9..] == "lice,bob";
    assert Join(["lice", "bob"]) == "lice,bob";
    assert forall p :: p in ["lice", "bob"] ==> ',' !in p;
    SplitOfJoin(["lice", "bob"]);
  }

  /** A message line as the server frames it, with `tag` in front. */
  lemma MessageLineTagged(tag: string, rest: string)
    requires StartsWith(tag, "MESSAGE")
    ensures var l := tag + rest;
            StartsWith(l, "MESSAGE") && !StartsWith(l, SUBMITNAME) && !StartsWith(l, NAMEACCEPTED)
  {
    var l := tag + rest;
    assert l[..7] == tag[..7];
    DifferentFirstLetter(l, SUBMITNAME);
    DifferentFirstLetter(l, NAMEACCEPTED);
  }

  /**
   * As written, the server puts no space after MESSAGE and the client
   * cuts eight characters, so every chat line loses the sender's first
   * letter.
   */
  lemma SenderLosesFirstLetter(sender: string, recipient: string, body: string)
    requires sender != ""
    ensures Inbound(Some(BroadcastLine(Frames, sender, body))) == Show(sender[1..] + ": " + body)
    ensures Inbound(Some(DirectLine(Frames, sender, recipient, body))) == Show(sender[1..] + ">>" + recipient + body)
  {
    var l := BroadcastLine(Frames, sender, body);
    MessageLineTagged("MESSAGE", sender + ": " + body);
    assert l == "MESSAGE" + (sender + ": " + body);
    assert l[8..] == sender[1..] + ": " + body;
    var d := DirectLine(Frames, sender, recipient, body);
    MessageLineTagged("MESSAGE", sender + ">>" + recipient + body);
    assert d == "MESSAGE" + (sender + ">>" + recipient + body);
    assert d[8..] == sender[1..] + ">>" + recipient + body;
  }

  /** "alice" saying "hi" is shown as "lice: hi". */
  lemma AliceShownAsLice()
    ensures Inbound(Some(BroadcastLine(Frames, "alice", "hi"))) == Show("lice: hi")
  {
    SenderLosesFirstLetter("alice", "bob", "hi");
    assert "alice"[1..] + ": " + "hi" == "lice: hi";
  }

  /** The dispatch with the handle list cut after its eight-letter tag. */
  function CorrectedInbound(line: Option<string>): Event
  {
    if line.None? then Crash
    else
      var l := line.value;
      if StartsWith(l, SUBMITNAME) then Prompt
      else if StartsWith(l, NAMEACCEPTED) then Accept
      else if StartsWith(l, "MESSAGE") then (if |l| < 8 then Crash else Show(l[8..]))
      else if StartsWith(l, USERLIST) then UserList(Split(l[8..]))
      else if StartsWith(l, "P2P") then (if |l| < 4 then Crash else Show("[P2P] " + l[4..]))
      else Ignore
  }

  /** The corrected dispatch recovers the announced handles exactly, for comma-free handles. */
  lemma CorrectedHandleList(listed: seq<string>)
    requires listed != [] && listed[|listed| - 1] != ""
    requires forall n :: n in listed ==> ',' !in n
    ensures CorrectedInbound(Some(UserListLine(USERLIST, listed))) == UserList(listed)
  {
    UserListLineTagged(listed);
    SplitOfJoin(listed);
  }

  /**
   * With the space after MESSAGE in the server's framing, the client
   * shows every broadcast and private message with the whole sender
   * handle in front.
   */
  lemma CorrectedSenderShown(sender: string, recipient: string, body: string)
    ensures CorrectedInbound(Some(BroadcastLine(CorrectedFrames, sender, body))) == Show(sender + ": " + body)
    ensures CorrectedInbound(Some(DirectLine(CorrectedFrames, sender, recipient, body))) == Show(sender + ">>" + recipient + body)
  {
    var b := BroadcastLine(CorrectedFrames, sender, body);
    var d := DirectLine(CorrectedFrames, sender, recipient, body);
    MessageLineTagged("MESSAGE ", sender + ": " + body);
    MessageLineTagged("MESSAGE ", sender + ">>" + recipient + body);
    assert b == "MESSAGE " + (sender + ": " + body);
    assert d == "MESSAGE " + (sender + ">>" + recipient + body);
    assert b[8..] == sender + ": " + body;
    assert d[8..] == sender + ">>" + recipient + body;
  }

  /** The widgets' state: the text field's lock, the log, the handle list, and every line sent. */
  datatype View = View(editable: bool, messageArea: string, users: seq<string>, sent: seq<string>)

  /** The effect of one event; `chosen` is what the name dialog returns (null when cancelled). */
  function Apply(v: View, e: Event, chosen: Option<string>): View
  {
    match e
    case Prompt => v.(sent := v.sent + [Str(chosen)])
    case Accept => v.(editable := true)
    case UserList(users) => v.(users := users)
    case Show(text) => v.(messageArea := v.messageArea + text + "\n")
    case Ignore => v
    case Crash => v
  }

  /** The effect of the read loop over `incoming`, up to and excluding the first line that makes it throw. */
  function Replay(v: View, incoming: seq<Incoming>): View
    decreases |incoming|
  {
    if incoming == [] then v
    else
      var e := Inbound(incoming[0].line);
      if e == Crash then v else Replay(Apply(v, e, incoming[0].chosen), incoming[1..])
  }

  /** The read loop never takes back a line it sent: what was sent stays at the front. */
  lemma {:induction false} SentOnlyGrows(v: View, incoming: seq<Incoming>)
    ensures v.sent <= Replay(v, incoming).sent
    decreases |incoming|
  {
    if incoming != [] && Inbound(incoming[0].line) != Crash {
      var v' := Apply(v, Inbound(incoming[0].line), incoming[0].chosen);
      SentOnlyGrows(v', incoming[1..]);
    }
  }

  class Client {
    var textField: string
    var editable: bool
    var messageArea: string
    /** `listModel`. */
    var users: seq<string>
    /** Every line printed on `out`, in order. */
    var sent: seq<string>

    /** The frame as laid out: empty widgets, the text field locked. */
    constructor ()
      ensures textField == ""
      ensures Snapshot() == View(false, "", [], [])
    {
      textField := "";
      editable := false;
      messageArea := "";
      users := [];
      sent := [];
    }

    function Snapshot(): View
      reads this
    {
      View(editable, messageArea, users, sent)
    }

    /**
     * Pressing Return: the text goes out framed for the mode, if it goes
     * out at all, and the field is emptied either way.
     */
    method Submit(p2pMode: bool, selected: Option<string>)
      modifies this
      ensures sent == old(sent) + (match Outgoing(p2pMode, selected, old(textField)) case Some(l) => [l] case None => [])
      ensures textField == ""
      ensures editable == old(editable) && messageArea == old(messageArea) && users == old(users)
    {
      var message := textField;
      if p2pMode {
        if selected.Some? {
          sent := sent + ["P2P " + selected.value + ": " + message];
        }
      } else {
        sent := sent + ["BROADCAST" + message];
      }
      textField := "";
    }

    /** `listModel.clear()`, then `addElement` for each handle in turn. */
    method ReplaceUsers(list: seq<string>)
      modifies this
      ensures Snapshot() == old(Snapshot()).(users := list)
      ensures textField == old(textField)
    {
      users := [];
      var i := 0;
      while i < |list|
        invariant 0 <= i <= |list|
        invariant users == list[..i]
        invariant Snapshot() == old(Snapshot()).(users := users)
        invariant textField == old(textField)
      {
        users := users + [list[i]];
        i := i + 1;
      }
    }

    /** One pass of the read loop; `running` is false when the line made it throw. */
    method Receive(line: Option<string>, chosen: Option<string>) returns (running: bool)
      modifies this
      ensures running <==> Inbound(line) != Crash
      ensures Snapshot() == Apply(old(Snapshot()), Inbound(line), chosen)
      ensures textField == old(textField)
    {
      if line.None? {
        return false;
      }
      var l := line.value;
      if StartsWith(l, SUBMITNAME) {
        sent := sent + [Str(chosen)];
      } else if StartsWith(l, NAMEACCEPTED) {
        editable := true;
      } else if StartsWith(l, "MESSAGE") {
        if |l| < 8 {
          return false;
        }
        messageArea := messageArea + l[8..] + "\n";
      } else if StartsWith(l, USERLIST) {
        if |l| < 9 {
          return false;
        }
        ReplaceUsers(Split(l[9..]));
      } else if StartsWith(l, "P2P") {
        if |l| < 4 {
          return false;
        }
        messageArea := messageArea + "[P2P] " + l[4..] + "\n";
      }
      return true;
    }

    /** The read loop over `incoming`, until a line makes it throw; `handled` counts the passes that completed. */
    method Run(incoming: seq<Incoming>) returns (handled: nat)
      modifies this
      ensures handled <= |incoming|
      ensures handled == |incoming| || Inbound(incoming[handled].line) == Crash
      ensures forall i :: 0 <= i < handled ==> Inbound(incoming[i].line) != Crash
      ensures Snapshot() == Replay(old(Snapshot()), incoming)
      ensures textField == old(textField)
    {
      handled := 0;
      while handled < |incoming|
        invariant handled <= |incoming|
        invariant forall i :: 0 <= i < handled ==> Inbound(incoming[i].line) != Crash
        invariant textField == old(textField)
        invariant Replay(Snapshot(), incoming[handled..]) == Replay(old(Snapshot()), incoming)
        decreases |incoming| - handled
      {
        var item := incoming[handled];
        var running := Receive(item.line, item.chosen);
        if !running {
          return;
        }
        assert incoming[handled..][1..] == incoming[handled + 1..];
        handled := handled + 1;
      }
    }
  }
}
