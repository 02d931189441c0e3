/**
 * The newer client (`chat.ChatClient`): it strips ':' from what the user
 * types, frames it as a broadcast or as a message to the selected
 * handles, and dispatches the server's lines on their prefix. The Swing
 * widgets are the fields of `Client`; the dialogs and the selection are
 * inputs.
 */
module ChatClient {
  import opened JavaLang
  import opened ChatConstants
  import opened Protocol

  /** `input.replaceAll("[:]", "")`: every ':' removed, everything else kept in order. */
  function Sanitize(input: string): (r: string)
    ensures ':' !in r
    ensures IsSubsequence(r, input)
    ensures forall c :: c != ':' ==> multiset(r)[c] == multiset(input)[c]
    ensures multiset(r)[':'] == 0
  {
    if input == [] then []
    else
      var rest := Sanitize(input[1..]);
      assert input == [input[0]] + input[1..];
      if input[0] == ':' then rest
      else
        assert ([input[0]] + rest)[1..] == rest;
        [input[0]] + rest
  }

  /** Text without ':' is left as it is. */
  lemma {:induction false} SanitizeKeepsClean(s: string)
    requires ':' !in s
    ensures Sanitize(s) == s
  {
    if s != [] {
      SanitizeKeepsClean(s[1..]);
      assert s == [s[0]] + s[1..];
    }
  }

  /** Sanitizing twice is sanitizing once. */
  lemma SanitizeIdempotent(s: string)
    ensures Sanitize(Sanitize(s)) == Sanitize(s)
  {
    SanitizeKeepsClean(Sanitize(s));
  }

  /** The line sent in broadcast mode. */
  function BroadcastFrame(input: string): (line: string)
    ensures StartsWith(line, E_BROADCAST) && ':' !in line
  {
    "BROADCAST" + Sanitize(input)
  }

  /** The line sent in point-to-point mode: the selected handles joined by commas. */
  function DirectFrame(selected: seq<string>, input: string): (line: string)
    ensures StartsWith(line, E_P2P)
    ensures multiset(line)[':'] == 1 + multiset(Join(selected))[':']
  {
    "P2P" + Join(selected) + ":" + Sanitize(input)
  }

  /** The line pressing Return sends, in either mode; the selection is always there, possibly empty. */
  function Outgoing(p2pMode: bool, selected: seq<string>, input: string): (line: string)
    ensures StartsWith(line, if p2pMode then E_P2P else E_BROADCAST)
    ensures !p2pMode ==> ':' !in line
  {
    if p2pMode then DirectFrame(selected, input) else BroadcastFrame(input)
  }

  /** The server reads a broadcast frame as a broadcast of the trimmed, sanitized text. */
  lemma BroadcastRoundTrip(input: string)
    ensures Classify(BroadcastFrame(input)) == Broadcast(Trim(Sanitize(input)))
  {
    var line := BroadcastFrame(input);
    assert line[..9] == "BROADCAST" && line[9..] == Sanitize(input);
  }

  /** A handle the server's parse gives back unchanged inside a list. */
  predicate PlainHandle(n: string)
  {
    n != "" && ':' !in n && ',' !in n && !IsTrimmable(n[0]) && !IsTrimmable(n[|n| - 1])
  }

  /** A list of plain handles joins into a string that has no ':' and nothing for `trim` to remove. */
  lemma {:induction false} JoinOfPlainHandles(selected: seq<string>)
    requires selected != []
    requires forall n :: n in selected ==> PlainHandle(n)
    ensures var j := Join(selected);
            ':' !in j && j != [] && !IsTrimmable(j[0]) && !IsTrimmable(j[|j| - 1])
  {
    assert selected[0] in selected;
    if |selected| > 1 {
      assert forall n :: n in selected[1..] ==> n in selected;
      JoinOfPlainHandles(selected[1..]);
      var rest := Join(selected[1..]);
      var head := selected[0];
      assert PlainHandle(head);
      var j := head + [','] + rest;
      assert Join(selected) == j;
      assert j[0] == head[0];
      assert j[|j| - 1] == rest[|rest| - 1];
      assert ':' !in j by {
        assert ':' !in head && ':' !in rest;
      }
    }
  }

  /**
   * The server reads a point-to-point frame for a list of plain handles
   * as a message to exactly those handles, in order, with the trimmed,
   * sanitized text as its body.
   */
  lemma DirectRoundTrip(selected: seq<string>, input: string)
    requires selected != []
    requires forall n :: n in selected ==> PlainHandle(n)
    ensures Classify(DirectFrame(selected, input)) == Direct(selected, Trim(Sanitize(input)))
  {
    var j := Join(selected);
    var line := DirectFrame(selected, input);
    JoinOfPlainHandles(selected);
    assert line == E_P2P + j + [':'] + Sanitize(input);
    ClassifyDirect(j, Sanitize(input));
    TrimUnpadded(j);
    assert selected[|selected| - 1] in selected;
    SplitOfJoin(selected);
  }

  /**
   * With nothing selected the frame is "P2P:" and a message, which the
   * server answers as a malformed point-to-point message.
   */
  lemma EmptySelectionRejected(input: string)
    ensures Classify(DirectFrame([], input)) == BadDirect
  {
    assert DirectFrame([], input) == E_P2P + [':'] + Sanitize(input);
    ClassifyNoRecipients(Sanitize(input));
  }

  /** The prefix dispatch of the read loop, with the tags this client tests for. */
  function Inbound(line: Option<string>): (e: Event)
    ensures e == Crash <==> line.None?
    ensures e.Show? ==> |e.text| <= |line.value| && line.value[|line.value| - |e.text|..] == e.text
    ensures e.UserList? ==> forall u :: u in e.users ==> ',' !in u
  {
    if line.None? then Crash
    else
      var l := line.value;
      if StartsWith(l, "SUBMITNAME") then Prompt
      else if StartsWith(l, "NAMEACCEPTED") then Accept
      else if StartsWith(l, "USERLIST") then UserList(Split(l[8..]))
      else if StartsWith(l, "MESSAGE") then Show(l[7..])
      else if StartsWith(l, "P2P") then Show(l[3..])
      else Ignore
  }

  /**
   * The three handshake tags the newer server sends are none of the ones
   * this client tests for, so it never answers the name prompt, never
   * unlocks its text field and never fills its handle list.
   */
  lemma MissesServerHandshake(listed: seq<string>)
    ensures Inbound(Some(E_SUBMIT_NAME)) == Ignore
    ensures Inbound(Some(E_NAME_ACCEPTED)) == Ignore
    ensures Inbound(Some(UserListLine(E_USER_LIST, listed))) == Ignore
  {
    DifferAt(E_SUBMIT_NAME, "SUBMITNAME", 6);
    DifferentFirstLetter(E_SUBMIT_NAME, "NAMEACCEPTED");
    DifferentFirstLetter(E_SUBMIT_NAME, "USERLIST");
    DifferentFirstLetter(E_SUBMIT_NAME, "MESSAGE");
    DifferentFirstLetter(E_SUBMIT_NAME, "P2P");
    DifferentFirstLetter(E_NAME_ACCEPTED, "SUBMITNAME");
    DifferAt(E_NAME_ACCEPTED, "NAMEACCEPTED", 4);
    DifferentFirstLetter(E_NAME_ACCEPTED, "USERLIST");
    DifferentFirstLetter(E_NAME_ACCEPTED, "MESSAGE");
    DifferentFirstLetter(E_NAME_ACCEPTED, "P2P");
    var l := UserListLine(E_USER_LIST, listed);
    assert l[..9] == E_USER_LIST;
    DifferentFirstLetter(l, "SUBMITNAME");
    DifferentFirstLetter(l, "NAMEACCEPTED");
    DifferAt(l, "USERLIST", 4);
    DifferentFirstLetter(l, "MESSAGE");
    DifferentFirstLetter(l, "P2P");
  }

  /** The same dispatch keyed on the shared tag constants. */
  function InboundByTags(line: Option<string>): Event
  {
    if line.None? then Crash
    else
      var l := line.value;
      if StartsWith(l, E_SUBMIT_NAME) then Prompt
      else if StartsWith(l, E_NAME_ACCEPTED) then Accept
      else if StartsWith(l, E_USER_LIST) then UserList(Split(l[|E_USER_LIST|..]))
      else if StartsWith(l, E_MESSAGE) then Show(l[|E_MESSAGE|..])
      else if StartsWith(l, E_P2P) then Show(l[|E_P2P|..])
      else Ignore
  }

  /**
   * Keyed on the shared tags, the client answers the prompt, unlocks on
   * acceptance and recovers the handle list the server announced, for
   * comma-free handles.
   */
  lemma TagsCompleteHandshake(listed: seq<string>)
    requires listed != [] && listed[|listed| - 1] != ""
    requires forall n :: n in listed ==> ',' !in n
    ensures InboundByTags(Some(E_SUBMIT_NAME)) == Prompt
    ensures InboundByTags(Some(E_NAME_ACCEPTED)) == Accept
    ensures InboundByTags(Some(UserListLine(E_USER_LIST, listed))) == UserList(listed)
  {
    assert !StartsWith(E_NAME_ACCEPTED, E_SUBMIT_NAME) by { assert E_NAME_ACCEPTED[0] == 'N'; }
    UserListByTags(listed);
    SplitOfJoin(listed);
  }

  /** Keyed on the shared tags, a handle-list line gives the split of the text after the tag. */
  lemma UserListByTags(listed: seq<string>)
    ensures InboundByTags(Some(UserListLine(E_USER_LIST, listed))) == UserList(Split(Join(listed)))
  {
    UserListTextByTags(Join(listed));
  }

  /** Keyed on the shared tags, `USER_LIST` followed by any text gives the split of that text. */
  lemma UserListTextByTags(text: string)
    ensures InboundByTags(Some(E_USER_LIST + text)) == UserList(Split(text))
  {
    var l := E_USER_LIST + text;
    assert l[..9] == E_USER_LIST && l[9..] == text;
    DifferentFirstLetter(l, E_SUBMIT_NAME);
    DifferentFirstLetter(l, E_NAME_ACCEPTED);
  }

  /** The widgets' state: the text field's lock, the log, the handle list, the last name chosen, and every line sent. */
  datatype View = View(editable: bool, messageArea: string, users: seq<string>,
                       currentUserName: Option<string>, sent: seq<string>)

  /** The effect of one event; `chosen` is what the name dialog returns (null when cancelled). */
  function Apply(v: View, e: Event, chosen: Option<string>): View
  {
    match e
    case Prompt => v.(currentUserName := chosen, sent := v.sent + [Str(chosen)])
    case Accept => v.(editable := true)
    case UserList(users) => v.(users := users)
    case Show(text) => v.(messageArea := v.messageArea + text + "\n")
    case Ignore => v
    case Crash => v
  }

  /** The effect of the read loop over `incoming`, up to and excluding the first line that makes it throw. */
  function Replay(v: View, incoming: seq<Incoming>): View
    decreases |incoming|
  {
    if incoming == [] then v
    else
      var e := Inbound(incoming[0].line);
      if e == Crash then v else Replay(Apply(v, e, incoming[0].chosen), incoming[1..])
  }

  /** Once the text field is unlocked, nothing the server sends locks it again. */
  lemma {:induction false} EditableStaysOn(v: View, incoming: seq<Incoming>)
    requires v.editable
    ensures Replay(v, incoming).editable
    decreases |incoming|
  {
    if incoming != [] && Inbound(incoming[0].line) != Crash {
      EditableStaysOn(Apply(v, Inbound(incoming[0].line), incoming[0].chosen), incoming[1..]);
    }
  }

  /** The log only grows: whatever was shown stays at its front. */
  lemma {:induction false} LogOnlyGrows(v: View, incoming: seq<Incoming>)
    ensures StartsWith(Replay(v, incoming).messageArea, v.messageArea)
    decreases |incoming|
  {
    if incoming != [] && Inbound(incoming[0].line) != Crash {
      var v' := Apply(v, Inbound(incoming[0].line), incoming[0].chosen);
      LogOnlyGrows(v', incoming[1..]);
      var m := Replay(v', incoming[1..]).messageArea;
      assert m[..|v'.messageArea|] == v'.messageArea;
      assert v'.messageArea[..|v.messageArea|] == v.messageArea;
    }
  }

  /** A handle-list line replaces the whole list with its split contents, whatever was there. */
  lemma UserListReplaces(v: View, l: string, chosen: Option<string>)
    requires StartsWith(l, "USERLIST")
    ensures Apply(v, Inbound(Some(l)), chosen).users == Split(l[8..])
  {
    DifferentFirstLetter(l, "SUBMITNAME");
    DifferentFirstLetter(l, "NAMEACCEPTED");
  }

  class Client {
    var textField: string
    var editable: bool
    var messageArea: string
    /** `listModel`. */
    var users: seq<string>
    var currentUserName: Option<string>
    /** Every line printed on `out`, in order. */
    var sent: seq<string>

    /** The frame as laid out: empty widgets, the text field locked. */
    constructor ()
      ensures textField == "" && !editable
      ensures Snapshot() == View(false, "", [], None, [])
    {
      textField := "";
      editable := false;
      messageArea := "";
      users := [];
      currentUserName := None;
      sent := [];
    }

    function Snapshot(): View
      reads this
    {
      View(editable, messageArea, users, currentUserName, sent)
    }

    /**
     * Pressing Return: the text field's contents go out framed for the
     * mode, and the field is emptied; nothing else changes.
     */
    method Submit(p2pMode: bool, selected: seq<string>)
      modifies this
      ensures sent == old(sent) + [Outgoing(p2pMode, selected, old(textField))]
      ensures textField == ""
      ensures editable == old(editable) && messageArea == old(messageArea)
      ensures users == old(users) && currentUserName == old(currentUserName)
    {
      var message := Sanitize(textField);
      if p2pMode {
        var recipient := Join(selected);
        sent := sent + ["P2P" + recipient + ":" + message];
      } else {
        sent := sent + ["BROADCAST" + message];
      }
      textField := "";
    }

    /** `listModel.clear()`, then `addElement` for each handle in turn. */
    method ReplaceUsers(list: seq<string>)
      modifies this
      ensures users == list
      ensures Snapshot() == old(Snapshot()).(users := list)
      ensures textField == old(textField)
    {
      users := [];
      var i := 0;
      while i < |list|
        invariant 0 <= i <= |list|
        invariant users == list[..i]
        invariant Snapshot() == old(Snapshot()).(users := users)
        invariant textField == old(textField)
      {
        users := users + [list[i]];
        i := i + 1;
      }
    }

    /** One pass of the read loop: the line's event takes effect; `running` is false when the line made it throw. */
    method Receive(line: Option<string>, chosen: Option<string>) returns (running: bool)
      modifies this
      ensures running <==> Inbound(line) != Crash
      ensures Snapshot() == Apply(old(Snapshot()), Inbound(line), chosen)
      ensures textField == old(textField)
    {
      if line.None? {
        return false;
      }
      var l := line.value;
      if StartsWith(l, "SUBMITNAME") {
        currentUserName := chosen;
        sent := sent + [Str(chosen)];
      } else if StartsWith(l, "NAMEACCEPTED") {
        editable := true;
      } else if StartsWith(l, "USERLIST") {
        ReplaceUsers(Split(l[8..]));
      } else if StartsWith(l, "MESSAGE") {
        messageArea := messageArea + l[7..] + "\n";
      } else if StartsWith(l, "P2P") {
        messageArea := messageArea + l[3..] + "\n";
      }
      return true;
    }

    /** The read loop over `incoming`, until a line makes it throw; `handled` counts the passes that completed. */
    method Run(incoming: seq<Incoming>) returns (handled: nat)
      modifies this
      ensures handled <= |incoming|
      ensures handled == |incoming| || Inbound(incoming[handled].line) == Crash
      ensures forall i :: 0 <= i < handled ==> Inbound(incoming[i].line) != Crash
      ensures Snapshot() == Replay(old(Snapshot()), incoming)
      ensures textField == old(textField)
    {
      handled := 0;
      while handled < |incoming|
        invariant handled <= |incoming|
        invariant forall i :: 0 <= i < handled ==> Inbound(incoming[i].line) != Crash
        invariant textField == old(textField)
        invariant Replay(Snapshot(), incoming[handled..]) == Replay(old(Snapshot()), incoming)
        decreases |incoming| - handled
      {
        var item := incoming[handled];
        var running := Receive(item.line, item.chosen);
        if !running {
          return;
        }
        assert incoming[handled..][1..] == incoming[handled + 1..];
        handled := handled + 1;
      }
    }
  }
}
