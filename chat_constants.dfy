/**
 * The protocol tags and configuration values of the newer revision
 * (`chat.constant.ChatConstants`), with the facts the servers rely on
 * when they hard-code tag lengths.
 */
module ChatConstants {
  import opened JavaLang

  // Handshake events
  const E_SUBMIT_NAME: string := "SUBMIT_NAME"
  const E_NAME_ACCEPTED: string := "NAME_ACCEPTED"
  const E_USER_LIST: string := "USER_LIST"
  const E_FORCE_EXIT: string := "FORCE_EXIT"

  // General messages
  const E_MESSAGE: string := "MESSAGE"

  // Message mode events
  const E_BROADCAST: string := "BROADCAST"
  const E_P2P: string := "P2P"
  const E_ERROR: string := "ERROR"

  // Configuration
  const APP_PORT: int := 9001
  const APP_CLIENT_NAME: string := "Chatter"
  const APP_STRING_BROADCAST_MODE: string := "Broadcast Mode"
  const APP_STRING_P2P_MODE: string := "P2P Mode"

  /** The eight event tags, in declaration order. */
  function Events(): (tags: seq<string>)
    ensures |tags| == 8
  {
    [E_SUBMIT_NAME, E_NAME_ACCEPTED, E_USER_LIST, E_FORCE_EXIT,
     E_MESSAGE, E_BROADCAST, E_P2P, E_ERROR]
  }

  /**
   * The servers strip a broadcast with the literal `substring(9)` and cut
   * the recipients of a directed message at the literal 3: those are the
   * lengths of the two tags.
   */
  lemma TagLengthsMatchOffsets()
    ensures |E_BROADCAST| == 9
    ensures |E_P2P| == 3
  {
  }

  /**
   * No event tag is a prefix of another, so a chain of `startsWith` tests
   * over them classifies a line the same way whatever order it tests in.
   */
  lemma EventsArePrefixFree()
    ensures forall i, j :: 0 <= i < 8 && 0 <= j < 8 && i != j ==> !StartsWith(Events()[i], Events()[j])
  {
    var tags := Events();
    var initials := "SNUFMBPE";
    assert forall i :: 0 <= i < 8 ==> tags[i] != [] && tags[i][0] == initials[i];
    forall i, j | 0 <= i < 8 && 0 <= j < 8 && i != j
      ensures !StartsWith(tags[i], tags[j])
    {
      DifferentFirstLetter(tags[i], tags[j]);
    }
  }
}
