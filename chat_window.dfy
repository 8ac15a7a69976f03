/**
 * The chat window's input box: sending trims the typed text, sends it only
 * when something is left, and then clears the box.
 */
module ChatWindow {
  import opened Seqs
  import opened Text

  /** The text handed to onSendMessage for what is typed, or None when nothing is sent. */
  function Outgoing(message: string): (r: Option<string>)
    ensures r.None? <==> forall k :: 0 <= k < |message| ==> IsSpace(message[k])
    ensures r.Some? ==> r.value != "" && !IsSpace(r.value[0]) && !IsSpace(r.value[|r.value| - 1])
    ensures r.Some? ==> exists i :: OccursAt(message, r.value, i)
    ensures r.Some? ==> r.value == Trim(message)
  {
    var text := Trim(message);
    if text == "" then None
    else
      TrimOccurs(message);
      Some(text)
  }

  /** Sending what was sent sends it again unchanged: trimmed text is left as it is. */
  lemma OutgoingStable(message: string)
    requires Outgoing(message).Some?
    ensures Outgoing(Outgoing(message).value) == Outgoing(message)
  {
    var text := Trim(message);
    assert Trim(text) == text by {
      TrimOfTrimmed(text);
    }
  }

  class ChatInput {
    var message: string

    constructor ()
      ensures message == ""
    {
      message := "";
    }

    /**
     * handleSend: returns the text passed to onSendMessage, at most one call per
     * submit. After a send the box is empty; when nothing is sent it is untouched.
     */
    method HandleSend() returns (sent: Option<string>)
      modifies this`message
      ensures sent == Outgoing(old(message))
      ensures sent.Some? ==> message == ""
      ensures sent.None? ==> message == old(message)
    {
      sent := Outgoing(message);
      if sent.Some? {
        message := "";
      }
    }
  }
}
