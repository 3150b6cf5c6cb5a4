/** One chat turn of `main` in main.py: assemble the human message, record it in the session's
    history, ask the model and record its reply. */
module Chat {
  import opened Wrappers
  import Messages

  /** The model client stored in the session: from the messages it is given to its reply, or
      the cause of its failure. Its internals are outside this model. */
  type Gateway = seq<Messages.Message> -> Result<Messages.Message, string>

  /** Why a turn produced no reply. */
  datatype TurnError =
    | AttachmentFailed(error: Messages.Error)   // raised by `as_human_message`
    | InvokeFailed(cause: string)              // raised by `model.invoke`

  /** The Python list of messages, appended to in place. */
  class History {
    var turns: seq<Messages.Message>

    /** A new empty list, as `[]`. */
    constructor ()
      ensures turns == []
    {
      turns := [];
    }

    /** `list.append`: adds one message at the end and changes nothing else. */
    method Append(m: Messages.Message)
      modifies this
      ensures turns == old(turns) + [m]
      ensures |turns| == |old(turns)| + 1 && turns[|turns| - 1] == m
    {
      turns := turns + [m];
    }
  }

  /** The session state as far as a turn uses it: the entry "messages", absent (null) until
      the first successful turn stores a list there. */
  class Session {
    var messages: History?

    constructor ()
      ensures messages == null
    {
      messages := null;
    }

    /** The messages recorded so far; an absent entry reads as the empty list, as
        `st.session_state.get("messages", [])` does. */
    function Transcript(): (t: seq<Messages.Message>)
      reads this, messages
      ensures messages == null ==> t == []
    {
      if messages == null then [] else messages.turns
    }

    /** Handles one submitted prompt with its files. The human message is appended before the
        model is called, and the model is then given the history followed by the human message
        once more, so the message appears twice at the end of what it receives. On success the
        session holds the old history, the human message and the reply. If the message cannot
        be assembled, nothing changes. If the model fails, a history already stored in the
        session keeps the human message (it was appended in place), while a first turn leaves
        the entry absent (its fresh list was never stored). */
    method Submit(text: string, files: seq<Messages.Attachment>, convert: Messages.Converter, invoke: Gateway)
      returns (r: Result<Messages.Message, TurnError>)
      modifies this, messages
      ensures old(Transcript()) <= Transcript()
      ensures var msg := Messages.AsHumanMessage(text, files, convert);
        match msg
        case Err(e) =>
          r == Err(AttachmentFailed(e)) && messages == old(messages) && Transcript() == old(Transcript())
        case Ok(m) =>
          match invoke(old(Transcript()) + [m, m])
          case Err(c) =>
            r == Err(InvokeFailed(c)) && messages == old(messages) &&
            (old(messages) != null ==> Transcript() == old(Transcript()) + [m])
          case Ok(reply) =>
            r == Ok(reply) && messages != null &&
            (old(messages) != null ==> messages == old(messages)) &&
            Transcript() == old(Transcript()) + [m, reply]
    {
      var hist: History;
      if messages != null {
        hist := messages;
      } else {
        hist := new History();
      }
      var msg := Messages.AsHumanMessage(text, files, convert);
      if msg.Err? {
        return Err(AttachmentFailed(msg.error));
      }
      hist.Append(msg.value);
      var context := hist.turns + [msg.value];
      assert context == old(Transcript()) + [msg.value, msg.value];
      var rsp := invoke(context);
      if rsp.Err? {
        return Err(InvokeFailed(rsp.error));
      }
      hist.Append(rsp.value);
      messages := hist;
      r := Ok(rsp.value);
    }
  }
}
