/** The log sink of settings.ts (`log`), as the list of messages written to it. */
module Log {

  class Logger {
    /** Every message logged so far, oldest first. */
    var messages: seq<string>

    constructor ()
      ensures messages == []
    {
      messages := [];
    }

    /** `log(msg)`: appends one message. */
    method Log(msg: string)
      modifies this
      ensures messages == old(messages) + [msg]
    {
      messages := messages + [msg];
    }
  }
}
