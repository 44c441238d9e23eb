/** The package's message value and its reserved input words (whisper.go). */
module Whisper {

  /** The two words that end a session when typed on input. */
  const EXIT: string := "exit"
  const QUIT: string := "quit"

  /** An instant in time; the caller supplies it (Go reads the wall clock). */
  type Instant = int

  /** A message as it travels across the whispernet: exactly a sender name,
      a body and a timestamp. */
  datatype Message = Message(Sender: string, Body: string, Timestamp: Instant)

  /** Go's `NewMessage(body, sender)`: note that the body comes first in the
      argument list but the sender first in the record. The timestamp the Go
      code reads from the clock is the parameter `now` here. */
  function NewMessage(body: string, sender: string, now: Instant): (m: Message)
    ensures m.Body == body && m.Sender == sender && m.Timestamp == now
  {
    Message(sender, body, now)
  }

  /** Distinct arguments give distinct messages: construction loses nothing. */
  lemma NewMessageInjective(b1: string, s1: string, t1: Instant, b2: string, s2: string, t2: Instant)
    requires NewMessage(b1, s1, t1) == NewMessage(b2, s2, t2)
    ensures b1 == b2 && s1 == s2 && t1 == t2
  {
  }
}
