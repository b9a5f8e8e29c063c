/**
 The records of the conversation history: messages, sessions, the lightweight
 listing entry derived from a session, and the capacity and quota constants.
 Timestamps are milliseconds since the epoch, as `Date.now()` returns them.
 */
module SessionTypes {
  import opened Results

  /** Who wrote a message: exactly one of the user or the AI coach. */
  datatype MessageKind = User | Ai

  /** One entry of a conversation; `images` are opaque URIs, `isExpanded` a UI flag. */
  datatype Message = Message(
    id: string,
    kind: MessageKind,
    timestamp: int,
    text: string,
    images: Option<seq<string>>,
    isExpanded: Option<bool>
  )

  /** A conversation thread with its quota counters. `firstPromptInWindow` is
      optional: `None` is an absent field, not a timestamp. */
  datatype Session = Session(
    id: string,
    title: string,
    createdAt: int,
    lastActivityAt: int,
    messages: seq<Message>,
    promptCount: nat,
    firstPromptInWindow: Option<int>
  )

  /** The listing entry of a session: its identity, timestamps and counters,
      with the message bodies replaced by their number. */
  datatype SessionMetadata = SessionMetadata(
    id: string,
    title: string,
    createdAt: int,
    lastActivityAt: int,
    messageCount: nat,
    promptCount: nat
  )

  /** How many sessions the store retains. */
  const MAX_SESSIONS: nat := 5

  /** How many prompts a session may send within one rate window. */
  const MAX_PROMPTS_PER_WINDOW: nat := 15

  /** The length of a rate window: five hours in milliseconds. */
  const RATE_LIMIT_WINDOW_MS: nat := 5 * 60 * 60 * 1000

  /** The listing entry of `s`. */
  function ToMetadata(s: Session): (m: SessionMetadata)
    ensures m.messageCount == |s.messages|
    ensures m.id == s.id && m.title == s.title && m.promptCount == s.promptCount
    ensures m.createdAt == s.createdAt && m.lastActivityAt == s.lastActivityAt
  {
    SessionMetadata(s.id, s.title, s.createdAt, s.lastActivityAt, |s.messages|, s.promptCount)
  }

  /** The window length is 18,000,000 ms. */
  lemma WindowIsEighteenMillionMs()
    ensures RATE_LIMIT_WINDOW_MS == 18_000_000
  {
  }
}
