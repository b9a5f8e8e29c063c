/**
 The per-session prompt quota (`checkRateLimit` in mobile/utils/sessionStorage.ts):
 at most 15 prompts within the five hours that follow the first prompt of a window.
 The decision is pure: the clock reading `now` is a parameter and the session is
 never changed; resetting the counters when a window has elapsed is the caller's
 business.
 */
module RateLimit {
  import opened Results
  import opened SessionTypes

  /** The limiter's answer; `resetTime` is when a refused session may prompt again. */
  datatype RateDecision = RateDecision(allowed: bool, remaining: int, resetTime: Option<int>)

  /** The start of the session's window, unless the field is absent or zero: JavaScript's
      `!session.firstPromptInWindow` treats a zero timestamp as unset. */
  function WindowStart(s: Session): (start: Option<int>)
    ensures start.Some? <==> s.firstPromptInWindow.Some? && s.firstPromptInWindow.value != 0
    ensures start.Some? ==> start.value == s.firstPromptInWindow.value
  {
    match s.firstPromptInWindow
    case None => None
    case Some(t) => if t == 0 then None else Some(t)
  }

  /** The session has an open window at `now`: it has prompted, the window start is set,
      and five hours have not yet passed since it. */
  predicate InOpenWindow(s: Session, now: int) {
    s.promptCount != 0 && WindowStart(s).Some? && now < WindowStart(s).value + RATE_LIMIT_WINDOW_MS
  }

  function CheckRateLimit(s: Session, now: int): (d: RateDecision)
    // allowed exactly when some prompts remain, and a reset time is given exactly on refusal
    ensures d.allowed <==> d.remaining > 0
    ensures d.resetTime.Some? <==> !d.allowed
    ensures 0 <= d.remaining <= MAX_PROMPTS_PER_WINDOW
    // outside an open window the full quota is available, whatever the counter says
    ensures !InOpenWindow(s, now) ==> d == RateDecision(true, MAX_PROMPTS_PER_WINDOW, None)
    // inside it, the quota left is what the counter has not used
    ensures InOpenWindow(s, now) && s.promptCount < MAX_PROMPTS_PER_WINDOW
      ==> d.allowed && d.remaining + s.promptCount == MAX_PROMPTS_PER_WINDOW
    // an exhausted window is refused until it ends, and the refusal says when that is
    ensures InOpenWindow(s, now) && s.promptCount >= MAX_PROMPTS_PER_WINDOW
      ==> !d.allowed && d.resetTime == Some(WindowStart(s).value + RATE_LIMIT_WINDOW_MS)
    ensures d.resetTime.Some? ==> now < d.resetTime.value
  {
    if s.promptCount == 0 || WindowStart(s).None? then
      RateDecision(true, MAX_PROMPTS_PER_WINDOW, None)
    else
      var windowEnd := WindowStart(s).value + RATE_LIMIT_WINDOW_MS;
      if now >= windowEnd then
        RateDecision(true, MAX_PROMPTS_PER_WINDOW, None)
      else
        var remaining := MAX_PROMPTS_PER_WINDOW - s.promptCount;
        if remaining <= 0 then RateDecision(false, 0, Some(windowEnd))
        else RateDecision(true, remaining, None)
  }

  /** Waiting never turns an allowed session into a refused one. */
  lemma AllowedStaysAllowed(s: Session, now: int, later: int)
    requires now <= later
    requires CheckRateLimit(s, now).allowed
    ensures CheckRateLimit(s, later).allowed
  {
  }

  /** A refused session is allowed again from its reset time on. */
  lemma RefusedUntilReset(s: Session, now: int, later: int)
    requires !CheckRateLimit(s, now).allowed
    ensures CheckRateLimit(s, later).allowed <==> later >= CheckRateLimit(s, now).resetTime.value
  {
  }

  /** More prompts in the same window never leave more quota. */
  lemma MorePromptsLessQuota(s: Session, now: int, extra: nat)
    ensures CheckRateLimit(s.(promptCount := s.promptCount + extra), now).remaining
      <= CheckRateLimit(s, now).remaining
  {
  }

  /** Fifteen prompts, the first one millisecond ago: refused until five hours after it. */
  lemma ExhaustedJustAfterFirstPrompt(s: Session, now: int)
    requires s.promptCount == 15 && s.firstPromptInWindow == Some(now - 1) && now != 1
    ensures CheckRateLimit(s, now) == RateDecision(false, 0, Some(now - 1 + 18_000_000))
  {
  }

  /** Fifteen prompts, the first one five hours and a millisecond ago: the window has
      elapsed and the full quota is back. */
  lemma ElapsedWindowRestoresQuota(s: Session, now: int)
    requires s.promptCount == 15
    requires s.firstPromptInWindow == Some(now - 18_000_000 - 1)
    ensures CheckRateLimit(s, now) == RateDecision(true, 15, None)
  {
  }

  /** A zero window start counts as unset, so even a full counter is allowed. */
  lemma ZeroStartIsUnset(s: Session, now: int)
    requires s.firstPromptInWindow == Some(0)
    ensures CheckRateLimit(s, now) == RateDecision(true, 15, None)
  {
  }
}
