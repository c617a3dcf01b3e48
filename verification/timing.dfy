/** Deadlines in nanoseconds and the millisecond timeouts given to poll: src/cmd.rs, wait_for_output,
    and src/agent_connection.rs, wait_for_connect. */
module Timing {
  const NS_PER_MS: nat := 1_000_000
  const NS_PER_S: nat := 1_000_000_000
  const I32_MAX: nat := 0x7FFF_FFFF

  function Least(a: nat, b: nat): nat {
    if a < b then a else b
  }

  /** `saturating_duration_since` */
  function Remaining(deadline: nat, now: nat): nat {
    if now < deadline then deadline - now else 0
  }

  /** `as_millis().clamp(1, cap)` */
  function Milliseconds(remaining: nat, cap: nat): (ms: nat)
    requires 0 < remaining && 1 <= cap
    ensures 1 <= ms <= cap
    ensures ms == 1 || ms * NS_PER_MS <= remaining
    ensures ms == cap || remaining < (ms + 1) * NS_PER_MS
  {
    WholeMilliseconds(remaining);
    var whole := remaining / NS_PER_MS;
    if whole < 1 then 1 else if whole > cap then cap else whole
  }

  /** A poll that keeps to its timeout returns less than a millisecond after the deadline. */
  lemma PollEndsByDeadline(deadline: nat, now: nat, cap: nat)
    requires now < deadline && 1 <= cap
    ensures now + Milliseconds(Remaining(deadline, now), cap) * NS_PER_MS < deadline + NS_PER_MS
  {
    var remaining := Remaining(deadline, now);
    WholeMilliseconds(remaining);
    var ms := Milliseconds(remaining, cap);
    assert ms == 1 || ms * NS_PER_MS <= (remaining / NS_PER_MS) * NS_PER_MS;
  }

  lemma WholeMilliseconds(remaining: nat)
    ensures (remaining / NS_PER_MS) * NS_PER_MS <= remaining < (remaining / NS_PER_MS) * NS_PER_MS + NS_PER_MS
  {
  }

  /** Within the 300 seconds that the options allow the timeout is never clamped from above, so a
      poll that runs out does so less than a millisecond before the deadline. */
  lemma PollNotEarly(deadline: nat, now: nat)
    requires now < deadline <= now + 300 * NS_PER_S
    ensures Milliseconds(Remaining(deadline, now), I32_MAX) < I32_MAX
    ensures deadline < now + Milliseconds(Remaining(deadline, now), I32_MAX) * NS_PER_MS + NS_PER_MS
  {
    var remaining := Remaining(deadline, now);
    WholeMilliseconds(remaining);
    assert remaining / NS_PER_MS <= 300_000;
  }
}
