/** The per-command cooldown (main.py lines 79-85): a pure check of the
    time elapsed since a command was last served against the period. */
module Cooldown {

  /** `last_called_times`: command name to the time it was last served. */
  type Timestamps = map<string, real>

  /** `(is_cooling, remaining_time)`. */
  datatype Status = Status(cooling: bool, remaining: real)

  /** `last_called_times.get(command, 0)`. */
  function LastCalled(times: Timestamps, command: string): real
  {
    if command in times then times[command] else 0.0
  }

  /** `_is_on_cooldown(command)` at clock reading `now`. */
  function Check(times: Timestamps, command: string, now: real, period: real): (st: Status)
    ensures st.cooling <==> now - LastCalled(times, command) < period
    ensures command !in times ==> (st.cooling <==> now < period)
    ensures st.remaining >= 0.0
    ensures st.remaining >= period - (now - LastCalled(times, command))
    ensures st.remaining == 0.0 || st.remaining == period - (now - LastCalled(times, command))
    ensures st.remaining > 0.0 <==> st.cooling
  {
    var elapsed := now - LastCalled(times, command);
    var remaining := if period - elapsed > 0.0 then period - elapsed else 0.0;
    Status(elapsed < period, remaining)
  }

  /** `last_called_times[command] = at`. */
  function Mark(times: Timestamps, command: string, at: real): (r: Timestamps)
    ensures LastCalled(r, command) == at
    ensures forall other :: other != command ==> LastCalled(r, other) == LastCalled(times, other)
  {
    times[command := at]
  }

  /** After marking a command at `at`, it cools down exactly until
      `at + period`, with `at + period - now` seconds left; other commands
      keep their status. */
  lemma CheckAfterMark(times: Timestamps, command: string, at: real, now: real, period: real)
    ensures Check(Mark(times, command, at), command, now, period).cooling <==> now < at + period
    ensures Check(Mark(times, command, at), command, now, period).cooling ==>
      Check(Mark(times, command, at), command, now, period).remaining == at + period - now
    ensures forall other :: other != command ==>
      Check(Mark(times, command, at), other, now, period) == Check(times, other, now, period)
  {
  }
}
