/** One `/pig` request (main.py lines 87-135) as a trace: the cooldown and
    empty-catalog gates, then up to `max_retries` download attempts with a
    sleep of 2^attempt seconds after every failed one. The download primitive
    is represented by the outcome of each attempt, `random.choice` by the
    chosen index, and the clock by the readings passed in. */
module Request {
  import Json
  import Cooldown
  import Catalog

  /** The command key whose timestamp is kept. */
  const Command := "pig"
  /** `self.max_retries` (main.py line 28). */
  const MaxRetries: nat := 2
  /** Length to which an error text is cut before it is shown. */
  const ErrorLimit: nat := 50

  /** What the download primitive did on one attempt: returned a file path,
      or raised an exception (other than `TypeError`) with this text. */
  datatype Attempt = Downloaded(path: string) | Failed(message: string)

  /** The plain-text messages, by kind; their Chinese wording and the
      rounding of the remaining seconds are not modelled. */
  datatype Notice =
    | CoolingDown(remaining: real)
    | NoImages
    | DownloadFailed(title: Json.Json, error: string)

  /** A result yielded to the chat framework. */
  datatype Reply = Text(notice: Notice) | Image(path: string)

  /** One observable step of the handler. */
  datatype Event =
    | Download(url: string)   // an attempt to download, as main.py:110-116
    | Send(reply: Reply)      // a `yield` of a result
    | Sleep(seconds: nat)     // `asyncio.sleep`
    | Record                  // `last_called_times["pig"] = time.time()`

  /** `s[:n]`. */
  function Truncate(s: string, n: nat): (r: string)
    ensures |r| <= n
    ensures |r| <= |s| && r == s[..|r|]
    ensures |s| <= n ==> r == s
    ensures |s| >= n ==> |r| == n
  {
    if |s| <= n then s else s[..n]
  }

  function Pow2(n: nat): (r: nat)
    ensures r >= 1
  {
    if n == 0 then 1 else 2 * Pow2(n - 1)
  }

  /** The retry loop from attempt `attempt` on: a download, then either the
      image and the timestamp, or the failure text (on the last attempt
      only) followed by a sleep of 2^attempt and the next attempt. Once the
      attempts run out the timestamp is recorded. */
  function Retry(attempt: nat, maxRetries: nat, image: Catalog.PigImage, outcomes: seq<Attempt>): seq<Event>
    requires attempt <= maxRetries <= |outcomes|
    decreases maxRetries - attempt
  {
    if attempt == maxRetries then [Record]
    else
      match outcomes[attempt]
      case Downloaded(path) => [Download(image.fullUrl), Send(Image(path)), Record]
      case Failed(message) =>
        var notice :=
          if attempt >= maxRetries - 1
          then [Send(Text(DownloadFailed(image.title, Truncate(message, ErrorLimit))))]
          else [];
        [Download(image.fullUrl)] + notice + [Sleep(Pow2(attempt))]
          + Retry(attempt + 1, maxRetries, image, outcomes)
  }

  /** `_get_random_pig_image` with timestamps `times`, clock reading `now`
      at the cooldown check, configured `period`, the loaded `images`, the
      index `pick` that `random.choice` draws, and one outcome per attempt. */
  function Handle(times: Cooldown.Timestamps, now: real, period: real,
                  images: seq<Catalog.PigImage>, pick: nat,
                  maxRetries: nat, outcomes: seq<Attempt>): seq<Event>
    requires |images| > 0 ==> pick < |images|
    requires maxRetries <= |outcomes|
  {
    var status := Cooldown.Check(times, Command, now, period);
    if status.cooling then [Send(Text(CoolingDown(status.remaining)))]
    else if |images| == 0 then [Send(Text(NoImages))]
    else Retry(0, maxRetries, images[pick], outcomes)
  }

  /** The timestamps after the handler, with `clock` the reading taken when
      it records. */
  function TimestampsAfter(times: Cooldown.Timestamps, trace: seq<Event>, clock: real): Cooldown.Timestamps
  {
    if Record in trace then Cooldown.Mark(times, Command, clock) else times
  }

  // Observations of a trace.

  function Replies(trace: seq<Event>): seq<Reply>
  {
    if |trace| == 0 then []
    else (if trace[0].Send? then [trace[0].reply] else []) + Replies(trace[1..])
  }

  function Downloads(trace: seq<Event>): seq<string>
  {
    if |trace| == 0 then []
    else (if trace[0].Download? then [trace[0].url] else []) + Downloads(trace[1..])
  }

  function Sleeps(trace: seq<Event>): seq<nat>
  {
    if |trace| == 0 then []
    else (if trace[0].Sleep? then [trace[0].seconds] else []) + Sleeps(trace[1..])
  }

  function Sum(xs: seq<nat>): nat
  {
    if |xs| == 0 then 0 else xs[0] + Sum(xs[1..])
  }

  /** The observations of a concatenation are the concatenated observations. */
  lemma {:induction false} RepliesAppend(a: seq<Event>, b: seq<Event>)
    ensures Replies(a + b) == Replies(a) + Replies(b)
    decreases |a|
  {
    if |a| == 0 {
      assert a + b == b;
    } else {
      var head := if a[0].Send? then [a[0].reply] else [];
      assert (a + b)[0] == a[0];
      assert (a + b)[1..] == a[1..] + b;
      calc {
        Replies(a + b);
        head + Replies(a[1..] + b);
        { RepliesAppend(a[1..], b); }
        head + (Replies(a[1..]) + Replies(b));
        (head + Replies(a[1..])) + Replies(b);
      }
    }
  }

  lemma {:induction false} DownloadsAppend(a: seq<Event>, b: seq<Event>)
    ensures Downloads(a + b) == Downloads(a) + Downloads(b)
    decreases |a|
  {
    if |a| == 0 {
      assert a + b == b;
    } else {
      var head := if a[0].Download? then [a[0].url] else [];
      assert (a + b)[0] == a[0];
      assert (a + b)[1..] == a[1..] + b;
      calc {
        Downloads(a + b);
        head + Downloads(a[1..] + b);
        { DownloadsAppend(a[1..], b); }
        head + (Downloads(a[1..]) + Downloads(b));
        (head + Downloads(a[1..])) + Downloads(b);
      }
    }
  }

  lemma {:induction false} SleepsAppend(a: seq<Event>, b: seq<Event>)
    ensures Sleeps(a + b) == Sleeps(a) + Sleeps(b)
    decreases |a|
  {
    if |a| == 0 {
      assert a + b == b;
    } else {
      var head := if a[0].Sleep? then [a[0].seconds] else [];
      assert (a + b)[0] == a[0];
      assert (a + b)[1..] == a[1..] + b;
      calc {
        Sleeps(a + b);
        head + Sleeps(a[1..] + b);
        { SleepsAppend(a[1..], b); }
        head + (Sleeps(a[1..]) + Sleeps(b));
        (head + Sleeps(a[1..])) + Sleeps(b);
      }
    }
  }

  /** All three observations of a concatenation. */
  lemma ObserveAppend(a: seq<Event>, b: seq<Event>)
    ensures Replies(a + b) == Replies(a) + Replies(b)
    ensures Downloads(a + b) == Downloads(a) + Downloads(b)
    ensures Sleeps(a + b) == Sleeps(a) + Sleeps(b)
  {
    RepliesAppend(a, b);
    DownloadsAppend(a, b);
    SleepsAppend(a, b);
  }

  lemma {:induction false} SumAppend(xs: seq<nat>, ys: seq<nat>)
    ensures Sum(xs + ys) == Sum(xs) + Sum(ys)
    decreases |xs|
  {
    if |xs| == 0 {
      assert xs + ys == ys;
    } else {
      assert (xs + ys)[1..] == xs[1..] + ys;
      SumAppend(xs[1..], ys);
    }
  }

  /** An attempt that downloads a file is the last one: one download, the
      image, and the timestamp. */
  lemma RetryDownloadedStep(attempt: nat, maxRetries: nat, image: Catalog.PigImage, outcomes: seq<Attempt>)
    requires attempt < maxRetries <= |outcomes|
    requires outcomes[attempt].Downloaded?
    ensures var trace := Retry(attempt, maxRetries, image, outcomes);
      && trace == [Download(image.fullUrl), Send(Image(outcomes[attempt].path)), Record]
      && Replies(trace) == [Image(outcomes[attempt].path)]
      && Downloads(trace) == [image.fullUrl]
      && Sleeps(trace) == []
  {
    var path := outcomes[attempt].path;
    var a: seq<Event> := [Download(image.fullUrl)];
    var b: seq<Event> := [Send(Image(path))];
    var c: seq<Event> := [Record];
    assert Retry(attempt, maxRetries, image, outcomes) == a + (b + c);
    ObserveAppend(a, b + c);
    ObserveAppend(b, c);
  }

  /** After a failed attempt the rest of the loop is a suffix of the trace,
      and no `Record` comes before it. */
  lemma RetryFailedTail(attempt: nat, maxRetries: nat, image: Catalog.PigImage, outcomes: seq<Attempt>)
    requires attempt < maxRetries <= |outcomes|
    requires outcomes[attempt].Failed?
    ensures var here := Retry(attempt, maxRetries, image, outcomes);
      var next := Retry(attempt + 1, maxRetries, image, outcomes);
      && |here| > |next| && here == here[..|here| - |next|] + next
      && Record !in here[..|here| - |next|]
  {
    var here := Retry(attempt, maxRetries, image, outcomes);
    var next := Retry(attempt + 1, maxRetries, image, outcomes);
    var notice :=
      if attempt >= maxRetries - 1
      then [Send(Text(DownloadFailed(image.title, Truncate(outcomes[attempt].message, ErrorLimit))))]
      else [];
    var front := [Download(image.fullUrl)] + notice + [Sleep(Pow2(attempt))];
    assert here == front + next;
    assert here[..|here| - |next|] == front;
  }

  /** A failed attempt contributes one download, the failure text when it is
      the last attempt, and one sleep of 2^attempt, before the rest. */
  lemma RetryFailedStep(attempt: nat, maxRetries: nat, image: Catalog.PigImage, outcomes: seq<Attempt>)
    requires attempt < maxRetries <= |outcomes|
    requires outcomes[attempt].Failed?
    ensures var here := Retry(attempt, maxRetries, image, outcomes);
      var next := Retry(attempt + 1, maxRetries, image, outcomes);
      && Replies(here) ==
           (if attempt == maxRetries - 1
            then [Text(DownloadFailed(image.title, Truncate(outcomes[attempt].message, ErrorLimit)))]
            else []) + Replies(next)
      && Downloads(here) == [image.fullUrl] + Downloads(next)
      && Sleeps(here) == [Pow2(attempt)] + Sleeps(next)
  {
    var next := Retry(attempt + 1, maxRetries, image, outcomes);
    var notice :=
      if attempt >= maxRetries - 1
      then [Send(Text(DownloadFailed(image.title, Truncate(outcomes[attempt].message, ErrorLimit))))]
      else [];
    var front := [Download(image.fullUrl)] + notice + [Sleep(Pow2(attempt))];
    assert Retry(attempt, maxRetries, image, outcomes) == front + next;
    ObserveAppend(front, next);
    ObserveAppend([Download(image.fullUrl)] + notice, [Sleep(Pow2(attempt))]);
    ObserveAppend([Download(image.fullUrl)], notice);
  }

  /** Whatever the outcomes, the loop from `attempt` downloads at most
      `maxRetries - attempt` times, and only the chosen image's URL. */
  lemma {:induction false} RetryDownloadsBound(attempt: nat, maxRetries: nat, image: Catalog.PigImage,
                                               outcomes: seq<Attempt>)
    requires attempt <= maxRetries <= |outcomes|
    ensures var downloads := Downloads(Retry(attempt, maxRetries, image, outcomes));
      && |downloads| <= maxRetries - attempt
      && (forall j :: 0 <= j < |downloads| ==> downloads[j] == image.fullUrl)
    decreases maxRetries - attempt
  {
    if attempt < maxRetries {
      if outcomes[attempt].Downloaded? {
        RetryDownloadedStep(attempt, maxRetries, image, outcomes);
      } else {
        RetryDownloadsBound(attempt + 1, maxRetries, image, outcomes);
        RetryFailedStep(attempt, maxRetries, image, outcomes);
      }
    }
  }

  /** Whatever the outcomes, the loop yields exactly one result when any
      attempt is left, and none otherwise. */
  lemma {:induction false} RetryOneReply(attempt: nat, maxRetries: nat, image: Catalog.PigImage,
                                         outcomes: seq<Attempt>)
    requires attempt <= maxRetries <= |outcomes|
    ensures |Replies(Retry(attempt, maxRetries, image, outcomes))| == (if attempt < maxRetries then 1 else 0)
    decreases maxRetries - attempt
  {
    if attempt < maxRetries {
      if outcomes[attempt].Downloaded? {
        RetryDownloadedStep(attempt, maxRetries, image, outcomes);
      } else {
        RetryOneReply(attempt + 1, maxRetries, image, outcomes);
        RetryFailedStep(attempt, maxRetries, image, outcomes);
      }
    } else {
      assert Retry(attempt, maxRetries, image, outcomes) == [Record];
    }
  }

  /** The trace ends with `Record` and holds no other. */
  predicate RecordsLast(trace: seq<Event>)
  {
    |trace| > 0 && trace[|trace| - 1] == Record && Record !in trace[..|trace| - 1]
  }

  /** Putting `Record`-free events before a trace that ends with its only
      `Record` gives a trace that still does. */
  lemma RecordLastAppend(front: seq<Event>, rest: seq<Event>)
    requires Record !in front
    requires RecordsLast(rest)
    ensures RecordsLast(front + rest)
  {
    assert (front + rest)[..|front + rest| - 1] == front + rest[..|rest| - 1];
  }

  /** Whatever the outcomes, the loop ends with its only `Record`. */
  lemma {:induction false} RetryRecordLast(attempt: nat, maxRetries: nat, image: Catalog.PigImage,
                                           outcomes: seq<Attempt>)
    requires attempt <= maxRetries <= |outcomes|
    ensures RecordsLast(Retry(attempt, maxRetries, image, outcomes))
    decreases maxRetries - attempt
  {
    var trace := Retry(attempt, maxRetries, image, outcomes);
    if attempt < maxRetries {
      if outcomes[attempt].Downloaded? {
        RetryDownloadedStep(attempt, maxRetries, image, outcomes);
        var front := [Download(image.fullUrl), Send(Image(outcomes[attempt].path))];
        assert trace == front + [Record];
        RecordLastAppend(front, [Record]);
      } else {
        RetryRecordLast(attempt + 1, maxRetries, image, outcomes);
        RetryFailedTail(attempt, maxRetries, image, outcomes);
        var next := Retry(attempt + 1, maxRetries, image, outcomes);
        RecordLastAppend(trace[..|trace| - |next|], next);
      }
    } else {
      assert trace == [Record];
    }
  }

  /** When the attempts before `k` fail and attempt `k` downloads a file,
      the loop makes exactly those attempts, sleeps 2^j after each failed
      attempt j, yields only that file, and records the timestamp. */
  lemma {:induction false} RetrySucceedsAt(attempt: nat, maxRetries: nat, image: Catalog.PigImage,
                                           outcomes: seq<Attempt>, k: nat)
    requires attempt <= k < maxRetries <= |outcomes|
    requires outcomes[k].Downloaded?
    requires forall j :: attempt <= j < k ==> outcomes[j].Failed?
    ensures var trace := Retry(attempt, maxRetries, image, outcomes);
      && Replies(trace) == [Image(outcomes[k].path)]
      && |Downloads(trace)| == k - attempt + 1
      && |Sleeps(trace)| == k - attempt
      && (forall j :: 0 <= j < k - attempt ==> Sleeps(trace)[j] == Pow2(attempt + j))
    decreases k - attempt
  {
    if attempt == k {
      RetryDownloadedStep(attempt, maxRetries, image, outcomes);
    } else {
      RetrySucceedsAt(attempt + 1, maxRetries, image, outcomes, k);
      RetryFailedStep(attempt, maxRetries, image, outcomes);
    }
  }

  /** When every attempt from `attempt` on fails, the loop makes all of them,
      sleeps 2^j after each (the last one included), and yields one failure
      text carrying the last error cut to 50 characters. */
  lemma {:induction false} RetryAllFail(attempt: nat, maxRetries: nat, image: Catalog.PigImage,
                                        outcomes: seq<Attempt>)
    requires attempt < maxRetries <= |outcomes|
    requires forall j :: attempt <= j < maxRetries ==> outcomes[j].Failed?
    ensures var trace := Retry(attempt, maxRetries, image, outcomes);
      && Replies(trace) ==
           [Text(DownloadFailed(image.title, Truncate(outcomes[maxRetries - 1].message, ErrorLimit)))]
      && |Downloads(trace)| == maxRetries - attempt
      && |Sleeps(trace)| == maxRetries - attempt
      && (forall j :: 0 <= j < maxRetries - attempt ==> Sleeps(trace)[j] == Pow2(attempt + j))
    decreases maxRetries - attempt
  {
    RetryFailedStep(attempt, maxRetries, image, outcomes);
    var next := Retry(attempt + 1, maxRetries, image, outcomes);
    if attempt == maxRetries - 1 {
      assert next == [Record];
    } else {
      RetryAllFail(attempt + 1, maxRetries, image, outcomes);
    }
  }

  /** When every attempt fails, the sleeps from `attempt` on add up to
      2^maxRetries - 2^attempt seconds. */
  lemma {:induction false} RetryAllFailSleepTotal(attempt: nat, maxRetries: nat, image: Catalog.PigImage,
                                                  outcomes: seq<Attempt>)
    requires attempt < maxRetries <= |outcomes|
    requires forall j :: attempt <= j < maxRetries ==> outcomes[j].Failed?
    ensures Sum(Sleeps(Retry(attempt, maxRetries, image, outcomes))) + Pow2(attempt) == Pow2(maxRetries)
    decreases maxRetries - attempt
  {
    RetryFailedStep(attempt, maxRetries, image, outcomes);
    var next := Retry(attempt + 1, maxRetries, image, outcomes);
    SumAppend([Pow2(attempt)], Sleeps(next));
    assert Sum([Pow2(attempt)]) == Pow2(attempt);
    if attempt == maxRetries - 1 {
      assert next == [Record];
    } else {
      RetryAllFailSleepTotal(attempt + 1, maxRetries, image, outcomes);
    }
  }

  /** When every attempt fails, the failure text is sent on the last attempt:
      the trace ends with its download, the text, its sleep, and `Record`. */
  lemma {:induction false} RetryAllFailEnding(attempt: nat, maxRetries: nat, image: Catalog.PigImage,
                                              outcomes: seq<Attempt>)
    requires attempt < maxRetries <= |outcomes|
    requires forall j :: attempt <= j < maxRetries ==> outcomes[j].Failed?
    ensures var trace := Retry(attempt, maxRetries, image, outcomes);
      var notice := DownloadFailed(image.title, Truncate(outcomes[maxRetries - 1].message, ErrorLimit));
      && |trace| >= 4
      && trace[|trace| - 4..] ==
           [Download(image.fullUrl), Send(Text(notice)), Sleep(Pow2(maxRetries - 1)), Record]
    decreases maxRetries - attempt
  {
    RetryFailedTail(attempt, maxRetries, image, outcomes);
    var trace := Retry(attempt, maxRetries, image, outcomes);
    var next := Retry(attempt + 1, maxRetries, image, outcomes);
    if attempt < maxRetries - 1 {
      RetryAllFailEnding(attempt + 1, maxRetries, image, outcomes);
      assert trace[|trace| - 4..] == next[|next| - 4..];
    }
  }

  /** On cooldown, or with an empty catalog, the handler yields exactly one
      text, downloads nothing and leaves the timestamps unchanged; the
      cooldown check comes first. */
  lemma HandleGated(times: Cooldown.Timestamps, now: real, period: real,
                    images: seq<Catalog.PigImage>, pick: nat,
                    maxRetries: nat, outcomes: seq<Attempt>, clock: real)
    requires |images| > 0 ==> pick < |images|
    requires maxRetries <= |outcomes|
    ensures var status := Cooldown.Check(times, Command, now, period);
      var trace := Handle(times, now, period, images, pick, maxRetries, outcomes);
      && (status.cooling ==> Replies(trace) == [Text(CoolingDown(status.remaining))])
      && (!status.cooling && |images| == 0 ==> Replies(trace) == [Text(NoImages)])
      && (status.cooling || |images| == 0 ==>
            Downloads(trace) == [] && Sleeps(trace) == [] && TimestampsAfter(times, trace, clock) == times)
  {
    var status := Cooldown.Check(times, Command, now, period);
    var trace := Handle(times, now, period, images, pick, maxRetries, outcomes);
    if status.cooling || |images| == 0 {
      assert |trace| == 1 && trace[0].Send?;
      assert trace[1..] == [];
    }
  }

  /** Whatever the outcomes: with at least one attempt allowed the handler
      yields exactly one result; it downloads at most `maxRetries` times,
      only the chosen catalog image's URL; and it records the timestamp
      (as its last step) exactly when it got past both gates. */
  lemma HandleShape(times: Cooldown.Timestamps, now: real, period: real,
                    images: seq<Catalog.PigImage>, pick: nat,
                    maxRetries: nat, outcomes: seq<Attempt>, clock: real)
    requires |images| > 0 ==> pick < |images|
    requires maxRetries <= |outcomes|
    ensures var status := Cooldown.Check(times, Command, now, period);
      var trace := Handle(times, now, period, images, pick, maxRetries, outcomes);
      var served := !status.cooling && |images| > 0;
      && (maxRetries >= 1 ==> |Replies(trace)| == 1)
      && |Downloads(trace)| <= maxRetries
      && (forall j :: 0 <= j < |Downloads(trace)| ==>
            |images| > 0 && Downloads(trace)[j] == images[pick].fullUrl)
      && ((Record in trace) <==> served)
      && (served ==>
            && trace[|trace| - 1] == Record
            && TimestampsAfter(times, trace, clock) == Cooldown.Mark(times, Command, clock))
  {
    var status := Cooldown.Check(times, Command, now, period);
    var trace := Handle(times, now, period, images, pick, maxRetries, outcomes);
    HandleGated(times, now, period, images, pick, maxRetries, outcomes, clock);
    if !status.cooling && |images| > 0 {
      RetryDownloadsBound(0, maxRetries, images[pick], outcomes);
      RetryOneReply(0, maxRetries, images[pick], outcomes);
    }
    if !status.cooling && |images| > 0 {
      RetryRecordLast(0, maxRetries, images[pick], outcomes);
      assert RecordsLast(trace);
      assert trace[|trace| - 1] in trace;
    }
  }

  /** The first attempt that downloads a file ends the request: exactly one
      image, for that file, after one sleep of 2^j per earlier failed attempt
      j; the timestamp is recorded. */
  lemma HandleFirstSuccess(times: Cooldown.Timestamps, now: real, period: real,
                           images: seq<Catalog.PigImage>, pick: nat,
                           maxRetries: nat, outcomes: seq<Attempt>, k: nat)
    requires |images| > 0 && pick < |images|
    requires !Cooldown.Check(times, Command, now, period).cooling
    requires k < maxRetries <= |outcomes|
    requires outcomes[k].Downloaded?
    requires forall j :: 0 <= j < k ==> outcomes[j].Failed?
    ensures var trace := Handle(times, now, period, images, pick, maxRetries, outcomes);
      && Replies(trace) == [Image(outcomes[k].path)]
      && |Downloads(trace)| == k + 1
      && |Sleeps(trace)| == k
      && (forall j :: 0 <= j < k ==> Sleeps(trace)[j] == Pow2(j))
      && Record in trace
  {
    var trace := Retry(0, maxRetries, images[pick], outcomes);
    assert Handle(times, now, period, images, pick, maxRetries, outcomes) == trace;
    RetrySucceedsAt(0, maxRetries, images[pick], outcomes, k);
    RetryRecordLast(0, maxRetries, images[pick], outcomes);
    assert RecordsLast(trace);
    assert trace[|trace| - 1] in trace;
  }

  /** When every attempt fails: `maxRetries` downloads, a sleep of 2^j after
      each attempt j (2^maxRetries - 1 seconds in all), one failure text
      with the last error cut to 50 characters sent on the last attempt,
      and the timestamp still recorded. */
  lemma HandleAllFail(times: Cooldown.Timestamps, now: real, period: real,
                      images: seq<Catalog.PigImage>, pick: nat,
                      maxRetries: nat, outcomes: seq<Attempt>)
    requires |images| > 0 && pick < |images|
    requires !Cooldown.Check(times, Command, now, period).cooling
    requires 0 < maxRetries <= |outcomes|
    requires forall j :: 0 <= j < maxRetries ==> outcomes[j].Failed?
    ensures var trace := Handle(times, now, period, images, pick, maxRetries, outcomes);
      var image := images[pick];
      var notice := DownloadFailed(image.title, Truncate(outcomes[maxRetries - 1].message, ErrorLimit));
      && Replies(trace) == [Text(notice)]
      && |notice.error| <= ErrorLimit
      && |Downloads(trace)| == maxRetries
      && |Sleeps(trace)| == maxRetries
      && (forall j :: 0 <= j < maxRetries ==> Sleeps(trace)[j] == Pow2(j))
      && Sum(Sleeps(trace)) + 1 == Pow2(maxRetries)
      && |trace| >= 4
      && trace[|trace| - 4..] ==
           [Download(image.fullUrl), Send(Text(notice)), Sleep(Pow2(maxRetries - 1)), Record]
  {
    RetryAllFail(0, maxRetries, images[pick], outcomes);
    RetryAllFailSleepTotal(0, maxRetries, images[pick], outcomes);
    RetryAllFailEnding(0, maxRetries, images[pick], outcomes);
  }

  /** With the plugin's two attempts, a request whose downloads both fail
      sleeps 1 then 2 seconds. */
  lemma DefaultRetriesAllFail(times: Cooldown.Timestamps, now: real, period: real,
                              images: seq<Catalog.PigImage>, pick: nat, outcomes: seq<Attempt>)
    requires |images| > 0 && pick < |images|
    requires !Cooldown.Check(times, Command, now, period).cooling
    requires MaxRetries <= |outcomes|
    requires outcomes[0].Failed? && outcomes[1].Failed?
    ensures Sleeps(Handle(times, now, period, images, pick, MaxRetries, outcomes)) == [1, 2]
  {
    HandleAllFail(times, now, period, images, pick, MaxRetries, outcomes);
    var s := Sleeps(Handle(times, now, period, images, pick, MaxRetries, outcomes));
    assert s[0] == Pow2(0) && s[1] == Pow2(1);
  }
}
