# Random pig image plugin — a Dafny model

This project models the core of an early, single-file version of
`astrbot_plugin_pig`. The plugin is a chatbot plugin whose `/pig` command
replies with a random image from a catalog of pictures hosted on
`https://pighub.top/`. The modelled version is `main.py`. Its logic has three parts:

- **Catalog loading** (`_load_pig_from_json`). The input is the parsed
  `list.json` document. Every record of its `images` list goes through
  these steps:
  - the thumbnail loses its leading `/`s;
  - a record whose thumbnail is then empty is skipped;
  - the thumbnail is appended to `https://pighub.top/`;
  - `urllib.parse.urlparse` splits the URL and `urllib.parse.quote`
    percent-encodes the path;
  - `urlunparse` rebuilds the URL with empty params, query and fragment;
  - `title`, `id` and `filename` are copied, or take their defaults.
- **Cooldown** (`_is_on_cooldown`). This pure check compares the time since
  the command was last served with the cooldown period.
- **Request flow** (`_get_random_pig_image`). The flow has these steps:
  - the cooldown gate, then the empty-catalog gate;
  - a random pick from the catalog;
  - up to `max_retries` (2) download attempts, sleeping 2^attempt seconds
    after each failed one;
  - a failure text on the last attempt;
  - a timestamp update after a success, and also after running out of
    attempts.

Modules, one per concern:

| file | module | contents |
|---|---|---|
| `wrappers.dfy` | `Wrappers` | `Option` |
| `json.dfy` | `Json` | the decoded JSON value, `dict.get` |
| `utf8.dfy` | `Utf8` | UTF-8 encoding (RFC 3629) and a strict decoder, round trip |
| `percent.dfy` | `Percent` | `quote` with safe set `/` (RFC 3986 sections 2.1 and 2.3), a strict percent-decoder, round trip |
| `url.dfy` | `Url` | `urlparse` / `urlunparse` for `https` URLs, the `full_url` of a thumbnail, its properties |
| `catalog.dfy` | `Catalog` | records to images, the loader loop, filter/order lemmas |
| `cooldown.dfy` | `Cooldown` | the cooldown check and the timestamp update |
| `request.dfy` | `Request` | the handler as a trace of events, with its lemmas |

The request handler is a pure function that returns a trace of `Event`s:
`Download(url)`, `Send(reply)`, `Sleep(seconds)` and `Record`. `Record` is
the write of `last_called_times["pig"]`. The inputs stand in for the parts
of the program that cannot be modelled directly:

- the download primitive becomes one `Attempt` per try, either
  `Downloaded(path)` or `Failed(message)`;
- `random.choice` becomes an in-range index `pick`;
- `time.time()` becomes the readings `now` (at the cooldown check) and
  `clock` (when the timestamp is written);
- `asyncio.sleep` becomes a `Sleep` event.

### Behaviour of this version

- The default cooldown period is 30 seconds (`main.py:26`). The model
  takes the period as a parameter. `max_retries` is fixed at 2
  (`main.py:28`).
- The sleep after attempt `n` is exactly 2^n seconds (`main.py:134`). It
  also follows the final failed attempt.
- `quote` is applied to the whole path with safe set `/` (`main.py:52`).
  For strings of Unicode scalar values URL construction cannot fail, so no
  record is dropped for a bad URL. Lone surrogates are the exception; see
  the line on them under "## Left out".
- `lstrip("/")` (`main.py:43`) does not stop a URL path from starting with
  `//`. `urlsplit` deletes every TAB, CR and LF from a URL before splitting
  it, in the CPython releases that include bpo-43882 (3.9.5 and later,
  3.10 and later, and the 3.6-3.8 security releases). A thumbnail
  `"\t/a.jpg"` keeps its `/` after `lstrip` and yields
  `https://pighub.top//a.jpg`. `Url.DoubleSlashIff` states exactly when
  this happens, and `Url.TabBeforeSlashGivesDoubleSlash` proves it for
  that input.
- A query (`?`), a fragment (`#`) or parameters (a `;` in the last path
  segment) in a thumbnail are cut from the path and then dropped by the
  rebuild. A thumbnail `"?x"` is kept, with URL `https://pighub.top/`.
- A record that makes the loop raise ends the load. Such a record is either
  not an object, or has a `thumbnail` that is not a string. The images
  appended before it stay in the catalog. An `images` value that is an
  empty object or an empty string yields no records. A non-empty object or
  string fails on its first element. Null, booleans and numbers cannot be
  iterated.
- When `max_retries` is 0 the handler makes no attempt and sends no
  message, but it still records the timestamp. The trace function handles
  any `maxRetries`. The plugin uses 2.

## Model

| member | source | states |
|---|---|---|
| `Utf8.EncodeChar` | main.py:52 | each character encodes to 1–4 bytes; exactly the ASCII characters take one byte, equal to the code point; others start with a lead byte ≥ 0xC2 followed by continuation bytes |
| `Utf8.DecodeFirstEncodeChar` | main.py:52 | decoding the first scalar value of an encoded character recovers it and its byte length |
| `Utf8.EncodeAppend` | main.py:52 | UTF-8 encoding distributes over concatenation |
| `Utf8.DecodeEncode` | main.py:52 | strict UTF-8 decoding of the encoding gives back the string |
| `Percent.HexDigit` | main.py:52 | the digit written for a nibble is the upper-case hexadecimal digit of that value, and an unreserved character |
| `Percent.QuoteByte` | main.py:52 | a safe byte (unreserved ASCII or `/`) stays as its character; any other becomes `%` followed by the upper-case hexadecimal digits of its high and low nibble |
| `Percent.QuoteBytes` | main.py:52 | percent-encoded output contains only unreserved characters, `/` and `%`, is at least as long as the input, and is the input itself when every byte is safe |
| `Percent.Quote` | main.py:52 | `quote(s)` contains only unreserved characters, `/` and `%`, and is at least as long as `s` |
| `Percent.QuoteSafe` | main.py:52 | `quote` leaves text made only of unreserved characters and `/` unchanged |
| `Percent.UnquoteQuoteByte` | main.py:52 | decoding one byte's encoding in front of more text yields that byte in front of the rest's decoding |
| `Percent.UnquoteQuoteBytes` | main.py:52 | percent-decoding inverts percent-encoding of bytes |
| `Percent.QuoteRoundTrip` | main.py:52 | percent-decoding `quote(s)` gives the UTF-8 bytes of `s`, which decode back to `s` |
| `Percent.QuoteAppend` | main.py:52 | `quote` distributes over concatenation |
| `Url.RemoveDeleted` | main.py:51 | the URL `urlsplit` works on has no TAB, CR or LF and is unchanged when it had none |
| `Url.RemoveDeletedChar` | main.py:51 | one character is dropped exactly when it is TAB, CR or LF, otherwise kept |
| `Url.RemoveDeletedAppend` | main.py:51 | the deletion works character by character: it distributes over concatenation, so the other characters stay in order |
| `Url.SplitParamsPath` | main.py:51 | `urlparse`'s parameter split keeps a `/`-rooted prefix with no `;` in its last segment, cut only at a `;` that no later `/` follows: the first `;` after the last `/` |
| `Url.BeforeQueryCut` | main.py:51 | the text before the query and fragment is a prefix of the tail with no `?` or `#`, cut only at one of them, and the path is taken from it |
| `Url.SplitTailPath` | main.py:51 | the path of a `/`-rooted tail is a prefix of the text before the query and fragment, with no `?` or `#`, cut at the first `;` after that text's last `/`, or not at all |
| `Url.SplitTailPlain` | main.py:51 | a tail with no `#`, `?` or `;` is all path |
| `Url.ParseHostTail` | main.py:51 | `urlparse("https://" + host + tail)` has that host as network location and splits the tail |
| `Url.UnparseHostPath` | main.py:53-55 | `urlunparse` of scheme, host and a `/`-rooted path with empty params, query and fragment is `https://` + host + path |
| `Url.BaseUrlParses` | main.py:49-51 | the base followed by any thumbnail is an `https` URL; TAB, CR and LF are deleted only from the thumbnail |
| `Url.RawPathOf` | main.py:49-51 | for any thumbnail, scheme is `https`, host is `pighub.top`, and the path is cut from `/` + thumbnail |
| `Url.RawPathRooted` | main.py:49-52 | the path `urlparse` gives for any thumbnail, and its encoding, both start with `/` |
| `Url.BuildUrlShape` | main.py:49-55 | `full_url` is `https://pighub.top` followed by the encoded path, which starts with `/` |
| `Url.BuildUrlStartsWithBase` | main.py:49-55 | every `full_url` starts with `https://pighub.top/`, whatever the thumbnail holds |
| `Url.BuildUrlReparses` | main.py:51-55 | parsing `full_url` again gives scheme `https`, host `pighub.top`, the encoded path and empty params, query and fragment |
| `Url.BuildUrlPathDecodes` | main.py:50-55 | the encoded path decodes to the UTF-8 bytes of the raw path and back to it; the raw path is `/` + thumbnail (TAB/CR/LF deleted) cut before any query or fragment and at the first `;` after the last `/` |
| `Url.QuoteSlashPrefix` | main.py:52 | `quote` maps a character to text starting with `/` exactly when it is `/` |
| `Url.QuoteSecondSlash` | main.py:52 | an encoded `/`-rooted path has `/` second exactly when the path does |
| `Url.RawPathDoubleSlash` | main.py:43-51 | the raw path starts `//` exactly when the thumbnail, once TAB/CR/LF are deleted, starts with `/` |
| `Url.EncodedSecondChar` | main.py:49-55 | the character after the base in `full_url` is `/` exactly when the raw path starts `//` |
| `Url.DoubleSlashIff` | main.py:43-55 | `full_url`'s path starts `//` exactly when the thumbnail, once TAB/CR/LF are deleted, starts with `/` |
| `Url.TabBeforeSlashGivesDoubleSlash` | main.py:43-55 | the thumbnail `"\t/a.jpg"` yields a path starting `//` |
| `Catalog.StripLeadingSlashes` | main.py:43 | `lstrip("/")` returns a suffix whose removed prefix is all `/` and which does not start with `/` |
| `Catalog.ImageRecords` | main.py:39-41 | a non-object document fails; without `images` there are no records; a list yields its items in order; an empty object or string yields none, a non-empty one fails on its first element; null, booleans and numbers cannot be iterated |
| `Catalog.StripEmptyIff` | main.py:43-44 | `lstrip("/")` leaves the empty string exactly when the thumbnail holds no character other than `/` |
| `Catalog.ToImageFields` | main.py:49-65 | a kept image's URL is built from the stripped thumbnail and starts with the base; `title`, `id`, `filename` are copied when present and default to "随机猪图", "", "" |
| `Catalog.Normalise` | main.py:41-65 | a record raises exactly when it is not an object or its thumbnail is not a string; it is skipped exactly when the thumbnail is missing or all `/`; otherwise it becomes its image |
| `Catalog.FirstFaulty` | main.py:41-44 | the position of the first record that makes the loop raise, or the count |
| `Catalog.KeptImagesStep` | main.py:41-65 | one more record adds its image to the catalog exactly when it is usable |
| `Catalog.LoadRecords` | main.py:41-65 | the loop keeps the usable records' images of the records before the first faulty one, in order, and stops with that record's error exactly when there is one; images appended before the failure stay |
| `Catalog.LoadImages` | main.py:34-74 | a document whose `images` cannot be iterated yields no images and its error; otherwise the loop runs over the records; a document without `images` yields an empty catalog and no error |
| `Catalog.UsableIndicesSound` | main.py:41-46 | the kept positions are in range, strictly ascending, and each names a usable record |
| `Catalog.UsableIndicesComplete` | main.py:41-46 | every usable record's position is kept |
| `Catalog.KeptImagesCount` | main.py:41-65 | there are as many images as usable records |
| `Catalog.KeptImageAt` | main.py:41-65 | the image at position j comes from the j-th usable record |
| `Catalog.KeptImagesFollowRecords` | main.py:41-65 | the kept images are, in order, the images of the usable records; there are no more of them than records |
| `Catalog.KeptImagesUrls` | main.py:49-62 | every loaded image's URL starts with `https://pighub.top/` |
| `Cooldown.Check` | main.py:79-85 | cooling iff elapsed time < period; an unseen command counts from 0; remaining is `max(0, period − elapsed)`, never negative, and positive exactly when cooling |
| `Cooldown.Mark` | main.py:118 | recording sets the command's last time and leaves every other command's alone |
| `Cooldown.CheckAfterMark` | main.py:79-85 | after recording at `at`, the command cools exactly until `at + period`, with `at + period − now` left; other commands are unaffected |
| `Request.Truncate` | main.py:130 | `s[:50]` is a prefix of `s` of length `min(|s|, 50)` |
| `Request.RetryFailedStep` | main.py:129-134 | a failed attempt adds one download, the failure text only on the last attempt, and one sleep of 2^attempt, before the rest |
| `Request.RetryDownloadedStep` | main.py:116-119 | a successful attempt is one download, the image, and the timestamp, and ends the loop |
| `Request.RetryFailedTail` | main.py:129-135 | after a failed attempt the rest of the loop follows, with no timestamp write before it |
| `Request.RetryDownloadsBound` | main.py:109-135 | for any outcomes, at most `max_retries` downloads, all of the chosen URL |
| `Request.RetryOneReply` | main.py:109-135 | for any outcomes, exactly one result when an attempt is left, none otherwise |
| `Request.RetryRecordLast` | main.py:109-135 | for any outcomes, the timestamp is written once, as the last step |
| `Request.RetrySucceedsAt` | main.py:109-119 | the first downloaded file ends the loop with exactly that image, after one 2^j sleep per earlier failure |
| `Request.RetryAllFail` | main.py:129-135 | all attempts failing gives all downloads, a 2^j sleep after each, and one failure text with the last error cut to 50 |
| `Request.RetryAllFailSleepTotal` | main.py:134 | the sleeps of an all-failing loop from `attempt` add up to 2^max − 2^attempt |
| `Request.RetryAllFailEnding` | main.py:132-135 | all attempts failing ends with the last download, the failure text, its sleep, then the timestamp |
| `Request.HandleGated` | main.py:88-98 | on cooldown, or with no images, exactly one text, no download or sleep, timestamps unchanged; cooldown checked first |
| `Request.HandleShape` | main.py:87-135 | exactly one result with ≥ 1 attempt; at most `max_retries` downloads of a catalog image's URL; timestamp recorded, last, exactly when both gates pass |
| `Request.HandleFirstSuccess` | main.py:101-119 | the first successful attempt yields exactly one image for that file, after 2^j sleeps for earlier failures, and records |
| `Request.HandleAllFail` | main.py:109-135 | all failing: `max_retries` downloads, sleeps 2^j (2^max − 1 in all), one failure text ≤ 50 characters of error sent on the last attempt, timestamp still recorded |
| `Request.DefaultRetriesAllFail` | main.py:28 | with the plugin's two attempts, both failing, the sleeps are 1 then 2 seconds |

## Left out

- Reading `list.json` from disk and decoding its JSON (main.py:35-38) are
  not modelled. The model starts from the decoded document. A missing or
  malformed file gives an empty catalog and a log line; that path has no
  document to model.
- Logging, including the exception-to-log mapping of main.py:69-74, the
  skip warning of main.py:45 and the attempt log of main.py:115.
- JSON strings holding lone surrogate escapes. A Dafny `char` is a Unicode
  scalar value. For such a string Python's `quote` would raise
  `UnicodeEncodeError`, which is one more way to end a load early.
- JSON numbers are carried as exact reals. They are only copied, never
  computed with.
- The `TypeError` branch (main.py:121-128). It is meant for `image_result`
  rejecting its arguments after `temp_path` was bound at main.py:116. If
  `download_image_by_url` itself raises `TypeError`, `temp_path` may be
  unbound there. Failures are modelled as generic exceptions only.
- The SSL context (main.py:111-113). It is built on every attempt, inside
  the `try`, from the CA bundle that `certifi.where()` names, and it is
  never passed to the download. If building it raises, the attempt fails
  before `download_image_by_url` is called. The model treats that as a
  `Failed` outcome whose trace still shows `Download`, so the download
  counts of `Request.HandleAllFail` and `Request.RetryDownloadsBound` count
  attempts in that case. `httpx` is imported and never used.
- The host framework: `register`, `Star`, `filter.command`, `initialize`,
  `terminate`, `plain_result` and `image_result`. Results are abstract
  `Reply` values. Text messages are kept as their kind and data (`Notice`).
  Their Chinese wording, the `:.0f` rounding of the remaining seconds and
  Python's `str()` of a title are not modelled.
- The download primitive `download_image_by_url`, `random.choice`,
  `time.time()` and `asyncio.sleep`. They become the inputs and events
  described above.
- Interleaving of requests. `Request.Handle` treats one request as a
  single step. In main.py the cooldown check (:90) and the timestamp
  writes (:118, :135) are separated by `await download_image_by_url`
  (:116) and `await asyncio.sleep` (:134). A second `/pig` handled during
  those waits passes the cooldown gate. That is not modelled.
- Cancellation. An `asyncio.CancelledError` raised during those awaits is
  not an `Exception`, so it ends the handler with no timestamp written.
  The model has no cancelled outcome.
- A consumer that stops the async generator early. The model assumes every
  yielded result is consumed, so the steps after a `yield` run.
- Time arithmetic is done on reals, not floats. `Cooldown.Check` ignores
  float rounding.
- `urlparse` is modelled only for URLs beginning `https://`, the only kind
  the loader parses. CPython releases without bpo-43882 do not delete TAB,
  CR and LF. Under them a thumbnail such as `"\t/a"` gives a path containing the
  TAB, which `quote` encodes as `%09`.
- `Percent.Unquote` is a strict decoder, written as the inverse of `quote`.
  It is not Python's lenient `unquote`, which the plugin never calls.
