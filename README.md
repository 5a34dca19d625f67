# iberrywifi blog generator — a Dafny model

This project models the logic of `scripts/generate_and_deploy.py`. The script
asks a language-model API for one SEO blog post per topic. It retries a
failing call with exponential backoff and jitter, and writes each post that
came back to `generated/<slug>.html`. It then writes `sitemap.xml`, which
lists the site root and the files that were created.

The model has six modules:

- `PyText` (`pytext.dfy`): Python's `str.strip`, both `strip()` on white
  space and `strip('-')`, and the character classes the script matches on.
- `Slug` (`slug.dfy`): the file name of a topic (line 102), lower-casing,
  the `re.sub(r'[^a-z0-9]+', '-', …)` substitution and the dash strip.
- `Retry` (`retry.dfy`): `call_openai_with_retries` (lines 30-69).
  - `Exec` is the reference definition.
  - `CallWithRetries` is the loop, proved equal to `Exec`.
  - `Classify` is the `try`/`except` dispatch of one call.
- `Runner` (`runner.dfy`): the topic loop (lines 94-110).
  - `Loop` and `Step` are the reference definitions.
  - `RunTopics` and `HandleTopic` are the loop and its body, proved against them.
- `Sitemap` (`sitemap.dfy`): the sitemap builder (lines 113-117).
  - `Document` is the reference definition; `BuildSitemap` grows the string
    entry by entry, as the script does.
  - `Parse` reads a document back, so the manifest can be stated in terms of
    entries.
- `Deploy` (`deploy.dfy`): the whole run, from the topic loop to the sitemap,
  with the end-to-end properties.

The model stands in for the outside world as follows:

- **Remote service:** a function `respond: nat -> Outcome` from the index of
  a call to what that call ends in: success with content, an HTTP status, a
  network error, or any other exception.
- **`random.uniform(0, 1)`:** a function `jitter: nat -> real` from the index
  of a draw to the value drawn.
- **Per-topic versions:** the runner takes curried forms of both,
  `respond(i)` and `jitter(i)` for topic `i`.
- **Output directory:** a `map<string, string>` from file name to content.
- **Clock:** `today: nat -> string`, the date read while writing sitemap
  entry `k`. The script calls `datetime.utcnow()` once per entry.
- **Sleeps:** recorded as a sequence of waits: the backoffs, and the
  two-second pause after each written file.

## Model

| member | source | states |
|---|---|---|
| Retry.Exec | scripts/generate_and_deploy.py:30-69 | The reference definition of the invocation from a given attempt on. Its contract: it never sleeps more often than it calls; the lemmas below state the rest. |
| Retry.Classify | scripts/generate_and_deploy.py:44-66 | A call is retried exactly when it ended in a status in {429, 500, 502, 503, 504} or a network-level `RequestException`. Otherwise it ends the invocation: stripped content on success, the re-raised `HTTPError` for any other status, and propagation of any other exception. |
| Retry.CallWithRetries | scripts/generate_and_deploy.py:30-69 | The `while` loop returns exactly the result, call count and sleep sequence that `Exec` defines. The loop keeps `calls == attempt == number of sleeps`. |
| Retry.CallCounts | scripts/generate_and_deploy.py:31-32 | An invocation makes at most `max_retries` calls: none when `max_retries <= 0`, at least one otherwise. A run that gives up has slept once per call; any other run has slept once per call except its last. |
| Retry.AllRetryableExhausts | scripts/generate_and_deploy.py:52-69 | When every call within the budget fails retryably, exactly `max_retries` calls and `max_retries` sleeps happen (zero when `max_retries <= 0`). The result is the "failed after N attempts" error. |
| Retry.SettlesAt | scripts/generate_and_deploy.py:45-60 | If call `j` is the first that is not retried and `j < max_retries`, the invocation ends with that call. Success returns its content stripped; a non-retryable status is re-raised at once; any other exception propagates. Exactly `j + 1` calls and `j` sleeps happen. |
| Retry.SucceedsIff | scripts/generate_and_deploy.py:30-69 | The invocation returns content if and only if some call `j < max_retries` succeeds and every call before it failed retryably. |
| Retry.RetryablesInterchangeable | scripts/generate_and_deploy.py:48-67 | Any two retryable failures, a network error or a 429/5xx status, lead to the same run. Network errors are handled exactly like those statuses. |
| Retry.SleepsAreBackoffs | scripts/generate_and_deploy.py:53-54 | Sleep `k` (counting from 0) is `2 ** (k + 1)` plus draw `k`. |
| Retry.BackoffBounds | scripts/generate_and_deploy.py:54 | With every draw in [0, 1], retry `k` (counting from 1) sleeps between `2 ** k` and `2 ** k + 1` seconds. The sleeps strictly increase. |
| PyText.Strip | scripts/generate_and_deploy.py:47 | `str.strip` (also `strip('-')` at line 102): the result is no longer than the argument and neither starts nor ends with a character of the stripped class. |
| PyText.StripIsSlice | scripts/generate_and_deploy.py:47 | `str.strip` returns a contiguous slice of its argument. |
| PyText.StripDropsOnlyClass | scripts/generate_and_deploy.py:47 | `str.strip` drops only characters of the stripped class, from either end. Its result neither starts nor ends with one of them. |
| PyText.StripIdempotent | scripts/generate_and_deploy.py:47 | Stripping a stripped string changes nothing. |
| Slug.Substitute | scripts/generate_and_deploy.py:102 | `re.sub(r'[^a-z0-9]+', '-', …)`: the result is empty exactly when the text is, and starts with a dash only when the text starts outside `[a-z0-9]`. |
| Slug.SubstituteNoLonger | scripts/generate_and_deploy.py:102 | The substitution never lengthens the text: each run it replaces is at least one character long. |
| Slug.FileName | scripts/generate_and_deploy.py:102 | The file name of an ASCII topic, defined as its stem followed by `.html`. Its contract: the name is never longer than the topic plus `.html`. `Slug.StemShape` and `Slug.FileNameChars` state its shape. |
| Slug.SubstituteIsDashed | scripts/generate_and_deploy.py:102 | After the substitution only `[a-z0-9-]` remains, with no `--`. |
| Slug.StemShape | scripts/generate_and_deploy.py:102 | The stem has only `[a-z0-9-]`, no `--`, and no dash at either end. |
| Slug.FileNameChars | scripts/generate_and_deploy.py:102 | Every character of a file name is in `[a-z0-9.-]`. In particular a file name holds no `<`. |
| Slug.StemIdempotent | scripts/generate_and_deploy.py:102 | Slugging a stem again gives the same stem. |
| Slug.StemKeepsWordChars | scripts/generate_and_deploy.py:102 | The stem keeps every letter and digit of the lower-cased topic, in order. Only separators change. |
| Slug.StemOfWords | scripts/generate_and_deploy.py:102 | A topic whose lower-cased form is words of `[a-z0-9]` separated by single spaces has those words joined by `-` as its stem. |
| Slug.FileNameExample | scripts/generate_and_deploy.py:77 | "Top 5 tips to improve hotel WiFi speeds" is written to `top-5-tips-to-improve-hotel-wifi-speeds.html`. |
| Runner.HandleTopic | scripts/generate_and_deploy.py:96-110 | One loop pass is exactly `Step`. On success it writes the marker line followed by the content under the topic's file name, appends that name and pauses. On failure it only records the retry sleeps and the calls made. |
| Runner.RunTopics | scripts/generate_and_deploy.py:94-110 | The loop over all topics ends in exactly the state `Loop` defines. |
| Runner.OkIndicesExact | scripts/generate_and_deploy.py:97-101 | A topic index is among the successful ones exactly when its generation returned content. |
| Runner.CreatedInOrder | scripts/generate_and_deploy.py:94-107 | `created_files` is the file name of every topic that succeeded and of no other, in topic order. A failing topic does not keep later topics out. |
| Runner.FilesKept | scripts/generate_and_deploy.py:103-107 | The output directory holds what it held before, plus one file per name in `created_files`. Every other file is untouched. |
| Runner.FilesWritten | scripts/generate_and_deploy.py:103-107 | Each created file holds the marker line followed by the content its topic returned. A name several topics share holds what the last of them produced. |
| Runner.PausePerTopic | scripts/generate_and_deploy.py:97-110 | Each topic adds exactly one two-second pause when its generation returned content, and none when it failed. |
| Runner.PauseAfterEachFile | scripts/generate_and_deploy.py:110 | Over the whole loop the number of two-second pauses equals the number of files written. |
| Runner.CallsPerTopic | scripts/generate_and_deploy.py:95-98 | One call count is recorded per topic handled, and it is that topic's own. |
| Runner.EveryTopicAttempted | scripts/generate_and_deploy.py:95-101 | Every topic is attempted whatever became of the ones before it. With the default budget, each makes between one and five remote calls. |
| Sitemap.BuildSitemap | scripts/generate_and_deploy.py:113-117 | The string grown entry by entry is exactly `Document`: the header, one `<url>` element per URL, then `</urlset>`. |
| Sitemap.RenderAppend | scripts/generate_and_deploy.py:115-116 | Rendering one more entry appends exactly that entry's text. |
| Sitemap.ParseRender | scripts/generate_and_deploy.py:116 | A run of entries whose values hold no `<` reads back as exactly those entries. |
| Sitemap.ParseDocument | scripts/generate_and_deploy.py:114-117 | A document framed by the header and `</urlset>` reads back as exactly its entries. |
| Sitemap.SitemapEntries | scripts/generate_and_deploy.py:113-117 | The sitemap starts with the XML header. It reads back as `1 + len(files)` entries: the root `base + "/"` first, then `base + "/" + files[i]` in order, each dated by its own clock reading. |
| Deploy.GenerateAndDeploy | scripts/generate_and_deploy.py:94-117 | The run ends in the `Loop` state, and its sitemap is `Document` of that state's `created_files`. |
| Deploy.ManifestMatchesFiles | scripts/generate_and_deploy.py:94-117 | The sitemap lists the root, then one entry per created file in order, and each listed file is in the output directory. Every file the run added to the directory is listed. |
| Deploy.SitemapListsSucceeded | scripts/generate_and_deploy.py:94-117 | The sitemap lists, after the root, the file of exactly those topics whose generation returned content, in topic order. |
| Deploy.MiddleTopicFails | scripts/generate_and_deploy.py:74-110 | With three topics where the middle one fails with a non-retryable status and the others succeed at their first call: `created_files` is the first and third file names. No file outside the directory's previous contents and those two names exists, and every file already in the directory that is not one of the two names keeps its content. |
| Deploy.MiddleTopicSitemap | scripts/generate_and_deploy.py:112-117 | In that run the sitemap reads back as three entries. |

Behaviours of the code worth noting, all modelled as written:

- **Number of calls:** the loop makes `max_retries` calls in all, not one
  initial call plus `max_retries` retries.
- **Sleep after the last failure:** the backoff sleep follows every retryable
  failure, including the last, before the "failed after N" error is raised.
- **Jitter range:** `random.uniform(0, 1)` is `random.random()`, a draw in
  [0, 1). The floating-point sum `2 ** attempt + draw` can still round up to
  `2 ** attempt + 1` (a draw of 1 − 2⁻⁵³ added to 2 gives 3.0). So the model
  lets a draw lie anywhere in [0, 1], and a backoff lies in [2^k, 2^k + 1].
- **Inter-topic pause:** the two-second pause is taken only after a file was
  written, not after every topic.
- **Sitemap date:** the date is read from the clock once per sitemap entry,
  not once per run. Entries written across midnight UTC carry different dates.

Two edge cases follow from the code as written:

- **Empty stem:** a topic with no letter or digit gets the file name `.html`.
- **Shared names:** two topics with the same stem write the same file. The
  later one wins, and the name appears twice in `created_files` and in the
  sitemap.

## Left out

- HTTP, JSON and the request payload (`requests.post`, `raise_for_status`, `r.json()`, the prompts, the model name, `max_tokens`, `temperature`, the 60-second timeout) are not modelled. The outcome of each call is an input.
  - A JSON decoding error is a `NetworkError` or an `OtherError` depending on the version of `requests`: newer versions raise a `RequestException` subclass, older ones a bare `ValueError`. The caller picks the outcome.
  - An `HTTPError` whose response carries no status gets `None` from `getattr`. That is not a retryable status, so it is re-raised. The model covers it as `HttpError` with a status outside the retryable set.
- Exceptions outside `Exception`, such as `KeyboardInterrupt` and `SystemExit`, are not modelled. The `except Exception` at line 99 does not catch them, so they would end the whole run. The model's `OtherError` covers `Exception` subclasses only, and the topic loop skips every failure it sees.
- Environment variables, the missing-key check and `sys.exit(1)` (lines 14-28) are configuration. The base URL is a parameter.
- `print` output is diagnostics only and is not modelled.
- Sleeping is recorded as a sequence of durations, not performed. Random draws are an input function over the reals, not IEEE floats.
- The filesystem is a map. `os.makedirs` (line 72), path joining, text encoding and failures to open or write a file are not modelled. Writing `sitemap.xml` (lines 118-119) is not modelled either: the model returns the sitemap text.
- Runner.HandleTopic: writing the file and appending its name are one step of the model. The script's order within the step (write first, then append) is not visible in the state. A write failure, which would end the script between the two, is not modelled.
- Slug.FileName: modelled for ASCII topics only, the form of every topic in the script's list (lines 74-78). Python's `str.lower()` maps some non-ASCII characters to ASCII letters (the Kelvin sign to `k`), and that mapping is not modelled.
- Sitemap.SitemapEntries: it needs the base URL and every file name to be free of `<`, because the script does not escape XML. File names meet this by `Slug.FileNameChars`. The base URL is assumed to.
- The `generate_blog` wrapper (lines 80-92) only builds the prompt and passes `max_tokens=1200`. It is modelled as the retry executor with the default `max_retries` of 5.
