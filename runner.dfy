/** The loop over `topics` (generate_and_deploy.py lines 94-110): each topic
    is generated with the retry executor, a failure is reported and skipped,
    and a success is written to the output directory, recorded in
    `created_files` and followed by a two-second pause.

    The remote service is seen per topic: `respond(i)` is what the calls made
    while generating topic `i` end in, and `jitter(i)` the values drawn while
    retrying them. The output directory is a map from file name to content. */
module Runner {
  import Retry
  import Slug

  /** The comment line written at the head of every generated file. */
  const Marker := "<!-- Auto-generated blog -->\n"

  /** A `time.sleep` of the run: a backoff inside the retry executor, or the
      two-second pause after a written file. */
  datatype Wait = RetryDelay(seconds: real) | PoliteDelay

  /** The script's state once some of the topics have been handled:
      `created_files`, the output directory, every sleep in order, and the
      number of remote calls made for each topic handled. */
  datatype State = State(created: seq<string>, files: map<string, string>, waits: seq<Wait>, calls: seq<nat>)

  predicate AllAscii(topics: seq<string>) {
    forall i :: 0 <= i < |topics| ==> Slug.IsAscii(topics[i])
  }

  /** `generate_blog(topics[i])`: the retry executor with its default budget. */
  function Generate(respond: nat -> nat -> Retry.Outcome, jitter: nat -> nat -> real, i: nat): Retry.Run {
    Retry.Exec(respond(i), jitter(i), Retry.DefaultMaxRetries, 0)
  }

  /** The backoffs of one generation, as sleeps of the run. */
  function RetryDelays(sleeps: seq<real>): (r: seq<Wait>)
    ensures |r| == |sleeps|
  {
    if sleeps == [] then [] else [RetryDelay(sleeps[0])] + RetryDelays(sleeps[1..])
  }

  /** How the generation of each of the first `n` topics ran. */
  function Runs(respond: nat -> nat -> Retry.Outcome, jitter: nat -> nat -> real, n: nat): seq<Retry.Run> {
    seq(n, i requires 0 <= i => Generate(respond, jitter, i))
  }

  /** The file name each topic would be written under. */
  function Names(topics: seq<string>): (names: seq<string>)
    requires AllAscii(topics)
  {
    seq(|topics|, i requires 0 <= i < |topics| => Slug.FileName(topics[i]))
  }

  /** One pass of the loop body for a topic with file name `name`, whose
      generation ran as `run`. */
  function Step(s: State, name: string, run: Retry.Run): State {
    match run.result
    case Ok(html) =>
      State(s.created + [name], s.files[name := Marker + html],
            s.waits + RetryDelays(run.sleeps) + [PoliteDelay], s.calls + [run.calls])
    case Err(_) =>
      State(s.created, s.files, s.waits + RetryDelays(run.sleeps), s.calls + [run.calls])
  }

  /** The state after the first `n` topics, starting from the directory `dir`,
      when topic `i` has file name `names[i]` and its generation ran as `runs[i]`. */
  function Loop(names: seq<string>, runs: seq<Retry.Run>, dir: map<string, string>, n: nat): State
    requires n <= |names| == |runs|
  {
    if n == 0 then State([], dir, [], [])
    else Step(Loop(names, runs, dir, n - 1), names[n - 1], runs[n - 1])
  }

  /** One pass of the loop body (lines 96-110) for `topic`: generate, and on
      success write the file, record its name and pause. */
  method HandleTopic(topic: string, respond: nat -> Retry.Outcome, jitter: nat -> real, s: State)
    returns (s': State)
    requires Slug.IsAscii(topic)
    ensures s' == Step(s, Slug.FileName(topic), Retry.Exec(respond, jitter, Retry.DefaultMaxRetries, 0))
  {
    var result, n, sleeps := Retry.CallWithRetries(respond, jitter, Retry.DefaultMaxRetries);
    var created, files, waits, calls := s.created, s.files, s.waits + RetryDelays(sleeps), s.calls + [n];
    if result.Ok? {
      var name := Slug.FileName(topic);
      files := files[name := Marker + result.text];
      created := created + [name];
      waits := waits + [PoliteDelay];
    }
    s' := State(created, files, waits, calls);
  }

  /** The loop of lines 94-110, proved to do what `Loop` describes. */
  method RunTopics(topics: seq<string>, respond: nat -> nat -> Retry.Outcome, jitter: nat -> nat -> real,
                   dir: map<string, string>)
    returns (s: State)
    requires AllAscii(topics)
    ensures s == Loop(Names(topics), Runs(respond, jitter, |topics|), dir, |topics|)
  {
    ghost var names, runs := Names(topics), Runs(respond, jitter, |topics|);
    s := State([], dir, [], []);
    for i := 0 to |topics|
      invariant s == Loop(names, runs, dir, i)
    {
      s := HandleTopic(topics[i], respond(i), jitter(i), s);
    }
  }

  /** The indices below `n` of the topics whose generation returned content,
      in increasing order. */
  function OkIndices(runs: seq<Retry.Run>, n: nat): (idx: seq<nat>)
    requires n <= |runs|
    ensures forall k :: 0 <= k < |idx| ==> idx[k] < n
    ensures forall k, l :: 0 <= k < l < |idx| ==> idx[k] < idx[l]
    ensures forall k :: 0 <= k < |idx| ==> runs[idx[k]].result.Ok?
  {
    if n == 0 then []
    else OkIndices(runs, n - 1) + (if runs[n - 1].result.Ok? then [n - 1] else [])
  }

  /** A topic below `n` is listed exactly when its generation returned content. */
  lemma {:induction false} OkIndicesExact(runs: seq<Retry.Run>, n: nat)
    requires n <= |runs|
    ensures forall i :: 0 <= i < n ==> (runs[i].result.Ok? <==> i in OkIndices(runs, n))
  {
    if n > 0 {
      OkIndicesExact(runs, n - 1);
      var prev := OkIndices(runs, n - 1);
      assert forall i :: i in prev ==> i < n - 1;
    }
  }

  /** `created_files` lists the file name of every topic that succeeds and of
      no other, in topic order: a failing topic leaves no entry and does not
      keep later topics out. */
  lemma {:induction false} CreatedInOrder(names: seq<string>, runs: seq<Retry.Run>, dir: map<string, string>, n: nat)
    requires n <= |names| == |runs|
    ensures var created := Loop(names, runs, dir, n).created;
            var idx := OkIndices(runs, n);
            && |created| == |idx|
            && forall k :: 0 <= k < |idx| ==> created[k] == names[idx[k]]
  {
    if n > 0 {
      CreatedInOrder(names, runs, dir, n - 1);
      var prev, pidx := Loop(names, runs, dir, n - 1).created, OkIndices(runs, n - 1);
      var created, idx := Loop(names, runs, dir, n).created, OkIndices(runs, n);
      StepCreated(Loop(names, runs, dir, n - 1), names[n - 1], runs[n - 1]);
      forall k | 0 <= k < |idx| ensures created[k] == names[idx[k]] {
        if k < |pidx| {
          assert created[k] == prev[k] && idx[k] == pidx[k];
        } else {
          assert runs[n - 1].result.Ok? && idx == pidx + [n - 1];
          assert created == prev + [names[n - 1]];
          assert idx[k] == n - 1;
        }
      }
    }
  }

  lemma StepCreated(s: State, name: string, run: Retry.Run)
    ensures Step(s, name, run).created == s.created + (if run.result.Ok? then [name] else [])
  {
  }

  lemma StepFiles(s: State, name: string, run: Retry.Run)
    ensures Step(s, name, run).files
            == if run.result.Ok? then s.files[name := Marker + run.result.text] else s.files
  {
  }

  /** No later entry of `names` repeats entry `k`. */
  predicate LastOccurrence(names: seq<string>, k: nat)
    requires k < |names|
  {
    forall l :: k < l < |names| ==> names[l] != names[k]
  }

  /** The output directory holds what it held before plus one file per name
      in `created_files`, and every other file is untouched. */
  lemma {:induction false} FilesKept(names: seq<string>, runs: seq<Retry.Run>, dir: map<string, string>, n: nat)
    requires n <= |names| == |runs|
    ensures var s := Loop(names, runs, dir, n);
            && (forall name :: name in s.files <==> name in dir || name in s.created)
            && (forall name :: name in dir && name !in s.created ==> s.files[name] == dir[name])
  {
    if n > 0 {
      FilesKept(names, runs, dir, n - 1);
      var prev := Loop(names, runs, dir, n - 1);
      StepCreated(prev, names[n - 1], runs[n - 1]);
      StepFiles(prev, names[n - 1], runs[n - 1]);
    }
  }

  /** Entry `k` of `created` that no later entry repeats is in `files`,
      holding the marker and the content of generation `idx[k]`. */
  ghost predicate Written(created: seq<string>, files: map<string, string>, runs: seq<Retry.Run>, idx: seq<nat>) {
    && |idx| == |created|
    && (forall k :: 0 <= k < |idx| ==> idx[k] < |runs| && runs[idx[k]].result.Ok?)
    && (forall k :: 0 <= k < |idx| && LastOccurrence(created, k) ==>
          created[k] in files && files[created[k]] == Marker + runs[idx[k]].result.text)
  }

  /** Writing one more file, for generation `i` of `runs`, keeps every
      written file described. */
  lemma WrittenStep(created: seq<string>, files: map<string, string>, name: string, runs: seq<Retry.Run>,
                    pidx: seq<nat>, i: nat)
    requires i < |runs| && runs[i].result.Ok? && Written(created, files, runs, pidx)
    ensures Written(created + [name], files[name := Marker + runs[i].result.text], runs, pidx + [i])
  {
    var created', files', idx := created + [name], files[name := Marker + runs[i].result.text], pidx + [i];
    forall k | 0 <= k < |idx| && LastOccurrence(created', k)
      ensures created'[k] in files' && files'[created'[k]] == Marker + runs[idx[k]].result.text
    {
      if k < |pidx| {
        assert created'[|pidx|] == name;
        assert created'[k] == created[k] != name;
        assert idx[k] == pidx[k];
        forall l | k < l < |created| ensures created[l] != created[k] {
          assert created[l] == created'[l];
        }
      } else {
        assert created'[k] == name && idx[k] == i;
      }
    }
  }

  /** Each file written holds the marker line followed by the content its
      topic's generation returned; a name that several topics share holds
      what the last of them produced. */
  lemma {:induction false} FilesWritten(names: seq<string>, runs: seq<Retry.Run>, dir: map<string, string>, n: nat)
    requires n <= |names| == |runs|
    ensures var s := Loop(names, runs, dir, n);
            Written(s.created, s.files, runs, OkIndices(runs, n))
  {
    if n > 0 {
      var prev, run := Loop(names, runs, dir, n - 1), runs[n - 1];
      FilesWritten(names, runs, dir, n - 1);
      StepCreated(prev, names[n - 1], run);
      StepFiles(prev, names[n - 1], run);
      if run.result.Ok? {
        WrittenStep(prev.created, prev.files, names[n - 1], runs, OkIndices(runs, n - 1), n - 1);
      } else {
        assert OkIndices(runs, n) == OkIndices(runs, n - 1);
      }
    }
  }

  /** How many of `waits` are the two-second pause. */
  function Pauses(waits: seq<Wait>): (r: nat)
    ensures r <= |waits|
  {
    if waits == [] then 0 else (if waits[0] == PoliteDelay then 1 else 0) + Pauses(waits[1..])
  }

  lemma {:induction false} PausesAppend(a: seq<Wait>, b: seq<Wait>)
    ensures Pauses(a + b) == Pauses(a) + Pauses(b)
    decreases |a|
  {
    if a == [] {
      assert a + b == b;
    } else {
      PausesAppend(a[1..], b);
      assert (a + b)[0] == a[0] && (a + b)[1..] == a[1..] + b;
    }
  }

  lemma {:induction false} NoPauseInRetries(sleeps: seq<real>)
    ensures Pauses(RetryDelays(sleeps)) == 0
    decreases |sleeps|
  {
    if sleeps != [] {
      NoPauseInRetries(sleeps[1..]);
      assert RetryDelays(sleeps)[1..] == RetryDelays(sleeps[1..]);
    }
  }

  lemma StepWaits(s: State, name: string, run: Retry.Run)
    ensures Step(s, name, run).waits
            == s.waits + RetryDelays(run.sleeps) + (if run.result.Ok? then [PoliteDelay] else [])
  {
    if !run.result.Ok? {
      assert s.waits + RetryDelays(run.sleeps) + [] == s.waits + RetryDelays(run.sleeps);
    }
  }

  /** One topic keeps the pauses in step with the files created. */
  lemma PauseStep(prev: State, name: string, run: Retry.Run)
    requires Pauses(prev.waits) == |prev.created|
    ensures Pauses(Step(prev, name, run).waits) == |Step(prev, name, run).created|
  {
    var retries := prev.waits + RetryDelays(run.sleeps);
    var pause: seq<Wait> := if run.result.Ok? then [PoliteDelay] else [];
    StepCreated(prev, name, run);
    StepWaits(prev, name, run);
    NoPauseInRetries(run.sleeps);
    PausesAppend(prev.waits, RetryDelays(run.sleeps));
    PausesAppend(retries, pause);
    assert Pauses(pause) == |pause|;
  }

  /** The two-second pause is taken once per file written, and so never
      after a topic that failed. */
  lemma {:induction false} PauseAfterEachFile(names: seq<string>, runs: seq<Retry.Run>, dir: map<string, string>, n: nat)
    requires n <= |names| == |runs|
    ensures Pauses(Loop(names, runs, dir, n).waits) == |Loop(names, runs, dir, n).created|
  {
    if n > 0 {
      PauseAfterEachFile(names, runs, dir, n - 1);
      PauseStep(Loop(names, runs, dir, n - 1), names[n - 1], runs[n - 1]);
    }
  }

  /** Topic `n - 1` adds one pause when its generation returned content and
      none when it failed. */
  lemma PausePerTopic(names: seq<string>, runs: seq<Retry.Run>, dir: map<string, string>, n: nat)
    requires 0 < n <= |names| == |runs|
    ensures Pauses(Loop(names, runs, dir, n).waits)
            == Pauses(Loop(names, runs, dir, n - 1).waits) + (if runs[n - 1].result.Ok? then 1 else 0)
  {
    var prev, run := Loop(names, runs, dir, n - 1), runs[n - 1];
    var retries := prev.waits + RetryDelays(run.sleeps);
    var pause: seq<Wait> := if run.result.Ok? then [PoliteDelay] else [];
    StepWaits(prev, names[n - 1], run);
    NoPauseInRetries(run.sleeps);
    PausesAppend(prev.waits, RetryDelays(run.sleeps));
    PausesAppend(retries, pause);
    assert Pauses(pause) == |pause|;
  }

  /** The remote calls recorded for each topic are those of its own
      generation, one entry per topic handled. */
  lemma {:induction false} CallsPerTopic(names: seq<string>, runs: seq<Retry.Run>, dir: map<string, string>, n: nat)
    requires n <= |names| == |runs|
    ensures |Loop(names, runs, dir, n).calls| == n
    ensures forall i :: 0 <= i < n ==> Loop(names, runs, dir, n).calls[i] == runs[i].calls
  {
    if n > 0 {
      CallsPerTopic(names, runs, dir, n - 1);
      var prev, s := Loop(names, runs, dir, n - 1).calls, Loop(names, runs, dir, n).calls;
      assert s == prev + [runs[n - 1].calls];
      forall i | 0 <= i < n ensures s[i] == runs[i].calls {
        if i < n - 1 {
          assert s[i] == prev[i];
        }
      }
    }
  }

  /** Every topic is attempted whatever became of the topics before it: with
      the default budget each one makes between one and five remote calls. */
  lemma EveryTopicAttempted(topics: seq<string>, respond: nat -> nat -> Retry.Outcome, jitter: nat -> nat -> real,
                            dir: map<string, string>)
    requires AllAscii(topics)
    ensures var s := Loop(Names(topics), Runs(respond, jitter, |topics|), dir, |topics|);
            && |s.calls| == |topics|
            && forall i :: 0 <= i < |topics| ==> 1 <= s.calls[i] <= Retry.DefaultMaxRetries
  {
    var runs := Runs(respond, jitter, |topics|);
    CallsPerTopic(Names(topics), runs, dir, |topics|);
    forall i | 0 <= i < |topics| ensures 1 <= runs[i].calls <= Retry.DefaultMaxRetries {
      Retry.CallCounts(respond(i), jitter(i), Retry.DefaultMaxRetries);
    }
  }
}
