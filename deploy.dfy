/** The whole run of generate_and_deploy.py from line 94 on: every topic is
    generated and written, then the sitemap is built from `created_files`. */
module Deploy {
  import Retry
  import Slug
  import Runner
  import Sitemap

  /** Lines 94-117: the topic loop followed by the sitemap builder. */
  method GenerateAndDeploy(topics: seq<string>, respond: nat -> nat -> Retry.Outcome, jitter: nat -> nat -> real,
                           dir: map<string, string>, base: string, today: nat -> string)
    returns (s: Runner.State, sitemap: string)
    requires Runner.AllAscii(topics)
    ensures s == Runner.Loop(Runner.Names(topics), Runner.Runs(respond, jitter, |topics|), dir, |topics|)
    ensures sitemap == Sitemap.Document(base, s.created, today)
  {
    s := Runner.RunTopics(topics, respond, jitter, dir);
    sitemap := Sitemap.BuildSitemap(base, s.created, today);
  }

  /** The state the topic loop ends in. */
  function Final(topics: seq<string>, respond: nat -> nat -> Retry.Outcome, jitter: nat -> nat -> real,
                 dir: map<string, string>): Runner.State
    requires Runner.AllAscii(topics)
  {
    Runner.Loop(Runner.Names(topics), Runner.Runs(respond, jitter, |topics|), dir, |topics|)
  }

  lemma CreatedArePlain(topics: seq<string>, created: seq<string>, idx: seq<nat>)
    requires Runner.AllAscii(topics)
    requires |created| == |idx| && forall k :: 0 <= k < |idx| ==> idx[k] < |topics|
    requires forall k :: 0 <= k < |idx| ==> created[k] == Runner.Names(topics)[idx[k]]
    ensures forall k :: 0 <= k < |created| ==> '<' !in created[k]
  {
    forall k | 0 <= k < |created| ensures '<' !in created[k] {
      Slug.FileNameChars(topics[idx[k]]);
    }
  }

  /** The sitemap of a run that created `created` and left the output
      directory as `files`, starting from `dir`. */
  lemma ManifestOf(base: string, created: seq<string>, files: map<string, string>, dir: map<string, string>,
                   today: nat -> string)
    requires '<' !in base
    requires forall k :: Sitemap.IsIsoDate(today(k))
    requires forall k :: 0 <= k < |created| ==> '<' !in created[k]
    requires forall name :: name in files <==> name in dir || name in created
    ensures var doc := Sitemap.Parse(Sitemap.Document(base, created, today));
            && doc.Some?
            && |doc.value| == 1 + |created|
            && doc.value[0].loc == base + "/"
            && (forall k :: 0 <= k < |created| ==> doc.value[k + 1].loc == base + "/" + created[k] && created[k] in files)
            && (forall name :: name in files && name !in dir ==>
                  exists k :: 1 <= k < |doc.value| && doc.value[k].loc == base + "/" + name)
  {
    Sitemap.SitemapEntries(base, created, today);
    var es := Sitemap.Parse(Sitemap.Document(base, created, today)).value;
    forall name | name in files && name !in dir
      ensures exists k :: 1 <= k < |es| && es[k].loc == base + "/" + name
    {
      var j :| 0 <= j < |created| && created[j] == name;
      assert es[j + 1].loc == base + "/" + name;
    }
  }

  /** Manifest consistency: the sitemap lists the site root and then, in
      order, one entry per name in `created_files`; every file it lists is in
      the output directory, and every file the run added to the directory is
      listed. */
  lemma ManifestMatchesFiles(topics: seq<string>, respond: nat -> nat -> Retry.Outcome, jitter: nat -> nat -> real,
                             dir: map<string, string>, base: string, today: nat -> string)
    requires Runner.AllAscii(topics)
    requires '<' !in base
    requires forall k :: Sitemap.IsIsoDate(today(k))
    ensures var s := Final(topics, respond, jitter, dir);
            var doc := Sitemap.Parse(Sitemap.Document(base, s.created, today));
            && doc.Some?
            && |doc.value| == 1 + |s.created|
            && doc.value[0].loc == base + "/"
            && (forall k :: 0 <= k < |s.created| ==> doc.value[k + 1].loc == base + "/" + s.created[k] && s.created[k] in s.files)
            && (forall name :: name in s.files && name !in dir ==>
                  exists k :: 1 <= k < |doc.value| && doc.value[k].loc == base + "/" + name)
  {
    var names, runs := Runner.Names(topics), Runner.Runs(respond, jitter, |topics|);
    var s := Final(topics, respond, jitter, dir);
    Runner.CreatedInOrder(names, runs, dir, |topics|);
    Runner.FilesKept(names, runs, dir, |topics|);
    CreatedArePlain(topics, s.created, Runner.OkIndices(runs, |topics|));
    ManifestOf(base, s.created, s.files, dir, today);
  }

  /** End to end: the sitemap lists, after the root and in topic order, the
      file of exactly those topics whose generation returned content. */
  lemma SitemapListsSucceeded(topics: seq<string>, respond: nat -> nat -> Retry.Outcome, jitter: nat -> nat -> real,
                              dir: map<string, string>, base: string, today: nat -> string)
    requires Runner.AllAscii(topics)
    requires '<' !in base
    requires forall k :: Sitemap.IsIsoDate(today(k))
    ensures var runs := Runner.Runs(respond, jitter, |topics|);
            var idx := Runner.OkIndices(runs, |topics|);
            var doc := Sitemap.Parse(Sitemap.Document(base, Final(topics, respond, jitter, dir).created, today));
            && (forall i :: 0 <= i < |topics| ==> (runs[i].result.Ok? <==> i in idx))
            && doc.Some?
            && |doc.value| == 1 + |idx|
            && forall k :: 0 <= k < |idx| ==> doc.value[k + 1].loc == base + "/" + Slug.FileName(topics[idx[k]])
  {
    var names, runs := Runner.Names(topics), Runner.Runs(respond, jitter, |topics|);
    var created := Final(topics, respond, jitter, dir).created;
    var idx := Runner.OkIndices(runs, |topics|);
    Runner.OkIndicesExact(runs, |topics|);
    Runner.CreatedInOrder(names, runs, dir, |topics|);
    ManifestMatchesFiles(topics, respond, jitter, dir, base, today);
    forall k | 0 <= k < |idx| ensures created[k] == Slug.FileName(topics[idx[k]]) {
      assert created[k] == names[idx[k]];
    }
  }

  /** How the three topics' generations end when the middle one fails with
      a non-retryable status and the others succeed at their first call. */
  lemma MiddleTopicRuns(respond: nat -> nat -> Retry.Outcome, jitter: nat -> nat -> real)
    requires respond(0)(0).Success? && respond(2)(0).Success?
    requires respond(1)(0).HttpError? && !Retry.IsRetryable(respond(1)(0))
    ensures Runner.OkIndices(Runner.Runs(respond, jitter, 3), 3) == [0, 2]
  {
    var runs := Runner.Runs(respond, jitter, 3);
    Retry.SettlesAt(respond(0), jitter(0), Retry.DefaultMaxRetries, 0);
    Retry.SettlesAt(respond(1), jitter(1), Retry.DefaultMaxRetries, 0);
    Retry.SettlesAt(respond(2), jitter(2), Retry.DefaultMaxRetries, 0);
    assert runs[0].result.Ok? && !runs[1].result.Ok? && runs[2].result.Ok?;
    assert Runner.OkIndices(runs, 1) == [0];
    assert Runner.OkIndices(runs, 2) == [0];
  }

  lemma MiddleTopicCreated(topics: seq<string>, respond: nat -> nat -> Retry.Outcome, jitter: nat -> nat -> real,
                            dir: map<string, string>)
    requires |topics| == 3 && Runner.AllAscii(topics)
    requires respond(0)(0).Success? && respond(2)(0).Success?
    requires respond(1)(0).HttpError? && !Retry.IsRetryable(respond(1)(0))
    ensures Final(topics, respond, jitter, dir).created == [Runner.Names(topics)[0], Runner.Names(topics)[2]]
  {
    MiddleTopicRuns(respond, jitter);
    Runner.CreatedInOrder(Runner.Names(topics), Runner.Runs(respond, jitter, |topics|), dir, |topics|);
  }

  /** Three topics of which the middle one fails with a non-retryable status
      and the others succeed at their first call: two files are created, for
      the first and third topics in that order, and no other file is
      written. */
  lemma MiddleTopicFails(topics: seq<string>, respond: nat -> nat -> Retry.Outcome, jitter: nat -> nat -> real,
                         dir: map<string, string>)
    requires |topics| == 3 && Runner.AllAscii(topics)
    requires respond(0)(0).Success? && respond(2)(0).Success?
    requires respond(1)(0).HttpError? && !Retry.IsRetryable(respond(1)(0))
    ensures var s := Final(topics, respond, jitter, dir);
            && s.created == [Slug.FileName(topics[0]), Slug.FileName(topics[2])]
            && (forall name :: name in s.files ==> name in dir || name in s.created)
            && (forall name :: name in dir && name !in s.created ==> name in s.files && s.files[name] == dir[name])
  {
    var names := Runner.Names(topics);
    MiddleTopicCreated(topics, respond, jitter, dir);
    assert names[0] == Slug.FileName(topics[0]);
    assert names[2] == Slug.FileName(topics[2]);
    Runner.FilesKept(names, Runner.Runs(respond, jitter, |topics|), dir, |topics|);
  }

  /** In the same run the sitemap holds three entries: the root and the two
      files. */
  lemma MiddleTopicSitemap(topics: seq<string>, respond: nat -> nat -> Retry.Outcome, jitter: nat -> nat -> real,
                           dir: map<string, string>, base: string, today: nat -> string)
    requires |topics| == 3 && Runner.AllAscii(topics)
    requires respond(0)(0).Success? && respond(2)(0).Success?
    requires respond(1)(0).HttpError? && !Retry.IsRetryable(respond(1)(0))
    requires '<' !in base
    requires forall k :: Sitemap.IsIsoDate(today(k))
    ensures var doc := Sitemap.Parse(Sitemap.Document(base, Final(topics, respond, jitter, dir).created, today));
            doc.Some? && |doc.value| == 3
  {
    assert |Final(topics, respond, jitter, dir).created| == 2 by {
      MiddleTopicFails(topics, respond, jitter, dir);
    }
    ManifestMatchesFiles(topics, respond, jitter, dir, base, today);
  }
}
