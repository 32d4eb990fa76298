/** `Jenkins::Backup` (lib/jenkins/backup.rb:10-235): taking a backup of a
    Jenkins server into an archive, and restoring an archive into a server.

    The server is reached through `JenkinsApi::Client`, modelled by
    `Server.JenkinsServer`. The clock, the temporary directory and the tool's
    version are parameters. The staging directories and the archive are
    values (`Archive.StagedDir`, a sequence of `Archive.Entry`). */
module JenkinsBackup {
  import opened Wrappers
  import opened Strings
  import opened Metadata
  import opened Archive
  import opened Server
  import opened Reconcile
  import ViewXml
  import Differencer

  /** The parameters a backup object is made with
      (lib/jenkins/configuration.rb:6-12). The password only reaches the
      client, so it is not kept here. */
  datatype Settings = Settings(serverIp: Option<string>, serverPort: Option<nat>, username: Option<string>)

  /** `server_port || 8080` (lib/jenkins/backup.rb:36) */
  function PortOf(s: Settings): nat
  {
    if s.serverPort.Some? then s.serverPort.value else DefaultServerPort
  }

  /** What stops a backup: a client call that raises, or a staged file that
      cannot be opened because its name holds a '/' (its directory does not
      exist). */
  datatype BackupError =
    | JobConfigUnavailable(job: string)      // @client.job.get_config(job)
    | ViewConfigUnavailable(view: string)    // @client.view.get_config(view)
    | ViewJobsUnavailable(view: string)      // @client.view.list_jobs(view)
    | StagingWriteFailed(file: string)       // File.open("#{dir}/#{file}", "w")

  // ------------------------------------------------------------ backup, specified

  /** `File.open("#{dir}/#{name}.xml", "w") { |f| f.write(text) }` */
  function StageXml(d: StagedDir, name: string, text: string): (r: Result<StagedDir, BackupError>)
    ensures Consistent(d) && Flat(d) && r.Ok? ==> Consistent(r.value) && Flat(r.value)
  {
    if '/' in name then Err(StagingWriteFailed(XmlFile(name))) else Ok(Write(d, XmlFile(name), text))
  }

  /** The jobs directory after the loop at lib/jenkins/backup.rb:50-54. */
  function StageJobs(st: ServerState, jobs: seq<string>): (r: Result<StagedDir, BackupError>)
    ensures r.Ok? ==> Consistent(r.value) && Flat(r.value)
  {
    if jobs == [] then Ok(EmptyDir)
    else
      match StageJobs(st, jobs[..|jobs| - 1])
      case Err(e) => Err(e)
      case Ok(d) =>
        var job := jobs[|jobs| - 1];
        if job !in st.jobConfigs then Err(JobConfigUnavailable(job))
        else StageXml(d, job, st.jobConfigs[job])
  }

  /** The views directory and the view records after the loop at
      lib/jenkins/backup.rb:69-114. */
  function CollectViews(st: ServerState, views: seq<string>, matches: (string, string) -> bool)
    : (r: Result<(StagedDir, seq<ViewDetail>), BackupError>)
    ensures r.Ok? ==> Consistent(r.value.0) && Flat(r.value.0)
  {
    if views == [] then Ok((EmptyDir, []))
    else
      match CollectViews(st, views[..|views| - 1], matches)
      case Err(e) => Err(e)
      case Ok(acc) =>
        var view := views[|views| - 1];
        if view == DefaultView then Ok(acc)
        else if view !in st.viewConfigs then Err(ViewConfigUnavailable(view))
        else match StageXml(acc.0, view, st.viewConfigs[view])
          case Err(e) => Err(e)
          case Ok(d) =>
            if view !in st.viewMembers then Err(ViewJobsUnavailable(view))
            else Ok((d, acc.1 + [ViewRecord(view, st.viewConfigs[view], st.viewMembers[view], matches)]))
  }

  /** The metadata record of lib/jenkins/backup.rb:28-113. */
  function MetadataOf(s: Settings, st: ServerState, now: nat, toolVersion: string, details: seq<ViewDetail>): Metadata
  {
    Metadata(now, s.username, s.serverIp, PortOf(s), toolVersion, ContentsJobs,
             JobsSection(|st.jobList|, st.jobList), ViewsSection(|st.viewList| - 1, details))
  }

  /** `backup(name)`: the archive's name and its entries, or what stopped it. */
  function BackupOf(s: Settings, st: ServerState, name: Option<string>, now: nat, toolVersion: string,
                    tmpDir: string, matches: (string, string) -> bool)
    : Result<(string, seq<Entry>), BackupError>
  {
    match StageJobs(st, st.jobList)
    case Err(e) => Err(e)
    case Ok(jobsDir) =>
      match CollectViews(st, st.viewList, matches)
      case Err(e) => Err(e)
      case Ok(acc) =>
        Ok((ArchiveName(name, now), Pack(tmpDir, jobsDir, acc.0, MetadataOf(s, st, now, toolVersion, acc.1))))
  }

  // ------------------------------------------------------------ backup, properties

  /** Every listed job has a configuration and a name the staging directory
      accepts. */
  predicate JobsFetchable(st: ServerState, jobs: seq<string>)
  {
    forall j :: j in jobs ==> j in st.jobConfigs && '/' !in j
  }

  /** Every listed view but "All" has a configuration, a member list and a
      name the staging directory accepts. */
  predicate ViewsFetchable(st: ServerState, views: seq<string>)
  {
    forall v :: v in views && v != DefaultView ==> v in st.viewConfigs && v in st.viewMembers && '/' !in v
  }

  /** `e` is what stops the backup at job `j`. */
  predicate JobFault(st: ServerState, j: string, e: BackupError)
  {
    || (j !in st.jobConfigs && e == JobConfigUnavailable(j))
    || (j in st.jobConfigs && '/' in j && e == StagingWriteFailed(XmlFile(j)))
  }

  /** `e` is what stops the backup at view `v`. */
  predicate ViewFault(st: ServerState, v: string, e: BackupError)
  {
    || (v !in st.viewConfigs && e == ViewConfigUnavailable(v))
    || (v in st.viewConfigs && '/' in v && e == StagingWriteFailed(XmlFile(v)))
    || (v in st.viewConfigs && '/' !in v && v !in st.viewMembers && e == ViewJobsUnavailable(v))
  }

  /** The record of each view in `names`, in order. */
  function ViewRecords(st: ServerState, names: seq<string>, matches: (string, string) -> bool): (r: seq<ViewDetail>)
    requires forall n :: n in names ==> n in st.viewConfigs && n in st.viewMembers
    ensures |r| == |names|
    ensures forall k :: 0 <= k < |names| ==> r[k].viewName == names[k]
  {
    seq(|names|, k requires 0 <= k < |names| => ViewRecord(names[k], st.viewConfigs[names[k]], st.viewMembers[names[k]], matches))
  }

  lemma ViewRecordsSnoc(st: ServerState, names: seq<string>, view: string, matches: (string, string) -> bool)
    requires forall n :: n in names ==> n in st.viewConfigs && n in st.viewMembers
    requires view in st.viewConfigs && view in st.viewMembers
    ensures ViewRecords(st, names + [view], matches)
            == ViewRecords(st, names, matches) + [ViewRecord(view, st.viewConfigs[view], st.viewMembers[view], matches)]
  {
    var a := ViewRecords(st, names + [view], matches);
    var b := ViewRecords(st, names, matches) + [ViewRecord(view, st.viewConfigs[view], st.viewMembers[view], matches)];
    forall k | 0 <= k < |a| ensures a[k] == b[k] {
      if k < |names| {
        assert (names + [view])[k] == names[k];
      }
    }
  }

  lemma XmlFileInjective(a: string, b: string)
    ensures XmlFile(a) == XmlFile(b) <==> a == b
  {
    if XmlFile(a) == XmlFile(b) {
      assert a == XmlFile(a)[..|a|];
      assert b == XmlFile(b)[..|b|];
    }
  }

  lemma XmlFileSlash(name: string)
    ensures '/' in XmlFile(name) <==> '/' in name
  {
    assert forall c :: c in XmlFile(name) <==> c in name || c in ".xml";
  }

  /** Staging the jobs succeeds exactly when every job can be fetched and
      written; the directory then holds `<job>.xml` with the job's
      configuration for every listed job, and nothing else. Otherwise the
      error names a listed job and what failed for it. */
  lemma {:induction false} StageJobsOutcome(st: ServerState, jobs: seq<string>)
    ensures var r := StageJobs(st, jobs);
            && (r.Ok? <==> JobsFetchable(st, jobs))
            && (r.Ok? ==> forall j :: j in jobs ==>
                  XmlFile(j) in r.value.names && XmlFile(j) in r.value.files && r.value.files[XmlFile(j)] == st.jobConfigs[j])
            && (r.Ok? ==> forall n :: n in r.value.names ==> exists j :: j in jobs && n == XmlFile(j))
            && (r.Err? ==> exists j :: j in jobs && JobFault(st, j, r.error))
  {
    if jobs != [] {
      var init, job := jobs[..|jobs| - 1], jobs[|jobs| - 1];
      assert jobs == init + [job];
      StageJobsOutcome(st, init);
      XmlFileSlash(job);
      forall j | j in init ensures XmlFile(j) == XmlFile(job) <==> j == job {
        XmlFileInjective(j, job);
      }
    }
  }

  /** Collecting the views succeeds exactly when every view but "All" can be
      fetched and written; otherwise the error names a listed view other
      than "All" and what failed for it. */
  lemma {:induction false} CollectViewsOutcome(st: ServerState, views: seq<string>, matches: (string, string) -> bool)
    ensures var r := CollectViews(st, views, matches);
            && (r.Ok? <==> ViewsFetchable(st, views))
            && (r.Err? ==> exists v :: v in views && v != DefaultView && ViewFault(st, v, r.error))
  {
    if views != [] {
      var init, view := views[..|views| - 1], views[|views| - 1];
      assert views == init + [view];
      CollectViewsOutcome(st, init, matches);
      XmlFileSlash(view);
    }
  }

  /** The records collected are those of the listed views without "All",
      in listing order. */
  lemma {:induction false} CollectViewsRecords(st: ServerState, views: seq<string>, matches: (string, string) -> bool)
    requires ViewsFetchable(st, views)
    ensures forall n :: n in NonDefaultViews(views) ==> n in st.viewConfigs && n in st.viewMembers
    ensures CollectViews(st, views, matches).Ok?
    ensures CollectViews(st, views, matches).value.1 == ViewRecords(st, NonDefaultViews(views), matches)
  {
    CollectViewsOutcome(st, views, matches);
    NonDefaultFetchable(st, views);
    if views != [] {
      var init, view := views[..|views| - 1], views[|views| - 1];
      assert views == init + [view];
      assert ViewsFetchable(st, init);
      CollectViewsRecords(st, init, matches);
      var nd := NonDefaultViews(init);
      if view != DefaultView {
        CollectViewsNext(st, views, matches);
        assert NonDefaultViews(views) == nd + [view];
        ViewRecordsSnoc(st, nd, view, matches);
      } else {
        assert NonDefaultViews(views) == nd;
      }
    }
  }

  lemma NonDefaultFetchable(st: ServerState, views: seq<string>)
    requires ViewsFetchable(st, views)
    ensures forall n :: n in NonDefaultViews(views) ==> n in st.viewConfigs && n in st.viewMembers
  {
    forall n | n in NonDefaultViews(views) ensures n in views && n != DefaultView {
      NonDefaultViewsMembership(views, n);
    }
  }

  /** Collecting one more fetchable view that is not "All" appends its record. */
  lemma CollectViewsNext(st: ServerState, views: seq<string>, matches: (string, string) -> bool)
    requires views != [] && CollectViews(st, views[..|views| - 1], matches).Ok?
    requires var v := views[|views| - 1]; v != DefaultView && v in st.viewConfigs && v in st.viewMembers && '/' !in v
    ensures var v := views[|views| - 1];
            && CollectViews(st, views, matches).Ok?
            && CollectViews(st, views, matches).value.1
               == CollectViews(st, views[..|views| - 1], matches).value.1
                  + [ViewRecord(v, st.viewConfigs[v], st.viewMembers[v], matches)]
  {
    XmlFileSlash(views[|views| - 1]);
  }

  /** The views directory holds `<view>.xml` with the view's configuration
      for every listed view but "All", and nothing else. */
  lemma {:induction false} CollectViewsFiles(st: ServerState, views: seq<string>, matches: (string, string) -> bool)
    requires CollectViews(st, views, matches).Ok?
    ensures var d := CollectViews(st, views, matches).value.0;
            && (forall v :: v in views && v != DefaultView ==>
                  XmlFile(v) in d.names && XmlFile(v) in d.files && v in st.viewConfigs && d.files[XmlFile(v)] == st.viewConfigs[v])
            && (forall n :: n in d.names ==> exists v :: v in views && v != DefaultView && n == XmlFile(v))
  {
    if views != [] {
      var init, view := views[..|views| - 1], views[|views| - 1];
      assert views == init + [view];
      CollectViewsFiles(st, init, matches);
      var d0 := CollectViews(st, init, matches).value.0;
      var d := CollectViews(st, views, matches).value.0;
      if view == DefaultView {
        assert d == d0;
      } else {
        assert view in st.viewConfigs && d == Write(d0, XmlFile(view), st.viewConfigs[view]);
        forall v | v in views && v != DefaultView
          ensures XmlFile(v) in d.names && XmlFile(v) in d.files && v in st.viewConfigs && d.files[XmlFile(v)] == st.viewConfigs[v]
        {
          XmlFileInjective(v, view);
          if v != view {
            assert v in init;
          }
        }
        forall n | n in d.names ensures exists v :: v in views && v != DefaultView && n == XmlFile(v) {
          if n == XmlFile(view) {
            assert view in views;
          } else {
            assert n in d0.names;
            var v :| v in init && v != DefaultView && n == XmlFile(v);
            assert v in views;
          }
        }
      }
    }
  }

  /** A backup succeeds exactly when every listed job and view can be
      fetched and staged; otherwise it reports a job or a view that could
      not be. */
  lemma BackupOutcome(s: Settings, st: ServerState, name: Option<string>, now: nat, toolVersion: string,
                      tmpDir: string, matches: (string, string) -> bool)
    ensures var r := BackupOf(s, st, name, now, toolVersion, tmpDir, matches);
            && (r.Ok? <==> JobsFetchable(st, st.jobList) && ViewsFetchable(st, st.viewList))
            && (r.Err? ==> || (exists j :: j in st.jobList && JobFault(st, j, r.error))
                           || (exists v :: v in st.viewList && v != DefaultView && ViewFault(st, v, r.error)))
  {
    StageJobsOutcome(st, st.jobList);
    CollectViewsOutcome(st, st.viewList, matches);
  }

  /** The archive of a successful backup is named `<name>-<seconds>.tar.gz`,
      and its `metadata.yml` holds the settings, the job listing with its
      length, the view listing's length minus one, and the record of every
      view but "All" in listing order. */
  lemma BackupMetadata(s: Settings, st: ServerState, name: Option<string>, now: nat, toolVersion: string,
                       tmpDir: string, matches: (string, string) -> bool)
    requires tmpDir != [] && tmpDir[0] == '/'
    requires JobsFetchable(st, st.jobList) && ViewsFetchable(st, st.viewList)
    ensures var r := BackupOf(s, st, name, now, toolVersion, tmpDir, matches);
            && r.Ok?
            && ParseArchiveName(r.value.0) == Some((BaseName(name), now))
            && var u := Unpacked(r.value.1);
               && LoadMetadata(u).Ok?
               && var m := LoadMetadata(u).value;
                  && m.timestamp == now && m.createdBy == s.username && m.serverIp == s.serverIp
                  && m.serverPort == PortOf(s) && m.toolVersion == toolVersion && m.contents == ContentsJobs
                  && m.jobs == JobsSection(|st.jobList|, st.jobList)
                  && m.views.count == |st.viewList| - 1
                  && (forall n :: n in NonDefaultViews(st.viewList) ==> n in st.viewConfigs && n in st.viewMembers)
                  && m.views.details == ViewRecords(st, NonDefaultViews(st.viewList), matches)
  {
    BackupOutcome(s, st, name, now, toolVersion, tmpDir, matches);
    CollectViewsRecords(st, st.viewList, matches);
    ArchiveNameRoundTrip(name, now);
    var jd := StageJobs(st, st.jobList).value;
    var acc := CollectViews(st, st.viewList, matches).value;
    PackUnpackRoundTrip(tmpDir, jd, acc.0, MetadataOf(s, st, now, toolVersion, acc.1));
  }

  /** A successful backup archives the configuration of every listed job
      and every view but "All" under `jobs/<name>.xml` and `views/<name>.xml`
      — except a job or view whose file name starts with '.', which the glob
      `*xml` skips, so that no document is archived for it. */
  lemma BackupDocuments(s: Settings, st: ServerState, name: Option<string>, now: nat, toolVersion: string,
                        tmpDir: string, matches: (string, string) -> bool)
    requires tmpDir != [] && tmpDir[0] == '/'
    requires JobsFetchable(st, st.jobList) && ViewsFetchable(st, st.viewList)
    ensures var r := BackupOf(s, st, name, now, toolVersion, tmpDir, matches);
            && r.Ok?
            && var u := Unpacked(r.value.1);
               && (forall j :: j in st.jobList && GlobMatch(XmlFile(j)) ==> ReadXml(u, JobPath(j)) == Some(st.jobConfigs[j]))
               && (forall j :: j in st.jobList && !GlobMatch(XmlFile(j)) ==> ReadXml(u, JobPath(j)).None?)
               && (forall v :: v in st.viewList && v != DefaultView && GlobMatch(XmlFile(v)) ==>
                     ViewsDir + "/" + XmlFile(v) in u && u[ViewsDir + "/" + XmlFile(v)] == Xml(st.viewConfigs[v]))
  {
    BackupOutcome(s, st, name, now, toolVersion, tmpDir, matches);
    StageJobsOutcome(st, st.jobList);
    CollectViewsFiles(st, st.viewList, matches);
    var jd := StageJobs(st, st.jobList).value;
    var acc := CollectViews(st, st.viewList, matches).value;
    var m := MetadataOf(s, st, now, toolVersion, acc.1);
    PackUnpackRoundTrip(tmpDir, jd, acc.0, m);
    forall j | j in st.jobList && !GlobMatch(XmlFile(j)) ensures ReadXml(Unpacked(Pack(tmpDir, jd, acc.0, m)), JobPath(j)).None? {
      UnpackedJobPath(tmpDir, jd, acc.0, m, XmlFile(j));
    }
  }

  /** Every entry of a backup's archive can be unpacked again. */
  lemma BackupWritable(s: Settings, st: ServerState, name: Option<string>, now: nat, toolVersion: string,
                       tmpDir: string, matches: (string, string) -> bool)
    requires tmpDir != [] && tmpDir[0] == '/'
    requires JobsFetchable(st, st.jobList) && ViewsFetchable(st, st.viewList)
    ensures var r := BackupOf(s, st, name, now, toolVersion, tmpDir, matches);
            && r.Ok?
            && forall i :: 0 <= i < |r.value.1| ==> Writable(r.value.1[i].pathname)
  {
    BackupOutcome(s, st, name, now, toolVersion, tmpDir, matches);
    var jd := StageJobs(st, st.jobList).value;
    var acc := CollectViews(st, st.viewList, matches).value;
    PackWritable(tmpDir, jd, acc.0, MetadataOf(s, st, now, toolVersion, acc.1));
  }

  lemma {:induction false} UnmatchedNoDuplicates(jobs: seq<string>, regex: Option<string>, matches: (string, string) -> bool)
    requires NoDuplicates(jobs)
    ensures NoDuplicates(Differencer.Unmatched(jobs, regex, matches))
  {
    if jobs != [] {
      var init, last := jobs[..|jobs| - 1], jobs[|jobs| - 1];
      assert NoDuplicates(init) by {
        forall i, j | 0 <= i < j < |init| ensures init[i] != init[j] { assert jobs[i] != jobs[j]; }
      }
      UnmatchedNoDuplicates(init, regex, matches);
      Differencer.UnmatchedMembership(init, regex, matches, last);
      forall i | 0 <= i < |init| ensures init[i] != last { assert jobs[i] != jobs[|jobs| - 1]; }
    }
  }

  /** Backing a server up and restoring the archive into another server
      issues no failing step when no job's file name starts with '.'; every
      job that is not kept then has the source's configuration, every kept
      job is untouched, and every view that is not kept lists exactly its
      recorded jobs: the source's members that its regex does not imply. */
  lemma BackupThenRestore(s: Settings, st: ServerState, name: Option<string>, now: nat, toolVersion: string,
                          tmpDir: string, matches: (string, string) -> bool, target: ServerState, opts: Options)
    requires tmpDir != [] && tmpDir[0] == '/'
    requires JobsFetchable(st, st.jobList) && ViewsFetchable(st, st.viewList)
    requires forall j :: j in st.jobList ==> GlobMatch(XmlFile(j))
    requires NoDuplicates(NonDefaultViews(st.viewList))
    requires forall v :: v in st.viewMembers ==> NoDuplicates(st.viewMembers[v])
    ensures var a := BackupOf(s, st, name, now, toolVersion, tmpDir, matches);
            && a.Ok?
            && var r := RestoreArchive(a.value.1, target, opts);
               var t := ApplyAll(target, r.calls);
               && r.failure.None?
               && (forall j :: j in st.jobList && !Kept(j, target.jobList, opts.overwriteJobs) ==>
                     j in t.jobList && j in t.jobConfigs && t.jobConfigs[j] == st.jobConfigs[j])
               && (forall j :: j !in st.jobList || Kept(j, target.jobList, opts.overwriteJobs) ==> SameJob(target, t, j))
               && (forall v :: v in st.viewList && v != DefaultView && !Kept(v, target.viewList, opts.overwriteViews) ==>
                     v in t.viewList && v in t.viewMembers
                     && t.viewMembers[v] == Differencer.Unmatched(st.viewMembers[v], ViewXml.IncludeRegex(st.viewConfigs[v]), matches))
  {
    BackupMetadata(s, st, name, now, toolVersion, tmpDir, matches);
    BackupDocuments(s, st, name, now, toolVersion, tmpDir, matches);
    BackupWritable(s, st, name, now, toolVersion, tmpDir, matches);
    RestoreOfRecords(Unpacked(BackupOf(s, st, name, now, toolVersion, tmpDir, matches).value.1), st, matches, target, opts);
  }

  /** Restoring, onto `target`, files whose metadata and job documents are
      those recorded from server `st`. */
  lemma RestoreOfRecords(u: map<string, Content>, st: ServerState, matches: (string, string) -> bool,
                         target: ServerState, opts: Options)
    requires JobsFetchable(st, st.jobList) && ViewsFetchable(st, st.viewList)
    requires forall j :: j in st.jobList ==> ReadXml(u, JobPath(j)) == Some(st.jobConfigs[j])
    requires forall n :: n in NonDefaultViews(st.viewList) ==> n in st.viewConfigs && n in st.viewMembers
    requires LoadMetadata(u).Ok? && LoadMetadata(u).value.jobs.names == st.jobList
    requires LoadMetadata(u).value.views.details == ViewRecords(st, NonDefaultViews(st.viewList), matches)
    requires NoDuplicates(NonDefaultViews(st.viewList))
    requires forall v :: v in st.viewMembers ==> NoDuplicates(st.viewMembers[v])
    ensures var r := RestoreReplay(u, target, opts);
            var t := ApplyAll(target, r.calls);
            && r.failure.None?
            && (forall j :: j in st.jobList && !Kept(j, target.jobList, opts.overwriteJobs) ==>
                  j in t.jobList && j in t.jobConfigs && t.jobConfigs[j] == st.jobConfigs[j])
            && (forall j :: j !in st.jobList || Kept(j, target.jobList, opts.overwriteJobs) ==> SameJob(target, t, j))
            && (forall v :: v in st.viewList && v != DefaultView && !Kept(v, target.viewList, opts.overwriteViews) ==>
                  v in t.viewList && v in t.viewMembers
                  && t.viewMembers[v] == Differencer.Unmatched(st.viewMembers[v], ViewXml.IncludeRegex(st.viewConfigs[v]), matches))
  {
    var names := st.jobList;
    JobsReplayFailure(names, target.jobList, opts.overwriteJobs, u);
    var j := JobsReplay(names, target.jobList, opts.overwriteJobs, u);
    JobsReplayState(target, names, target.jobList, opts.overwriteJobs, u);
    var mid := ApplyAll(target, j.calls);
    var vs := ViewsReplay(LoadMetadata(u).value.views.details, target.viewList, opts.overwriteViews);
    ApplyAllAppend(target, j.calls, vs);
    RestoreReplayCompletes(u, target, opts);
    ViewRecordsReplay(mid, st, matches, target.viewList, opts.overwriteViews);
    var t := ApplyAll(mid, vs);
    forall x | x !in names || Kept(x, target.jobList, opts.overwriteJobs) ensures SameJob(target, t, x) {
      assert SameJob(target, mid, x);
    }
  }

  /** Replaying the view records taken from `st` gives every recreated view
      the jobs its record lists, and touches no job. */
  lemma ViewRecordsReplay(mid: ServerState, st: ServerState, matches: (string, string) -> bool,
                          current: seq<string>, overwrite: bool)
    requires ViewsFetchable(st, st.viewList)
    requires forall n :: n in NonDefaultViews(st.viewList) ==> n in st.viewConfigs && n in st.viewMembers
    requires NoDuplicates(NonDefaultViews(st.viewList))
    requires forall v :: v in st.viewMembers ==> NoDuplicates(st.viewMembers[v])
    ensures var t := ApplyAll(mid, ViewsReplay(ViewRecords(st, NonDefaultViews(st.viewList), matches), current, overwrite));
            && SameJobSide(mid, t)
            && (forall v :: v in st.viewList && v != DefaultView && !Kept(v, current, overwrite) ==>
                  v in t.viewList && v in t.viewMembers
                  && t.viewMembers[v] == Differencer.Unmatched(st.viewMembers[v], ViewXml.IncludeRegex(st.viewConfigs[v]), matches))
  {
    var nd := NonDefaultViews(st.viewList);
    var details := ViewRecords(st, nd, matches);
    assert DetailNames(details) == nd;
    forall k | 0 <= k < |details| ensures NoDuplicates(details[k].jobNames) {
      UnmatchedNoDuplicates(st.viewMembers[nd[k]], ViewXml.IncludeRegex(st.viewConfigs[nd[k]]), matches);
    }
    ViewsReplayState(mid, details, current, overwrite);
    forall v | v in st.viewList && v != DefaultView && !Kept(v, current, overwrite)
      ensures var t := ApplyAll(mid, ViewsReplay(details, current, overwrite));
              v in t.viewList && v in t.viewMembers
              && t.viewMembers[v] == Differencer.Unmatched(st.viewMembers[v], ViewXml.IncludeRegex(st.viewConfigs[v]), matches)
    {
      NonDefaultViewsMembership(st.viewList, v);
      var k :| 0 <= k < |nd| && nd[k] == v;
      assert details[k].viewName == v;
    }
  }

  /** A job whose file name starts with '.' is staged but not archived, so
      restoring the backup into a server where it must be created fails on
      reading its XML. */
  lemma DotJobNotRestored(s: Settings, st: ServerState, name: Option<string>, now: nat, toolVersion: string,
                          tmpDir: string, matches: (string, string) -> bool, target: ServerState, opts: Options, job: string)
    requires tmpDir != [] && tmpDir[0] == '/'
    requires JobsFetchable(st, st.jobList) && ViewsFetchable(st, st.viewList)
    requires job in st.jobList && StartsWith(XmlFile(job), ".")
    requires !Kept(job, target.jobList, opts.overwriteJobs)
    ensures var a := BackupOf(s, st, name, now, toolVersion, tmpDir, matches);
            && a.Ok?
            && RestoreArchive(a.value.1, target, opts).failure.Some?
  {
    BackupMetadata(s, st, name, now, toolVersion, tmpDir, matches);
    BackupDocuments(s, st, name, now, toolVersion, tmpDir, matches);
    BackupWritable(s, st, name, now, toolVersion, tmpDir, matches);
    var u := Unpacked(BackupOf(s, st, name, now, toolVersion, tmpDir, matches).value.1);
    JobsReplayFailure(st.jobList, target.jobList, opts.overwriteJobs, u);
  }

  // ------------------------------------------------------------ prefix lemmas

  lemma {:induction false} StageJobsStops(st: ServerState, jobs: seq<string>, i: nat)
    requires i <= |jobs| && StageJobs(st, jobs[..i]).Err?
    ensures StageJobs(st, jobs) == StageJobs(st, jobs[..i])
    decreases |jobs|
  {
    if i < |jobs| {
      var init := jobs[..|jobs| - 1];
      assert init[..i] == jobs[..i];
      StageJobsStops(st, init, i);
    } else {
      assert jobs[..i] == jobs;
    }
  }

  lemma {:induction false} CollectViewsStops(st: ServerState, views: seq<string>, matches: (string, string) -> bool, i: nat)
    requires i <= |views| && CollectViews(st, views[..i], matches).Err?
    ensures CollectViews(st, views, matches) == CollectViews(st, views[..i], matches)
    decreases |views|
  {
    if i < |views| {
      var init := views[..|views| - 1];
      assert init[..i] == views[..i];
      CollectViewsStops(st, init, matches, i);
    } else {
      assert views[..i] == views;
    }
  }

  // ------------------------------------------------------------ unpacking

  /** The loop at lib/jenkins/backup.rb:158-164: every entry is written to
      the staging directory under its path, until one cannot be written. */
  method Unpack(entries: seq<Entry>) returns (r: Result<map<string, Content>, string>)
    ensures r == UnpackEntries(entries)
  {
    var files := map[];
    for i := 0 to |entries|
      invariant UnpackEntries(entries[..i]) == Ok(files)
    {
      assert entries[..i + 1][..i] == entries[..i];
      var entry := entries[i];
      if !Writable(entry.pathname) {
        UnpackEntriesStops(entries, i + 1);
        return Err(entry.pathname);
      }
      files := files[entry.pathname := entry.data];
    }
    assert entries[..|entries|] == entries;
    r := Ok(files);
  }

  // ------------------------------------------------------------ the backup object

  class Backup {
    const settings: Settings
    /** `@client`, made from the settings and the password
        (lib/jenkins/backup.rb:19-23). */
    const client: JenkinsServer

    constructor (settings: Settings, client: JenkinsServer)
      ensures this.settings == settings && this.client == client
    {
      this.settings := settings;
      this.client := client;
    }

    /** `write_xml_to_archive(archive, xml_dir, tmp_dir)`
        (lib/jenkins/backup.rb:182-192): one entry per globbed file, named
        by its path below the temporary directory. */
    method WriteXmlToArchive(xmlDir: string, d: StagedDir, tmpDir: string) returns (entries: seq<Entry>)
      requires Consistent(d)
      ensures entries == XmlEntries(xmlDir, d, tmpDir)
    {
      var files := Glob(d);
      entries := [];
      for k := 0 to |files|
        invariant entries == XmlEntries(xmlDir, d, tmpDir)[..k]
      {
        var fn := xmlDir + "/" + files[k];
        entries := entries + [Entry(ShortName(fn, tmpDir), Xml(d.files[files[k]]))];
      }
    }

    /** `backup(name)` (lib/jenkins/backup.rb:26-144), at time `now` in
        whole seconds, with `tmpDir` as the temporary directory. It reads
        the server and changes nothing there. */
    method RunBackup(name: Option<string>, now: nat, toolVersion: string, tmpDir: string,
                     matches: (string, string) -> bool)
      returns (r: Result<(string, seq<Entry>), BackupError>)
      ensures r == BackupOf(settings, client.State(), name, now, toolVersion, tmpDir, matches)
    {
      var jobs := StageJobConfigs();
      if jobs.Err? {
        return Err(jobs.error);
      }
      var views := CollectViewConfigs(matches);
      if views.Err? {
        return Err(views.error);
      }
      var jobsDir, viewsDir, details := jobs.value, views.value.0, views.value.1;
      var metadata := Metadata(now, settings.username, settings.serverIp, PortOf(settings), toolVersion,
                               ContentsJobs, JobsSection(|client.jobList|, client.jobList),
                               ViewsSection(|client.viewList| - 1, details));
      var jobEntries := WriteXmlToArchive(tmpDir + "/" + JobsDir, jobsDir, tmpDir);
      var viewEntries := WriteXmlToArchive(tmpDir + "/" + ViewsDir, viewsDir, tmpDir);
      r := Ok((ArchiveName(name, now), jobEntries + viewEntries + [MetadataEntry(metadata)]));
    }

    /** The job listing and the loop that stages each job's configuration
        (lib/jenkins/backup.rb:43-54). */
    method StageJobConfigs() returns (r: Result<StagedDir, BackupError>)
      ensures r == StageJobs(client.State(), client.jobList)
    {
      var st := client.State();
      var jobs := client.jobList;
      var jobsDir := EmptyDir;
      for i := 0 to |jobs|
        invariant StageJobs(st, jobs[..i]) == Ok(jobsDir)
      {
        assert jobs[..i + 1][..i] == jobs[..i];
        var job := jobs[i];
        var xml := client.JobConfig(job);
        if xml.None? {
          StageJobsStops(st, jobs, i + 1);
          return Err(JobConfigUnavailable(job));
        }
        if '/' in job {
          StageJobsStops(st, jobs, i + 1);
          return Err(StagingWriteFailed(XmlFile(job)));
        }
        jobsDir := Write(jobsDir, XmlFile(job), xml.value);
      }
      assert jobs[..|jobs|] == jobs;
      r := Ok(jobsDir);
    }

    /** The view listing and the loop that stages each view's configuration
        and builds its record, skipping "All" (lib/jenkins/backup.rb:57-114). */
    method CollectViewConfigs(matches: (string, string) -> bool)
      returns (r: Result<(StagedDir, seq<ViewDetail>), BackupError>)
      ensures r == CollectViews(client.State(), client.viewList, matches)
    {
      var st := client.State();
      var views := client.viewList;
      var viewsDir := EmptyDir;
      var details := [];
      for i := 0 to |views|
        invariant CollectViews(st, views[..i], matches) == Ok((viewsDir, details))
      {
        assert views[..i + 1][..i] == views[..i];
        var view := views[i];
        if view != DefaultView {
          var xml := client.ViewConfig(view);
          if xml.None? {
            CollectViewsStops(st, views, matches, i + 1);
            return Err(ViewConfigUnavailable(view));
          }
          if '/' in view {
            CollectViewsStops(st, views, matches, i + 1);
            return Err(StagingWriteFailed(XmlFile(view)));
          }
          viewsDir := Write(viewsDir, XmlFile(view), xml.value);
          var jobNames := client.ViewJobs(view);
          if jobNames.None? {
            CollectViewsStops(st, views, matches, i + 1);
            return Err(ViewJobsUnavailable(view));
          }
          var filterQueue := ViewXml.FilterQueue(xml.value);
          var filterExecutors := ViewXml.FilterExecutors(xml.value);
          var regex := ViewXml.IncludeRegex(xml.value);
          var unmatched := Differencer.UnmatchedJobs(jobNames.value, regex, matches);
          details := details + [ViewDetail(view, filterQueue, filterExecutors, regex, unmatched)];
        }
      }
      assert views[..|views|] == views;
      r := Ok((viewsDir, details));
    }

    /** `restore_jobs(jobs_dir, metadata[:jobs], options)`
        (lib/jenkins/backup.rb:194-210). The job listing is taken once,
        before the loop. A missing XML file stops the restore. */
    method RestoreJobs(files: map<string, Content>, names: seq<string>, opts: Options)
      returns (failure: Option<RestoreError>)
      requires client.Valid()
      modifies client
      ensures client.Valid() && client.initial == old(client.initial)
      ensures var r := JobsReplay(names, old(client.jobList), opts.overwriteJobs, files);
              && failure == r.failure
              && client.log == old(client.log) + r.calls
              && client.State() == ApplyAll(old(client.State()), r.calls)
    {
      var current := client.jobList;
      var overwrite := opts.overwriteJobs;
      ghost var log0 := client.log;
      ghost var done: seq<Call> := [];
      for i := 0 to |names|
        invariant JobsReplay(names[..i], current, overwrite, files) == Replay(done, None)
        invariant client.Valid() && client.initial == old(client.initial)
        invariant client.log == log0 + done
      {
        var job := names[i];
        if job in current && !overwrite {
          JobsReplayKept(names, i, current, overwrite, files);
        } else {
          var xml := ReadXml(files, JobPath(job));
          if xml.None? {
            JobsReplayMissing(names, i, current, overwrite, files);
            ApplyAllAppend(client.initial, log0, done);
            return Some(JobXmlMissing(job));
          }
          JobsReplayCreated(names, i, current, overwrite, files);
          ghost var steps := JobCalls(job, xml.value, overwrite);
          JobCallsShape(job, xml.value, overwrite);
          ghost var before := client.log;
          if overwrite {
            client.DeleteJob(job);
          }
          client.CreateJob(job, xml.value);
          assert client.log == before + steps;
          AppendAssoc(log0, done, steps);
          done := done + steps;
        }
      }
      assert names[..|names|] == names;
      ApplyAllAppend(client.initial, log0, done);
      failure := None;
    }

    /** `restore_views(views_dir, metadata[:views], options)`
        (lib/jenkins/backup.rb:212-232). The view listing is taken once,
        before the loop; a view is created with its name only. */
    method RestoreViews(details: seq<ViewDetail>, opts: Options)
      requires client.Valid()
      modifies client
      ensures client.Valid() && client.initial == old(client.initial)
      ensures var cs := ViewsReplay(details, old(client.viewList), opts.overwriteViews);
              && client.log == old(client.log) + cs
              && client.State() == ApplyAll(old(client.State()), cs)
    {
      var current := client.viewList;
      var overwrite := opts.overwriteViews;
      ghost var log0 := client.log;
      ghost var done: seq<Call> := [];
      for i := 0 to |details|
        invariant ViewsReplay(details[..i], current, overwrite) == done
        invariant client.Valid() && client.initial == old(client.initial)
        invariant client.log == log0 + done
      {
        var view := details[i];
        var v := view.viewName;
        if v != DefaultView && !(v in current && !overwrite) {
          ViewsReplayCreated(details, i, current, overwrite);
          ghost var steps := ViewSteps(view, current, overwrite);
          RecreateView(view, current, overwrite);
          AppendAssoc(log0, done, steps);
          done := done + steps;
        } else {
          ViewsReplayKept(details, i, current, overwrite);
        }
      }
      assert details[..|details|] == details;
      ApplyAllAppend(client.initial, log0, done);
    }

    /** The body of the loop at lib/jenkins/backup.rb:219-229 for a view
        that is (re)created: delete it when overwriting, create it by name,
        then add its recorded jobs one by one. */
    method RecreateView(view: ViewDetail, current: seq<string>, overwrite: bool)
      requires view.viewName != DefaultView && !Kept(view.viewName, current, overwrite)
      requires client.Valid()
      modifies client
      ensures client.Valid() && client.initial == old(client.initial)
      ensures client.log == old(client.log) + ViewSteps(view, current, overwrite)
    {
      var v := view.viewName;
      ghost var log1 := client.log;
      ViewHeadShape(v, overwrite);
      if overwrite {
        client.DeleteView(v);
      }
      client.CreateListView(v);
      ghost var head := client.log;
      ghost var added: seq<Call> := [];
      for k := 0 to |view.jobNames|
        invariant client.Valid() && client.initial == old(client.initial)
        invariant added == AddCalls(v, view.jobNames[..k])
        invariant client.log == head + added
      {
        AddCallsNext(v, view.jobNames, k);
        client.AddJob(v, view.jobNames[k]);
        AppendAssoc(head, added, [ViewAddJob(v, view.jobNames[k])]);
        added := added + [ViewAddJob(v, view.jobNames[k])];
      }
      assert view.jobNames[..|view.jobNames|] == view.jobNames;
      AppendAssoc(log1, ViewHead(v, overwrite), added);
    }

    /** `restore(name, options)` (lib/jenkins/backup.rb:146-178), given the
        entries of the archive: unpack, load the metadata, restore the jobs,
        then the views. */
    method Restore(entries: seq<Entry>, opts: Options) returns (failure: Option<RestoreError>)
      requires client.Valid()
      modifies client
      ensures client.Valid() && client.initial == old(client.initial)
      ensures var r := RestoreArchive(entries, old(client.State()), opts);
              && failure == r.failure
              && client.log == old(client.log) + r.calls
              && client.State() == ApplyAll(old(client.State()), r.calls)
    {
      ghost var st0 := client.State();
      var unpacked := Unpack(entries);
      if unpacked.Err? {
        return Some(UnpackFailed(unpacked.error));
      }
      var files := unpacked.value;
      assert RestoreArchive(entries, st0, opts) == RestoreReplay(files, st0, opts);
      var metadata := LoadMetadata(files);
      if metadata.Err? {
        RestoreReplayStops(files, st0, opts);
        return Some(metadata.error);
      }
      var m := metadata.value;
      failure := RestoreJobs(files, m.jobs.names, opts);
      if failure.Some? {
        RestoreReplayStops(files, st0, opts);
        return;
      }
      ghost var jobCalls := JobsReplay(m.jobs.names, st0.jobList, opts.overwriteJobs, files).calls;
      JobsReplayKeepsViews(st0, m.jobs.names, st0.jobList, opts.overwriteJobs, files);
      RestoreViews(m.views.details, opts);
      ghost var viewCalls := ViewsReplay(m.views.details, st0.viewList, opts.overwriteViews);
      ApplyAllAppend(st0, jobCalls, viewCalls);
      AppendAssoc(old(client.log), jobCalls, viewCalls);
      RestoreReplayCompletes(files, st0, opts);
      assert RestoreReplay(files, st0, opts).calls == jobCalls + viewCalls;
    }
  }
}
