/** What a restore issues to the server (lib/jenkins/backup.rb:146-232),
    stated as functions of the staging directory, the listings taken before
    each loop, and the overwrite options. The methods of class JenkinsBackup.Backup are
    proved to issue exactly these calls. */
module Reconcile {
  import opened Wrappers
  import opened Server
  import opened Metadata
  import opened Archive

  /** `options[:overwrite_jobs]` and `options[:overwrite_views]`; an absent
      option is false. */
  datatype Options = Options(overwriteJobs: bool, overwriteViews: bool)

  datatype RestoreError =
    | MetadataMissing          // no metadata.yml: YAML.load_file raises
    | MetadataUnreadable       // metadata.yml does not hold a metadata record
    | JobXmlMissing(job: string)  // File.read("#{jobs_dir}/#{job}.xml") raises
    | UnpackFailed(path: string)  // File.open("#{tmp_dir}/#{name}", "w") raises

  /** The calls issued, and the error that stopped the restore, if any. */
  datatype Replay = Replay(calls: seq<Call>, failure: Option<RestoreError>)

  /** The staged file of a job, relative to the staging directory. */
  function JobPath(job: string): string
  {
    JobsDir + "/" + XmlFile(job)
  }

  /** `File.read(path)`: the text of an unpacked XML document. */
  function ReadXml(files: map<string, Content>, path: string): Option<string>
  {
    if path in files && files[path].Xml? then Some(files[path].text) else None
  }

  /** `YAML.load_file("#{tmp_dir}/metadata.yml")` */
  function LoadMetadata(files: map<string, Content>): (r: Result<Metadata, RestoreError>)
    ensures r.Ok? <==> MetadataFile in files && files[MetadataFile].Yaml?
  {
    if MetadataFile !in files then Err(MetadataMissing)
    else match files[MetadataFile]
      case Yaml(m) => Ok(m)
      case Xml(_) => Err(MetadataUnreadable)
  }

  /** A job already listed when the restore began is left alone unless
      jobs are overwritten (lib/jenkins/backup.rb:197); views likewise
      (lib/jenkins/backup.rb:216). */
  predicate Kept(name: string, current: seq<string>, overwrite: bool)
  {
    name in current && !overwrite
  }

  /** A job's delete (when overwriting) and its creation from `xml`. */
  function JobCalls(job: string, xml: string, overwrite: bool): seq<Call>
  {
    (if overwrite then [JobDelete(job)] else []) + [JobCreate(job, xml)]
  }

  /** One pass of the loop in `restore_jobs` (lib/jenkins/backup.rb:197-208). */
  function JobSteps(job: string, current: seq<string>, overwrite: bool, files: map<string, Content>)
    : Result<seq<Call>, RestoreError>
  {
    if Kept(job, current, overwrite) then Ok([])
    else match ReadXml(files, JobPath(job))
      case None => Err(JobXmlMissing(job))
      case Some(xml) => Ok(JobCalls(job, xml, overwrite))
  }

  /** `restore_jobs`: the passes in order, stopping at the first error. */
  function JobsReplay(names: seq<string>, current: seq<string>, overwrite: bool, files: map<string, Content>): Replay
  {
    if names == [] then Replay([], None)
    else
      var p := JobsReplay(names[..|names| - 1], current, overwrite, files);
      if p.failure.Some? then p
      else match JobSteps(names[|names| - 1], current, overwrite, files)
        case Ok(cs) => Replay(p.calls + cs, None)
        case Err(e) => Replay(p.calls, Some(e))
  }

  /** `view[:job_names].each { |job| @client.view.add_job(view, job) }` */
  function AddCalls(view: string, jobs: seq<string>): (r: seq<Call>)
    ensures |r| == |jobs|
    ensures forall k :: 0 <= k < |jobs| ==> r[k] == ViewAddJob(view, jobs[k])
  {
    seq(|jobs|, k requires 0 <= k < |jobs| => ViewAddJob(view, jobs[k]))
  }

  /** A view's delete (when overwriting) and its creation by name. */
  function ViewHead(v: string, overwrite: bool): seq<Call>
  {
    (if overwrite then [ViewDelete(v)] else []) + [ViewCreate(v)]
  }

  /** One pass of the loop in `restore_views` (lib/jenkins/backup.rb:215-230). */
  function ViewSteps(d: ViewDetail, current: seq<string>, overwrite: bool): seq<Call>
  {
    if d.viewName == DefaultView || Kept(d.viewName, current, overwrite) then []
    else ViewHead(d.viewName, overwrite) + AddCalls(d.viewName, d.jobNames)
  }

  /** `restore_views`: it reads no file, so it never stops early. */
  function ViewsReplay(details: seq<ViewDetail>, current: seq<string>, overwrite: bool): seq<Call>
  {
    if details == [] then []
    else ViewsReplay(details[..|details| - 1], current, overwrite)
         + ViewSteps(details[|details| - 1], current, overwrite)
  }

  /** `restore`: load the metadata, restore the jobs against the job listing,
      then the views against the view listing (lib/jenkins/backup.rb:165-172). */
  function RestoreReplay(files: map<string, Content>, st: ServerState, opts: Options): Replay
  {
    match LoadMetadata(files)
    case Err(e) => Replay([], Some(e))
    case Ok(m) =>
      var j := JobsReplay(m.jobs.names, st.jobList, opts.overwriteJobs, files);
      if j.failure.Some? then j
      else Replay(j.calls + ViewsReplay(m.views.details, st.viewList, opts.overwriteViews), None)
  }

  /** `restore(name, options)` on the entries of an archive
      (lib/jenkins/backup.rb:158-172): an entry that cannot be unpacked
      raises before any call is issued; otherwise the restore goes on with
      what was unpacked. */
  function RestoreArchive(entries: seq<Entry>, st: ServerState, opts: Options): (r: Replay)
    ensures (exists i :: 0 <= i < |entries| && !Writable(entries[i].pathname)) ==>
              && r.calls == []
              && r.failure.Some? && r.failure.value.UnpackFailed? && !Writable(r.failure.value.path)
    ensures (forall i :: 0 <= i < |entries| ==> Writable(entries[i].pathname)) ==>
              r == RestoreReplay(Unpacked(entries), st, opts)
  {
    match UnpackEntries(entries)
    case Err(p) => Replay([], Some(UnpackFailed(p)))
    case Ok(files) => RestoreReplay(files, st, opts)
  }

  /** An archive whose first entry lies outside `jobs/` and `views/`
      stops the restore before any call, whatever follows it. */
  lemma RestoreStrayFirstEntry(rest: seq<Entry>, st: ServerState, opts: Options)
    ensures RestoreArchive([Entry("other/a.xml", Xml("c"))] + rest, st, opts) == Replay([], Some(UnpackFailed("other/a.xml")))
  {
    var entries := [Entry("other/a.xml", Xml("c"))] + rest;
    UnpackStrayEntry();
    assert entries[..1] == [entries[0]] && [entries[0]][..0] == [];
    UnpackEntriesStops(entries, 1);
  }

  // ---------------------------------------------------------------- jobs

  /** Every job call is about a named job that is not kept; a create carries
      the archived XML of its job and a delete happens only when
      overwriting. */
  lemma {:induction false} JobsReplayCalls(names: seq<string>, current: seq<string>, overwrite: bool, files: map<string, Content>)
    ensures var r := JobsReplay(names, current, overwrite, files);
            forall c :: c in r.calls ==>
              && c.IsJobCall() && c.Target() in names && !Kept(c.Target(), current, overwrite)
              && (c.JobCreate? ==> ReadXml(files, JobPath(c.job)) == Some(c.xml))
              && (c.JobDelete? ==> overwrite)
  {
    if names != [] {
      var init := names[..|names| - 1];
      JobsReplayCalls(init, current, overwrite, files);
      assert forall n :: n in init ==> n in names;
    }
  }

  /** The jobs restore stops exactly when the XML of a job it must create is
      not in the staging directory, and reports that job. */
  lemma {:induction false} JobsReplayFailure(names: seq<string>, current: seq<string>, overwrite: bool, files: map<string, Content>)
    ensures var r := JobsReplay(names, current, overwrite, files);
            && (r.failure.None? <==>
                  forall n :: n in names && !Kept(n, current, overwrite) ==> ReadXml(files, JobPath(n)).Some?)
            && (r.failure.Some? ==>
                  exists n :: n in names && !Kept(n, current, overwrite) && ReadXml(files, JobPath(n)).None?
                    && r.failure == Some(JobXmlMissing(n)))
  {
    if names != [] {
      var init, last := names[..|names| - 1], names[|names| - 1];
      JobsReplayFailure(init, current, overwrite, files);
      assert names == init + [last];
    }
  }

  /** A successful jobs restore creates every named job that is not kept,
      and deletes a job exactly when overwriting, whether or not it existed. */
  lemma {:induction false} JobsReplayIssues(names: seq<string>, current: seq<string>, overwrite: bool, files: map<string, Content>, n: string)
    requires JobsReplay(names, current, overwrite, files).failure.None?
    ensures var r := JobsReplay(names, current, overwrite, files);
            && (JobDelete(n) in r.calls <==> overwrite && n in names)
            && (n in names && !Kept(n, current, overwrite) ==>
                  ReadXml(files, JobPath(n)).Some? && JobCreate(n, ReadXml(files, JobPath(n)).value) in r.calls)
  {
    JobsReplayCalls(names, current, overwrite, files);
    if names != [] {
      var init, last := names[..|names| - 1], names[|names| - 1];
      JobsReplayIssues(init, current, overwrite, files, n);
      assert names == init + [last];
    }
  }

  /** Every job creation in `cs` directly follows a delete of the same
      job exactly when overwriting. */
  predicate CreatesAfterDeletes(cs: seq<Call>, overwrite: bool)
  {
    forall i :: 0 <= i < |cs| && cs[i].JobCreate? ==>
      (overwrite <==> i > 0 && cs[i - 1] == JobDelete(cs[i].job))
  }

  lemma CreatesAfterDeletesAppend(a: seq<Call>, job: string, xml: string, overwrite: bool)
    requires CreatesAfterDeletes(a, overwrite)
    requires forall c :: c in a && c.JobDelete? ==> overwrite
    ensures CreatesAfterDeletes(a + JobCalls(job, xml, overwrite), overwrite)
  {
    var cs := a + JobCalls(job, xml, overwrite);
    forall i | 0 <= i < |cs| && cs[i].JobCreate?
      ensures overwrite <==> i > 0 && cs[i - 1] == JobDelete(cs[i].job)
    {
      if i < |a| {
        assert cs[i] == a[i];
        if i > 0 {
          assert cs[i - 1] == a[i - 1];
        }
      } else if overwrite {
        assert i == |a| + 1;
      } else if i > 0 {
        assert cs[i - 1] == a[i - 1];
        assert a[i - 1] in a;
      }
    }
  }

  /** A create is preceded by a delete of the same job exactly when
      overwriting (lib/jenkins/backup.rb:201-207). */
  lemma {:induction false} JobsReplayDeleteBeforeCreate(names: seq<string>, current: seq<string>, overwrite: bool, files: map<string, Content>)
    ensures CreatesAfterDeletes(JobsReplay(names, current, overwrite, files).calls, overwrite)
  {
    if names != [] {
      var init, last := names[..|names| - 1], names[|names| - 1];
      JobsReplayDeleteBeforeCreate(init, current, overwrite, files);
      JobsReplayCalls(init, current, overwrite, files);
      var p := JobsReplay(init, current, overwrite, files);
      if p.failure.None? && !Kept(last, current, overwrite) && ReadXml(files, JobPath(last)).Some? {
        CreatesAfterDeletesAppend(p.calls, last, ReadXml(files, JobPath(last)).value, overwrite);
      }
    }
  }

  /** The job side of a server is the same for `n` in `s` and `t`. */
  predicate SameJob(s: ServerState, t: ServerState, n: string)
  {
    && (n in s.jobList <==> n in t.jobList)
    && (n in s.jobConfigs <==> n in t.jobConfigs)
    && (n in s.jobConfigs ==> s.jobConfigs[n] == t.jobConfigs[n])
  }

  predicate SameViewSide(s: ServerState, t: ServerState)
  {
    s.viewList == t.viewList && s.viewConfigs == t.viewConfigs && s.viewMembers == t.viewMembers
  }

  predicate SameJobSide(s: ServerState, t: ServerState)
  {
    s.jobList == t.jobList && s.jobConfigs == t.jobConfigs
  }

  lemma ApplyPair(st: ServerState, a: Call, b: Call)
    ensures ApplyAll(st, [a]) == Apply(st, a)
    ensures ApplyAll(st, [a, b]) == Apply(Apply(st, a), b)
  {
    assert [a, b][..1] == [a];
    assert [a][..0] == [];
  }

  /** After the jobs restore the server holds the archived XML of every job
      it created, jobs not named or kept are as they were, and no view
      changed. */
  lemma {:induction false} JobsReplayState(st: ServerState, names: seq<string>, current: seq<string>, overwrite: bool, files: map<string, Content>)
    ensures var r := JobsReplay(names, current, overwrite, files);
            var t := ApplyAll(st, r.calls);
            && SameViewSide(st, t)
            && (forall n :: n !in names || Kept(n, current, overwrite) ==> SameJob(st, t, n))
            && (r.failure.None? ==> forall n :: n in names && !Kept(n, current, overwrite) ==>
                  n in t.jobList && n in t.jobConfigs && ReadXml(files, JobPath(n)) == Some(t.jobConfigs[n]))
  {
    if names != [] {
      var init, last := names[..|names| - 1], names[|names| - 1];
      assert names == init + [last];
      JobsReplayState(st, init, current, overwrite, files);
      var p := JobsReplay(init, current, overwrite, files);
      var s := ApplyAll(st, p.calls);
      if p.failure.None? && JobSteps(last, current, overwrite, files).Ok? {
        var cs := JobSteps(last, current, overwrite, files).value;
        ApplyAllAppend(st, p.calls, cs);
        JobStepsState(s, last, current, overwrite, files);
        var t := ApplyAll(s, cs);
        forall n | n !in names || Kept(n, current, overwrite) ensures SameJob(st, t, n) {
          assert SameJob(st, s, n) && SameJob(s, t, n);
        }
        if JobsReplay(names, current, overwrite, files).failure.None? {
          forall n | n in names && !Kept(n, current, overwrite)
            ensures n in t.jobList && n in t.jobConfigs && ReadXml(files, JobPath(n)) == Some(t.jobConfigs[n])
          {
            if n != last {
              assert n in init && SameJob(s, t, n);
            }
          }
        }
      } else {
        forall n | n !in names ensures n !in init {
        }
      }
    }
  }

  /** The calls for one job touch that job only, and leave it with its
      archived XML when it is not kept. */
  lemma JobStepsState(s: ServerState, job: string, current: seq<string>, overwrite: bool, files: map<string, Content>)
    requires JobSteps(job, current, overwrite, files).Ok?
    ensures var t := ApplyAll(s, JobSteps(job, current, overwrite, files).value);
            && SameViewSide(s, t)
            && (forall n :: n != job || Kept(job, current, overwrite) ==> SameJob(s, t, n))
            && (!Kept(job, current, overwrite) ==>
                  job in t.jobList && job in t.jobConfigs && ReadXml(files, JobPath(job)) == Some(t.jobConfigs[job]))
  {
    if !Kept(job, current, overwrite) {
      var xml := ReadXml(files, JobPath(job)).value;
      ApplyPair(s, JobDelete(job), JobCreate(job, xml));
      ApplyPair(s, JobCreate(job, xml), JobCreate(job, xml));
    }
  }

  // ---------------------------------------------------------------- views

  /** The names of the view records, in order. */
  function DetailNames(details: seq<ViewDetail>): (r: seq<string>)
    ensures |r| == |details|
    ensures forall k :: 0 <= k < |details| ==> r[k] == details[k].viewName
  {
    seq(|details|, k requires 0 <= k < |details| => details[k].viewName)
  }

  lemma DetailNamesPrefix(details: seq<ViewDetail>)
    requires details != []
    ensures DetailNames(details) == DetailNames(details[..|details| - 1]) + [details[|details| - 1].viewName]
  {
  }

  /** Dropping the last record keeps the names distinct, and the last name
      is none of the others. */
  lemma DetailNamesDistinctPrefix(details: seq<ViewDetail>)
    requires details != [] && NoDuplicates(DetailNames(details))
    ensures var init := details[..|details| - 1];
            && NoDuplicates(DetailNames(init))
            && forall k :: 0 <= k < |init| ==> init[k].viewName != details[|details| - 1].viewName
  {
    var init := details[..|details| - 1];
    forall i, j | 0 <= i < j < |init| ensures DetailNames(init)[i] != DetailNames(init)[j] {
      assert DetailNames(details)[i] != DetailNames(details)[j];
    }
    forall k | 0 <= k < |init| ensures init[k].viewName != details[|details| - 1].viewName {
      assert DetailNames(details)[k] != DetailNames(details)[|init|];
    }
  }

  /** Every view call is about a recorded view other than "All" that is not
      kept; a job is added to a view only if the view's record lists it;
      a view is deleted only when overwriting. */
  lemma {:induction false} ViewsReplayCalls(details: seq<ViewDetail>, current: seq<string>, overwrite: bool)
    ensures forall c :: c in ViewsReplay(details, current, overwrite) ==>
              && !c.IsJobCall() && c.Target() != DefaultView && c.Target() in DetailNames(details)
              && !Kept(c.Target(), current, overwrite)
              && (c.ViewDelete? ==> overwrite)
              && (c.ViewAddJob? ==> exists k :: 0 <= k < |details| && details[k].viewName == c.view
                                               && c.job in details[k].jobNames)
  {
    if details != [] {
      var init, d := details[..|details| - 1], details[|details| - 1];
      ViewsReplayCalls(init, current, overwrite);
      DetailNamesPrefix(details);
      forall c | c in ViewSteps(d, current, overwrite) && c.ViewAddJob?
        ensures c.job in d.jobNames
      {
        var k :| 0 <= k < |ViewSteps(d, current, overwrite)| && ViewSteps(d, current, overwrite)[k] == c;
      }
      forall c | c in ViewsReplay(init, current, overwrite) && c.ViewAddJob?
        ensures exists k :: 0 <= k < |details| && details[k].viewName == c.view && c.job in details[k].jobNames
      {
        var k :| 0 <= k < |init| && init[k].viewName == c.view && c.job in init[k].jobNames;
        assert details[k] == init[k];
      }
    }
  }

  /** A recorded view other than "All" is deleted exactly when overwriting,
      whether or not it existed, and is created unless it is kept. */
  lemma {:induction false} ViewsReplayIssues(details: seq<ViewDetail>, current: seq<string>, overwrite: bool, v: string)
    ensures var cs := ViewsReplay(details, current, overwrite);
            && (ViewDelete(v) in cs <==> overwrite && v != DefaultView && v in DetailNames(details))
            && (ViewCreate(v) in cs <==> v != DefaultView && v in DetailNames(details) && !Kept(v, current, overwrite))
  {
    if details != [] {
      var init := details[..|details| - 1];
      ViewsReplayIssues(init, current, overwrite, v);
      DetailNamesPrefix(details);
      var d := details[|details| - 1];
      var ss := ViewSteps(d, current, overwrite);
      assert ViewDelete(v) in ss <==> overwrite && v == d.viewName && v != DefaultView by {
        if ViewDelete(v) in ss { var k :| 0 <= k < |ss| && ss[k] == ViewDelete(v); }
      }
      assert ViewCreate(v) in ss <==> v == d.viewName && v != DefaultView && !Kept(v, current, overwrite) by {
        if ViewCreate(v) in ss { var k :| 0 <= k < |ss| && ss[k] == ViewCreate(v); }
      }
    }
  }

  predicate SameView(s: ServerState, t: ServerState, v: string)
  {
    && (v in s.viewList <==> v in t.viewList)
    && (v in s.viewConfigs <==> v in t.viewConfigs)
    && (v in s.viewConfigs ==> s.viewConfigs[v] == t.viewConfigs[v])
    && (v in s.viewMembers <==> v in t.viewMembers)
    && (v in s.viewMembers ==> s.viewMembers[v] == t.viewMembers[v])
  }

  predicate NoDuplicates(s: seq<string>)
  {
    forall i, j :: 0 <= i < j < |s| ==> s[i] != s[j]
  }

  /** Adding the jobs of a record, one by one, to an existing view. */
  lemma {:induction false} AddCallsState(st: ServerState, v: string, jobs: seq<string>)
    requires v in st.viewMembers && st.viewMembers[v] == [] && NoDuplicates(jobs)
    ensures var t := ApplyAll(st, AddCalls(v, jobs));
            && SameJobSide(st, t) && t.viewList == st.viewList && t.viewConfigs == st.viewConfigs
            && v in t.viewMembers && t.viewMembers[v] == jobs
            && (forall w :: w != v ==> SameView(st, t, w))
  {
    if jobs != [] {
      var init, j := jobs[..|jobs| - 1], jobs[|jobs| - 1];
      assert AddCalls(v, jobs) == AddCalls(v, init) + [ViewAddJob(v, j)];
      ApplyAllAppend(st, AddCalls(v, init), [ViewAddJob(v, j)]);
      AddCallsState(st, v, init);
      var u := ApplyAll(st, AddCalls(v, init));
      ApplyPair(u, ViewAddJob(v, j), ViewAddJob(v, j));
      forall w | w != v ensures SameView(st, Apply(u, ViewAddJob(v, j)), w) {
        assert SameView(st, u, w);
      }
      assert j !in init by {
        forall i | 0 <= i < |init| ensures init[i] != j { assert init[i] == jobs[i]; }
      }
      assert jobs == init + [j];
    }
  }

  /** The effect of one record's calls. */
  lemma ViewStepsState(s: ServerState, d: ViewDetail, current: seq<string>, overwrite: bool)
    requires NoDuplicates(d.jobNames)
    ensures var t := ApplyAll(s, ViewSteps(d, current, overwrite));
            && SameJobSide(s, t)
            && (forall w :: w != d.viewName ==> SameView(s, t, w))
            && (d.viewName == DefaultView || Kept(d.viewName, current, overwrite) ==> SameView(s, t, d.viewName))
            && (d.viewName != DefaultView && !Kept(d.viewName, current, overwrite) ==>
                  d.viewName in t.viewList && d.viewName in t.viewMembers && t.viewMembers[d.viewName] == d.jobNames)
  {
    var v := d.viewName;
    if v != DefaultView && !Kept(v, current, overwrite) {
      var head := ViewHead(v, overwrite);
      ApplyAllAppend(s, head, AddCalls(v, d.jobNames));
      ApplyPair(s, ViewDelete(v), ViewCreate(v));
      ApplyPair(s, ViewCreate(v), ViewCreate(v));
      var u := ApplyAll(s, head);
      AddCallsState(u, v, d.jobNames);
      var t := ApplyAll(u, AddCalls(v, d.jobNames));
      forall w | w != v ensures SameView(s, t, w) {
        assert SameView(s, u, w) && SameView(u, t, w);
      }
    }
  }

  /** After the views restore every recorded view that was not kept holds
      exactly its recorded jobs, views not recorded, "All" and kept views are
      as they were, and no job changed. */
  lemma {:induction false} ViewsReplayState(st: ServerState, details: seq<ViewDetail>, current: seq<string>, overwrite: bool)
    requires forall k :: 0 <= k < |details| ==> NoDuplicates(details[k].jobNames)
    requires NoDuplicates(DetailNames(details))
    ensures var t := ApplyAll(st, ViewsReplay(details, current, overwrite));
            && SameJobSide(st, t)
            && (forall v :: v !in DetailNames(details) || v == DefaultView || Kept(v, current, overwrite) ==> SameView(st, t, v))
            && (forall k :: 0 <= k < |details| && details[k].viewName != DefaultView && !Kept(details[k].viewName, current, overwrite) ==>
                  details[k].viewName in t.viewList && details[k].viewName in t.viewMembers
                  && t.viewMembers[details[k].viewName] == details[k].jobNames)
  {
    if details != [] {
      var init, d := details[..|details| - 1], details[|details| - 1];
      DetailNamesDistinctPrefix(details);
      ViewsReplayState(st, init, current, overwrite);
      var s := ApplyAll(st, ViewsReplay(init, current, overwrite));
      ApplyAllAppend(st, ViewsReplay(init, current, overwrite), ViewSteps(d, current, overwrite));
      ViewStepsState(s, d, current, overwrite);
      var t := ApplyAll(s, ViewSteps(d, current, overwrite));
      forall v | v !in DetailNames(details) || v == DefaultView || Kept(v, current, overwrite)
        ensures SameView(st, t, v)
      {
        assert v !in DetailNames(init) || v == DefaultView || Kept(v, current, overwrite);
        assert SameView(st, s, v) && SameView(s, t, v);
      }
      forall k | 0 <= k < |details| && details[k].viewName != DefaultView && !Kept(details[k].viewName, current, overwrite)
        ensures details[k].viewName in t.viewList && details[k].viewName in t.viewMembers
                && t.viewMembers[details[k].viewName] == details[k].jobNames
      {
        if k < |init| {
          assert details[k] == init[k];
          assert SameView(s, t, init[k].viewName);
        }
      }
    }
  }

  // ---------------------------------------------------------------- restore

  /** The calls before `p` are job calls and the calls from `p` on are view
      calls. */
  predicate SplitAt(cs: seq<Call>, p: nat)
  {
    && p <= |cs|
    && (forall i :: 0 <= i < p ==> cs[i].IsJobCall())
    && (forall i :: p <= i < |cs| ==> !cs[i].IsJobCall())
  }

  /** The calls split into a run of job calls followed by a run of view
      calls: every job is restored before any view is touched
      (lib/jenkins/backup.rb:168-172). */
  lemma RestoreOrdering(files: map<string, Content>, st: ServerState, opts: Options)
    ensures exists p: nat :: SplitAt(RestoreReplay(files, st, opts).calls, p)
  {
    var cs := RestoreReplay(files, st, opts).calls;
    match LoadMetadata(files)
    case Err(_) =>
      assert SplitAt(cs, 0);
    case Ok(m) =>
      var j := JobsReplay(m.jobs.names, st.jobList, opts.overwriteJobs, files);
      JobsReplayCalls(m.jobs.names, st.jobList, opts.overwriteJobs, files);
      var vs := ViewsReplay(m.views.details, st.viewList, opts.overwriteViews);
      ViewsReplayCalls(m.views.details, st.viewList, opts.overwriteViews);
      if j.failure.None? {
        assert cs == j.calls + vs;
        forall i | 0 <= i < |j.calls| ensures cs[i].IsJobCall() { assert cs[i] in j.calls; }
        forall i | |j.calls| <= i < |cs| ensures !cs[i].IsJobCall() {
          assert cs[i] == vs[i - |j.calls|];
        }
        assert SplitAt(cs, |j.calls|);
      } else {
        forall i | 0 <= i < |cs| ensures cs[i].IsJobCall() { assert cs[i] in j.calls; }
        assert SplitAt(cs, |cs|);
      }
  }

  /** A restore stops before issuing anything when the metadata cannot be
      loaded, and issues no view call when the jobs restore failed. */
  lemma RestoreFailure(files: map<string, Content>, st: ServerState, opts: Options)
    ensures var r := RestoreReplay(files, st, opts);
            && (LoadMetadata(files).Err? ==> r == Replay([], Some(LoadMetadata(files).error)))
            && (r.failure.Some? ==> forall c :: c in r.calls ==> c.IsJobCall())
  {
    match LoadMetadata(files)
    case Err(_) =>
    case Ok(m) =>
      JobsReplayCalls(m.jobs.names, st.jobList, opts.overwriteJobs, files);
  }

  /** Restoring the same archive a second time without overwriting issues
      no call at all: every job and view it restored is now listed. */
  lemma RestoreTwiceIssuesNothing(files: map<string, Content>, st: ServerState)
    requires RestoreReplay(files, st, Options(false, false)).failure.None?
    ensures var t := ApplyAll(st, RestoreReplay(files, st, Options(false, false)).calls);
            RestoreReplay(files, t, Options(false, false)) == Replay([], None)
  {
    var m := LoadMetadata(files).value;
    var names, details := m.jobs.names, m.views.details;
    var j := JobsReplay(names, st.jobList, false, files);
    var vs := ViewsReplay(details, st.viewList, false);
    var s := ApplyAll(st, j.calls);
    ApplyAllAppend(st, j.calls, vs);
    var t := ApplyAll(s, vs);
    JobsReplayState(st, names, st.jobList, false, files);
    ViewsReplayCalls(details, st.viewList, false);
    NoDeletesKeepListing(s, vs);
    forall n | n in names ensures n in t.jobList {
      if Kept(n, st.jobList, false) { assert SameJob(st, s, n); }
    }
    JobsAllKept(names, t.jobList, files);
    forall k | 0 <= k < |details| && details[k].viewName != DefaultView
      ensures details[k].viewName in t.viewList
    {
      ViewsReplayIssues(details, st.viewList, false, details[k].viewName);
      assert DetailNames(details)[k] == details[k].viewName;
    }
    ViewsAllKept(details, t.viewList);
  }

  /** View calls other than deletes never drop a view from the listing and
      never touch jobs; a created view is listed. */
  lemma {:induction false} NoDeletesKeepListing(s: ServerState, cs: seq<Call>)
    requires forall c :: c in cs ==> !c.IsJobCall() && !c.ViewDelete?
    ensures var t := ApplyAll(s, cs);
            && SameJobSide(s, t)
            && (forall v :: v in s.viewList ==> v in t.viewList)
            && (forall v :: ViewCreate(v) in cs ==> v in t.viewList)
  {
    if cs != [] {
      var init, c := cs[..|cs| - 1], cs[|cs| - 1];
      assert c in cs;
      assert forall x :: x in init ==> x in cs;
      NoDeletesKeepListing(s, init);
      assert cs == init + [c];
    }
  }

  lemma {:induction false} JobsAllKept(names: seq<string>, current: seq<string>, files: map<string, Content>)
    requires forall n :: n in names ==> n in current
    ensures JobsReplay(names, current, false, files) == Replay([], None)
  {
    if names != [] {
      JobsAllKept(names[..|names| - 1], current, files);
    }
  }

  lemma {:induction false} ViewsAllKept(details: seq<ViewDetail>, current: seq<string>)
    requires forall k :: 0 <= k < |details| && details[k].viewName != DefaultView ==> details[k].viewName in current
    ensures ViewsReplay(details, current, false) == []
  {
    if details != [] {
      ViewsAllKept(details[..|details| - 1], current);
    }
  }

  // ---------------------------------------------------------------- one step at a time

  // Facts about one more job or view, as the restore loops take them.

  lemma {:induction false} JobsReplayStops(names: seq<string>, current: seq<string>, overwrite: bool,
                                           files: map<string, Content>, i: nat)
    requires i <= |names| && JobsReplay(names[..i], current, overwrite, files).failure.Some?
    ensures JobsReplay(names, current, overwrite, files) == JobsReplay(names[..i], current, overwrite, files)
    decreases |names|
  {
    if i < |names| {
      var init := names[..|names| - 1];
      assert init[..i] == names[..i];
      JobsReplayStops(init, current, overwrite, files, i);
    } else {
      assert names[..i] == names;
    }
  }

  /** A kept job adds no call. */
  lemma JobsReplayKept(names: seq<string>, i: nat, current: seq<string>, overwrite: bool, files: map<string, Content>)
    requires i < |names| && JobsReplay(names[..i], current, overwrite, files).failure.None?
    requires Kept(names[i], current, overwrite)
    ensures JobsReplay(names[..i + 1], current, overwrite, files) == JobsReplay(names[..i], current, overwrite, files)
  {
    assert names[..i + 1][..i] == names[..i];
    assert JobsReplay(names[..i], current, overwrite, files).calls + [] == JobsReplay(names[..i], current, overwrite, files).calls;
  }

  /** A job that is not kept and has no XML stops the jobs restore. */
  lemma JobsReplayMissing(names: seq<string>, i: nat, current: seq<string>, overwrite: bool, files: map<string, Content>)
    requires i < |names| && JobsReplay(names[..i], current, overwrite, files).failure.None?
    requires !Kept(names[i], current, overwrite) && ReadXml(files, JobPath(names[i])).None?
    ensures JobsReplay(names, current, overwrite, files)
            == Replay(JobsReplay(names[..i], current, overwrite, files).calls, Some(JobXmlMissing(names[i])))
  {
    assert names[..i + 1][..i] == names[..i];
    JobsReplayStops(names, current, overwrite, files, i + 1);
  }

  /** A job that is not kept and has its XML is (deleted and) created. */
  lemma JobsReplayCreated(names: seq<string>, i: nat, current: seq<string>, overwrite: bool, files: map<string, Content>)
    requires i < |names| && JobsReplay(names[..i], current, overwrite, files).failure.None?
    requires !Kept(names[i], current, overwrite) && ReadXml(files, JobPath(names[i])).Some?
    ensures JobsReplay(names[..i + 1], current, overwrite, files)
            == Replay(JobsReplay(names[..i], current, overwrite, files).calls
                      + JobCalls(names[i], ReadXml(files, JobPath(names[i])).value, overwrite), None)
  {
    assert names[..i + 1][..i] == names[..i];
  }

  lemma AppendAssoc<T>(a: seq<T>, b: seq<T>, c: seq<T>)
    ensures (a + b) + c == a + (b + c)
  {
  }

  lemma AddCallsNext(v: string, jobs: seq<string>, k: nat)
    requires k < |jobs|
    ensures AddCalls(v, jobs[..k + 1]) == AddCalls(v, jobs[..k]) + [ViewAddJob(v, jobs[k])]
  {
  }

  lemma JobCallsShape(job: string, xml: string, overwrite: bool)
    ensures JobCalls(job, xml, overwrite) == if overwrite then [JobDelete(job), JobCreate(job, xml)] else [JobCreate(job, xml)]
  {
  }

  lemma ViewHeadShape(v: string, overwrite: bool)
    ensures ViewHead(v, overwrite) == if overwrite then [ViewDelete(v), ViewCreate(v)] else [ViewCreate(v)]
  {
  }

  /** A recorded view that is not kept is (deleted,) created and filled. */
  lemma ViewsReplayCreated(details: seq<ViewDetail>, i: nat, current: seq<string>, overwrite: bool)
    requires i < |details|
    requires details[i].viewName != DefaultView && !Kept(details[i].viewName, current, overwrite)
    ensures ViewsReplay(details[..i + 1], current, overwrite)
            == ViewsReplay(details[..i], current, overwrite) + ViewSteps(details[i], current, overwrite)
  {
    assert details[..i + 1][..i] == details[..i];
  }

  /** A view that is kept, or "All", adds no call. */
  lemma ViewsReplayKept(details: seq<ViewDetail>, i: nat, current: seq<string>, overwrite: bool)
    requires i < |details|
    requires details[i].viewName == DefaultView || Kept(details[i].viewName, current, overwrite)
    ensures ViewsReplay(details[..i + 1], current, overwrite) == ViewsReplay(details[..i], current, overwrite)
  {
    assert details[..i + 1][..i] == details[..i];
    assert ViewSteps(details[i], current, overwrite) == [];
  }

  lemma JobsReplayKeepsViews(st: ServerState, names: seq<string>, current: seq<string>, overwrite: bool, files: map<string, Content>)
    ensures ApplyAll(st, JobsReplay(names, current, overwrite, files).calls).viewList == st.viewList
  {
    JobsReplayState(st, names, current, overwrite, files);
  }

  /** A restore that cannot load its metadata, or whose jobs restore fails,
      ends there. */
  lemma RestoreReplayStops(files: map<string, Content>, st: ServerState, opts: Options)
    ensures LoadMetadata(files).Err? ==> RestoreReplay(files, st, opts) == Replay([], Some(LoadMetadata(files).error))
    ensures LoadMetadata(files).Ok? ==>
              var j := JobsReplay(LoadMetadata(files).value.jobs.names, st.jobList, opts.overwriteJobs, files);
              j.failure.Some? ==> RestoreReplay(files, st, opts) == j
  {
  }

  /** A restore whose jobs restore succeeds goes on to the views. */
  lemma RestoreReplayCompletes(files: map<string, Content>, st: ServerState, opts: Options)
    ensures LoadMetadata(files).Ok? ==>
              var m := LoadMetadata(files).value;
              var j := JobsReplay(m.jobs.names, st.jobList, opts.overwriteJobs, files);
              j.failure.None? ==>
                RestoreReplay(files, st, opts)
                == Replay(j.calls + ViewsReplay(m.views.details, st.viewList, opts.overwriteViews), None)
  {
  }
}
