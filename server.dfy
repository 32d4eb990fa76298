/** The Jenkins server as the restore sees it through its API client
    (`JenkinsApi::Client`). The client is foreign code: the model keeps
    only the server's state and the log of the changing calls issued to it. */
module Server {
  import opened Wrappers

  /** A changing call issued through the client. */
  datatype Call =
    | JobDelete(job: string)                 // @client.job.delete(job)
    | JobCreate(job: string, xml: string)    // @client.job.create(job, xml)
    | ViewDelete(view: string)               // @client.view.delete(view)
    | ViewCreate(view: string)               // @client.view.create_list_view(:name => view)
    | ViewAddJob(view: string, job: string)  // @client.view.add_job(view, job)
  {
    predicate IsJobCall() { JobDelete? || JobCreate? }

    /** The job or view the call is about. */
    function Target(): string { if IsJobCall() then job else view }
  }

  /** Listings in the order the server lists them, job and view
      configurations, and the jobs added to each view. */
  datatype ServerState = ServerState(
    jobList: seq<string>,
    jobConfigs: map<string, string>,
    viewList: seq<string>,
    viewConfigs: map<string, string>,
    viewMembers: map<string, seq<string>>)

  /** `s` with every occurrence of `x` removed. */
  function Without(s: seq<string>, x: string): (r: seq<string>)
    ensures forall y :: y in r <==> y in s && y != x
  {
    if s == [] then []
    else
      assert s == [s[0]] + s[1..];
      (if s[0] == x then [] else [s[0]]) + Without(s[1..], x)
  }

  /** `s` with `x` appended unless it is there already. */
  function With(s: seq<string>, x: string): (r: seq<string>)
    ensures forall y :: y in r <==> y in s || y == x
  {
    if x in s then s else s + [x]
  }

  /** What one call does to the server. Deleting something absent changes
      nothing; a created view starts empty and the model does not know the
      configuration Jenkins generates for it; adding a job to a view that
      does not exist changes nothing. */
  function Apply(st: ServerState, c: Call): ServerState
  {
    match c
    case JobDelete(j) =>
      st.(jobList := Without(st.jobList, j), jobConfigs := st.jobConfigs - {j})
    case JobCreate(j, x) =>
      st.(jobList := With(st.jobList, j), jobConfigs := st.jobConfigs[j := x])
    case ViewDelete(v) =>
      st.(viewList := Without(st.viewList, v), viewConfigs := st.viewConfigs - {v},
          viewMembers := st.viewMembers - {v})
    case ViewCreate(v) =>
      st.(viewList := With(st.viewList, v), viewConfigs := st.viewConfigs - {v},
          viewMembers := st.viewMembers[v := []])
    case ViewAddJob(v, j) =>
      if v in st.viewMembers then st.(viewMembers := st.viewMembers[v := With(st.viewMembers[v], j)])
      else st
  }

  /** The calls issued one after the other. */
  function ApplyAll(st: ServerState, calls: seq<Call>): ServerState
  {
    if calls == [] then st
    else Apply(ApplyAll(st, calls[..|calls| - 1]), calls[|calls| - 1])
  }

  lemma {:induction false} ApplyAllAppend(st: ServerState, a: seq<Call>, b: seq<Call>)
    ensures ApplyAll(st, a + b) == ApplyAll(ApplyAll(st, a), b)
    decreases |b|
  {
    if b == [] {
      assert a + b == a;
    } else {
      ApplyAllAppend(st, a, b[..|b| - 1]);
      assert (a + b)[..|a + b| - 1] == a + b[..|b| - 1];
    }
  }

  class JenkinsServer {
    var jobList: seq<string>
    var jobConfigs: map<string, string>
    var viewList: seq<string>
    var viewConfigs: map<string, string>
    var viewMembers: map<string, seq<string>>
    /** Every changing call issued, oldest first. */
    var log: seq<Call>
    /** The state before the first call in the log. */
    ghost var initial: ServerState

    constructor (st: ServerState)
      ensures State() == st && log == [] && initial == st && Valid()
    {
      jobList, jobConfigs := st.jobList, st.jobConfigs;
      viewList, viewConfigs, viewMembers := st.viewList, st.viewConfigs, st.viewMembers;
      log := [];
      initial := st;
    }

    /** The state is what the logged calls made of the initial state. */
    ghost predicate Valid()
      reads this
    {
      State() == ApplyAll(initial, log)
    }

    function State(): ServerState
      reads this
    {
      ServerState(jobList, jobConfigs, viewList, viewConfigs, viewMembers)
    }

    /** `@client.job.get_config(job)`; None where the client would raise. */
    function JobConfig(job: string): (r: Option<string>)
      reads this
      ensures r.Some? <==> job in jobConfigs
      ensures r.Some? ==> r.value == jobConfigs[job]
    {
      if job in jobConfigs then Some(jobConfigs[job]) else None
    }

    /** `@client.view.get_config(view)` */
    function ViewConfig(view: string): (r: Option<string>)
      reads this
      ensures r.Some? <==> view in viewConfigs
      ensures r.Some? ==> r.value == viewConfigs[view]
    {
      if view in viewConfigs then Some(viewConfigs[view]) else None
    }

    /** `@client.view.list_jobs(view)` */
    function ViewJobs(view: string): (r: Option<seq<string>>)
      reads this
      ensures r.Some? <==> view in viewMembers
      ensures r.Some? ==> r.value == viewMembers[view]
    {
      if view in viewMembers then Some(viewMembers[view]) else None
    }

    method Issue(c: Call)
      requires Valid()
      modifies this
      ensures Valid() && initial == old(initial)
      ensures State() == Apply(old(State()), c)
      ensures log == old(log) + [c]
    {
      assert (log + [c])[..|log|] == log;
      var st := Apply(State(), c);
      jobList, jobConfigs := st.jobList, st.jobConfigs;
      viewList, viewConfigs, viewMembers := st.viewList, st.viewConfigs, st.viewMembers;
      log := log + [c];
    }

    method DeleteJob(job: string)
      requires Valid()
      modifies this
      ensures Valid() && initial == old(initial)
      ensures State() == Apply(old(State()), JobDelete(job))
      ensures log == old(log) + [JobDelete(job)]
    {
      Issue(JobDelete(job));
    }

    method CreateJob(job: string, xml: string)
      requires Valid()
      modifies this
      ensures Valid() && initial == old(initial)
      ensures State() == Apply(old(State()), JobCreate(job, xml))
      ensures log == old(log) + [JobCreate(job, xml)]
    {
      Issue(JobCreate(job, xml));
    }

    method DeleteView(view: string)
      requires Valid()
      modifies this
      ensures Valid() && initial == old(initial)
      ensures State() == Apply(old(State()), ViewDelete(view))
      ensures log == old(log) + [ViewDelete(view)]
    {
      Issue(ViewDelete(view));
    }

    method CreateListView(view: string)
      requires Valid()
      modifies this
      ensures Valid() && initial == old(initial)
      ensures State() == Apply(old(State()), ViewCreate(view))
      ensures log == old(log) + [ViewCreate(view)]
    {
      Issue(ViewCreate(view));
    }

    method AddJob(view: string, job: string)
      requires Valid()
      modifies this
      ensures Valid() && initial == old(initial)
      ensures State() == Apply(old(State()), ViewAddJob(view, job))
      ensures log == old(log) + [ViewAddJob(view, job)]
    {
      Issue(ViewAddJob(view, job));
    }
  }
}
