/** The metadata record a backup builds and a restore reads back
    (lib/jenkins/backup.rb:28-113). The YAML form it is stored in is not
    modelled: the record is kept as a value. */
module Metadata {
  import opened Wrappers
  import ViewXml
  import Differencer

  /** The view every Jenkins server has; it is never backed up. */
  const DefaultView := "All"

  /** `server_port || 8080` */
  const DefaultServerPort: nat := 8080

  /** The value stored under `:contents`. */
  const ContentsJobs := "jobs"

  datatype JobsSection = JobsSection(count: nat, names: seq<string>)

  /** What is needed to create a view again (lib/jenkins/backup.rb:107-113). */
  datatype ViewDetail = ViewDetail(
    viewName: string,
    filterQueue: Option<string>,
    filterExecutors: Option<string>,
    regex: Option<string>,
    jobNames: seq<string>)

  /** `count` is the length of the view listing minus one, which may be -1. */
  datatype ViewsSection = ViewsSection(count: int, details: seq<ViewDetail>)

  /** `timestamp` is the capture instant in whole seconds. */
  datatype Metadata = Metadata(
    timestamp: nat,
    createdBy: Option<string>,
    serverIp: Option<string>,
    serverPort: nat,
    toolVersion: string,
    contents: string,
    jobs: JobsSection,
    views: ViewsSection)

  /** The detail recorded for one view, given its XML and its member list. */
  function ViewRecord(view: string, xml: string, members: seq<string>, matches: (string, string) -> bool): ViewDetail
  {
    var regex := ViewXml.IncludeRegex(xml);
    ViewDetail(view, ViewXml.FilterQueue(xml), ViewXml.FilterExecutors(xml), regex,
               Differencer.Unmatched(members, regex, matches))
  }

  /** The views of a listing that get a detail record: all but "All", in order. */
  function NonDefaultViews(views: seq<string>): (r: seq<string>)
    ensures forall k :: 0 <= k < |r| ==> r[k] != DefaultView
  {
    if views == [] then []
    else
      var last := views[|views| - 1];
      NonDefaultViews(views[..|views| - 1]) + (if last == DefaultView then [] else [last])
  }

  lemma {:induction false} NonDefaultViewsMembership(views: seq<string>, v: string)
    ensures v in NonDefaultViews(views) <==> v in views && v != DefaultView
  {
    if views != [] {
      NonDefaultViewsMembership(views[..|views| - 1], v);
      assert views == views[..|views| - 1] + [views[|views| - 1]];
    }
  }

  /** Every listed view but the occurrences of "All" gets a record. */
  lemma {:induction false} NonDefaultViewsLength(views: seq<string>)
    ensures |NonDefaultViews(views)| == |views| - multiset(views)[DefaultView]
  {
    if views != [] {
      var init := views[..|views| - 1];
      NonDefaultViewsLength(init);
      assert views == init + [views[|views| - 1]];
    }
  }

  /** `views.length - 1` counts the recorded views exactly when "All" is
      listed once; when a server's listing lacks "All" the count is one short. */
  lemma ViewCountIsDetailCount(views: seq<string>)
    ensures |views| - 1 == |NonDefaultViews(views)| <==> multiset(views)[DefaultView] == 1
  {
    NonDefaultViewsLength(views);
  }
}
