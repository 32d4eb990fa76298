/** The jobs of a view that its regular expression does not bring in
    (lib/jenkins/backup.rb:95-100). Jenkins adds the jobs matching a view's
    `includeRegex` by itself, so only the other members are recorded.

    Ruby's regular expression engine is not modelled: `matches(regex, job)`
    stands for `job =~ /#{regex}/` being truthy. */
module Differencer {
  import opened Wrappers

  /** `regex && job =~ /#{regex}/`: the regex is present and the job matches it. */
  predicate Implied(regex: Option<string>, matches: (string, string) -> bool, job: string)
  {
    regex.Some? && matches(regex.value, job)
  }

  /** The members of `jobNames` that the regex does not imply, in their order. */
  function Unmatched(jobNames: seq<string>, regex: Option<string>, matches: (string, string) -> bool): seq<string>
  {
    if jobNames == [] then []
    else
      var last := jobNames[|jobNames| - 1];
      Unmatched(jobNames[..|jobNames| - 1], regex, matches) + (if Implied(regex, matches, last) then [] else [last])
  }

  /** The loop at lib/jenkins/backup.rb:95-100. */
  method UnmatchedJobs(jobNames: seq<string>, regex: Option<string>, matches: (string, string) -> bool)
    returns (unmatched: seq<string>)
    ensures unmatched == Unmatched(jobNames, regex, matches)
  {
    unmatched := [];
    for i := 0 to |jobNames|
      invariant unmatched == Unmatched(jobNames[..i], regex, matches)
    {
      assert jobNames[..i + 1][..i] == jobNames[..i];
      if !(regex.Some? && matches(regex.value, jobNames[i])) {
        unmatched := unmatched + [jobNames[i]];
      }
    }
    assert jobNames[..|jobNames|] == jobNames;
  }

  /** A job is kept exactly when it is a member the regex does not imply. */
  lemma {:induction false} UnmatchedMembership(jobNames: seq<string>, regex: Option<string>, matches: (string, string) -> bool, job: string)
    ensures job in Unmatched(jobNames, regex, matches) <==> job in jobNames && !Implied(regex, matches, job)
  {
    if jobNames != [] {
      var init := jobNames[..|jobNames| - 1];
      UnmatchedMembership(init, regex, matches, job);
      assert jobNames == init + [jobNames[|jobNames| - 1]];
    }
  }

  /** Filtering a concatenation filters each part: the kept jobs stay in
      their original order. */
  lemma {:induction false} UnmatchedAppend(a: seq<string>, b: seq<string>, regex: Option<string>, matches: (string, string) -> bool)
    ensures Unmatched(a + b, regex, matches) == Unmatched(a, regex, matches) + Unmatched(b, regex, matches)
    decreases |b|
  {
    if b == [] {
      assert a + b == a;
    } else {
      var init := b[..|b| - 1];
      UnmatchedAppend(a, init, regex, matches);
      assert (a + b)[..|a + b| - 1] == a + init;
    }
  }

  /** Each job is kept as often as it occurs, or dropped every time. */
  lemma {:induction false} UnmatchedCount(jobNames: seq<string>, regex: Option<string>, matches: (string, string) -> bool, job: string)
    ensures multiset(Unmatched(jobNames, regex, matches))[job]
            == if Implied(regex, matches, job) then 0 else multiset(jobNames)[job]
  {
    if jobNames != [] {
      var init := jobNames[..|jobNames| - 1];
      UnmatchedCount(init, regex, matches, job);
      assert jobNames == init + [jobNames[|jobNames| - 1]];
    }
  }

  /** Without an `includeRegex`, every member is recorded. */
  lemma {:induction false} UnmatchedWithoutRegex(jobNames: seq<string>, matches: (string, string) -> bool)
    ensures Unmatched(jobNames, None, matches) == jobNames
  {
    if jobNames != [] {
      var init := jobNames[..|jobNames| - 1];
      UnmatchedWithoutRegex(init, matches);
      assert jobNames == init + [jobNames[|jobNames| - 1]];
    }
  }
}
