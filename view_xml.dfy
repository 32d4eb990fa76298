/** Reading view attributes out of a view's configuration XML
    (lib/jenkins/backup.rb:76-86). Each attribute is read with
    `xml.match(/<tag>(.*)<\/tag>/)`, and a missing match gives `nil`.

    Ruby's search is leftmost first: it tries the start positions from left
    to right, and at the first position where the open tag stands and some
    close tag follows on the same line, greedy `.*` takes the LAST such close
    tag. `.` does not match a newline. */
module ViewXml {
  import opened Wrappers
  import opened Strings

  const FilterQueueTag := "filterQueue"
  const FilterExecutorsTag := "filterExecutors"
  const IncludeRegexTag := "includeRegex"

  function OpenTag(tag: string): string { "<" + tag + ">" }

  function CloseTag(tag: string): string { "</" + tag + ">" }

  /** The regular expression matches with the open tag at `i` and the close
      tag at `j`: the text between them holds no newline. */
  predicate IsMatch(xml: string, open: string, close: string, i: nat, j: nat)
  {
    HasAt(xml, i, open) && i + |open| <= j && HasAt(xml, j, close)
    && NoNewline(xml[i + |open|..j])
  }

  /** The end of the line that starts at `k`: the first newline at or after
      `k`, or the end of the text. */
  function LineEnd(xml: string, k: nat): (e: nat)
    requires k <= |xml|
    ensures k <= e <= |xml|
    ensures NoNewline(xml[k..e])
    ensures e < |xml| ==> xml[e] == '\n'
    decreases |xml| - k
  {
    if k == |xml| || xml[k] == '\n' then k
    else
      var e := LineEnd(xml, k + 1);
      assert xml[k..e] == [xml[k]] + xml[k + 1..e];
      e
  }

  /** The largest `j` in `lo..hi` where `close` stands. */
  function LastClose(xml: string, close: string, lo: nat, hi: nat): (r: Option<nat>)
    ensures r.Some? ==> lo <= r.value <= hi && HasAt(xml, r.value, close)
    ensures r.Some? ==> forall j :: r.value < j <= hi ==> !HasAt(xml, j, close)
    ensures r.None? ==> forall j :: lo <= j <= hi ==> !HasAt(xml, j, close)
    decreases hi
  {
    if hi < lo then None
    else if HasAt(xml, hi, close) then Some(hi)
    else if hi == lo then None
    else LastClose(xml, close, lo, hi - 1)
  }

  /** Where, with the open tag at `i`, greedy `.*` ends. */
  function MatchAt(xml: string, open: string, close: string, i: nat): (r: Option<nat>)
    ensures r.Some? ==> IsMatch(xml, open, close, i, r.value)
    ensures r.Some? ==> forall j :: r.value < j ==> !IsMatch(xml, open, close, i, j)
    ensures r.None? ==> forall j :: !IsMatch(xml, open, close, i, j)
  {
    if !HasAt(xml, i, open) then None
    else
      var lo := i + |open|;
      var e := LineEnd(xml, lo);
      var r := LastClose(xml, close, lo, e);
      // a match ends at most at the end of the line
      assert forall j: nat :: IsMatch(xml, open, close, i, j) ==> j <= e;
      // every close tag on that line ends a match
      assert forall j :: lo <= j <= e && HasAt(xml, j, close) ==> IsMatch(xml, open, close, i, j) by {
        forall j | lo <= j <= e && HasAt(xml, j, close) ensures IsMatch(xml, open, close, i, j) {
          NoNewlineSlice(xml, lo, j, e);
        }
      }
      r
  }

  /** The leftmost start position at or after `i` that has a match, with
      the end greedy `.*` picks there. */
  function Search(xml: string, open: string, close: string, i: nat): (r: Option<(nat, nat)>)
    ensures r.Some? ==> i <= r.value.0 && IsMatch(xml, open, close, r.value.0, r.value.1)
    ensures r.Some? ==> forall a, b :: i <= a < r.value.0 ==> !IsMatch(xml, open, close, a, b)
    ensures r.Some? ==> forall b :: r.value.1 < b ==> !IsMatch(xml, open, close, r.value.0, b)
    ensures r.None? ==> forall a, b :: i <= a ==> !IsMatch(xml, open, close, a, b)
    decreases |xml| + 1 - i
  {
    if i > |xml| then None
    else
      match MatchAt(xml, open, close, i)
      case Some(j) => Some((i, j))
      case None => Search(xml, open, close, i + 1)
  }

  /** The captured text of `/<tag>(.*)<\/tag>/` in `xml`, or None for `nil`.
      The result is None exactly when no open tag is followed on its line by
      a close tag; a found value stands between the two tags in the text and
      holds no newline. */
  function ExtractTag(xml: string, tag: string): (r: Option<string>)
    ensures r.None? <==> forall a, b :: !IsMatch(xml, OpenTag(tag), CloseTag(tag), a, b)
    ensures r.Some? ==> Occurs(xml, OpenTag(tag) + r.value + CloseTag(tag))
    ensures r.Some? ==> NoNewline(r.value)
  {
    var open, close := OpenTag(tag), CloseTag(tag);
    match Search(xml, open, close, 0)
    case None => None
    case Some((a, b)) =>
      MatchText(xml, open, close, a, b);
      Some(xml[a + |open|..b])
  }

  /** A match spells the open tag, the captured text and the close tag. */
  lemma MatchText(xml: string, open: string, close: string, a: nat, b: nat)
    requires IsMatch(xml, open, close, a, b)
    ensures a <= |xml| && HasAt(xml, a, open + xml[a + |open|..b] + close)
  {
    var v := xml[a + |open|..b];
    assert xml[a..b + |close|] == xml[a..a + |open|] + v + xml[b..b + |close|];
  }

  /** The captured text is the one of the leftmost match, and there the
      longest one. */
  lemma ExtractTagLeftmostLongest(xml: string, tag: string, a: nat, b: nat)
    requires IsMatch(xml, OpenTag(tag), CloseTag(tag), a, b)
    ensures ExtractTag(xml, tag).Some?
    ensures exists a': nat, b': nat ::
              && a' <= a && (a' == a ==> b <= b')
              && IsMatch(xml, OpenTag(tag), CloseTag(tag), a', b')
              && ExtractTag(xml, tag) == Some(xml[a' + |OpenTag(tag)|..b'])
  {
    var r := Search(xml, OpenTag(tag), CloseTag(tag), 0);
    var (a', b') := r.value;
    assert a' <= a;
    if a' == a { assert b <= b'; }
  }

  /** A view whose XML lacks the open tag gets a `nil` attribute. */
  lemma ExtractTagAbsent(xml: string, tag: string)
    requires !Occurs(xml, OpenTag(tag))
    ensures ExtractTag(xml, tag) == None
  {
  }

  /** `filter_queue` (lib/jenkins/backup.rb:77-78). */
  function FilterQueue(xml: string): Option<string> { ExtractTag(xml, FilterQueueTag) }

  /** `filter_executors` (lib/jenkins/backup.rb:81-82). */
  function FilterExecutors(xml: string): Option<string> { ExtractTag(xml, FilterExecutorsTag) }

  /** `regex` (lib/jenkins/backup.rb:85-86). */
  function IncludeRegex(xml: string): Option<string> { ExtractTag(xml, IncludeRegexTag) }
}
