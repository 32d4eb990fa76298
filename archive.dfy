/** The archive a backup writes and a restore reads: its file name
    (lib/jenkins/backup.rb:26, 120), the entries and their path names
    (lib/jenkins/backup.rb:126-134, 183-187), and unpacking it into the
    staging directory (lib/jenkins/backup.rb:158-164). The tar and gzip
    encoding itself is not modelled: an archive is its sequence of entries. */
module Archive {
  import opened Wrappers
  import opened Strings
  import opened Metadata

  /** `backup(name = "jenkins", ...)` */
  const DefaultBaseName := "jenkins"
  const Extension := ".tar.gz"
  const MetadataFile := "metadata.yml"
  const JobsDir := "jobs"
  const ViewsDir := "views"

  /** The file a job or view document is staged in: `"#{name}.xml"`. */
  function XmlFile(name: string): string { name + ".xml" }

  /** A staged file holds an XML document or the metadata document; loading
      the metadata document gives back the record that was written. */
  datatype Content = Xml(text: string) | Yaml(metadata: Metadata)

  datatype Entry = Entry(pathname: string, data: Content)

  /** The base name: the caller's `name`, or "jenkins" when it is omitted. */
  function BaseName(name: Option<string>): string
  {
    match name
    case None => DefaultBaseName
    case Some(n) => n
  }

  /** `"#{name}-#{timestamp.to_i}.tar.gz"` */
  function ArchiveName(name: Option<string>, timestamp: nat): (r: string)
    ensures StartsWith(r, BaseName(name) + "-") && EndsWith(r, Extension)
  {
    BaseName(name) + "-" + Decimal(timestamp) + Extension
  }

  function LastIndexOf(s: string, c: char): (r: Option<nat>)
    ensures r.Some? ==> r.value < |s| && s[r.value] == c
    ensures r.Some? ==> forall k :: r.value < k < |s| ==> s[k] != c
    ensures r.None? ==> c !in s
  {
    if s == [] then None
    else if s[|s| - 1] == c then Some(|s| - 1)
    else
      var r := LastIndexOf(s[..|s| - 1], c);
      assert s == s[..|s| - 1] + [s[|s| - 1]];
      r
  }

  /** Reads a base name and a timestamp back out of an archive file name. */
  function ParseArchiveName(s: string): Option<(string, nat)>
  {
    if !EndsWith(s, Extension) then None
    else
      var stem := s[..|s| - |Extension|];
      match LastIndexOf(stem, '-')
      case None => None
      case Some(k) =>
        var digits := stem[k + 1..];
        if digits != [] && AllDigits(digits) then Some((stem[..k], ParseDecimal(digits))) else None
  }

  /** The archive name determines the base name and the timestamp. */
  lemma ArchiveNameRoundTrip(name: Option<string>, timestamp: nat)
    ensures ParseArchiveName(ArchiveName(name, timestamp)) == Some((BaseName(name), timestamp))
  {
    var b, d := BaseName(name), Decimal(timestamp);
    var s := ArchiveName(name, timestamp);
    var stem := s[..|s| - |Extension|];
    assert stem == b + "-" + d;
    forall k | |b| < k < |stem| ensures stem[k] != '-' {
      assert stem[k] == d[k - |b| - 1];
    }
    LastIndexOfIs(stem, '-', |b|);
    assert stem[|b| + 1..] == d;
    assert stem[..|b|] == b;
    ParseDecimalOfDecimal(timestamp);
  }

  /** The last occurrence of a character is found by LastIndexOf. */
  lemma {:induction false} LastIndexOfIs(s: string, c: char, k: nat)
    requires k < |s| && s[k] == c
    requires forall j :: k < j < |s| ==> s[j] != c
    ensures LastIndexOf(s, c) == Some(k)
    decreases |s|
  {
    if s[|s| - 1] != c {
      var t := s[..|s| - 1];
      assert t[k] == c;
      LastIndexOfIs(t, c, k);
    }
  }

  /** A staging directory: the names written to it, in writing order, and
      what each file holds. */
  datatype StagedDir = StagedDir(names: seq<string>, files: map<string, string>)

  predicate Consistent(d: StagedDir)
  {
    forall n :: n in d.names ==> n in d.files
  }

  /** No file name holds a '/', so every file lies directly in the directory. */
  predicate Flat(d: StagedDir)
  {
    forall n :: n in d.names ==> '/' !in n
  }

  const EmptyDir := StagedDir([], map[])

  /** `File.open("#{dir}/#{name}", "w") { |f| f.write(text) }` */
  function Write(d: StagedDir, name: string, text: string): (r: StagedDir)
    ensures name in r.names && name in r.files && r.files[name] == text
    ensures forall n :: n != name ==> (n in r.names <==> n in d.names)
    ensures forall n :: n != name && n in d.files ==> n in r.files && r.files[n] == d.files[n]
    ensures Consistent(d) ==> Consistent(r)
  {
    StagedDir(d.names + [name], d.files[name := text])
  }

  /** The glob pattern `*xml`: `*` does not match a leading '.'. */
  predicate GlobMatch(name: string)
  {
    !StartsWith(name, ".") && EndsWith(name, "xml")
  }

  function Matching(names: seq<string>): (r: seq<string>)
    ensures forall n :: n in r <==> n in names && GlobMatch(n)
  {
    if names == [] then []
    else
      var init, last := names[..|names| - 1], names[|names| - 1];
      assert names == init + [last];
      Matching(init) + (if GlobMatch(last) then [last] else [])
  }

  /** `Dir.glob` of the pattern `*xml` in a directory, as Ruby 3 returns it: every matching file
      once, sorted (by full path, which for one directory is by name). */
  function Glob(d: StagedDir): (r: seq<string>)
    ensures StrictlySorted(r)
    ensures forall n :: n in r <==> n in d.names && GlobMatch(n)
  {
    SortDistinct(Matching(d.names))
  }

  function FirstAt(s: string, sep: string, i: nat): (r: Option<nat>)
    requires |sep| > 0
    ensures r.Some? ==> i <= r.value && HasAt(s, r.value, sep)
    ensures r.Some? ==> forall k :: i <= k < r.value ==> !HasAt(s, k, sep)
    ensures r.None? ==> forall k :: i <= k ==> !HasAt(s, k, sep)
    decreases |s| - i
  {
    if i + |sep| > |s| then None
    else if HasAt(s, i, sep) then Some(i)
    else FirstAt(s, sep, i + 1)
  }

  /** The piece after the last split point of `s.split(sep)`, scanning left
      to right. It is `s.split(sep).last` whenever that piece is not empty. */
  function LastPiece(s: string, sep: string): string
    requires |sep| > 0
    decreases |s|
  {
    match FirstAt(s, sep, 0)
    case None => s
    case Some(k) => LastPiece(s[k + |sep|..], sep)
  }

  /** `fn.split("#{tmp_dir}/").last` */
  function ShortName(fn: string, tmpDir: string): string
  {
    LastPiece(fn, tmpDir + "/")
  }

  /** A file staged directly in a sub-directory of an absolute temporary
      directory is archived under its path relative to that directory. */
  lemma ShortNameOfStaged(tmpDir: string, dir: string, file: string)
    requires tmpDir != [] && tmpDir[0] == '/'
    requires '/' !in dir && '/' !in file
    ensures ShortName(tmpDir + "/" + dir + "/" + file, tmpDir) == dir + "/" + file
  {
    var sep, rel := tmpDir + "/", dir + "/" + file;
    var fn := tmpDir + "/" + dir + "/" + file;
    assert fn == sep + rel;
    assert HasAt(fn, 0, sep);
    assert FirstAt(fn, sep, 0) == Some(0);
    assert fn[|sep|..] == rel;
    OnlySlash(dir, file);
    // an occurrence of `sep` would start and end at a '/', but `rel` has one
    forall k: nat ensures !HasAt(rel, k, sep) {
      if k + |sep| <= |rel| {
        if rel[k] != '/' {
          assert rel[k..k + |sep|][0] != sep[0];
        } else {
          assert rel[k + |sep| - 1] != '/';
          assert rel[k..k + |sep|][|sep| - 1] != sep[|sep| - 1];
        }
      }
    }
    assert FirstAt(rel, sep, 0) == None;
    assert LastPiece(rel, sep) == rel;
    assert LastPiece(fn, sep) == LastPiece(fn[0 + |sep|..], sep);
  }

  lemma OnlySlash(dir: string, file: string)
    requires '/' !in dir && '/' !in file
    ensures forall i :: 0 <= i < |dir + "/" + file| && (dir + "/" + file)[i] == '/' ==> i == |dir|
  {
  }

  /** The entries `write_xml_to_archive(archive, xml_dir, tmp_dir)` adds:
      one per globbed file, in glob order. */
  function XmlEntries(xmlDir: string, d: StagedDir, tmpDir: string): (r: seq<Entry>)
    requires Consistent(d)
    ensures |r| == |Glob(d)|
  {
    var g := Glob(d);
    seq(|g|, k requires 0 <= k < |g| => Entry(ShortName(xmlDir + "/" + g[k], tmpDir), Xml(d.files[g[k]])))
  }

  function MetadataEntry(m: Metadata): Entry
  {
    Entry(MetadataFile, Yaml(m))
  }

  /** The whole archive: job documents, then view documents, then the
      metadata (lib/jenkins/backup.rb:126-134). */
  function Pack(tmpDir: string, jobs: StagedDir, views: StagedDir, m: Metadata): seq<Entry>
    requires Consistent(jobs) && Consistent(views)
  {
    XmlEntries(tmpDir + "/" + JobsDir, jobs, tmpDir)
    + XmlEntries(tmpDir + "/" + ViewsDir, views, tmpDir)
    + [MetadataEntry(m)]
  }

  /** Every globbed file of a flat directory is archived under
      `<dir>/<file>` with the file's text. */
  lemma XmlEntriesPaths(tmpDir: string, dir: string, d: StagedDir)
    requires tmpDir != [] && tmpDir[0] == '/' && '/' !in dir
    requires Consistent(d) && Flat(d)
    ensures var e, g := XmlEntries(tmpDir + "/" + dir, d, tmpDir), Glob(d);
            forall k :: 0 <= k < |g| ==> e[k] == Entry(dir + "/" + g[k], Xml(d.files[g[k]]))
  {
    var e, g := XmlEntries(tmpDir + "/" + dir, d, tmpDir), Glob(d);
    forall k | 0 <= k < |g| ensures e[k].pathname == dir + "/" + g[k] {
      assert g[k] in d.names;
      assert tmpDir + "/" + dir + "/" + g[k] == (tmpDir + "/" + dir) + "/" + g[k];
      ShortNameOfStaged(tmpDir, dir, g[k]);
    }
  }

  /** The archive's entries, by group: `jobs/<file>` for every globbed job
      file in ascending order, `views/<file>` likewise, and `metadata.yml`
      last. */
  lemma PackLayout(tmpDir: string, jobs: StagedDir, views: StagedDir, m: Metadata)
    requires tmpDir != [] && tmpDir[0] == '/'
    requires Consistent(jobs) && Consistent(views) && Flat(jobs) && Flat(views)
    ensures var a, gj, gv := Pack(tmpDir, jobs, views, m), Glob(jobs), Glob(views);
            && |a| == |gj| + |gv| + 1
            && (forall k :: 0 <= k < |gj| ==> a[k] == Entry(JobsDir + "/" + gj[k], Xml(jobs.files[gj[k]])))
            && (forall k :: 0 <= k < |gv| ==> a[|gj| + k] == Entry(ViewsDir + "/" + gv[k], Xml(views.files[gv[k]])))
            && a[|a| - 1] == MetadataEntry(m)
  {
    var a, gj, gv := Pack(tmpDir, jobs, views, m), Glob(jobs), Glob(views);
    var ej := XmlEntries(tmpDir + "/" + JobsDir, jobs, tmpDir);
    var ev := XmlEntries(tmpDir + "/" + ViewsDir, views, tmpDir);
    XmlEntriesPaths(tmpDir, JobsDir, jobs);
    XmlEntriesPaths(tmpDir, ViewsDir, views);
    assert a == ej + ev + [MetadataEntry(m)];
    assert |a| == |gj| + |gv| + 1;
    assert a[|a| - 1] == MetadataEntry(m);
    assert forall k :: 0 <= k < |gj| ==> a[k] == Entry(JobsDir + "/" + gj[k], Xml(jobs.files[gj[k]]));
    ConcatIndex(ej, ev, MetadataEntry(m));
  }

  lemma ConcatIndex<T>(x: seq<T>, y: seq<T>, z: T)
    ensures var c := x + y + [z];
            && |c| == |x| + |y| + 1
            && (forall k :: 0 <= k < |x| ==> c[k] == x[k])
            && (forall k :: 0 <= k < |y| ==> c[|x| + k] == y[k])
            && c[|c| - 1] == z
  {
  }

  /** `ar.next_header` / `File.open("#{tmp_dir}/#{name}", "w")`: the staging
      directory after unpacking, keyed by path relative to it; a later entry
      with the same path replaces an earlier one. */
  function Unpacked(entries: seq<Entry>): map<string, Content>
  {
    if entries == [] then map[]
    else
      var last := entries[|entries| - 1];
      Unpacked(entries[..|entries| - 1])[last.pathname := last.data]
  }

  /** A name `File.open` can create inside an existing directory: not
      empty, not `.` or `..`, and without a '/'. */
  predicate FileName(f: string)
  {
    f != "" && f != "." && f != ".." && '/' !in f
  }

  /** `p` is `<dir>/<f>` for a file name `f`. */
  predicate InDir(p: string, dir: string)
  {
    |p| > |dir| + 1 && p[..|dir| + 1] == dir + "/" && FileName(p[|dir| + 1..])
  }

  /** `File.open("#{tmp_dir}/#{name}", "w")` succeeds during a restore, whose
      staging directory holds only the directories `jobs` and `views`
      (lib/jenkins/backup.rb:149-155): the path names a file directly in it
      other than those two, or a file directly in one of them. */
  predicate Writable(p: string)
  {
    || (FileName(p) && p != JobsDir && p != ViewsDir)
    || InDir(p, JobsDir)
    || InDir(p, ViewsDir)
  }

  /** The loop at lib/jenkins/backup.rb:158-164: the entries are written in
      order, and the first one whose path cannot be written raises, naming
      that path. */
  function UnpackEntries(entries: seq<Entry>): (r: Result<map<string, Content>, string>)
    ensures r.Ok? <==> forall i :: 0 <= i < |entries| ==> Writable(entries[i].pathname)
    ensures r.Ok? ==> r.value == Unpacked(entries)
    ensures r.Err? ==> exists k :: 0 <= k < |entries| && entries[k].pathname == r.error && !Writable(r.error)
                                   && forall i :: 0 <= i < k ==> Writable(entries[i].pathname)
  {
    if entries == [] then Ok(map[])
    else
      var init, last := entries[..|entries| - 1], entries[|entries| - 1];
      assert forall i :: 0 <= i < |init| ==> init[i] == entries[i];
      match UnpackEntries(init)
      case Err(p) => Err(p)
      case Ok(m) => if Writable(last.pathname) then Ok(m[last.pathname := last.data]) else Err(last.pathname)
  }

  /** Once an entry has failed, the later ones are not written. */
  lemma {:induction false} UnpackEntriesStops(entries: seq<Entry>, i: nat)
    requires i <= |entries| && UnpackEntries(entries[..i]).Err?
    ensures UnpackEntries(entries) == UnpackEntries(entries[..i])
    decreases |entries|
  {
    if i < |entries| {
      var init := entries[..|entries| - 1];
      assert init[..i] == entries[..i];
      UnpackEntriesStops(init, i);
    } else {
      assert entries[..i] == entries;
    }
  }

  /** An entry outside `jobs/` and `views/`, or one that names a
      directory, stops the unpacking. */
  lemma UnpackStrayEntry()
    ensures UnpackEntries([Entry("other/a.xml", Xml("c")), Entry(JobsDir + "/j.xml", Xml("c"))]) == Err("other/a.xml")
    ensures UnpackEntries([Entry(JobsDir, Xml("c"))]) == Err(JobsDir)
  {
    var e := [Entry("other/a.xml", Xml("c")), Entry(JobsDir + "/j.xml", Xml("c"))];
    var p := "other/a.xml";
    assert !Writable(p) by {
      assert p[..|JobsDir| + 1][0] == 'o' && (JobsDir + "/")[0] == 'j';
      assert p[..|ViewsDir| + 1][0] == 'o' && (ViewsDir + "/")[0] == 'v';
      assert p[5] == '/';
    }
    assert e[..1] == [e[0]] && [e[0]][..0] == [];
  }

  /** A file name in one of the sub-directories is writable. */
  lemma InDirOf(dir: string, f: string)
    requires FileName(f)
    ensures InDir(dir + "/" + f, dir)
  {
    var p := dir + "/" + f;
    assert p[..|dir| + 1] == dir + "/" && p[|dir| + 1..] == f;
  }

  /** A name the glob `*xml` yields is a file name once it holds no '/'. */
  lemma GlobbedFileName(f: string)
    requires GlobMatch(f) && '/' !in f
    ensures FileName(f)
  {
    assert |f| >= 3 && f[|f| - 3..] == "xml";
  }

  /** Every entry of a packed archive can be written back when unpacking. */
  lemma PackWritable(tmpDir: string, jobs: StagedDir, views: StagedDir, m: Metadata)
    requires tmpDir != [] && tmpDir[0] == '/'
    requires Consistent(jobs) && Consistent(views) && Flat(jobs) && Flat(views)
    ensures var a := Pack(tmpDir, jobs, views, m);
            forall i :: 0 <= i < |a| ==> Writable(a[i].pathname)
  {
    var ej := XmlEntries(tmpDir + "/" + JobsDir, jobs, tmpDir);
    var ev := XmlEntries(tmpDir + "/" + ViewsDir, views, tmpDir);
    var a := Pack(tmpDir, jobs, views, m);
    XmlEntriesWritable(tmpDir, JobsDir, jobs);
    XmlEntriesWritable(tmpDir, ViewsDir, views);
    assert a == ej + ev + [MetadataEntry(m)];
    ConcatIndex(ej, ev, MetadataEntry(m));
    forall i | 0 <= i < |a| ensures Writable(a[i].pathname) {
      if i < |ej| {
        assert InDir(ej[i].pathname, JobsDir);
      } else if i < |ej| + |ev| {
        assert InDir(ev[i - |ej|].pathname, ViewsDir);
      }
    }
  }

  /** The entries written for a flat directory lie directly in their
      sub-directory of the archive. */
  lemma XmlEntriesWritable(tmpDir: string, dir: string, d: StagedDir)
    requires tmpDir != [] && tmpDir[0] == '/' && '/' !in dir
    requires Consistent(d) && Flat(d)
    ensures var e := XmlEntries(tmpDir + "/" + dir, d, tmpDir);
            forall k :: 0 <= k < |e| ==> InDir(e[k].pathname, dir)
  {
    var e, g := XmlEntries(tmpDir + "/" + dir, d, tmpDir), Glob(d);
    XmlEntriesPaths(tmpDir, dir, d);
    GlobFileNames(d);
    forall k | 0 <= k < |e| ensures InDir(e[k].pathname, dir) {
      InDirOf(dir, g[k]);
    }
  }

  /** Every name the glob yields in a flat directory is a file name. */
  lemma GlobFileNames(d: StagedDir)
    requires Flat(d)
    ensures forall x :: 0 <= x < |Glob(d)| ==> FileName(Glob(d)[x])
  {
    var g := Glob(d);
    forall x | 0 <= x < |g| ensures FileName(g[x]) {
      assert g[x] in g;
      GlobbedFileName(g[x]);
    }
  }

  /** Unpacking gives a file for every entry path and no other. */
  lemma {:induction false} UnpackedKeys(entries: seq<Entry>, p: string)
    ensures p in Unpacked(entries) <==> exists i :: 0 <= i < |entries| && entries[i].pathname == p
  {
    if entries != [] {
      var init := entries[..|entries| - 1];
      UnpackedKeys(init, p);
      if p in Unpacked(init) {
        var i :| 0 <= i < |init| && init[i].pathname == p;
        assert entries[i] == init[i];
      }
      forall i | 0 <= i < |entries| - 1 ensures entries[i] == init[i] { }
    }
  }

  /** A path that only one entry carries is unpacked with that entry's data. */
  lemma {:induction false} UnpackedUnique(entries: seq<Entry>, k: nat)
    requires k < |entries|
    requires forall i :: 0 <= i < |entries| && i != k ==> entries[i].pathname != entries[k].pathname
    ensures entries[k].pathname in Unpacked(entries)
    ensures Unpacked(entries)[entries[k].pathname] == entries[k].data
  {
    var n := |entries|;
    if k < n - 1 {
      var init := entries[..n - 1];
      forall i | 0 <= i < |init| && i != k ensures init[i].pathname != init[k].pathname {
        assert init[i] == entries[i];
      }
      UnpackedUnique(init, k);
    }
  }

  /** No two entries of a packed archive share a path: the three groups
      never share one, and the names within a group are distinct. */
  lemma PackPathsDistinct(tmpDir: string, jobs: StagedDir, views: StagedDir, m: Metadata)
    requires tmpDir != [] && tmpDir[0] == '/'
    requires Consistent(jobs) && Consistent(views) && Flat(jobs) && Flat(views)
    ensures var a := Pack(tmpDir, jobs, views, m);
            forall i, k :: 0 <= i < |a| && 0 <= k < |a| && i != k ==> a[i].pathname != a[k].pathname
  {
    var a, gj, gv := Pack(tmpDir, jobs, views, m), Glob(jobs), Glob(views);
    PackLayout(tmpDir, jobs, views, m);
    forall i, k | 0 <= i < |a| && 0 <= k < |a| && i != k ensures a[i].pathname != a[k].pathname {
      DistinctPaths(a, gj, gv, m, i, k);
    }
  }

  /** Unpacking a packed archive gives back every archived document and the
      metadata record: reading an archive is the inverse of packing it. */
  lemma PackUnpackRoundTrip(tmpDir: string, jobs: StagedDir, views: StagedDir, m: Metadata)
    requires tmpDir != [] && tmpDir[0] == '/'
    requires Consistent(jobs) && Consistent(views) && Flat(jobs) && Flat(views)
    ensures var u := Unpacked(Pack(tmpDir, jobs, views, m));
            && MetadataFile in u && u[MetadataFile] == Yaml(m)
            && (forall n :: n in jobs.names && GlobMatch(n) ==>
                  JobsDir + "/" + n in u && u[JobsDir + "/" + n] == Xml(jobs.files[n]))
            && (forall n :: n in views.names && GlobMatch(n) ==>
                  ViewsDir + "/" + n in u && u[ViewsDir + "/" + n] == Xml(views.files[n]))
  {
    PackedMetadata(tmpDir, jobs, views, m);
    forall n | n in jobs.names && GlobMatch(n)
      ensures var u := Unpacked(Pack(tmpDir, jobs, views, m));
              JobsDir + "/" + n in u && u[JobsDir + "/" + n] == Xml(jobs.files[n])
    {
      PackedJob(tmpDir, jobs, views, m, n);
    }
    forall n | n in views.names && GlobMatch(n)
      ensures var u := Unpacked(Pack(tmpDir, jobs, views, m));
              ViewsDir + "/" + n in u && u[ViewsDir + "/" + n] == Xml(views.files[n])
    {
      PackedView(tmpDir, jobs, views, m, n);
    }
  }

  lemma PackedMetadata(tmpDir: string, jobs: StagedDir, views: StagedDir, m: Metadata)
    requires tmpDir != [] && tmpDir[0] == '/'
    requires Consistent(jobs) && Consistent(views) && Flat(jobs) && Flat(views)
    ensures var u := Unpacked(Pack(tmpDir, jobs, views, m));
            MetadataFile in u && u[MetadataFile] == Yaml(m)
  {
    var a := Pack(tmpDir, jobs, views, m);
    PackLayout(tmpDir, jobs, views, m);
    PackPathsDistinct(tmpDir, jobs, views, m);
    UnpackedUnique(a, |a| - 1);
  }

  lemma PackedJob(tmpDir: string, jobs: StagedDir, views: StagedDir, m: Metadata, n: string)
    requires tmpDir != [] && tmpDir[0] == '/'
    requires Consistent(jobs) && Consistent(views) && Flat(jobs) && Flat(views)
    requires n in jobs.names && GlobMatch(n)
    ensures var u := Unpacked(Pack(tmpDir, jobs, views, m));
            JobsDir + "/" + n in u && u[JobsDir + "/" + n] == Xml(jobs.files[n])
  {
    var a, gj := Pack(tmpDir, jobs, views, m), Glob(jobs);
    PackLayout(tmpDir, jobs, views, m);
    PackPathsDistinct(tmpDir, jobs, views, m);
    var k :| 0 <= k < |gj| && gj[k] == n;
    UnpackedUnique(a, k);
  }

  lemma PackedView(tmpDir: string, jobs: StagedDir, views: StagedDir, m: Metadata, n: string)
    requires tmpDir != [] && tmpDir[0] == '/'
    requires Consistent(jobs) && Consistent(views) && Flat(jobs) && Flat(views)
    requires n in views.names && GlobMatch(n)
    ensures var u := Unpacked(Pack(tmpDir, jobs, views, m));
            ViewsDir + "/" + n in u && u[ViewsDir + "/" + n] == Xml(views.files[n])
  {
    var a, gj, gv := Pack(tmpDir, jobs, views, m), Glob(jobs), Glob(views);
    var k :| 0 <= k < |gv| && gv[k] == n;
    var i := |gj| + k;
    PackViewEntry(tmpDir, jobs, views, m, k);
    assert a[i] == Entry(ViewsDir + "/" + n, Xml(views.files[n]));
    PackPathsDistinct(tmpDir, jobs, views, m);
    assert forall x :: 0 <= x < |a| && x != i ==> a[x].pathname != a[i].pathname;
    UnpackedUnique(a, i);
  }

  lemma PackViewEntry(tmpDir: string, jobs: StagedDir, views: StagedDir, m: Metadata, k: nat)
    requires tmpDir != [] && tmpDir[0] == '/'
    requires Consistent(jobs) && Consistent(views) && Flat(jobs) && Flat(views)
    requires k < |Glob(views)|
    ensures var a, gv := Pack(tmpDir, jobs, views, m), Glob(views);
            && |Glob(jobs)| + k < |a|
            && a[|Glob(jobs)| + k] == Entry(ViewsDir + "/" + gv[k], Xml(views.files[gv[k]]))
  {
    PackLayout(tmpDir, jobs, views, m);
  }

  /** Unpacking a packed archive gives a document under `jobs/<f>` exactly
      when `f` was staged in the jobs directory and the glob picks it up. */
  lemma UnpackedJobPath(tmpDir: string, jobs: StagedDir, views: StagedDir, m: Metadata, f: string)
    requires tmpDir != [] && tmpDir[0] == '/'
    requires Consistent(jobs) && Consistent(views) && Flat(jobs) && Flat(views)
    ensures JobsDir + "/" + f in Unpacked(Pack(tmpDir, jobs, views, m)) <==> f in jobs.names && GlobMatch(f)
  {
    var a, gj := Pack(tmpDir, jobs, views, m), Glob(jobs);
    var p := JobsDir + "/" + f;
    if f in jobs.names && GlobMatch(f) {
      PackedJob(tmpDir, jobs, views, m, f);
    }
    PackLayout(tmpDir, jobs, views, m);
    UnpackedKeys(a, p);
    forall i | |gj| <= i < |a| ensures a[i].pathname != p {
      if i < |a| - 1 { assert a[i] == a[|gj| + (i - |gj|)]; }
      assert a[i].pathname[0] != p[0];
    }
    forall i | 0 <= i < |gj| && a[i].pathname == p ensures gj[i] == f {
      assert p[|JobsDir| + 1..] == f;
      assert a[i].pathname[|JobsDir| + 1..] == gj[i];
    }
    if p in Unpacked(a) {
      var i :| 0 <= i < |a| && a[i].pathname == p;
      assert gj[i] in gj;
    }
  }

  lemma DistinctPaths(a: seq<Entry>, gj: seq<string>, gv: seq<string>, m: Metadata, i: nat, k: nat)
    requires StrictlySorted(gj) && StrictlySorted(gv)
    requires |a| == |gj| + |gv| + 1
    requires forall x :: 0 <= x < |gj| ==> a[x].pathname == JobsDir + "/" + gj[x]
    requires forall x :: 0 <= x < |gv| ==> a[|gj| + x].pathname == ViewsDir + "/" + gv[x]
    requires a[|a| - 1] == MetadataEntry(m)
    requires i < |a| && k < |a| && i != k
    ensures a[i].pathname != a[k].pathname
  {
    var pi, pk := a[i].pathname, a[k].pathname;
    var gi := if i < |gj| then 0 else if i < |gj| + |gv| then 1 else 2;
    var gk := if k < |gj| then 0 else if k < |gj| + |gv| then 1 else 2;
    assert pi[0] == (if gi == 0 then 'j' else if gi == 1 then 'v' else 'm') by {
      if gi == 1 { assert a[|gj| + (i - |gj|)].pathname == ViewsDir + "/" + gv[i - |gj|]; }
    }
    assert pk[0] == (if gk == 0 then 'j' else if gk == 1 then 'v' else 'm') by {
      if gk == 1 { assert a[|gj| + (k - |gj|)].pathname == ViewsDir + "/" + gv[k - |gj|]; }
    }
    if gi == 0 && gk == 0 {
      StrictlySortedDistinct(gj, i, k);
      assert pi[|JobsDir| + 1..] == gj[i] && pk[|JobsDir| + 1..] == gj[k];
    } else if gi == 1 && gk == 1 {
      assert a[|gj| + (i - |gj|)].pathname == ViewsDir + "/" + gv[i - |gj|];
      assert a[|gj| + (k - |gj|)].pathname == ViewsDir + "/" + gv[k - |gj|];
      StrictlySortedDistinct(gv, i - |gj|, k - |gj|);
      assert pi[|ViewsDir| + 1..] == gv[i - |gj|] && pk[|ViewsDir| + 1..] == gv[k - |gj|];
    }
  }
}
