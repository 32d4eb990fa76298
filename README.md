# Jenkins backup and restore, modelled in Dafny

`Jenkins::Backup` (lib/jenkins/backup.rb) takes a backup of a Jenkins server
and restores one. A backup does these steps in order:

- it lists the server's jobs and stages each job's configuration XML as `jobs/<job>.xml`;
- it lists the views and, for every view but "All", stages its XML as `views/<view>.xml`;
- for each such view it records a detail entry: its name, its `filterQueue`, `filterExecutors` and `includeRegex` attributes, and the member jobs its regex does not already bring in;
- it writes a metadata document;
- it packs everything into `<name>-<seconds>.tar.gz`.

A restore unpacks an archive and loads the metadata. It then reconciles a
server with the archive:

- Jobs are handled first, then views.
- A job or view that the server already lists is skipped unless overwriting is asked for.
- When overwriting, the item is deleted first, whether or not it exists. It is then created again.
- A view is created from its name alone. Its recorded jobs are then added to it one at a time.

The model has these modules:

- `Strings`: string predicates, the byte order `Dir.glob` sorts by, and decimal rendering.
- `ViewXml`: the capture of `/<tag>(.*)<\/tag>/`, so leftmost and greedy within one line.
- `Differencer`: the jobs a view's regex does not imply. The regex engine is the parameter `matches`.
- `Metadata`: the metadata record.
- `Archive`: the archive name, the staging directories, the glob, the entry paths, packing and unpacking.
- `Server`: the server as the client sees it. `JenkinsServer` is a class whose methods update its listings and configurations and append each changing call to a log. Its invariant `Valid()` says the state is what the logged calls made of the initial state.
- `Reconcile`: the restore as a replay of calls.
  - `JobsReplay`, `ViewsReplay` and `RestoreReplay` give the calls a restore issues and the error that stops it.
  - Lemmas state what those calls do to a server.
- `JenkinsBackup`: the backup and the restore.
  - Pure specifications: `StageJobs`, `CollectViews`, `BackupOf`.
  - The class `Backup`, whose methods loop as the source does. Each method is proved equal to its specification, or its effect on `JenkinsServer` is.

The comments at lib/jenkins/backup.rb:65-68 and 102-106 say the recorded filter and regex attributes are passed when a view is created. The code does otherwise: `restore_views` passes only the view's name to `create_list_view` (lib/jenkins/backup.rb:225). The model follows that code.

## Model

| member | source | states |
|---|---|---|
| ViewXml.ExtractTag | lib/jenkins/backup.rb:76-86 | the attribute is absent exactly when no open tag is followed on the same line by a close tag; otherwise the text is bracketed by the tags in the XML and holds no newline |
| ViewXml.ExtractTagLeftmostLongest | lib/jenkins/backup.rb:77-78 | when any match exists the captured text is that of the leftmost start, with the farthest close tag on that line (greedy `.*`) |
| ViewXml.ExtractTagAbsent | lib/jenkins/backup.rb:85-86 | XML without the open tag gives `nil` |
| ViewXml.MatchText | lib/jenkins/backup.rb:77 | a match spells the open tag, the captured text and the close tag at its start |
| ViewXml.Search | lib/jenkins/backup.rb:77 | finds the leftmost match start at or after a position and the longest match there, or reports that there is none |
| ViewXml.MatchAt | lib/jenkins/backup.rb:77 | with the open tag at a given position, `.*` ends at the last close tag before the line ends |
| ViewXml.LineEnd | lib/jenkins/backup.rb:77 | the first newline at or after a position, or the end of the text (`.` does not match a newline) |
| ViewXml.LastClose | lib/jenkins/backup.rb:77 | the farthest position of the close tag in a range, or none in it |
| Differencer.UnmatchedJobs | lib/jenkins/backup.rb:95-100 | the loop's result is the view's members that the regex does not imply, in member order |
| Differencer.UnmatchedMembership | lib/jenkins/backup.rb:97 | a job is recorded exactly when it is a member and the regex is absent or does not match it |
| Differencer.UnmatchedAppend | lib/jenkins/backup.rb:96-99 | filtering a concatenation is concatenating the filtered parts (order is kept) |
| Differencer.UnmatchedCount | lib/jenkins/backup.rb:96-99 | each job is recorded as many times as it is a member, or not at all |
| Differencer.UnmatchedWithoutRegex | lib/jenkins/backup.rb:97 | a view without `includeRegex` records all its members |
| Metadata.NonDefaultViews | lib/jenkins/backup.rb:69-70 | the views that get a record are never "All" |
| Metadata.NonDefaultViewsMembership | lib/jenkins/backup.rb:70 | a view gets a record exactly when it is listed and is not "All" |
| Metadata.NonDefaultViewsLength | lib/jenkins/backup.rb:69-70 | the records number the listed views minus the occurrences of "All" |
| Metadata.ViewCountIsDetailCount | lib/jenkins/backup.rb:62 | `views.length - 1` equals the number of records exactly when "All" is listed once |
| Archive.ArchiveName | lib/jenkins/backup.rb:120 | the archive name starts with the base name and a dash and ends in `.tar.gz` |
| Archive.ArchiveNameRoundTrip | lib/jenkins/backup.rb:120 | the base name (default "jenkins") and the timestamp in seconds can be read back from the archive name |
| Archive.LastIndexOf | lib/jenkins/backup.rb:120 | a helper of `ParseArchiveName`, the inverse of the archive name used by `ArchiveNameRoundTrip`: it finds the last position of a character (the dash before the timestamp), or none when it does not occur |
| Strings.ParseDecimalOfDecimal | lib/jenkins/backup.rb:120 | the decimal rendering of the timestamp reads back as the timestamp |
| Strings.DecimalInjective | lib/jenkins/backup.rb:120 | distinct timestamps give distinct archive names |
| Strings.Decimal | lib/jenkins/backup.rb:120 | `to_i` rendered by `to_s` is a non-empty digit string with no leading zero |
| Archive.Write | lib/jenkins/backup.rb:53 | the written file holds the text and is listed; every other file keeps its content and listing; consistency is kept |
| Archive.Matching | lib/jenkins/backup.rb:183 | exactly the names the pattern `*xml` matches |
| Archive.Glob | lib/jenkins/backup.rb:183 | the files the glob yields are the matching staged names, each once, in ascending byte order |
| Strings.SortDistinct | lib/jenkins/backup.rb:183 | sorted glob results: strictly ascending and holding exactly the given names |
| Strings.Insert | lib/jenkins/backup.rb:183 | inserting into a strictly sorted sequence keeps it strictly sorted and adds exactly that name |
| Strings.StrictlySortedDistinct | lib/jenkins/backup.rb:183 | a glob listing names no file twice |
| Strings.BelowTransitive | lib/jenkins/backup.rb:183 | the glob's byte order is transitive |
| Strings.BelowTotal | lib/jenkins/backup.rb:183 | the glob's byte order is total |
| Strings.BelowIrreflexive | lib/jenkins/backup.rb:183 | the glob's byte order is strict |
| Strings.BelowCommonPrefix | lib/jenkins/backup.rb:183 | sorting full paths in one directory sorts the file names |
| Archive.FirstAt | lib/jenkins/backup.rb:184 | the first occurrence of the separator at or after a position, or none |
| Archive.ShortNameOfStaged | lib/jenkins/backup.rb:184 | `fn.split("#{tmp_dir}/").last` of a staged file under an absolute temporary directory is `<dir>/<file>` |
| Archive.XmlEntries | lib/jenkins/backup.rb:182-192 | one entry per globbed file |
| Archive.XmlEntriesPaths | lib/jenkins/backup.rb:183-189 | the k-th entry is `<dir>/<k-th globbed file>` carrying that file's XML |
| Archive.PackLayout | lib/jenkins/backup.rb:126-134 | the archive holds the job entries, then the view entries, then `metadata.yml` last |
| Archive.PackPathsDistinct | lib/jenkins/backup.rb:126-134 | no two entries of an archive share a path |
| Archive.UnpackedKeys | lib/jenkins/backup.rb:158-163 | unpacking gives a file for every entry path and no other |
| Archive.UnpackedUnique | lib/jenkins/backup.rb:158-163 | a path only one entry carries is unpacked with that entry's data |
| Archive.UnpackEntries | lib/jenkins/backup.rb:152-163 | unpacking succeeds exactly when every entry path names a file directly in the staging directory (other than `jobs` and `views`) or directly in `jobs/` or `views/`; it then gives `Unpacked`; otherwise it reports the first entry whose path cannot be written |
| Archive.UnpackEntriesStops | lib/jenkins/backup.rb:159-162 | no entry after the first failing one is written |
| Archive.UnpackStrayEntry | lib/jenkins/backup.rb:152-162 | an entry `other/a.xml` stops the unpacking even when a job entry follows, and an entry named `jobs` (a directory) stops it too |
| Archive.PackWritable | lib/jenkins/backup.rb:126-162 | every entry of an archive a backup writes can be unpacked by a restore |
| Archive.PackUnpackRoundTrip | lib/jenkins/backup.rb:126-165 | unpacking an archive gives back the metadata and every globbed job and view XML under `jobs/` and `views/` |
| Archive.PackedMetadata | lib/jenkins/backup.rb:128-133 | the unpacked `metadata.yml` is the metadata written |
| Archive.PackedJob | lib/jenkins/backup.rb:126 | the unpacked `jobs/<file>` is the staged job XML |
| Archive.PackedView | lib/jenkins/backup.rb:127 | the unpacked `views/<file>` is the staged view XML |
| Archive.UnpackedJobPath | lib/jenkins/backup.rb:126 | a `jobs/<file>` document is unpacked exactly when the file was staged and globbed |
| JenkinsBackup.StageXml | lib/jenkins/backup.rb:53 | writing a name without '/' keeps the directory consistent and flat |
| JenkinsBackup.StageJobs | lib/jenkins/backup.rb:50-54 | the staged jobs directory is consistent and flat |
| JenkinsBackup.StageJobsOutcome | lib/jenkins/backup.rb:45-54 | staging succeeds exactly when every job's XML can be fetched and written; then it holds `<job>.xml` with its configuration for each listed job and nothing else; otherwise the error names a listed job |
| JenkinsBackup.CollectViewsOutcome | lib/jenkins/backup.rb:59-114 | collecting succeeds exactly when every view but "All" can be fetched and written; otherwise the error names such a view |
| JenkinsBackup.CollectViewsRecords | lib/jenkins/backup.rb:69-113 | the records are those of the listed views without "All", in listing order |
| JenkinsBackup.ViewRecordsSnoc | lib/jenkins/backup.rb:107-113 | proof step for `CollectViewsRecords` (one unfolding of `ViewRecords`): one more view appends its record |
| JenkinsBackup.CollectViewsFiles | lib/jenkins/backup.rb:69-73 | the views directory holds `<view>.xml` with its configuration for every view but "All", and nothing else |
| JenkinsBackup.XmlFileInjective | lib/jenkins/backup.rb:53 | distinct names are staged in distinct files |
| JenkinsBackup.BackupOutcome | lib/jenkins/backup.rb:26-144 | a backup succeeds exactly when every job and view can be fetched and staged; otherwise the error names a job or a view at fault |
| JenkinsBackup.BackupMetadata | lib/jenkins/backup.rb:28-120 | the archive name reads back as base name and time; `metadata.yml` holds the settings, port or 8080, version, "jobs", the job listing and its length, the view count, and the records in order |
| JenkinsBackup.BackupDocuments | lib/jenkins/backup.rb:50-127 | every job whose file the glob matches is archived with its configuration; one it skips (a leading '.') is not; every view but "All" is archived likewise |
| JenkinsBackup.UnmatchedNoDuplicates | lib/jenkins/backup.rb:95-100 | a member list without repeats gives a record without repeats |
| JenkinsBackup.BackupWritable | lib/jenkins/backup.rb:126-162 | the archive of a successful backup unpacks without error |
| JenkinsBackup.BackupThenRestore | lib/jenkins/backup.rb:26-232 | backing up and restoring the archive (unpacking included) into any server succeeds; each job not kept gets the source's configuration; kept and other jobs are untouched; each view not kept lists exactly its recorded jobs. This rests on the Server.Apply assumptions under "## Left out", including that add_job accepts a recorded member that is not a job on the target server |
| JenkinsBackup.RestoreOfRecords | lib/jenkins/backup.rb:165-172 | restoring files recorded from a server gives the job and view outcome above |
| JenkinsBackup.ViewRecordsReplay | lib/jenkins/backup.rb:212-232 | replaying the records of a server's views recreates each view that is not kept with the members its regex does not imply |
| JenkinsBackup.DotJobNotRestored | lib/jenkins/backup.rb:183 | a job whose file name starts with '.' is not archived, so restoring it where it must be created fails |
| JenkinsBackup.StageJobsStops | lib/jenkins/backup.rb:50-54 | the first failing job ends the staging |
| JenkinsBackup.CollectViewsStops | lib/jenkins/backup.rb:69-114 | the first failing view ends the collection |
| JenkinsBackup.Unpack | lib/jenkins/backup.rb:158-164 | the loop's result is `UnpackEntries`: the unpacked files, or the path of the first entry it cannot write |
| JenkinsBackup.Backup.WriteXmlToArchive | lib/jenkins/backup.rb:182-192 | the loop's entries are `XmlEntries` of the directory |
| JenkinsBackup.Backup.StageJobConfigs | lib/jenkins/backup.rb:43-54 | the loop's result is `StageJobs` of the server's state and listing |
| JenkinsBackup.Backup.CollectViewConfigs | lib/jenkins/backup.rb:57-114 | the loop's result is `CollectViews` of the server's state and listing |
| JenkinsBackup.Backup.RunBackup | lib/jenkins/backup.rb:26-144 | the backup's name and entries are `BackupOf` of the server's state |
| JenkinsBackup.Backup.RestoreJobs | lib/jenkins/backup.rb:194-210 | the client keeps its invariant; the calls logged, the error and the new state are those of `JobsReplay` against the listing taken before the loop |
| JenkinsBackup.Backup.RestoreViews | lib/jenkins/backup.rb:212-232 | the client keeps its invariant; the calls logged and the new state are those of `ViewsReplay` against the listing taken before the loop |
| JenkinsBackup.Backup.RecreateView | lib/jenkins/backup.rb:219-229 | logs exactly one record's steps: delete when overwriting, create by name, add each job |
| JenkinsBackup.Backup.Restore | lib/jenkins/backup.rb:146-178 | the client keeps its invariant; the calls logged, the error and the new state are those of `RestoreArchive` of the archive's entries: nothing is issued when unpacking fails |
| Server.Without | lib/jenkins/backup.rb:203 | a deleted item leaves the listing and nothing else does |
| Server.With | lib/jenkins/backup.rb:207 | a created item is listed afterwards, along with everything listed before |
| Server.ApplyAllAppend | lib/jenkins/backup.rb:169-172 | issuing two runs of calls one after the other is issuing their concatenation |
| Server.JenkinsServer.constructor | lib/jenkins/backup.rb:19-23 | a fresh client has an empty log and satisfies its invariant |
| Server.JenkinsServer.Issue | lib/jenkins/backup.rb:203-228 | a call keeps the invariant, applies its effect and is appended to the log |
| Server.JenkinsServer.DeleteJob | lib/jenkins/backup.rb:203 | `job.delete` as a logged call |
| Server.JenkinsServer.CreateJob | lib/jenkins/backup.rb:207 | `job.create` as a logged call |
| Server.JenkinsServer.DeleteView | lib/jenkins/backup.rb:221 | `view.delete` as a logged call |
| Server.JenkinsServer.CreateListView | lib/jenkins/backup.rb:225 | `view.create_list_view` with the name only, as a logged call |
| Server.JenkinsServer.AddJob | lib/jenkins/backup.rb:228 | `view.add_job` as a logged call |
| Reconcile.LoadMetadata | lib/jenkins/backup.rb:165 | loading succeeds exactly when `metadata.yml` was unpacked and holds a metadata document |
| Reconcile.AddCalls | lib/jenkins/backup.rb:226-229 | one add call per recorded job, in record order: call k adds job k to the view |
| Reconcile.JobsReplayCalls | lib/jenkins/backup.rb:196-208 | every call is about a named job that is not kept; a create carries that job's archived XML; a delete happens only when overwriting |
| Reconcile.JobsReplayFailure | lib/jenkins/backup.rb:197-200 | the jobs restore fails exactly when a job it must create has no archived XML, and it reports such a job |
| Reconcile.JobsReplayIssues | lib/jenkins/backup.rb:197-207 | after a successful jobs restore a job was deleted exactly when overwriting and named, even if absent; every named job not kept was created with its XML |
| Reconcile.JobsReplayDeleteBeforeCreate | lib/jenkins/backup.rb:201-207 | a create comes straight after a delete of the same job exactly when overwriting |
| Reconcile.JobsReplayState | lib/jenkins/backup.rb:194-210 | afterwards every created job holds its archived XML; jobs not named or kept are unchanged; no view changed |
| Reconcile.JobStepsState | lib/jenkins/backup.rb:197-208 | one job's calls touch only that job, and leave it with its XML when it is not kept |
| Reconcile.ViewsReplayCalls | lib/jenkins/backup.rb:214-229 | every call is about a recorded view that is not "All" and not kept; an added job is in that view's record; a delete happens only when overwriting |
| Reconcile.ViewsReplayIssues | lib/jenkins/backup.rb:215-225 | a recorded view other than "All" is deleted exactly when overwriting, even if absent; it is created exactly when not kept |
| Reconcile.AddCallsState | lib/jenkins/backup.rb:226-229 | adding the recorded jobs to a new view leaves exactly those jobs in it and nothing else changed |
| Reconcile.ViewStepsState | lib/jenkins/backup.rb:215-229 | one record's calls leave that view with exactly its recorded jobs unless it is kept or "All", and touch no job and no other view |
| Reconcile.ViewsReplayState | lib/jenkins/backup.rb:212-232 | afterwards every recreated view lists exactly its recorded jobs; views not recorded, "All" and kept views are unchanged; no job changed |
| Reconcile.RestoreOrdering | lib/jenkins/backup.rb:168-172 | all job calls come before any view call |
| Reconcile.RestoreFailure | lib/jenkins/backup.rb:165-172 | no metadata means no call at all; a failed jobs restore means no view call |
| Reconcile.RestoreTwiceIssuesNothing | lib/jenkins/backup.rb:197 | restoring the same archive again without overwriting issues no call |
| Reconcile.NoDeletesKeepListing | lib/jenkins/backup.rb:225-228 | creating views and adding jobs never drops a listed view, lists each created view and touches no job |
| Reconcile.JobsAllKept | lib/jenkins/backup.rb:197 | without overwriting, a restore of jobs that all exist issues nothing |
| Reconcile.ViewsAllKept | lib/jenkins/backup.rb:215-216 | without overwriting, a restore of views that all exist issues nothing |
| Reconcile.JobsReplayStops | lib/jenkins/backup.rb:200 | the first missing XML ends the jobs restore |
| Reconcile.JobsReplayKept | lib/jenkins/backup.rb:197-198 | proof step for `Backup.RestoreJobs` (one unfolding of `JobsReplay`): a kept job adds no call. The promise is stated by `JobsReplayIssues` and `JobsReplayState` |
| Reconcile.JobsReplayMissing | lib/jenkins/backup.rb:200 | proof step for `Backup.RestoreJobs` (one unfolding of `JobsReplay`): a job that must be created and has no XML stops the jobs restore. The promise is stated by `JobsReplayFailure` |
| Reconcile.JobsReplayCreated | lib/jenkins/backup.rb:200-207 | proof step for `Backup.RestoreJobs` (one unfolding of `JobsReplay`): a job that must be created adds its delete (when overwriting) and its create. The promise is stated by `JobsReplayIssues`, `JobsReplayDeleteBeforeCreate` and `JobsReplayState` |
| Reconcile.ViewsReplayCreated | lib/jenkins/backup.rb:219-229 | proof step for `Backup.RestoreViews` (one unfolding of `ViewsReplay`): a recorded view that is not kept adds its steps. The promise is stated by `ViewsReplayIssues` and `ViewsReplayState` |
| Reconcile.ViewsReplayKept | lib/jenkins/backup.rb:215-217 | proof step for `Backup.RestoreViews` (one unfolding of `ViewsReplay`): "All" or a kept view adds no call. The promise is stated by `ViewsReplayCalls` and `ViewsReplayState` |
| Reconcile.JobsReplayKeepsViews | lib/jenkins/backup.rb:194-210 | the jobs restore leaves the view listing as it was |
| Reconcile.RestoreReplayStops | lib/jenkins/backup.rb:165-169 | proof step for `Backup.Restore` (the error cases of `RestoreReplay`). The promise is stated by `RestoreFailure` |
| Reconcile.RestoreReplayCompletes | lib/jenkins/backup.rb:169-172 | proof step for `Backup.Restore` (the success case of `RestoreReplay`). The promise is stated by `RestoreOrdering` |
| Reconcile.RestoreArchive | lib/jenkins/backup.rb:158-172 | an archive with an entry that cannot be unpacked issues no call and fails naming an unwritable path; otherwise the restore is `RestoreReplay` of the unpacked files |
| Reconcile.RestoreStrayFirstEntry | lib/jenkins/backup.rb:158-172 | an archive starting with `other/a.xml` restores nothing, whatever entries follow |
| ViewXml.FilterQueue | lib/jenkins/backup.rb:77-78 | `filter_queue`: the `filterQueue` capture; its meaning is stated by `ExtractTag` and `ExtractTagLeftmostLongest` |
| ViewXml.FilterExecutors | lib/jenkins/backup.rb:81-82 | `filter_executors`: the `filterExecutors` capture; stated by `ExtractTag` and `ExtractTagLeftmostLongest` |
| ViewXml.IncludeRegex | lib/jenkins/backup.rb:85-86 | `regex`: the `includeRegex` capture; stated by `ExtractTag`, `ExtractTagLeftmostLongest` and `ExtractTagAbsent` |
| Differencer.Implied | lib/jenkins/backup.rb:97 | `regex && job =~ /#{regex}/`, with the regex engine as the parameter `matches` |
| Differencer.Unmatched | lib/jenkins/backup.rb:95-100 | the specification of the loop; its properties are stated by `UnmatchedMembership`, `UnmatchedAppend`, `UnmatchedCount` and `UnmatchedWithoutRegex`, and `UnmatchedJobs` is proved equal to it |
| Metadata.ViewRecord | lib/jenkins/backup.rb:76-113 | one view record: name, the three captures and the unmatched members; `CollectViewsRecords` proves the backup records exactly these |
| Archive.BaseName | lib/jenkins/backup.rb:26 | `name = "jenkins"`; read back by `ArchiveNameRoundTrip` |
| Archive.ParseArchiveName | lib/jenkins/backup.rb:120 | the inverse of `ArchiveName`, proved so by `ArchiveNameRoundTrip` |
| Archive.XmlFile | lib/jenkins/backup.rb:53 | `"#{name}.xml"`; `XmlFileInjective` proves distinct names give distinct files |
| Archive.GlobMatch | lib/jenkins/backup.rb:183 | the pattern `*xml`: no leading `.`, ending in `xml`; used by `Matching` and `Glob` |
| Archive.LastPiece | lib/jenkins/backup.rb:184 | the last piece of `split`; stated for staged paths by `ShortNameOfStaged` |
| Archive.ShortName | lib/jenkins/backup.rb:184 | `fn.split("#{tmp_dir}/").last`; stated for staged paths by `ShortNameOfStaged` |
| Archive.MetadataEntry | lib/jenkins/backup.rb:128-134 | the `metadata.yml` entry; `PackedMetadata` proves it unpacks to the metadata |
| Archive.Pack | lib/jenkins/backup.rb:120-134 | the archive; its layout is stated by `PackLayout` and `PackPathsDistinct`, and its inverse by `PackUnpackRoundTrip` |
| Archive.Unpacked | lib/jenkins/backup.rb:158-163 | the unpacked staging directory; stated by `UnpackedKeys`, `UnpackedUnique` and `PackUnpackRoundTrip` |
| Archive.Writable | lib/jenkins/backup.rb:149-162 | the paths `File.open` can write during a restore; used by `UnpackEntries`, `PackWritable` and `UnpackStrayEntry` |
| JenkinsBackup.PortOf | lib/jenkins/backup.rb:36 | `server_port || 8080`; `BackupMetadata` proves it is what the metadata holds |
| JenkinsBackup.CollectViews | lib/jenkins/backup.rb:69-113 | the views loop, stopping at the first failure; the staged directory is consistent and flat. Stated by `CollectViewsOutcome`, `CollectViewsRecords` and `CollectViewsFiles`, and `Backup.CollectViewConfigs` is proved equal to it |
| JenkinsBackup.ViewRecords | lib/jenkins/backup.rb:107-113 | the records of a list of views, one per view, in order; `CollectViewsRecords` proves the backup collects them |
| JenkinsBackup.MetadataOf | lib/jenkins/backup.rb:28-63 | the metadata record; its fields are stated by `BackupMetadata` |
| JenkinsBackup.BackupOf | lib/jenkins/backup.rb:26-144 | the whole backup; stated by `BackupOutcome`, `BackupMetadata`, `BackupDocuments`, `BackupWritable` and `BackupThenRestore`, and `Backup.RunBackup` is proved equal to it |
| Server.Apply | lib/jenkins/backup.rb:203-228 | the effect of one changing call, under the assumptions listed under "## Left out"; used through `JobStepsState`, `AddCallsState` and `ViewStepsState` |
| Server.ApplyAll | lib/jenkins/backup.rb:194-232 | the calls issued one after the other; stated by `ApplyAllAppend`, and the state after a restore by `JobsReplayState` and `ViewsReplayState` |
| Reconcile.JobPath | lib/jenkins/backup.rb:200 | `"#{jobs_dir}/#{job}.xml"` relative to the staging directory; `UnpackedJobPath` proves it is where the backup archives a job |
| Reconcile.ReadXml | lib/jenkins/backup.rb:200 | `File.read`: the text of an unpacked XML document; `BackupDocuments` proves it gives each job's archived configuration |
| Reconcile.Kept | lib/jenkins/backup.rb:197 | the skip test of restore_jobs and restore_views (lines 197 and 216) |
| Reconcile.JobCalls | lib/jenkins/backup.rb:201-207 | a job's delete (when overwriting) and create; `JobsReplayDeleteBeforeCreate` states the order |
| Reconcile.JobSteps | lib/jenkins/backup.rb:197-208 | one pass of the jobs loop; its effect is stated by `JobStepsState` |
| Reconcile.JobsReplay | lib/jenkins/backup.rb:194-210 | the jobs restore; stated by `JobsReplayCalls`, `JobsReplayFailure`, `JobsReplayIssues`, `JobsReplayDeleteBeforeCreate` and `JobsReplayState`, and `Backup.RestoreJobs` is proved to issue it |
| Reconcile.ViewHead | lib/jenkins/backup.rb:219-225 | a view's delete (when overwriting) and create by name |
| Reconcile.ViewSteps | lib/jenkins/backup.rb:215-229 | one pass of the views loop; its effect is stated by `ViewStepsState`, and `Backup.RecreateView` is proved to issue it |
| Reconcile.ViewsReplay | lib/jenkins/backup.rb:212-232 | the views restore; stated by `ViewsReplayCalls`, `ViewsReplayIssues` and `ViewsReplayState`, and `Backup.RestoreViews` is proved to issue it |
| Reconcile.RestoreReplay | lib/jenkins/backup.rb:165-172 | the restore of unpacked files; stated by `RestoreOrdering`, `RestoreFailure` and `RestoreTwiceIssuesNothing` |

## Left out

- Network access: `JenkinsApi::Client` is foreign code. The client is modelled by `Server.JenkinsServer`, a map-based state plus a call log. Only the calls backup and restore make are in it.
- Server.JenkinsServer.JobConfig, Server.JenkinsServer.ViewConfig and Server.JenkinsServer.ViewJobs: stand-ins for the client's reads (`job.get_config`, `view.get_config`, `view.list_jobs`). They look the item up in the server's state and give None where the client would raise. What the backup does with them is stated by `StageJobConfigs`, `CollectViewConfigs`, `StageJobsOutcome` and `CollectViewsOutcome`.
- Client errors: a read of a job or view the server does not have is a modelled error. Other client exceptions (authentication, connection, HTTP status) are not modelled.
- Server.Apply states these assumptions about the server's changing calls. The real client may raise or the real server may behave differently in each case:
  - a `job.delete` or `view.delete` of an absent item changes nothing; the real client may raise on a missing item (an HTTP error status). These are the deletes issued when overwriting (lib/jenkins/backup.rb:201-203, 219-221);
  - `job.create` of an existing job replaces its configuration; the real server refuses it. The restore issues one only when the metadata names a job twice or the job appeared after the listing was taken;
  - `create_list_view` of an existing view starts it empty; the real server refuses it, in the same cases;
  - `view.add_job` on an absent view changes nothing; the restore always creates the view first;
  - `view.add_job` of a name that is not a job on the server adds the name to the view; the real server refuses it and the client raises. A backup records such a name when a view lists a job the top-level job listing lacks (for example a job inside a folder, listed by a recursive view);
  - deleting a job keeps it in every view's member list. Jenkins drops a deleted job from its views;
  - a regex view does not pick up jobs on its own;
  - the configuration Jenkins generates for a new view is left unknown.
- JenkinsBackup.BackupThenRestore and Reconcile.JobsReplayState ("no view changed") rest on those assumptions. With the real client, an overwriting restore of an absent item may raise, adding a view member that is not a job on the target server raises, and the views would lose deleted jobs.
- Regular expressions: the engine behind `job =~ /#{regex}/` is the parameter `matches`. An invalid regex, which raises in Ruby, is not modelled.
- libarchive and gzip: an archive is a sequence of entries (path, content). The tar format, compression and `copy_stat` are not modelled.
- YAML: `metadata.yml` holds the metadata record as a value, and `YAML.load_file` is its inverse. Encoding details and the safe-load behaviour of newer Psych versions, which would refuse the `:jobs` symbol keys, are not modelled. A metadata document at a job's XML path counts as a missing file; Ruby's `File.read` would return its text.
- Time: `Time.now` is the parameter `now` in whole seconds. The sub-second part stored under `:timestamp` is dropped, and so are the elapsed-time messages.
- Console output (`puts`) is not modelled.
- Temporary directories: `Dir.mktmpdir` is the parameter `tmpDir` (an absolute path). `Dir.mkdir` and `FileUtils.rm_rf` are not modelled.
- `Dir.glob` order is modelled as sorted, as Ruby 3 returns it. Older Rubies return file-system order.
- File names: the model treats any '/' in a staged job or view name as a write failure. Path resolution is not modelled: in Ruby a name such as `../views/x` or `/x` resolves through directories that exist, and the write succeeds. Jenkins job and view names cannot contain '/', so the case does not arise on a real server. No other write error of the backup's staging is modelled.
- Archive paths: a restore writes each entry under the staging directory, which holds only `jobs/` and `views/`. Archive.Writable takes the path literally: it must name a file directly in the staging directory (not `jobs` or `views`), or directly in one of the two. Path resolution is not modelled. A path through `..` or a symbolic link is treated as unwritable, but Ruby resolves it and may write outside the staging directory.
- The view XML files and top-level entries other than `metadata.yml` are unpacked but never read.
- Archive.LastPiece: `String#split` drops trailing empty pieces. The model covers the paths a backup writes and does not model that case for an arbitrary path.
- The tool's version (lib/jenkins/version.rb) is the parameter `toolVersion`.
- The settings (lib/jenkins/configuration.rb, lib/jenkins.rb) are not part of this model; they are the `Settings` value. The password only reaches the client and is not kept.
