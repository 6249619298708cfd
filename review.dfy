/** The review session of the blank-note scan: the list of blank notes found,
    their selection state, the selected counter and the "select all" toggle,
    and the operations that change them (scan, toggle, select all, single
    delete, batch delete). Vault reads and deletes are supplied as sequences
    of outcomes. */
module Review {
  import opened Text
  import opened Classifier

  /** A vault file: its path (unique in the vault) and its base name. */
  datatype FileRef = FileRef(path: string, basename: string)

  /** One blank note under review (`FileSnippet`). */
  datatype Snippet = Snippet(file: FileRef, title: string, contentLength: nat, selected: bool)

  /** What reading one file gave: its text, or an exception. */
  datatype ReadOutcome = Read(content: string) | ReadFailed

  // ---------------------------------------------------------------------
  // Specification functions over the snippet list.

  /** The filters the session applies to its list: keep the selected
      snippets, keep the unselected ones, or keep those of any other path. */
  datatype Criterion = KeepSelected | KeepUnselected | KeepOtherPath(path: string)

  predicate Accepts(keep: Criterion, s: Snippet) {
    match keep
    case KeepSelected => s.selected
    case KeepUnselected => !s.selected
    case KeepOtherPath(path) => s.file.path != path
  }

  predicate AllSelected(ss: seq<Snippet>) {
    forall k :: 0 <= k < |ss| ==> ss[k].selected
  }

  ghost predicate DistinctPaths(ss: seq<Snippet>) {
    forall i, j :: 0 <= i < j < |ss| ==> ss[i].file.path != ss[j].file.path
  }

  ghost predicate DistinctFilePaths(files: seq<FileRef>) {
    forall i, j :: 0 <= i < j < |files| ==> files[i].path != files[j].path
  }

  /** Number of selected snippets: the value `selectedCount` must track. */
  function CountSelected(ss: seq<Snippet>): (n: nat)
    ensures n <= |ss|
  {
    if ss == [] then 0
    else CountSelected(ss[..|ss| - 1]) + (if ss[|ss| - 1].selected then 1 else 0)
  }

  /** The count is zero exactly when nothing is selected, and the length of
      the list exactly when everything is. */
  lemma {:induction false} CountSelectedExtremes(ss: seq<Snippet>)
    ensures CountSelected(ss) == 0 <==> forall k :: 0 <= k < |ss| ==> !ss[k].selected
    ensures CountSelected(ss) == |ss| <==> AllSelected(ss)
  {
    if ss != [] {
      var n := |ss| - 1;
      CountSelectedExtremes(ss[..n]);
      assert forall k :: 0 <= k < n ==> ss[..n][k] == ss[k];
    }
  }

  /** `Array.prototype.filter`: the snippets `keep` accepts, in their order. */
  function Filter(ss: seq<Snippet>, keep: Criterion): (r: seq<Snippet>)
    ensures |r| <= |ss|
  {
    if ss == [] then []
    else
      var last := ss[|ss| - 1];
      Filter(ss[..|ss| - 1], keep) + (if Accepts(keep, last) then [last] else [])
  }

  /** The list after removing every snippet of the given path. */
  function WithoutPath(ss: seq<Snippet>, path: string): seq<Snippet> {
    Filter(ss, KeepOtherPath(path))
  }

  /** The selected snippets, in list order. */
  function Selected(ss: seq<Snippet>): (r: seq<Snippet>)
    ensures |r| == CountSelected(ss)
  {
    SelectedCount(ss);
    Filter(ss, KeepSelected)
  }

  /** What a successful read of a blank file adds to the list: one unselected
      snippet for that file. */
  ghost predicate EntryFor(e: seq<Snippet>, file: FileRef) {
    e == [] || (|e| == 1 && e[0].file == file && !e[0].selected)
  }

  /** The snippet one file contributes to the scan: nothing when the read
      failed or the note is not blank; otherwise its title and body length,
      unselected. */
  function Entry(file: FileRef, read: ReadOutcome, template: string): (e: seq<Snippet>)
    ensures EntryFor(e, file)
    ensures e != [] <==> read.Read? && IsBlank(read.content, template)
  {
    match read
    case ReadFailed => []
    case Read(content) =>
      var a := Assess(content, template);
      if a.isBlank then [Snippet(file, a.title, a.contentLength, false)] else []
  }

  /** The per-file step of the scan for a fixed template. */
  function ScanEntry(template: string): (FileRef, ReadOutcome) -> seq<Snippet> {
    (file: FileRef, read: ReadOutcome) => Entry(file, read, template)
  }

  /** The entries of the files, concatenated in enumeration order. */
  function Collect(files: seq<FileRef>, readResults: seq<ReadOutcome>,
                   entry: (FileRef, ReadOutcome) -> seq<Snippet>): seq<Snippet>
    requires |readResults| == |files|
  {
    if files == [] then []
    else
      var n := |files| - 1;
      Collect(files[..n], readResults[..n], entry) + entry(files[n], readResults[n])
  }

  ghost predicate EntriesFor(files: seq<FileRef>, readResults: seq<ReadOutcome>,
                             entry: (FileRef, ReadOutcome) -> seq<Snippet>) {
    |readResults| == |files| &&
    forall k :: 0 <= k < |files| ==> EntryFor(entry(files[k], readResults[k]), files[k])
  }

  /** The list a scan builds: one unselected snippet per successfully read
      blank file, in enumeration order. */
  function ScanResult(files: seq<FileRef>, readResults: seq<ReadOutcome>, template: string): seq<Snippet>
    requires |readResults| == |files|
  {
    Collect(files, readResults, ScanEntry(template))
  }

  /** Number of files whose read succeeded. */
  function ReadSuccesses(readResults: seq<ReadOutcome>): nat
  {
    if readResults == [] then 0
    else ReadSuccesses(readResults[..|readResults| - 1]) + (if readResults[|readResults| - 1].Read? then 1 else 0)
  }

  lemma ReadSuccessesStep(readResults: seq<ReadOutcome>, i: nat)
    requires i < |readResults|
    ensures ReadSuccesses(readResults[..i + 1]) == ReadSuccesses(readResults[..i]) + (if readResults[i].Read? then 1 else 0)
  {
    assert readResults[..i + 1][..i] == readResults[..i];
  }

  /** The progress reports after `n` successful reads: one each time the
      processed count reaches a multiple of ten. */
  function Milestones(n: nat): seq<nat> {
    if n == 0 then []
    else Milestones(n - 1) + (if n % 10 == 0 then [n] else [])
  }

  /** The progress message of the scan: after a file is processed, a report
      is added when the processed count is a multiple of ten. */
  method ReportProgress(processedCount: nat, progress: seq<nat>) returns (progress': seq<nat>)
    requires processedCount > 0 && progress == Milestones(processedCount - 1)
    ensures progress' == Milestones(processedCount)
  {
    progress' := progress;
    if processedCount % 10 == 0 {
      progress' := progress' + [processedCount];
    }
  }

  /** Progress is reported at 10, 20, 30, ... and at nothing else. */
  lemma {:induction false} MilestonesEveryTen(n: nat)
    ensures |Milestones(n)| == n / 10
    ensures forall k :: 0 <= k < |Milestones(n)| ==> Milestones(n)[k] == 10 * (k + 1)
  {
    if n > 0 {
      MilestonesEveryTen(n - 1);
    }
  }

  /** Number of successful deletes. */
  function CountTrue(outcomes: seq<bool>): (n: nat)
    ensures n <= |outcomes|
  {
    if outcomes == [] then 0
    else CountTrue(outcomes[..|outcomes| - 1]) + (if outcomes[|outcomes| - 1] then 1 else 0)
  }

  /** The files a batch delete removes from the vault: those of the attempted
      snippets whose delete succeeded. */
  function DeletedFiles(attempted: seq<Snippet>, outcomes: seq<bool>): (r: seq<FileRef>)
    requires |outcomes| == |attempted|
    ensures |r| == CountTrue(outcomes)
  {
    if attempted == [] then []
    else
      var n := |attempted| - 1;
      DeletedFiles(attempted[..n], outcomes[..n]) + (if outcomes[n] then [attempted[n].file] else [])
  }

  /** The intended list after a batch delete: every unselected snippet, and
      every selected snippet whose delete failed (still selected); `outcomes`
      holds one outcome per selected snippet, in list order. */
  function AfterBatchDelete(ss: seq<Snippet>, outcomes: seq<bool>): (r: seq<Snippet>)
    requires |outcomes| == CountSelected(ss)
  {
    if ss == [] then []
    else
      var n := |ss| - 1;
      var last := ss[n];
      if last.selected then
        var m := |outcomes| - 1;
        AfterBatchDelete(ss[..n], outcomes[..m]) + (if outcomes[m] then [] else [last])
      else
        AfterBatchDelete(ss[..n], outcomes) + [last]
  }

  // ---------------------------------------------------------------------
  // Lemmas about counting and filtering.

  lemma {:induction false} CountSelectedConcat(a: seq<Snippet>, b: seq<Snippet>)
    ensures CountSelected(a + b) == CountSelected(a) + CountSelected(b)
    decreases |b|
  {
    if b != [] {
      var n := |b| - 1;
      assert (a + b)[..|a + b| - 1] == a + b[..n];
      CountSelectedConcat(a, b[..n]);
    } else {
      assert a + b == a;
    }
  }

  lemma {:induction false} FilterConcat(a: seq<Snippet>, b: seq<Snippet>, keep: Criterion)
    ensures Filter(a + b, keep) == Filter(a, keep) + Filter(b, keep)
    decreases |b|
  {
    if b != [] {
      var n := |b| - 1;
      assert (a + b)[..|a + b| - 1] == a + b[..n];
      FilterConcat(a, b[..n], keep);
    } else {
      assert a + b == a;
    }
  }

  /** A filter that keeps every element is the identity. */
  lemma {:induction false} FilterKeepsAll(ss: seq<Snippet>, keep: Criterion)
    requires forall k :: 0 <= k < |ss| ==> Accepts(keep, ss[k])
    ensures Filter(ss, keep) == ss
  {
    if ss != [] {
      FilterKeepsAll(ss[..|ss| - 1], keep);
    }
  }

  /** The filter keeps exactly the elements `keep` accepts. */
  lemma {:induction false} FilterMembers(ss: seq<Snippet>, keep: Criterion)
    ensures forall s :: s in Filter(ss, keep) <==> s in ss && Accepts(keep, s)
  {
    if ss != [] {
      var n := |ss| - 1;
      FilterMembers(ss[..n], keep);
      assert ss == ss[..n] + [ss[n]];
    }
  }

  /** The selected snippets number `CountSelected`. */
  lemma {:induction false} SelectedCount(ss: seq<Snippet>)
    ensures |Filter(ss, KeepSelected)| == CountSelected(ss)
  {
    if ss != [] {
      SelectedCount(ss[..|ss| - 1]);
    }
  }

  /** Filtering keeps paths distinct. */
  lemma {:induction false} FilterDistinct(ss: seq<Snippet>, keep: Criterion)
    requires DistinctPaths(ss)
    ensures DistinctPaths(Filter(ss, keep))
  {
    if ss != [] {
      var n := |ss| - 1;
      var init := ss[..n];
      FilterDistinct(init, keep);
      FilterMembers(init, keep);
      var f := Filter(init, keep);
      forall s | s in f ensures s.file.path != ss[n].file.path {
        var i :| 0 <= i < |init| && init[i] == s;
        assert ss[i] == s;
      }
      var r := Filter(ss, keep);
      forall i, j | 0 <= i < j < |r| ensures r[i].file.path != r[j].file.path {
        if j >= |f| {
          assert r[i] == f[i] && r[i] in f;
        } else {
          assert r[i] == f[i] && r[j] == f[j];
        }
      }
    }
  }

  /** Toggling one snippet moves the count by one in the toggled direction. */
  lemma CountAfterUpdate(ss: seq<Snippet>, i: nat, x: Snippet)
    requires i < |ss|
    ensures CountSelected(ss[i := x]) ==
            CountSelected(ss) - (if ss[i].selected then 1 else 0) + (if x.selected then 1 else 0)
  {
    assert ss == ss[..i] + [ss[i]] + ss[i + 1..];
    assert ss[i := x] == ss[..i] + [x] + ss[i + 1..];
    CountSelectedConcat(ss[..i] + [ss[i]], ss[i + 1..]);
    CountSelectedConcat(ss[..i], [ss[i]]);
    CountSelectedConcat(ss[..i] + [x], ss[i + 1..]);
    CountSelectedConcat(ss[..i], [x]);
  }

  /** With distinct paths, removing one snippet's path removes exactly that
      snippet and keeps the others in order. */
  lemma RemovePathAt(ss: seq<Snippet>, i: nat)
    requires DistinctPaths(ss) && i < |ss|
    ensures WithoutPath(ss, ss[i].file.path) == ss[..i] + ss[i + 1..]
  {
    var keep := KeepOtherPath(ss[i].file.path);
    var front, back := ss[..i], ss[i + 1..];
    assert ss == front + [ss[i]] + back;
    forall k | 0 <= k < |front| ensures Accepts(keep, front[k]) {
      assert front[k] == ss[k];
    }
    forall k | 0 <= k < |back| ensures Accepts(keep, back[k]) {
      assert back[k] == ss[i + 1 + k];
    }
    FilterAround(front, ss[i], back, keep);
  }

  /** Filtering out one snippet that the filter rejects, between runs it
      accepts, leaves the two runs. */
  lemma FilterAround(front: seq<Snippet>, x: Snippet, back: seq<Snippet>, keep: Criterion)
    requires forall k :: 0 <= k < |front| ==> Accepts(keep, front[k])
    requires forall k :: 0 <= k < |back| ==> Accepts(keep, back[k])
    requires !Accepts(keep, x)
    ensures Filter(front + [x] + back, keep) == front + back
  {
    assert Filter([x], keep) == [] by {
      assert [x][..0] == [];
    }
    assert Filter(front + [x], keep) == front by {
      FilterConcat(front, [x], keep);
      FilterKeepsAll(front, keep);
      assert front + [] == front;
    }
    assert Filter(back, keep) == back by {
      FilterKeepsAll(back, keep);
    }
    FilterConcat(front + [x], back, keep);
  }

  /** Appending one snippet adds one to the count exactly when it is
      selected. */
  lemma CountSelectedSnoc(ss: seq<Snippet>, x: Snippet)
    ensures CountSelected(ss + [x]) == CountSelected(ss) + (if x.selected then 1 else 0)
  {
    assert (ss + [x])[..|ss|] == ss;
  }

  /** Removing the snippet at `i` lowers the count by one exactly when it was
      selected. */
  lemma RemoveAtCount(ss: seq<Snippet>, i: nat)
    requires i < |ss|
    ensures CountSelected(ss[..i] + ss[i + 1..]) == CountSelected(ss) - (if ss[i].selected then 1 else 0)
  {
    var front, back := ss[..i], ss[i + 1..];
    var upto := ss[..i + 1];
    assert upto[..i] == front;
    assert ss == upto + back;
    CountSelectedConcat(upto, back);
    CountSelectedConcat(front, back);
  }

  /** Removing the snippet at `i` keeps "every snippet selected" and distinct
      paths, and with distinct paths no remaining snippet has its path. */
  lemma RemoveAtKeeps(ss: seq<Snippet>, i: nat)
    requires i < |ss|
    ensures AllSelected(ss) ==> AllSelected(ss[..i] + ss[i + 1..])
    ensures DistinctPaths(ss) ==> DistinctPaths(ss[..i] + ss[i + 1..])
    ensures DistinctPaths(ss) ==> forall s :: s in ss[..i] + ss[i + 1..] ==> s.file.path != ss[i].file.path
  {
    var r := ss[..i] + ss[i + 1..];
    forall k | 0 <= k < |r| ensures r[k] == ss[if k < i then k else k + 1] {
    }
  }

  // ---------------------------------------------------------------------
  // Lemmas about the scan.

  /** Collecting over a concatenated file list collects the parts one after
      the other. */
  lemma {:induction false} CollectConcat(f1: seq<FileRef>, r1: seq<ReadOutcome>,
                                         f2: seq<FileRef>, r2: seq<ReadOutcome>,
                                         entry: (FileRef, ReadOutcome) -> seq<Snippet>)
    requires |r1| == |f1| && |r2| == |f2|
    ensures Collect(f1 + f2, r1 + r2, entry) == Collect(f1, r1, entry) + Collect(f2, r2, entry)
    decreases |f2|
  {
    if f2 == [] {
      assert f1 + f2 == f1 && r1 + r2 == r1;
    } else {
      var n := |f2| - 1;
      assert (f1 + f2)[..|f1 + f2| - 1] == f1 + f2[..n];
      assert (r1 + r2)[..|r1 + r2| - 1] == r1 + r2[..n];
      CollectConcat(f1, r1, f2[..n], r2[..n], entry);
    }
  }

  lemma {:induction false} CollectUnselected(files: seq<FileRef>, readResults: seq<ReadOutcome>,
                                             entry: (FileRef, ReadOutcome) -> seq<Snippet>)
    requires EntriesFor(files, readResults, entry)
    ensures CountSelected(Collect(files, readResults, entry)) == 0
  {
    if files != [] {
      var n := |files| - 1;
      assert forall k :: 0 <= k < n ==> files[..n][k] == files[k] && readResults[..n][k] == readResults[k];
      CollectUnselected(files[..n], readResults[..n], entry);
      assert EntryFor(entry(files[n], readResults[n]), files[n]);
      CountSelectedConcat(Collect(files[..n], readResults[..n], entry), entry(files[n], readResults[n]));
    }
  }

  /** Every collected snippet belongs to one of the files. */
  lemma {:induction false} CollectFiles(files: seq<FileRef>, readResults: seq<ReadOutcome>,
                                        entry: (FileRef, ReadOutcome) -> seq<Snippet>)
    requires EntriesFor(files, readResults, entry)
    ensures forall s :: s in Collect(files, readResults, entry) ==> s.file in files
  {
    if files != [] {
      var n := |files| - 1;
      assert forall k :: 0 <= k < n ==> files[..n][k] == files[k] && readResults[..n][k] == readResults[k];
      CollectFiles(files[..n], readResults[..n], entry);
      assert EntryFor(entry(files[n], readResults[n]), files[n]);
      assert files == files[..n] + [files[n]];
    }
  }

  /** With distinct file paths, the collected snippets have distinct paths. */
  lemma {:induction false} CollectDistinct(files: seq<FileRef>, readResults: seq<ReadOutcome>,
                                           entry: (FileRef, ReadOutcome) -> seq<Snippet>)
    requires EntriesFor(files, readResults, entry) && DistinctFilePaths(files)
    ensures DistinctPaths(Collect(files, readResults, entry))
  {
    if files != [] {
      var n := |files| - 1;
      var init := Collect(files[..n], readResults[..n], entry);
      var e := entry(files[n], readResults[n]);
      var r := Collect(files, readResults, entry);
      assert forall k :: 0 <= k < n ==> files[..n][k] == files[k] && readResults[..n][k] == readResults[k];
      CollectDistinct(files[..n], readResults[..n], entry);
      CollectFiles(files[..n], readResults[..n], entry);
      assert EntryFor(e, files[n]);
      assert r == init + e;
      forall s | s in init ensures s.file.path != files[n].path {
        var j :| 0 <= j < n && files[..n][j] == s.file;
      }
      forall i, j | 0 <= i < j < |r| ensures r[i].file.path != r[j].file.path {
        if j >= |init| {
          assert r[i] == init[i] && r[i] in init;
        } else {
          assert r[i] == init[i] && r[j] == init[j];
        }
      }
    }
  }

  /** No collected snippet has a path that none of the files has. */
  lemma CollectAvoids(files: seq<FileRef>, readResults: seq<ReadOutcome>,
                      entry: (FileRef, ReadOutcome) -> seq<Snippet>, path: string)
    requires EntriesFor(files, readResults, entry)
    requires forall j :: 0 <= j < |files| ==> files[j].path != path
    ensures forall s :: s in Collect(files, readResults, entry) ==> s.file.path != path
  {
    CollectFiles(files, readResults, entry);
  }

  /** With distinct file paths, a file is in the collected list exactly when
      its own entry is not empty. */
  lemma CollectHas(files: seq<FileRef>, readResults: seq<ReadOutcome>,
                   entry: (FileRef, ReadOutcome) -> seq<Snippet>, k: nat)
    requires EntriesFor(files, readResults, entry) && DistinctFilePaths(files) && k < |files|
    ensures (exists s :: s in Collect(files, readResults, entry) && s.file == files[k]) <==>
            entry(files[k], readResults[k]) != []
  {
    var f0, r0 := files[..k], readResults[..k];
    var f2, r2 := files[k + 1..], readResults[k + 1..];
    var e := entry(files[k], readResults[k]);
    var p := files[k].path;
    CollectSplit(files, readResults, entry, k);
    assert EntriesFor(f0, r0, entry) && forall j :: 0 <= j < |f0| ==> f0[j].path != p by {
      assert forall j :: 0 <= j < k ==> f0[j] == files[j] && r0[j] == readResults[j];
    }
    assert EntriesFor(f2, r2, entry) && forall j :: 0 <= j < |f2| ==> f2[j].path != p by {
      assert forall j :: 0 <= j < |f2| ==> f2[j] == files[k + 1 + j] && r2[j] == readResults[k + 1 + j];
    }
    CollectAvoids(f0, r0, entry, p);
    CollectAvoids(f2, r2, entry, p);
    assert EntryFor(e, files[k]);
    if e != [] {
      assert e[0] in Collect(files, readResults, entry);
    }
  }

  /** The collected list around one file: the files before it, its entry, the
      files after it. */
  lemma CollectSplit(files: seq<FileRef>, readResults: seq<ReadOutcome>,
                     entry: (FileRef, ReadOutcome) -> seq<Snippet>, k: nat)
    requires |readResults| == |files| && k < |files|
    ensures Collect(files, readResults, entry) ==
            Collect(files[..k], readResults[..k], entry) + entry(files[k], readResults[k]) +
            Collect(files[k + 1..], readResults[k + 1..], entry)
  {
    var f1, r1 := files[..k + 1], readResults[..k + 1];
    var f2, r2 := files[k + 1..], readResults[k + 1..];
    assert files == f1 + f2 && readResults == r1 + r2;
    CollectConcat(f1, r1, f2, r2, entry);
    CollectStep(files, readResults, entry, k);
  }

  /** Both of the above for every file. */
  lemma CollectFinds(files: seq<FileRef>, readResults: seq<ReadOutcome>,
                     entry: (FileRef, ReadOutcome) -> seq<Snippet>)
    requires EntriesFor(files, readResults, entry) && DistinctFilePaths(files)
    ensures DistinctPaths(Collect(files, readResults, entry))
    ensures forall k :: 0 <= k < |files| ==>
              ((exists s :: s in Collect(files, readResults, entry) && s.file == files[k]) <==>
               entry(files[k], readResults[k]) != [])
  {
    CollectDistinct(files, readResults, entry);
    forall k | 0 <= k < |files|
      ensures (exists s :: s in Collect(files, readResults, entry) && s.file == files[k]) <==>
              entry(files[k], readResults[k]) != []
    {
      CollectHas(files, readResults, entry, k);
    }
  }

  lemma ScanEntriesWellFormed(files: seq<FileRef>, readResults: seq<ReadOutcome>, template: string)
    requires |readResults| == |files|
    ensures EntriesFor(files, readResults, ScanEntry(template))
  {
  }

  /** A file with an empty entry leaves the collected list as that of the
      files before it followed by that of the files after it. */
  lemma CollectSkip(files: seq<FileRef>, readResults: seq<ReadOutcome>,
                    entry: (FileRef, ReadOutcome) -> seq<Snippet>, i: nat)
    requires |readResults| == |files| && i < |files| && entry(files[i], readResults[i]) == []
    ensures Collect(files, readResults, entry) ==
            Collect(files[..i], readResults[..i], entry) + Collect(files[i + 1..], readResults[i + 1..], entry)
  {
    CollectSplit(files, readResults, entry, i);
  }

  /** One more file extends the collected list by that file's entry. */
  lemma CollectStep(files: seq<FileRef>, readResults: seq<ReadOutcome>,
                    entry: (FileRef, ReadOutcome) -> seq<Snippet>, i: nat)
    requires |readResults| == |files| && i < |files|
    ensures Collect(files[..i + 1], readResults[..i + 1], entry) ==
            Collect(files[..i], readResults[..i], entry) + entry(files[i], readResults[i])
  {
    assert files[..i + 1][..i] == files[..i];
    assert readResults[..i + 1][..i] == readResults[..i];
  }

  /** A failed read contributes nothing and leaves the rest of the scan as it
      would have been without that file. */
  lemma FailedReadSkipsOnlyThatFile(files: seq<FileRef>, readResults: seq<ReadOutcome>, i: nat, template: string)
    requires |readResults| == |files| && i < |files| && readResults[i] == ReadFailed
    ensures ScanResult(files, readResults, template) ==
            ScanResult(files[..i], readResults[..i], template) + ScanResult(files[i + 1..], readResults[i + 1..], template)
  {
    CollectSkip(files, readResults, ScanEntry(template), i);
  }

  /** A scan of files with distinct paths yields unselected snippets with
      distinct paths. */
  lemma ScanWellFormed(files: seq<FileRef>, readResults: seq<ReadOutcome>, template: string)
    requires |readResults| == |files| && DistinctFilePaths(files)
    ensures CountSelected(ScanResult(files, readResults, template)) == 0
    ensures DistinctPaths(ScanResult(files, readResults, template))
  {
    ScanEntriesWellFormed(files, readResults, template);
    CollectUnselected(files, readResults, ScanEntry(template));
    CollectDistinct(files, readResults, ScanEntry(template));
  }

  /** A scan of files with distinct paths yields snippets with distinct
      paths, and a file is in the result exactly when its read succeeded and
      its note is blank. */
  lemma ScanFindsBlankFiles(files: seq<FileRef>, readResults: seq<ReadOutcome>, template: string)
    requires |readResults| == |files| && DistinctFilePaths(files)
    ensures DistinctPaths(ScanResult(files, readResults, template))
    ensures forall k :: 0 <= k < |files| ==>
              ((exists s :: s in ScanResult(files, readResults, template) && s.file == files[k]) <==>
               readResults[k].Read? && IsBlank(readResults[k].content, template))
  {
    CollectFinds(files, readResults, ScanEntry(template));
  }

  // ---------------------------------------------------------------------
  // The scan as `src/main.ts` writes it: `ScanModal` is built without
  // settings. Type checking rejects that call, so this is the behaviour of a
  // build that strips the types without checking them.

  /** What one read amounts to in the scan loop when `ScanModal` is built
      without settings. The blank test evaluates the template check only when the body is not blank
      (`||` short-circuits), and there `this.settings.journalTemplate`
      throws because `settings` is undefined; the loop's `catch` then treats
      the file like one whose read failed. The template plays no part in the
      two fields read here. */
  function UnconfiguredRead(read: ReadOutcome): (r: ReadOutcome)
    ensures r.Read? <==> read.Read? && BodyIsBlank(read.content)
    ensures r.Read? ==> r == read
  {
    match read
    case ReadFailed => ReadFailed
    case Read(content) =>
      var a := Assess(content, []);
      if a.contentLength == 0 || a.nonBlankLines == 0 then read else ReadFailed
  }

  /** Without settings the template never decides anything: each file
      contributes exactly what it would with a blank template. */
  lemma UnconfiguredEntryIgnoresTemplate(file: FileRef, read: ReadOutcome, template: string)
    ensures Entry(file, UnconfiguredRead(read), template) == Entry(file, read, [])
  {
    if read.Read? {
      BlankTemplateNeverMatches(read.content, []);
    }
  }

  /** A note equal to a non-blank template is found with that template, but
      the scan without settings skips it. */
  lemma UnconfiguredMissesTemplateNote()
    ensures var note, file := "a\nb", FileRef("a.md", "a");
            Entry(file, Read(note), note) != [] &&
            Entry(file, UnconfiguredRead(Read(note)), note) == []
  {
    var note := "a\nb";
    assert note == "a" + ['\n'] + "b";
    SplitAfterLine("a", "b");
    SplitSingleLine("b");
    assert Body(note) == ["b"];
    assert !AllWs("b") by {
      assert !IsWs('b');
    }
    assert !AllWs(note) by {
      assert !IsWs(note[0]);
    }
    SelfMatch(note);
  }

  // ---------------------------------------------------------------------
  // Lemmas about the batch delete.

  /** The intended batch delete removes one snippet per successful delete. */
  lemma {:induction false} AfterBatchDeleteLength(ss: seq<Snippet>, outcomes: seq<bool>)
    requires |outcomes| == CountSelected(ss)
    ensures |AfterBatchDelete(ss, outcomes)| == |ss| - CountTrue(outcomes)
  {
    if ss != [] {
      var n := |ss| - 1;
      var last := ss[n];
      if last.selected {
        var m := |outcomes| - 1;
        AfterBatchDeleteLength(ss[..n], outcomes[..m]);
      } else {
        AfterBatchDeleteLength(ss[..n], outcomes);
      }
    }
  }

  /** The intended batch delete leaves exactly the failed deletes selected. */
  lemma {:induction false} AfterBatchDeleteSelected(ss: seq<Snippet>, outcomes: seq<bool>)
    requires |outcomes| == CountSelected(ss)
    ensures CountSelected(AfterBatchDelete(ss, outcomes)) == |outcomes| - CountTrue(outcomes)
  {
    if ss != [] {
      var n := |ss| - 1;
      var last := ss[n];
      if last.selected {
        var m := |outcomes| - 1;
        var o := outcomes[..m];
        AfterBatchDeleteSelected(ss[..n], o);
        var init := AfterBatchDelete(ss[..n], o);
        if outcomes[m] {
          assert AfterBatchDelete(ss, outcomes) == init + [];
          assert init + [] == init;
        } else {
          CountSelectedSnoc(init, last);
        }
      } else {
        AfterBatchDeleteSelected(ss[..n], outcomes);
        CountSelectedSnoc(AfterBatchDelete(ss[..n], outcomes), last);
      }
    }
  }

  /** Both counts of the intended batch delete. */
  lemma AfterBatchDeleteCounts(ss: seq<Snippet>, outcomes: seq<bool>)
    requires |outcomes| == CountSelected(ss)
    ensures |AfterBatchDelete(ss, outcomes)| == |ss| - CountTrue(outcomes)
    ensures CountSelected(AfterBatchDelete(ss, outcomes)) == |outcomes| - CountTrue(outcomes)
  {
    AfterBatchDeleteLength(ss, outcomes);
    AfterBatchDeleteSelected(ss, outcomes);
  }

  /** The intended batch delete keeps every unselected snippet, in order. */
  lemma {:induction false} AfterBatchDeleteKeepsUnselected(ss: seq<Snippet>, outcomes: seq<bool>)
    requires |outcomes| == CountSelected(ss)
    ensures Filter(AfterBatchDelete(ss, outcomes), KeepUnselected) == Filter(ss, KeepUnselected)
  {
    if ss != [] {
      var n := |ss| - 1;
      var last := ss[n];
      var m := if last.selected then |outcomes| - 1 else |outcomes|;
      var o := outcomes[..m];
      assert !last.selected ==> o == outcomes;
      AfterBatchDeleteKeepsUnselected(ss[..n], o);
      var init := AfterBatchDelete(ss[..n], o);
      var tail := if last.selected && outcomes[m] then [] else [last];
      assert AfterBatchDelete(ss, outcomes) == init + tail;
      FilterConcat(init, tail, KeepUnselected);
      assert Filter(tail, KeepUnselected) == Filter([last], KeepUnselected) by {
        if tail == [] { assert [last][..0] == []; }
      }
    }
  }

  /** The batch delete as written leaves no snippet selected. */
  lemma UnselectedCount(ss: seq<Snippet>)
    ensures CountSelected(Filter(ss, KeepUnselected)) == 0
  {
    var r := Filter(ss, KeepUnselected);
    FilterMembers(ss, KeepUnselected);
    forall k | 0 <= k < |r| ensures !r[k].selected {
      assert r[k] in r;
    }
    CountSelectedExtremes(r);
  }

  /** The intended list keeps paths distinct and holds only snippets of the
      old list. */
  lemma {:induction false} AfterBatchDeleteDistinct(ss: seq<Snippet>, outcomes: seq<bool>)
    requires |outcomes| == CountSelected(ss) && DistinctPaths(ss)
    ensures DistinctPaths(AfterBatchDelete(ss, outcomes))
    ensures forall s :: s in AfterBatchDelete(ss, outcomes) ==> s in ss
  {
    if ss != [] {
      var n := |ss| - 1;
      var last := ss[n];
      var m := if last.selected then |outcomes| - 1 else |outcomes|;
      var o := outcomes[..m];
      assert !last.selected ==> o == outcomes;
      AfterBatchDeleteDistinct(ss[..n], o);
      var init := AfterBatchDelete(ss[..n], o);
      forall s | s in init ensures s.file.path != last.file.path && s in ss {
        var j :| 0 <= j < n && ss[..n][j] == s;
        assert ss[j] == s;
      }
      var r := AfterBatchDelete(ss, outcomes);
      assert r == init + (if last.selected && outcomes[m] then [] else [last]);
      forall i, j | 0 <= i < j < |r| ensures r[i].file.path != r[j].file.path {
        if j >= |init| {
          assert r[i] == init[i] && r[i] in init;
        } else {
          assert r[i] == init[i] && r[j] == init[j];
        }
      }
    }
  }

  /** Dropping every selected snippet, as the batch delete does, gives the
      intended list exactly when every delete succeeded: otherwise a note
      whose delete failed is still in the vault but gone from the list. */
  lemma DropSelectedMatchesIntendedIff(ss: seq<Snippet>, outcomes: seq<bool>)
    requires |outcomes| == CountSelected(ss)
    ensures Filter(ss, KeepUnselected) == AfterBatchDelete(ss, outcomes) <==> CountTrue(outcomes) == |outcomes|
  {
    var after := AfterBatchDelete(ss, outcomes);
    AfterBatchDeleteCounts(ss, outcomes);
    AfterBatchDeleteKeepsUnselected(ss, outcomes);
    UnselectedCount(ss);
    if CountTrue(outcomes) == |outcomes| {
      CountSelectedExtremes(after);
      FilterKeepsAll(after, KeepUnselected);
    }
  }

  /** The smallest input on which the batch delete as written loses a note:
      one selected note whose delete fails. */
  lemma FailedBatchDeleteLosesNote()
    ensures var ss := [Snippet(FileRef("a.md", "a"), "", 0, true)];
            Filter(ss, KeepUnselected) == [] &&
            AfterBatchDelete(ss, [false]) == ss &&
            DeletedFiles(Selected(ss), [false]) == []
  {
    var ss := [Snippet(FileRef("a.md", "a"), "", 0, true)];
    assert ss[..0] == [];
    assert [false][..0] == [];
    assert Filter(ss, KeepUnselected) == Filter(ss[..0], KeepUnselected) + [];
    assert Filter(ss, KeepSelected) == Filter(ss[..0], KeepSelected) + ss;
  }

  // ---------------------------------------------------------------------
  // The review session.

  class ScanModal {
    var fileSnippets: seq<Snippet>
    var selectedCount: int
    /** Whether the "Select All" icon shows as selected. */
    var selectAllOn: bool

    /** The counter equals the number of selected snippets, paths are
        distinct, and a selected "Select All" icon means every snippet is
        selected. */
    ghost predicate Valid()
      reads this
    {
      selectedCount == CountSelected(fileSnippets) &&
      DistinctPaths(fileSnippets) &&
      (selectAllOn ==> AllSelected(fileSnippets))
    }

    constructor ()
      ensures Valid()
      ensures fileSnippets == [] && selectedCount == 0 && !selectAllOn
    {
      fileSnippets := [];
      selectedCount := 0;
      selectAllOn := false;
    }

    /** `scanVaultFiles`: reads each file in enumeration order, skipping
        failed reads, and appends the blank ones; `progress` holds the
        processed count at each progress report. The final re-render draws a
        fresh, unselected "Select All" icon. */
    method Scan(files: seq<FileRef>, readResults: seq<ReadOutcome>, template: string)
      returns (processedCount: nat, blankFilesCount: nat, progress: seq<nat>)
      requires |readResults| == |files| && DistinctFilePaths(files)
      modifies this
      ensures fileSnippets == ScanResult(files, readResults, template)
      ensures processedCount == ReadSuccesses(readResults)
      ensures blankFilesCount == |fileSnippets|
      ensures progress == Milestones(processedCount)
      ensures selectedCount == old(selectedCount) && !selectAllOn
      ensures old(selectedCount) == 0 ==> Valid()
    {
      fileSnippets := [];
      processedCount, blankFilesCount, progress := 0, 0, [];
      var i := 0;
      while i < |files|
        invariant 0 <= i <= |files|
        invariant fileSnippets == ScanResult(files[..i], readResults[..i], template)
        invariant processedCount == ReadSuccesses(readResults[..i])
        invariant blankFilesCount == |fileSnippets|
        invariant progress == Milestones(processedCount)
        invariant selectedCount == old(selectedCount)
      {
        CollectStep(files, readResults, ScanEntry(template), i);
        ReadSuccessesStep(readResults, i);
        processedCount, blankFilesCount, progress :=
          ScanFile(files[i], readResults[i], template, processedCount, blankFilesCount, progress);
        i := i + 1;
      }
      assert files[..i] == files && readResults[..i] == readResults;
      selectAllOn := false;
      ScanWellFormed(files, readResults, template);
    }

    /** The body of the scan loop for one file: on a successful read, adds
        an unselected snippet when the note is blank, counts the file as
        processed and reports progress at every tenth processed file; on a
        failed read, changes nothing. */
    method ScanFile(file: FileRef, read: ReadOutcome, template: string,
                    processed: nat, blank: nat, progress: seq<nat>)
      returns (processed': nat, blank': nat, progress': seq<nat>)
      requires progress == Milestones(processed)
      modifies this
      ensures fileSnippets == old(fileSnippets) + ScanEntry(template)(file, read)
      ensures processed' == processed + (if read.Read? then 1 else 0)
      ensures blank' == blank + |ScanEntry(template)(file, read)|
      ensures progress' == Milestones(processed')
      ensures selectedCount == old(selectedCount) && selectAllOn == old(selectAllOn)
    {
      processed', blank', progress' := processed, blank, progress;
      match read {
        case ReadFailed =>
        case Read(content) =>
          var a := Assess(content, template);
          if a.isBlank {
            fileSnippets := fileSnippets + [Snippet(file, a.title, a.contentLength, false)];
            blank' := blank' + 1;
          }
          processed' := processed' + 1;
          progress' := ReportProgress(processed', progress');
      }
    }

    /** Clicking a snippet's selection circle. */
    method Toggle(i: nat)
      requires Valid() && i < |fileSnippets|
      modifies this
      ensures Valid()
      ensures fileSnippets == old(fileSnippets)[i := old(fileSnippets)[i].(selected := !old(fileSnippets)[i].selected)]
      ensures selectedCount == old(selectedCount) + (if fileSnippets[i].selected then 1 else -1)
      ensures selectAllOn <==> AllSelected(fileSnippets)
    {
      var s := fileSnippets[i];
      CountAfterUpdate(fileSnippets, i, s.(selected := !s.selected));
      fileSnippets := fileSnippets[i := s.(selected := !s.selected)];
      selectedCount := selectedCount + (if fileSnippets[i].selected then 1 else -1);
      selectAllOn := AllSelected(fileSnippets);
    }

    /** Clicking "Select All": the new state is the opposite of what the icon
        shows, whatever the snippets' own states. */
    method SelectAll()
      requires Valid()
      modifies this
      ensures Valid()
      ensures selectAllOn == !old(selectAllOn)
      ensures |fileSnippets| == |old(fileSnippets)|
      ensures forall k :: 0 <= k < |fileSnippets| ==> fileSnippets[k] == old(fileSnippets)[k].(selected := selectAllOn)
      ensures selectedCount == if selectAllOn then |fileSnippets| else 0
    {
      var newState := !selectAllOn;
      selectAllOn := newState;
      var k := 0;
      while k < |fileSnippets|
        invariant 0 <= k <= |fileSnippets| == |old(fileSnippets)|
        invariant forall j :: 0 <= j < k ==> fileSnippets[j] == old(fileSnippets)[j].(selected := newState)
        invariant forall j :: k <= j < |fileSnippets| ==> fileSnippets[j] == old(fileSnippets)[j]
        invariant selectAllOn == newState
      {
        fileSnippets := fileSnippets[k := fileSnippets[k].(selected := newState)];
        k := k + 1;
      }
      assert forall j :: 0 <= j < |fileSnippets| ==> fileSnippets[j].file == old(fileSnippets)[j].file;
      CountSelectedExtremes(fileSnippets);
      selectedCount := if newState then |fileSnippets| else 0;
    }

    /** Clicking a snippet's Delete button; `deleted` is the vault's answer.
        The "Select All" icon is not refreshed. */
    method DeleteOne(i: nat, deleted: bool)
      requires Valid() && i < |fileSnippets|
      modifies this
      ensures Valid()
      ensures selectAllOn == old(selectAllOn)
      ensures !deleted ==> fileSnippets == old(fileSnippets) && selectedCount == old(selectedCount)
      ensures deleted ==> fileSnippets == old(fileSnippets[..i] + fileSnippets[i + 1..])
      ensures deleted ==> forall s :: s in fileSnippets ==> s.file.path != old(fileSnippets[i].file.path)
      ensures deleted ==> selectedCount == old(selectedCount) - (if old(fileSnippets[i].selected) then 1 else 0)
    {
      if deleted {
        var target := fileSnippets[i];
        RemovePathAt(fileSnippets, i);
        RemoveAtCount(fileSnippets, i);
        RemoveAtKeeps(fileSnippets, i);
        if target.selected {
          selectedCount := selectedCount - 1;
        }
        fileSnippets := WithoutPath(fileSnippets, target.file.path);
      }
    }

    /** Whether "Delete Selected" is enabled. */
    function BatchDeleteEnabled(): (enabled: bool)
      reads this
      requires Valid()
      ensures enabled <==> exists k :: 0 <= k < |fileSnippets| && fileSnippets[k].selected
    {
      CountSelectedExtremes(fileSnippets);
      selectedCount != 0
    }

    /** Clicking "Delete Selected": deletes every selected snippet's file
        (`outcomes[k]` is the vault's answer for the k-th selected snippet),
        then keeps only the unselected snippets, whether or not their delete
        succeeded, and re-renders. */
    method BatchDelete(outcomes: seq<bool>) returns (deletedCount: nat, removed: seq<FileRef>)
      requires Valid() && |outcomes| == selectedCount
      modifies this
      ensures Valid()
      ensures removed == DeletedFiles(Selected(old(fileSnippets)), outcomes)
      ensures deletedCount == CountTrue(outcomes) == |removed| <= old(selectedCount)
      ensures old(selectedCount) == 0 ==>
                fileSnippets == old(fileSnippets) && selectedCount == 0 && selectAllOn == old(selectAllOn)
      ensures old(selectedCount) != 0 ==>
                fileSnippets == Filter(old(fileSnippets), KeepUnselected) && selectedCount == 0 && !selectAllOn
    {
      if selectedCount == 0 {
        return 0, [];
      }
      var selectedFiles := Selected(fileSnippets);
      deletedCount, removed := DeleteEach(selectedFiles, outcomes);
      UnselectedCount(fileSnippets);
      FilterDistinct(fileSnippets, KeepUnselected);
      fileSnippets := Filter(fileSnippets, KeepUnselected);
      selectedCount := 0;
      selectAllOn := false;
    }

    /** The batch delete as intended: snippets whose delete failed stay in the
        list, still selected, and the counter is recounted. */
    method BatchDeleteKeepingFailures(outcomes: seq<bool>) returns (deletedCount: nat, removed: seq<FileRef>)
      requires Valid() && |outcomes| == selectedCount
      modifies this
      ensures Valid()
      ensures removed == DeletedFiles(Selected(old(fileSnippets)), outcomes)
      ensures deletedCount == CountTrue(outcomes) == |removed| <= old(selectedCount)
      ensures old(selectedCount) == 0 ==>
                fileSnippets == old(fileSnippets) && selectedCount == 0 && selectAllOn == old(selectAllOn)
      ensures old(selectedCount) != 0 ==>
                fileSnippets == AfterBatchDelete(old(fileSnippets), outcomes) &&
                selectedCount == old(selectedCount) - deletedCount && !selectAllOn
    {
      if selectedCount == 0 {
        return 0, [];
      }
      var selectedFiles := Selected(fileSnippets);
      deletedCount, removed := DeleteEach(selectedFiles, outcomes);
      AfterBatchDeleteDistinct(fileSnippets, outcomes);
      AfterBatchDeleteCounts(fileSnippets, outcomes);
      fileSnippets := AfterBatchDelete(fileSnippets, outcomes);
      selectedCount := CountSelected(fileSnippets);
      selectAllOn := false;
    }
  }

  /** The delete loop of the batch delete: tries each snippet in turn and
      counts the successes. */
  method DeleteEach(attempted: seq<Snippet>, outcomes: seq<bool>) returns (deletedCount: nat, removed: seq<FileRef>)
    requires |outcomes| == |attempted|
    ensures removed == DeletedFiles(attempted, outcomes)
    ensures deletedCount == |removed| == CountTrue(outcomes) <= |attempted|
  {
    deletedCount, removed := 0, [];
    var k := 0;
    while k < |attempted|
      invariant 0 <= k <= |attempted|
      invariant removed == DeletedFiles(attempted[..k], outcomes[..k])
      invariant deletedCount == |removed|
    {
      assert attempted[..k + 1][..k] == attempted[..k];
      assert outcomes[..k + 1][..k] == outcomes[..k];
      if outcomes[k] {
        removed := removed + [attempted[k].file];
        deletedCount := deletedCount + 1;
      }
      k := k + 1;
    }
    assert attempted[..k] == attempted && outcomes[..k] == outcomes;
  }
}
