/** The two folder handlers of monitor.py and the table they share. The
    `.magnet` handler uploads the link and records what the torrent will
    produce; the rclone handler copies an arriving video file when its name is
    found in that record table. Events, file reads and copies are inputs and
    outputs; the table is an object both handlers use. */
module Monitor {
  import opened Wrappers
  import opened Pystr
  import Paths
  import RealDebrid
  import Arrs

  /** The value stored under "filename": a string, or the list of names the
      upload returned. */
  datatype Value = Str(s: string) | List(items: seq<string>)

  /** One document of the table: exactly the keys "filename" and "arr_folder". */
  datatype Record = Record(filename: Value, arrFolder: string)

  /** The TinyDB table `InRD.json` (monitor.py:8): documents in insertion
      order, never removed. */
  class PendingTable {
    var records: seq<Record>

    constructor ()
      ensures records == []
    {
      records := [];
    }

    /** `db.insert(document)`: appends, leaving every earlier document as it was. */
    method Insert(r: Record)
      modifies this
      ensures records == old(records) + [r]
    {
      records := records + [r];
    }
  }

  /** The query `File.filename == key` on one document: exact equality, so a
      list never equals a string. */
  predicate FilenameIs(r: Record, key: string) {
    r.filename == Str(key)
  }

  /** `db.search(File.filename == key)`: the matching documents, in order. */
  function Search(records: seq<Record>, key: string): seq<Record> {
    Filter(records, (r: Record) => FilenameIs(r, key))
  }

  /** A document is found exactly when it is in the table and its "filename"
      is the string `key`. */
  lemma SearchIff(records: seq<Record>, key: string, r: Record)
    ensures r in Search(records, key) <==> r in records && r.filename == Str(key)
  {
    FilterMemberIff(records, (r: Record) => FilenameIs(r, key), r);
  }

  // ------------------------------------------------------ .magnet handler

  /** What the `.magnet` handler does with one created file: the requests of
      the upload, and the document inserted, if any. */
  function MagnetDecision(cfg: Arrs.ArrConfig, filePath: string, content: Option<string>, rd: RealDebrid.Replies)
    : (seq<RealDebrid.Call>, Option<Record>)
  {
    if !EndsWith(filePath, ".magnet") || content.None? then ([], None)
    else
      var (outcome, calls) := RealDebrid.UploadSpec(Strip(content.value), None, rd);
      var arrFolder := Arrs.GetArrFolder(cfg, filePath);
      if outcome.Returned? && outcome.value.Some? && RealDebrid.Truthy(arrFolder) then
        (calls, Some(Record(List(outcome.value.value.filename), arrFolder.value)))
      else (calls, None)
  }

  /** `MagnetFileHandler.on_created` (monitor.py:13-39) for a file at
      `filePath` whose text is `content` (None when reading it raises). */
  method OnMagnetCreated(table: PendingTable, cfg: Arrs.ArrConfig, filePath: string, content: Option<string>,
                         rd: RealDebrid.Replies)
    returns (calls: seq<RealDebrid.Call>, inserted: Option<Record>)
    modifies table
    ensures (calls, inserted) == MagnetDecision(cfg, filePath, content, rd)
    ensures table.records == old(table.records) + (if inserted.Some? then [inserted.value] else [])
  {
    calls, inserted := [], None;
    if !EndsWith(filePath, ".magnet") || content.None? {
      return;
    }
    var magnetLink := Strip(content.value);
    var result;
    result, calls := RealDebrid.UploadMagnetToRealDebrid(magnetLink, None, rd);
    if result.Returned? && result.value.Some? {
      var arrFolder := Arrs.GetArrFolder(cfg, filePath);
      if RealDebrid.Truthy(arrFolder) {
        var r := Record(List(result.value.value.filename), arrFolder.value);
        table.Insert(r);
        inserted := Some(r);
      }
    }
  }

  /** A document is inserted exactly for a `.magnet` file (case-sensitive
      suffix) that could be read, whose upload returned a result, and whose
      location maps to a download folder; it holds the names of the selected
      members, as a list, and that folder. */
  lemma MagnetInsertIff(cfg: Arrs.ArrConfig, filePath: string, content: Option<string>, rd: RealDebrid.Replies)
    ensures var inserted := MagnetDecision(cfg, filePath, content, rd).1;
      inserted.Some? <==>
        EndsWith(filePath, ".magnet") && content.Some? &&
        RealDebrid.UploadSpec(Strip(content.value), None, rd).0.Returned? &&
        RealDebrid.UploadSpec(Strip(content.value), None, rd).0.value.Some? &&
        Arrs.GetArrFolder(cfg, filePath).Some?
    ensures var inserted := MagnetDecision(cfg, filePath, content, rd).1;
      inserted.Some? ==>
        inserted.value == Record(List(RealDebrid.MemberNames(RealDebrid.Selected(rd))), Arrs.GetArrFolder(cfg, filePath).value)
  {
    if EndsWith(filePath, ".magnet") && content.Some? {
      var arrFolder := Arrs.GetArrFolder(cfg, filePath);
      if arrFolder.Some? {
        ArrFolderNotEmpty(cfg, filePath);
      }
      RealDebrid.ResultOnlyAfterDownloaded(Strip(content.value), None, rd);
    }
  }

  /** A download folder is never the empty string, so `if arr_folder` only
      tests that one was found. */
  lemma ArrFolderNotEmpty(cfg: Arrs.ArrConfig, filePath: string)
    requires Arrs.GetArrFolder(cfg, filePath).Some?
    ensures Arrs.GetArrFolder(cfg, filePath).value != []
  {
    Arrs.GetArrFolderCases(cfg, filePath);
    JoinNotEmpty(cfg.downloadPath, "radarr");
    JoinNotEmpty(cfg.downloadPath, "sonarr");
  }

  lemma JoinNotEmpty(a: string, b: string)
    requires b != []
    ensures Paths.Join(a, b) != []
  {
  }

  /** The handler uploads without a `.magnet` path, so it never reports a
      failure and never deletes the file. */
  lemma MagnetHandlerNeverReportsOrDeletes(cfg: Arrs.ArrConfig, filePath: string, content: Option<string>,
                                           rd: RealDebrid.Replies)
    ensures forall c :: c in MagnetDecision(cfg, filePath, content, rd).0 ==> !c.MarkFailed? && !c.DeleteMagnetFile?
  {
    if EndsWith(filePath, ".magnet") && content.Some? {
      var link := Strip(content.value);
      assert MagnetDecision(cfg, filePath, content, rd).0 == RealDebrid.UploadSpec(link, None, rd).1;
      RealDebrid.ReportAndDeleteOnlyWithPath(link, None, rd);
    }
  }

  /** Every document the handler inserts stores its "filename" as a list. */
  predicate AllLists(records: seq<Record>) {
    forall k :: 0 <= k < |records| ==> records[k].filename.List?
  }

  lemma MagnetInsertKeepsLists(cfg: Arrs.ArrConfig, filePath: string, content: Option<string>, rd: RealDebrid.Replies,
                               records: seq<Record>)
    requires AllLists(records)
    ensures var inserted := MagnetDecision(cfg, filePath, content, rd).1;
      AllLists(records + (if inserted.Some? then [inserted.value] else []))
  {
  }

  // ------------------------------------------------------ rclone handler

  /** A request to `copy_file_with_progress(src, dst)`. */
  datatype CopyRequest = CopyRequest(src: string, dst: string)

  /** The video test of monitor.py:59 and 82, on the lower-cased name; its
      seven extensions are those of the member filter. */
  predicate IsVideoPath(p: string) {
    RealDebrid.HasVideoExtension(Lower(p))
  }

  /** What `process_file` does with an arriving file: copy it, under its base
      name, into the downloads folder when that name is found in the table. */
  function ArrivalCopy(downloadsFolder: string, records: seq<Record>, filePath: string): Option<CopyRequest> {
    if !IsVideoPath(filePath) then None
    else
      var fileName := Paths.Basename(filePath);
      if Search(records, fileName) != [] then Some(CopyRequest(filePath, Paths.Join(downloadsFolder, fileName)))
      else None
  }

  /** `RcloneFileHandler` (monitor.py:42-71): the folder copies go to. */
  class RcloneFileHandler {
    const downloadsFolder: string

    constructor (downloadsFolder: string)
      ensures this.downloadsFolder == downloadsFolder
    {
      this.downloadsFolder := downloadsFolder;
    }

    /** `process_file(file_path)`: reads the table, changes nothing. */
    method ProcessFile(table: PendingTable, filePath: string) returns (copy: Option<CopyRequest>)
      ensures copy == ArrivalCopy(downloadsFolder, table.records, filePath)
      ensures copy.Some? ==> copy.value.src == filePath &&
                             copy.value.dst == Paths.Join(downloadsFolder, Paths.Basename(filePath))
    {
      copy := None;
      if IsVideoPath(filePath) {
        var fileName := Paths.Basename(filePath);
        var result := Search(table.records, fileName);
        if result != [] {
          var dstFile := Paths.Join(downloadsFolder, fileName);
          copy := Some(CopyRequest(filePath, dstFile));
        }
      }
    }
  }

  /** A copy is made exactly for a video file whose base name is the
      "filename" string of some document; the document's "arr_folder" plays no
      part. */
  lemma ArrivalCopyIff(downloadsFolder: string, records: seq<Record>, filePath: string)
    ensures ArrivalCopy(downloadsFolder, records, filePath).Some? <==>
      IsVideoPath(filePath) && exists r :: r in records && r.filename == Str(Paths.Basename(filePath))
  {
    var fileName := Paths.Basename(filePath);
    if exists r :: r in records && r.filename == Str(fileName) {
      var r :| r in records && r.filename == Str(fileName);
      SearchIff(records, fileName, r);
    }
    if Search(records, fileName) != [] {
      SearchIff(records, fileName, Search(records, fileName)[0]);
    }
  }

  /** With only list-valued documents, nothing is ever found. */
  lemma ListsNeverMatch(records: seq<Record>, key: string)
    requires AllLists(records)
    ensures Search(records, key) == []
  {
    FilterNone(records, (r: Record) => FilenameIs(r, key));
  }

  /** As written, the rclone handler never copies anything the `.magnet`
      handler recorded: even a video file whose base name is one of the names
      a document lists is not found, because the list is compared with a
      string. */
  lemma RecordedFileNeverCopied(downloadsFolder: string, records: seq<Record>, filePath: string)
    requires AllLists(records)
    ensures ArrivalCopy(downloadsFolder, records, filePath) == None
  {
    ListsNeverMatch(records, Paths.Basename(filePath));
  }

  /** The lookup as evidently intended: the key is the stored string, or one
      of the names in the stored list. */
  predicate FilenameHas(r: Record, key: string) {
    match r.filename
    case Str(s) => s == key
    case List(items) => key in items
  }

  function SearchIntended(records: seq<Record>, key: string): seq<Record> {
    Filter(records, (r: Record) => FilenameHas(r, key))
  }

  function ArrivalCopyIntended(downloadsFolder: string, records: seq<Record>, filePath: string): Option<CopyRequest> {
    if !IsVideoPath(filePath) then None
    else
      var fileName := Paths.Basename(filePath);
      if SearchIntended(records, fileName) != [] then Some(CopyRequest(filePath, Paths.Join(downloadsFolder, fileName)))
      else None
  }

  /** With the intended lookup, a video file whose base name one of the
      recorded lists holds is copied to the downloads folder under that name;
      and on string-valued documents it behaves as the code does. */
  lemma IntendedArrivalCopies(downloadsFolder: string, records: seq<Record>, filePath: string)
    ensures ArrivalCopyIntended(downloadsFolder, records, filePath).Some? <==>
      IsVideoPath(filePath) && exists r :: r in records && FilenameHas(r, Paths.Basename(filePath))
    ensures ArrivalCopyIntended(downloadsFolder, records, filePath).Some? ==>
      ArrivalCopyIntended(downloadsFolder, records, filePath).value ==
        CopyRequest(filePath, Paths.Join(downloadsFolder, Paths.Basename(filePath)))
  {
    var fileName := Paths.Basename(filePath);
    var has := (r: Record) => FilenameHas(r, fileName);
    if exists r :: r in records && FilenameHas(r, fileName) {
      var r :| r in records && FilenameHas(r, fileName);
      FilterMemberIff(records, has, r);
    }
    if SearchIntended(records, fileName) != [] {
      FilterMemberIff(records, has, SearchIntended(records, fileName)[0]);
    }
  }

  /** After the `.magnet` handler records an upload, the intended lookup finds
      each of the recorded names that arrives as a video file. */
  lemma IntendedCopyAfterInsert(downloadsFolder: string, records: seq<Record>, names: seq<string>, arrFolder: string,
                                filePath: string)
    requires IsVideoPath(filePath) && Paths.Basename(filePath) in names
    ensures ArrivalCopyIntended(downloadsFolder, records + [Record(List(names), arrFolder)], filePath)
            == Some(CopyRequest(filePath, Paths.Join(downloadsFolder, Paths.Basename(filePath))))
  {
    var r := Record(List(names), arrFolder);
    assert r in records + [r];
    IntendedArrivalCopies(downloadsFolder, records + [r], filePath);
  }

  // ------------------------------------------------------ existing files

  /** What `process_existing_files` decides for `file` found in `root`: the
      video test is on the bare name, the rest as in `process_file`. */
  function ExistingDecision(downloadsFolder: string, records: seq<Record>, root: string, file: string): Option<CopyRequest> {
    var filePath := Paths.Join(root, file);
    if !IsVideoPath(file) then None
    else
      var fileName := Paths.Basename(filePath);
      if Search(records, fileName) != [] then Some(CopyRequest(filePath, Paths.Join(downloadsFolder, fileName)))
      else None
  }

  /** The copies for the files of one folder, in order. */
  function FolderCopies(downloadsFolder: string, records: seq<Record>, root: string, files: seq<string>): seq<CopyRequest> {
    if files == [] then []
    else
      var d := ExistingDecision(downloadsFolder, records, root, files[|files| - 1]);
      FolderCopies(downloadsFolder, records, root, files[..|files| - 1]) + (if d.Some? then [d.value] else [])
  }

  /** The copies for a walk, folder by folder. */
  function WalkCopies(downloadsFolder: string, records: seq<Record>, walk: seq<(string, seq<string>)>): seq<CopyRequest> {
    if walk == [] then []
    else
      var last := walk[|walk| - 1];
      WalkCopies(downloadsFolder, records, walk[..|walk| - 1]) + FolderCopies(downloadsFolder, records, last.0, last.1)
  }

  /** The copies started when `raises` says which copies raise: the listed
      copies up to and including the first one that raises. Nothing catches
      that exception, so it ends the walk. */
  function CopiesStarted(cs: seq<CopyRequest>, raises: CopyRequest -> bool): seq<CopyRequest> {
    if cs == [] then []
    else if raises(cs[0]) then [cs[0]]
    else [cs[0]] + CopiesStarted(cs[1..], raises)
  }

  /** Whether some copy of the list raises. */
  predicate AnyRaises(cs: seq<CopyRequest>, raises: CopyRequest -> bool) {
    exists k :: 0 <= k < |cs| && raises(cs[k])
  }

  /** The copies started are a prefix of the list. Every one but the last
      completes, and the last raises exactly when some copy of the list
      raises. With no raising copy, every listed copy is made. */
  lemma {:induction false} CopiesStartedSpec(cs: seq<CopyRequest>, raises: CopyRequest -> bool)
    ensures var m := CopiesStarted(cs, raises);
      |m| <= |cs| && m == cs[..|m|] &&
      (forall k :: 0 <= k < |m| - 1 ==> !raises(m[k])) &&
      (AnyRaises(cs, raises) <==> m != [] && raises(m[|m| - 1])) &&
      (!AnyRaises(cs, raises) ==> m == cs)
  {
    if cs != [] && !raises(cs[0]) {
      var t := cs[1..];
      CopiesStartedSpec(t, raises);
      var m := CopiesStarted(cs, raises);
      var mt := CopiesStarted(t, raises);
      assert m == [cs[0]] + mt;
      assert m == cs[..|m|] by {
        assert cs == [cs[0]] + t;
        assert t[..|mt|] == mt;
      }
      AnyRaisesTail(cs, raises);
      forall k | 0 <= k < |m| - 1 ensures !raises(m[k]) {
        if k > 0 {
          assert m[k] == mt[k - 1];
        }
      }
      if !AnyRaises(cs, raises) {
        assert cs == [cs[0]] + t;
      }
    } else if cs != [] {
      assert raises(cs[0]) && AnyRaises(cs, raises);
    }
  }

  /** A list whose first copy completes raises exactly when its tail does. */
  lemma AnyRaisesTail(cs: seq<CopyRequest>, raises: CopyRequest -> bool)
    requires cs != [] && !raises(cs[0])
    ensures AnyRaises(cs, raises) <==> AnyRaises(cs[1..], raises)
  {
    var t := cs[1..];
    if AnyRaises(cs, raises) {
      var k :| 0 <= k < |cs| && raises(cs[k]);
      assert k > 0 && raises(t[k - 1]);
    }
    if AnyRaises(t, raises) {
      var k :| 0 <= k < |t| && raises(t[k]);
      assert raises(cs[k + 1]);
    }
  }

  /** After copies that all complete, a list whose copies raise starts the
      copies done, then its own started copies, and the rest is never started. */
  lemma {:induction false} CopiesStartedStop(done: seq<CopyRequest>, these: seq<CopyRequest>, rest: seq<CopyRequest>,
                                             raises: CopyRequest -> bool)
    requires !AnyRaises(done, raises) && AnyRaises(these, raises)
    ensures CopiesStarted(done + these + rest, raises) == done + CopiesStarted(these, raises)
    ensures AnyRaises(done + these + rest, raises)
  {
    var k :| 0 <= k < |these| && raises(these[k]);
    assert (done + these + rest)[|done| + k] == these[k];
    if done == [] {
      assert done + these + rest == these + rest;
      CopiesStartedOfRaising(these, rest, raises);
    } else {
      var t := done[1..];
      assert !raises(done[0]);
      forall j | 0 <= j < |t| ensures !raises(t[j]) {
        assert t[j] == done[j + 1];
      }
      CopiesStartedStop(t, these, rest, raises);
      assert (done + these + rest)[1..] == t + these + rest;
      assert done == [done[0]] + t;
    }
  }

  /** A list whose copies raise starts the same copies whatever follows it. */
  lemma {:induction false} CopiesStartedOfRaising(these: seq<CopyRequest>, rest: seq<CopyRequest>, raises: CopyRequest -> bool)
    requires AnyRaises(these, raises)
    ensures CopiesStarted(these + rest, raises) == CopiesStarted(these, raises)
    ensures AnyRaises(these + rest, raises)
  {
    var k :| 0 <= k < |these| && raises(these[k]);
    assert (these + rest)[k] == these[k];
    if !raises(these[0]) {
      var t := these[1..];
      assert AnyRaises(t, raises) by {
        var k :| 0 <= k < |these| && raises(these[k]);
        assert k > 0 && raises(t[k - 1]);
      }
      CopiesStartedOfRaising(t, rest, raises);
      assert (these + rest)[1..] == t + rest;
    }
  }

  /** Copies that all complete, followed by more, raise exactly when the
      later copies do. */
  lemma AnyRaisesAppend(done: seq<CopyRequest>, these: seq<CopyRequest>, raises: CopyRequest -> bool)
    requires !AnyRaises(done, raises)
    ensures AnyRaises(done + these, raises) <==> AnyRaises(these, raises)
  {
    if AnyRaises(done + these, raises) {
      forall i | 0 <= i < |done| ensures !raises((done + these)[i]) {
        assert (done + these)[i] == done[i];
      }
      var k :| 0 <= k < |done + these| && raises((done + these)[k]);
      assert k >= |done|;
      assert raises(these[k - |done|]);
    }
    if AnyRaises(these, raises) {
      var k :| 0 <= k < |these| && raises(these[k]);
      assert (done + these)[|done| + k] == these[k];
    }
  }

  /** `process_existing_files(folder, handler)` (monitor.py:73-94) over the
      `(root, files)` pairs of `os.walk(folder)`; `raises` says which copies
      raise. The walk makes the listed copies in order until one raises,
      which ends it (`raised`). */
  method ProcessExistingFiles(table: PendingTable, handler: RcloneFileHandler, walk: seq<(string, seq<string>)>,
                              raises: CopyRequest -> bool)
    returns (copies: seq<CopyRequest>, raised: bool)
    ensures copies == CopiesStarted(WalkCopies(handler.downloadsFolder, table.records, walk), raises)
    ensures raised == AnyRaises(WalkCopies(handler.downloadsFolder, table.records, walk), raises)
  {
    copies := [];
    for i := 0 to |walk|
      invariant copies == WalkCopies(handler.downloadsFolder, table.records, walk[..i])
      invariant !AnyRaises(copies, raises)
    {
      var (root, files) := walk[i];
      var folderCopies, folderRaised := ProcessWalkedFolder(table, handler, root, files, raises);
      WalkCopiesSnoc(handler.downloadsFolder, table.records, walk, i);
      ghost var these := FolderCopies(handler.downloadsFolder, table.records, root, files);
      CopiesStartedSpec(these, raises);
      if folderRaised {
        WalkStops(handler.downloadsFolder, table.records, walk, i, raises);
        return copies + folderCopies, true;
      }
      AnyRaisesAppend(copies, these, raises);
      copies := copies + folderCopies;
    }
    assert walk[..|walk|] == walk;
    CopiesStartedSpec(copies, raises);
    return copies, false;
  }

  /** The inner loop of `process_existing_files` (monitor.py:79-94): the files
      of one folder of the walk, in order, until a copy raises. */
  method ProcessWalkedFolder(table: PendingTable, handler: RcloneFileHandler, root: string, files: seq<string>,
                             raises: CopyRequest -> bool)
    returns (copies: seq<CopyRequest>, raised: bool)
    ensures copies == CopiesStarted(FolderCopies(handler.downloadsFolder, table.records, root, files), raises)
    ensures raised == AnyRaises(FolderCopies(handler.downloadsFolder, table.records, root, files), raises)
  {
    copies := [];
    for j := 0 to |files|
      invariant copies == FolderCopies(handler.downloadsFolder, table.records, root, files[..j])
      invariant !AnyRaises(copies, raises)
    {
      FolderCopiesSnoc(handler.downloadsFolder, table.records, root, files, j);
      var decision := ProcessWalkedFile(table, handler, root, files[j]);
      if decision.Some? {
        var copy := decision.value;
        if raises(copy) {
          FolderRaises(handler.downloadsFolder, table.records, root, files, j, copies, copy, raises);
          return copies + [copy], true;
        }
        AnyRaisesAppend(copies, [copy], raises);
        copies := copies + [copy];
      }
    }
    assert files[..|files|] == files;
    CopiesStartedSpec(copies, raises);
    return copies, false;
  }

  /** One file of the walk (monitor.py:80-94): a video file whose name is
      recorded in the table is copied under its name into the downloads
      folder. */
  method ProcessWalkedFile(table: PendingTable, handler: RcloneFileHandler, root: string, file: string)
    returns (decision: Option<CopyRequest>)
    ensures decision == ExistingDecision(handler.downloadsFolder, table.records, root, file)
  {
    var filePath := Paths.Join(root, file);
    if IsVideoPath(file) {
      var fileName := Paths.Basename(filePath);
      var result := Search(table.records, fileName);
      if result != [] {
        var dstFile := Paths.Join(handler.downloadsFolder, fileName);
        return Some(CopyRequest(filePath, dstFile));
      }
    }
    return None;
  }

  /** A raising copy of file `j` ends the folder's copies there. */
  lemma FolderRaises(downloadsFolder: string, records: seq<Record>, root: string, files: seq<string>, j: nat,
                     done: seq<CopyRequest>, copy: CopyRequest, raises: CopyRequest -> bool)
    requires j < |files| && raises(copy) && !AnyRaises(done, raises)
    requires FolderCopies(downloadsFolder, records, root, files[..j + 1]) == done + [copy]
    ensures CopiesStarted(FolderCopies(downloadsFolder, records, root, files), raises) == done + [copy]
    ensures AnyRaises(FolderCopies(downloadsFolder, records, root, files), raises)
  {
    FolderCopiesAppend(downloadsFolder, records, root, files[..j + 1], files[j + 1..]);
    assert files[..j + 1] + files[j + 1..] == files;
    assert raises([copy][0]);
    CopiesStartedStop(done, [copy], FolderCopies(downloadsFolder, records, root, files[j + 1..]), raises);
  }

  lemma {:induction false} FolderCopiesAppend(downloadsFolder: string, records: seq<Record>, root: string,
                                              a: seq<string>, b: seq<string>)
    ensures FolderCopies(downloadsFolder, records, root, a + b) ==
      FolderCopies(downloadsFolder, records, root, a) + FolderCopies(downloadsFolder, records, root, b)
    decreases |b|
  {
    if b == [] {
      assert a + b == a;
    } else {
      var b' := b[..|b| - 1];
      FolderCopiesAppend(downloadsFolder, records, root, a, b');
      assert (a + b)[..|a + b| - 1] == a + b';
      assert (a + b)[|a + b| - 1] == b[|b| - 1];
    }
  }

  /** Once the copies of folder `i` raise, after earlier folders whose copies
      all complete, the walk starts the earlier folders' copies and then that
      folder's, and no later folder's. */
  lemma {:induction false} WalkStops(downloadsFolder: string, records: seq<Record>, walk: seq<(string, seq<string>)>, i: nat,
                                     raises: CopyRequest -> bool)
    requires i < |walk|
    requires !AnyRaises(WalkCopies(downloadsFolder, records, walk[..i]), raises)
    requires AnyRaises(FolderCopies(downloadsFolder, records, walk[i].0, walk[i].1), raises)
    ensures CopiesStarted(WalkCopies(downloadsFolder, records, walk), raises) ==
      WalkCopies(downloadsFolder, records, walk[..i]) + CopiesStarted(FolderCopies(downloadsFolder, records, walk[i].0, walk[i].1), raises)
    ensures AnyRaises(WalkCopies(downloadsFolder, records, walk), raises)
    decreases |walk|
  {
    var done := WalkCopies(downloadsFolder, records, walk[..i]);
    var these := FolderCopies(downloadsFolder, records, walk[i].0, walk[i].1);
    if i == |walk| - 1 {
      WalkCopiesSnoc(downloadsFolder, records, walk, i);
      assert walk[..i + 1] == walk;
      CopiesStartedStop(done, these, [], raises);
      assert done + these + [] == done + these;
    } else {
      var init := walk[..|walk| - 1];
      var last := walk[|walk| - 1];
      assert init[..i] == walk[..i] && init[i] == walk[i];
      WalkStops(downloadsFolder, records, init, i, raises);
      var fc := FolderCopies(downloadsFolder, records, last.0, last.1);
      assert WalkCopies(downloadsFolder, records, walk) == WalkCopies(downloadsFolder, records, init) + fc;
      CopiesStartedOfRaising(WalkCopies(downloadsFolder, records, init), fc, raises);
    }
  }

  lemma FolderCopiesSnoc(downloadsFolder: string, records: seq<Record>, root: string, files: seq<string>, j: nat)
    requires j < |files|
    ensures var d := ExistingDecision(downloadsFolder, records, root, files[j]);
      FolderCopies(downloadsFolder, records, root, files[..j + 1]) ==
        FolderCopies(downloadsFolder, records, root, files[..j]) + (if d.Some? then [d.value] else [])
  {
    assert files[..j + 1][..j] == files[..j];
  }

  lemma WalkCopiesSnoc(downloadsFolder: string, records: seq<Record>, walk: seq<(string, seq<string>)>, i: nat)
    requires i < |walk|
    ensures WalkCopies(downloadsFolder, records, walk[..i + 1]) ==
      WalkCopies(downloadsFolder, records, walk[..i]) + FolderCopies(downloadsFolder, records, walk[i].0, walk[i].1)
  {
    assert walk[..i + 1][..i] == walk[..i];
  }

  /** The video test on a file's name and on its path in a folder agree. */
  lemma VideoTestOfJoin(root: string, file: string)
    requires '/' !in file
    ensures IsVideoPath(Paths.Join(root, file)) <==> IsVideoPath(file)
  {
    var p := Paths.Join(root, file);
    if root != [] {
      var u := if EndsWith(root, "/") then root[..|root| - 1] else root;
      assert !StartsWith(file, "/") by { if file != [] { assert file[0] != '/'; } }
      if EndsWith(root, "/") {
        assert root == u + ['/'];
      }
      assert p == u + ['/'] + file;
      LowerAppend(u + ['/'], file);
      LowerAppend(u, ['/']);
      assert Lower(['/']) == ['/'];
      forall k | 0 <= k < |RealDebrid.VideoExtensions|
        ensures EndsWith(Lower(p), RealDebrid.VideoExtensions[k]) <==> EndsWith(Lower(file), RealDebrid.VideoExtensions[k])
      {
        VideoExtensionNoSlash(k);
        EndsWithAfter(Lower(u), '/', Lower(file), RealDebrid.VideoExtensions[k]);
      }
    } else {
      assert p == file;
    }
  }

  lemma VideoExtensionNoSlash(k: nat)
    requires k < |RealDebrid.VideoExtensions|
    ensures '/' !in RealDebrid.VideoExtensions[k]
  {
  }

  /** `process_existing_files` makes, for every file of the walk, the decision
      `process_file` makes for that file's path. */
  lemma ExistingMatchesArrival(downloadsFolder: string, records: seq<Record>, root: string, file: string)
    requires '/' !in file
    ensures ExistingDecision(downloadsFolder, records, root, file) == ArrivalCopy(downloadsFolder, records, Paths.Join(root, file))
  {
    VideoTestOfJoin(root, file);
  }
}
