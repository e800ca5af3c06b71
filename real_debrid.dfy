/** The decision logic of `upload_magnet_to_realdebrid` (real_debrid.py): which
    members of a torrent are selected, what the selectFiles request carries, and
    the status machine that follows. Every reply of the Real-Debrid service is
    an input (`Replies`); every request the function makes, and every call into
    code outside this file, is recorded in order as a `Call`. */
module RealDebrid {
  import opened Wrappers
  import opened Pystr
  import Paths

  /** `VIDEO_EXTENSIONS` */
  const VideoExtensions: seq<string> := [".mp4", ".mkv", ".avi", ".mov", ".wmv", ".flv", ".m4v"]

  /** `any(name.endswith(ext) for ext in VIDEO_EXTENSIONS)` */
  predicate HasVideoExtension(name: string) {
    exists k :: 0 <= k < |VideoExtensions| && EndsWith(name, VideoExtensions[k])
  }

  /** One entry of the torrent's `files` list. */
  datatype TorrentFile = TorrentFile(id: int, path: string)

  /** The name a member is recorded under: its path lower-cased, with every
      leading '/' removed. */
  function MemberName(path: string): string {
    LStripChar(Lower(path), '/')
  }

  /** The filter's test: a video extension and no "sample" in the name. */
  predicate IsVideoMember(f: TorrentFile) {
    var name := MemberName(f.path);
    HasVideoExtension(name) && !Contains(name, "sample")
  }

  /** The members the filter keeps, in torrent order. */
  function VideoMembers(files: seq<TorrentFile>): seq<TorrentFile> {
    Filter(files, IsVideoMember)
  }

  /** `str(file["id"])` of each member. */
  function MemberIds(members: seq<TorrentFile>): (ids: seq<string>)
    ensures |ids| == |members|
  {
    seq(|members|, k requires 0 <= k < |members| => IntToString(members[k].id))
  }

  /** The recorded name of each member. */
  function MemberNames(members: seq<TorrentFile>): (names: seq<string>)
    ensures |names| == |members|
  {
    seq(|members|, k requires 0 <= k < |members| => MemberName(members[k].path))
  }

  /** A member is selected exactly when it is in the torrent and its path,
      lower-cased and without leading '/', ends with a video extension and does
      not contain "sample". */
  lemma VideoMemberIff(files: seq<TorrentFile>, f: TorrentFile)
    ensures f in VideoMembers(files) <==>
      f in files && HasVideoExtension(MemberName(f.path)) && !Contains(MemberName(f.path), "sample")
  {
    FilterMemberIff(files, IsVideoMember, f);
  }

  /** The selected members are the members at the increasing positions of
      `files` that pass the filter's test, and every such position is taken. */
  lemma VideoMembersInOrder(files: seq<TorrentFile>)
    ensures var idx := FilterIndices(files, IsVideoMember);
      var chosen := VideoMembers(files);
      |idx| == |chosen| &&
      (forall k :: 0 <= k < |idx| ==> idx[k] < |files| && files[idx[k]] == chosen[k]) &&
      (forall k, l :: 0 <= k < l < |idx| ==> idx[k] < idx[l]) &&
      (forall j :: 0 <= j < |files| ==> (IsVideoMember(files[j]) <==> j in idx))
  {
    FilterIndicesSpec(files, IsVideoMember);
  }

  lemma MemberIdsSnoc(members: seq<TorrentFile>, f: TorrentFile)
    ensures MemberIds(members + [f]) == MemberIds(members) + [IntToString(f.id)]
  {
    var all := members + [f];
    var want := MemberIds(members) + [IntToString(f.id)];
    forall k | 0 <= k < |all| ensures MemberIds(all)[k] == want[k] {
      if k < |members| {
        assert all[k] == members[k];
      } else {
        assert all[k] == f;
      }
    }
  }

  lemma MemberNamesSnoc(members: seq<TorrentFile>, f: TorrentFile)
    ensures MemberNames(members + [f]) == MemberNames(members) + [MemberName(f.path)]
  {
    var all := members + [f];
    var want := MemberNames(members) + [MemberName(f.path)];
    forall k | 0 <= k < |all| ensures MemberNames(all)[k] == want[k] {
      if k < |members| {
        assert all[k] == members[k];
      } else {
        assert all[k] == f;
      }
    }
  }

  /** The members selected, given the `files` entry of the first info reply
      (None when the key is missing): none when it is missing or empty. */
  function SelectedMembers(files: Option<seq<TorrentFile>>): seq<TorrentFile> {
    if files.Some? && files.value != [] then VideoMembers(files.value) else []
  }

  /** Step 3 (real_debrid.py:65-75): two parallel lists, the members' ids as
      strings and their recorded names, in torrent order; both empty when the
      reply has no files. */
  method FilterVideoFiles(files: Option<seq<TorrentFile>>) returns (ids: seq<string>, names: seq<string>)
    ensures ids == MemberIds(SelectedMembers(files))
    ensures names == MemberNames(SelectedMembers(files))
  {
    ids, names := [], [];
    if files.Some? && files.value != [] {
      var members := files.value;
      for i := 0 to |members|
        invariant ids == MemberIds(VideoMembers(members[..i]))
        invariant names == MemberNames(VideoMembers(members[..i]))
      {
        FilterSnoc(members, IsVideoMember, i);
        MemberIdsSnoc(VideoMembers(members[..i]), members[i]);
        MemberNamesSnoc(VideoMembers(members[..i]), members[i]);
        var fileName := MemberName(members[i].path);
        if HasVideoExtension(fileName) && !Contains(fileName, "sample") {
          ids := ids + [IntToString(members[i].id)];
          names := names + [fileName];
        }
      }
      assert members[..|members|] == members;
    }
  }

  // ------------------------------------------------------------ the replies

  /** One reply of `get_torrent_info` inside the poll loop. */
  datatype PollReply = PollReply(id: string, status: string)

  /** What the service answers, in the order the function asks: the id given
      to the added magnet, the `files` entry of the first info reply (None when
      the key is missing), the status after the selection, the replies of the
      poll loop, and whether the `.magnet` file still exists at the end. */
  datatype Replies = Replies(
    torrentId: string,
    files: Option<seq<TorrentFile>>,
    statusAfterSelect: string,
    polls: seq<PollReply>,
    magnetFileExists: bool)

  /** The requests and outside calls the function makes. */
  datatype Call =
    | AddMagnet(link: string)
    | GetInfo(torrentId: string)
    | SelectFiles(torrentId: string, files: string)
    | RemoveTorrent(torrentId: string)
    | MarkFailed(releaseTitle: string, magnetFilePath: string)
    | Sleep(seconds: nat)
    | DeleteMagnetFile(path: string)

  /** The dictionary returned on success. */
  datatype UploadResult = UploadResult(id: string, filename: seq<string>)

  /** What the function does: return a value (None or a result), or keep
      polling past the last reply given. */
  datatype Upload = Returned(value: Option<UploadResult>) | StillPolling

  predicate IsFailureStatus(status: string) {
    status == "error" || status == "dead"
  }

  predicate IsPendingStatus(status: string) {
    status != "downloaded" && !IsFailureStatus(status)
  }

  /** Python truth of an optional string: given and not empty. */
  predicate Truthy(path: Option<string>) {
    path.Some? && path.value != []
  }

  /** The release title: the `.magnet` file's base name with every ".magnet"
      removed. */
  function ReleaseTitle(magnetFilePath: string): string {
    RemoveAll(Paths.Basename(magnetFilePath), ".magnet")
  }

  /** The failure report made when a path was given. */
  function FailureReport(magnetFilePath: Option<string>): seq<Call> {
    if Truthy(magnetFilePath) then [MarkFailed(ReleaseTitle(magnetFilePath.value), magnetFilePath.value)] else []
  }

  /** The deletion of the `.magnet` file after a success. */
  function Cleanup(magnetFilePath: Option<string>, exists_: bool): seq<Call> {
    if Truthy(magnetFilePath) && exists_ then [DeleteMagnetFile(magnetFilePath.value)] else []
  }

  /** The members selected, given the first info reply. */
  function Selected(rd: Replies): seq<TorrentFile> {
    SelectedMembers(rd.files)
  }

  /** The calls of `n` polls that saw a pending status. */
  function PendingCalls(torrentId: string, n: nat): seq<Call> {
    if n == 0 then [] else PendingCalls(torrentId, n - 1) + [GetInfo(torrentId), Sleep(10)]
  }

  /** What the poll loop does on a reply that ends it: "downloaded" returns the
      result (and deletes the `.magnet` file), anything else ("error", "dead")
      removes the torrent, reports the failure and returns None. */
  function Settle(torrentId: string, magnetFilePath: Option<string>, names: seq<string>,
                  reply: PollReply, magnetFileExists: bool): (Upload, seq<Call>)
  {
    if reply.status == "downloaded" then
      (Returned(Some(UploadResult(reply.id, names))),
       [GetInfo(torrentId)] + Cleanup(magnetFilePath, magnetFileExists))
    else
      (Returned(None), [GetInfo(torrentId), RemoveTorrent(torrentId)] + FailureReport(magnetFilePath))
  }

  /** The poll loop (real_debrid.py:104-117) over the replies still to come. */
  function PollLoop(torrentId: string, magnetFilePath: Option<string>, names: seq<string>,
                    polls: seq<PollReply>, magnetFileExists: bool): (Upload, seq<Call>)
  {
    if polls == [] then (StillPolling, [])
    else if !IsPendingStatus(polls[0].status) then
      Settle(torrentId, magnetFilePath, names, polls[0], magnetFileExists)
    else
      var rest := PollLoop(torrentId, magnetFilePath, names, polls[1..], magnetFileExists);
      (rest.0, [GetInfo(torrentId), Sleep(10)] + rest.1)
  }

  /** What follows the selection: "queued" removes the torrent, reports the
      failure and returns None; any other status starts the poll loop. */
  function AfterSelect(magnetFilePath: Option<string>, names: seq<string>, rd: Replies): (Upload, seq<Call>) {
    if rd.statusAfterSelect == "queued" then
      (Returned(None), [RemoveTorrent(rd.torrentId)] + FailureReport(magnetFilePath))
    else
      PollLoop(rd.torrentId, magnetFilePath, names, rd.polls, rd.magnetFileExists)
  }

  /** The four calls up to the selection's info request. */
  function SelectionCalls(magnetLink: string, rd: Replies, ids: seq<string>): seq<Call> {
    [AddMagnet(magnetLink), GetInfo(rd.torrentId), SelectFiles(rd.torrentId, JoinWith(ids, ',')), GetInfo(rd.torrentId)]
  }

  /** What `upload_magnet_to_realdebrid` does, given the service's replies. */
  function UploadSpec(magnetLink: string, magnetFilePath: Option<string>, rd: Replies): (Upload, seq<Call>) {
    var chosen := Selected(rd);
    if chosen == [] then (Returned(None), [AddMagnet(magnetLink), GetInfo(rd.torrentId)])
    else
      var after := AfterSelect(magnetFilePath, MemberNames(chosen), rd);
      (after.0, SelectionCalls(magnetLink, rd, MemberIds(chosen)) + after.1)
  }

  /** A pending reply costs one info request and a sleep, and the loop goes
      on with the next reply; `done` is what was called before. */
  lemma PollLoopPending(torrentId: string, magnetFilePath: Option<string>, names: seq<string>,
                        polls: seq<PollReply>, magnetFileExists: bool, i: nat, done: seq<Call>)
    requires i < |polls| && IsPendingStatus(polls[i].status)
    ensures var here := PollLoop(torrentId, magnetFilePath, names, polls[i..], magnetFileExists);
      var next := PollLoop(torrentId, magnetFilePath, names, polls[i + 1..], magnetFileExists);
      (here.0, done + here.1) == (next.0, (done + [GetInfo(torrentId), Sleep(10)]) + next.1)
  {
    assert polls[i..][1..] == polls[i + 1..];
    var next := PollLoop(torrentId, magnetFilePath, names, polls[i + 1..], magnetFileExists);
    assert done + ([GetInfo(torrentId), Sleep(10)] + next.1) == (done + [GetInfo(torrentId), Sleep(10)]) + next.1;
  }

  /** With a selection, the upload makes the four selection calls and then
      whatever follows the selection. */
  lemma UploadSpecSelected(magnetLink: string, magnetFilePath: Option<string>, rd: Replies)
    requires Selected(rd) != []
    ensures var after := AfterSelect(magnetFilePath, MemberNames(Selected(rd)), rd);
      UploadSpec(magnetLink, magnetFilePath, rd) ==
        (after.0, SelectionCalls(magnetLink, rd, MemberIds(Selected(rd))) + after.1)
  {
  }

  /** A reply that is not pending ends the loop there. */
  lemma PollLoopSettles(torrentId: string, magnetFilePath: Option<string>, names: seq<string>,
                        polls: seq<PollReply>, magnetFileExists: bool, i: nat)
    requires i < |polls| && !IsPendingStatus(polls[i].status)
    ensures PollLoop(torrentId, magnetFilePath, names, polls[i..], magnetFileExists) ==
      Settle(torrentId, magnetFilePath, names, polls[i], magnetFileExists)
  {
    assert polls[i..][0] == polls[i];
  }

  /** The poll loop (real_debrid.py:104-117): one info request per reply,
      until a reply is "downloaded", "error" or "dead"; ten seconds of sleep
      after each other reply. */
  method PollUntilSettled(torrentId: string, magnetFilePath: Option<string>, names: seq<string>,
                          polls: seq<PollReply>, magnetFileExists: bool)
    returns (outcome: Upload, calls: seq<Call>)
    ensures (outcome, calls) == PollLoop(torrentId, magnetFilePath, names, polls, magnetFileExists)
  {
    ghost var spec := PollLoop(torrentId, magnetFilePath, names, polls, magnetFileExists);
    calls := [];
    var i := 0;
    assert polls[i..] == polls;
    assert calls + spec.1 == spec.1;
    while i < |polls|
      invariant 0 <= i <= |polls|
      invariant var rest := PollLoop(torrentId, magnetFilePath, names, polls[i..], magnetFileExists);
        spec == (rest.0, calls + rest.1)
    {
      var reply := polls[i];
      if reply.status == "downloaded" {
        PollLoopSettles(torrentId, magnetFilePath, names, polls, magnetFileExists, i);
        return Returned(Some(UploadResult(reply.id, names))),
          calls + ([GetInfo(torrentId)] + Cleanup(magnetFilePath, magnetFileExists));
      } else if reply.status == "error" || reply.status == "dead" {
        PollLoopSettles(torrentId, magnetFilePath, names, polls, magnetFileExists, i);
        return Returned(None),
          calls + ([GetInfo(torrentId), RemoveTorrent(torrentId)] + FailureReport(magnetFilePath));
      }
      PollLoopPending(torrentId, magnetFilePath, names, polls, magnetFileExists, i, calls);
      calls := calls + [GetInfo(torrentId), Sleep(10)];
      i := i + 1;
    }
    assert polls[i..] == [];
    assert calls + [] == calls;
    outcome := StillPolling;
  }

  /** `upload_magnet_to_realdebrid` (real_debrid.py:43-129) with the HTTP
      replies as inputs. */
  method UploadMagnetToRealDebrid(magnetLink: string, magnetFilePath: Option<string>, rd: Replies)
    returns (outcome: Upload, calls: seq<Call>)
    ensures (outcome, calls) == UploadSpec(magnetLink, magnetFilePath, rd)
  {
    calls := [AddMagnet(magnetLink), GetInfo(rd.torrentId)];
    ghost var chosen := Selected(rd);
    var ids, names := FilterVideoFiles(rd.files);
    if ids == [] {
      assert chosen == [];
      return Returned(None), calls;
    }
    calls := calls + [SelectFiles(rd.torrentId, JoinWith(ids, ',')), GetInfo(rd.torrentId)];
    assert calls == SelectionCalls(magnetLink, rd, ids);
    UploadSpecSelected(magnetLink, magnetFilePath, rd);
    var tail;
    outcome, tail := CheckCachedAndWait(magnetFilePath, names, rd);
    calls := calls + tail;
  }

  /** Steps 5 to 7 (real_debrid.py:91-122): a torrent still "queued" after the
      selection is not cached, so it is removed and reported; otherwise the
      poll loop waits for it. */
  method CheckCachedAndWait(magnetFilePath: Option<string>, names: seq<string>, rd: Replies)
    returns (outcome: Upload, calls: seq<Call>)
    ensures (outcome, calls) == AfterSelect(magnetFilePath, names, rd)
  {
    if rd.statusAfterSelect == "queued" {
      return Returned(None), [RemoveTorrent(rd.torrentId)] + FailureReport(magnetFilePath);
    }
    outcome, calls := PollUntilSettled(rd.torrentId, magnetFilePath, names, rd.polls, rd.magnetFileExists);
  }

  // ------------------------------------------------------------- properties

  /** The index of the first poll reply whose status ends the loop, or the
      number of replies when none does. */
  function FirstSettled(polls: seq<PollReply>): (k: nat)
    ensures k <= |polls|
    ensures forall j :: 0 <= j < k ==> IsPendingStatus(polls[j].status)
    ensures k < |polls| ==> !IsPendingStatus(polls[k].status)
  {
    if polls == [] || !IsPendingStatus(polls[0].status) then 0
    else 1 + FirstSettled(polls[1..])
  }

  /** Up to the first settling reply, the loop is the pending replies' polls
      and sleeps followed by the loop over the replies still to come. */
  lemma {:induction false} PollLoopPrefix(torrentId: string, magnetFilePath: Option<string>, names: seq<string>,
                                          polls: seq<PollReply>, magnetFileExists: bool, i: nat)
    requires i <= FirstSettled(polls)
    ensures var here := PollLoop(torrentId, magnetFilePath, names, polls, magnetFileExists);
      var rest := PollLoop(torrentId, magnetFilePath, names, polls[i..], magnetFileExists);
      here == (rest.0, PendingCalls(torrentId, i) + rest.1)
  {
    if i == 0 {
      assert polls[0..] == polls;
      var here := PollLoop(torrentId, magnetFilePath, names, polls, magnetFileExists);
      assert PendingCalls(torrentId, 0) + here.1 == here.1;
    } else {
      PollLoopPrefix(torrentId, magnetFilePath, names, polls, magnetFileExists, i - 1);
      PollLoopPending(torrentId, magnetFilePath, names, polls, magnetFileExists, i - 1, PendingCalls(torrentId, i - 1));
    }
  }

  /** The poll loop, reply by reply: it polls, and sleeps after, every pending
      reply before the first settling one, then settles on that one; without a
      settling reply it is still polling. */
  lemma PollLoopSpec(torrentId: string, magnetFilePath: Option<string>, names: seq<string>,
                     polls: seq<PollReply>, magnetFileExists: bool)
    ensures var k := FirstSettled(polls);
      var r := PollLoop(torrentId, magnetFilePath, names, polls, magnetFileExists);
      k == |polls| ==> r == (StillPolling, PendingCalls(torrentId, k))
    ensures var k := FirstSettled(polls);
      var r := PollLoop(torrentId, magnetFilePath, names, polls, magnetFileExists);
      k < |polls| ==>
        var settle := Settle(torrentId, magnetFilePath, names, polls[k], magnetFileExists);
        r == (settle.0, PendingCalls(torrentId, k) + settle.1)
  {
    var k := FirstSettled(polls);
    PollLoopPrefix(torrentId, magnetFilePath, names, polls, magnetFileExists, k);
    if k < |polls| {
      PollLoopSettles(torrentId, magnetFilePath, names, polls, magnetFileExists, k);
    } else {
      assert polls[k..] == [];
      assert PendingCalls(torrentId, k) + [] == PendingCalls(torrentId, k);
    }
  }

  /** The result is returned only after a "downloaded" reply that every earlier
      poll reply left pending, and after a selection that was not "queued"; it
      carries that reply's id and the recorded names of the selected members. */
  lemma ResultOnlyAfterDownloaded(magnetLink: string, magnetFilePath: Option<string>, rd: Replies)
    ensures var outcome := UploadSpec(magnetLink, magnetFilePath, rd).0;
      var k := FirstSettled(rd.polls);
      (outcome.Returned? && outcome.value.Some?) <==>
        (Selected(rd) != [] && rd.statusAfterSelect != "queued" &&
         k < |rd.polls| && rd.polls[k].status == "downloaded")
    ensures var outcome := UploadSpec(magnetLink, magnetFilePath, rd).0;
      var k := FirstSettled(rd.polls);
      outcome.Returned? && outcome.value.Some? ==>
        outcome.value.value == UploadResult(rd.polls[k].id, MemberNames(Selected(rd))) &&
        forall j :: 0 <= j < k ==> IsPendingStatus(rd.polls[j].status)
  {
    PollLoopSpec(rd.torrentId, magnetFilePath, MemberNames(Selected(rd)), rd.polls, rd.magnetFileExists);
  }

  /** A "queued" status right after the selection removes the torrent, reports
      the failure exactly when a path was given, and returns None: the torrent
      is not cached and nothing is polled. */
  lemma QueuedRemovesAndFails(magnetLink: string, magnetFilePath: Option<string>, rd: Replies)
    requires Selected(rd) != [] && rd.statusAfterSelect == "queued"
    ensures UploadSpec(magnetLink, magnetFilePath, rd) ==
      (Returned(None), SelectionCalls(magnetLink, rd, MemberIds(Selected(rd))) + [RemoveTorrent(rd.torrentId)] + FailureReport(magnetFilePath))
    ensures var (outcome, calls) := UploadSpec(magnetLink, magnetFilePath, rd);
      outcome == Returned(None) &&
      RemoveTorrent(rd.torrentId) in calls &&
      (Truthy(magnetFilePath) ==> MarkFailed(ReleaseTitle(magnetFilePath.value), magnetFilePath.value) in calls) &&
      forall c :: c in calls ==> !c.Sleep? && (c.MarkFailed? ==> Truthy(magnetFilePath))
  {
    var selected := SelectionCalls(magnetLink, rd, MemberIds(Selected(rd)));
    var report := FailureReport(magnetFilePath);
    var tail := [RemoveTorrent(rd.torrentId)] + report;
    var calls := selected + tail;
    UploadSpecSelected(magnetLink, magnetFilePath, rd);
    assert UploadSpec(magnetLink, magnetFilePath, rd) == (Returned(None), calls);
    assert calls == selected + [RemoveTorrent(rd.torrentId)] + report;
    assert calls[4] == RemoveTorrent(rd.torrentId);
    if Truthy(magnetFilePath) {
      assert calls[5] == report[0];
    }
    forall c | c in calls ensures !c.Sleep? && (c.MarkFailed? ==> Truthy(magnetFilePath)) {
      if c !in selected {
        assert c in tail;
        assert c == RemoveTorrent(rd.torrentId) || c in report;
      }
    }
  }

  /** The poll loop neither adds a magnet nor selects files, and any failure
      report or deletion it makes names the given path. */
  lemma {:induction false} PollLoopCallKinds(torrentId: string, magnetFilePath: Option<string>, names: seq<string>,
                                             polls: seq<PollReply>, magnetFileExists: bool)
    ensures forall c :: c in PollLoop(torrentId, magnetFilePath, names, polls, magnetFileExists).1 ==>
      !c.AddMagnet? && !c.SelectFiles? &&
      (c.MarkFailed? ==> Truthy(magnetFilePath) && c == MarkFailed(ReleaseTitle(magnetFilePath.value), magnetFilePath.value)) &&
      (c.DeleteMagnetFile? ==> Truthy(magnetFilePath) && c == DeleteMagnetFile(magnetFilePath.value))
  {
    if polls != [] && IsPendingStatus(polls[0].status) {
      PollLoopCallKinds(torrentId, magnetFilePath, names, polls[1..], magnetFileExists);
    }
  }

  /** Nothing after the selection adds a magnet or selects files. */
  lemma AfterSelectNoSelection(magnetFilePath: Option<string>, names: seq<string>, rd: Replies)
    ensures forall c :: c in AfterSelect(magnetFilePath, names, rd).1 ==> !c.AddMagnet? && !c.SelectFiles?
  {
    if rd.statusAfterSelect == "queued" {
      var tail := [RemoveTorrent(rd.torrentId)] + FailureReport(magnetFilePath);
      forall c | c in tail ensures !c.AddMagnet? && !c.SelectFiles? {
        assert c == RemoveTorrent(rd.torrentId) || c in FailureReport(magnetFilePath);
      }
    } else {
      PollLoopCallKinds(rd.torrentId, magnetFilePath, names, rd.polls, rd.magnetFileExists);
    }
  }

  /** Any failure report or deletion after the selection names the given path. */
  lemma AfterSelectPathCalls(magnetFilePath: Option<string>, names: seq<string>, rd: Replies)
    ensures forall c :: c in AfterSelect(magnetFilePath, names, rd).1 ==>
      (c.MarkFailed? ==> Truthy(magnetFilePath) && c == MarkFailed(ReleaseTitle(magnetFilePath.value), magnetFilePath.value)) &&
      (c.DeleteMagnetFile? ==> Truthy(magnetFilePath) && c == DeleteMagnetFile(magnetFilePath.value))
  {
    if rd.statusAfterSelect == "queued" {
      var tail := [RemoveTorrent(rd.torrentId)] + FailureReport(magnetFilePath);
      forall c | c in tail
        ensures (c.MarkFailed? ==> Truthy(magnetFilePath) && c == MarkFailed(ReleaseTitle(magnetFilePath.value), magnetFilePath.value))
        ensures (c.DeleteMagnetFile? ==> Truthy(magnetFilePath) && c == DeleteMagnetFile(magnetFilePath.value))
      {
        assert c == RemoveTorrent(rd.torrentId) || c in FailureReport(magnetFilePath);
      }
    } else {
      PollLoopCallKinds(rd.torrentId, magnetFilePath, names, rd.polls, rd.magnetFileExists);
    }
  }

  /** Without a selected member no selectFiles request is made and None is
      returned; with one, exactly one selectFiles request is made, third, and
      its body is the members' ids joined with ",", which splits back into
      exactly those ids. */
  lemma SelectFilesRequest(magnetLink: string, magnetFilePath: Option<string>, rd: Replies)
    ensures var (outcome, calls) := UploadSpec(magnetLink, magnetFilePath, rd);
      Selected(rd) == [] ==> outcome == Returned(None) && forall c :: c in calls ==> !c.SelectFiles?
    ensures var (outcome, calls) := UploadSpec(magnetLink, magnetFilePath, rd);
      var ids := MemberIds(Selected(rd));
      Selected(rd) != [] ==>
        |calls| > 2 && calls[2] == SelectFiles(rd.torrentId, JoinWith(ids, ',')) &&
        Split(calls[2].files, ',') == ids &&
        forall k :: 0 <= k < |calls| && k != 2 ==> !calls[k].SelectFiles?
  {
    var chosen := Selected(rd);
    if chosen != [] {
      var ids := MemberIds(chosen);
      forall k | 0 <= k < |ids| ensures ',' !in ids[k] {
        IntToStringNoComma(chosen[k].id);
      }
      SplitJoin(ids, ',');
      var after := AfterSelect(magnetFilePath, MemberNames(chosen), rd);
      AfterSelectNoSelection(magnetFilePath, MemberNames(chosen), rd);
      UploadSpecSelected(magnetLink, magnetFilePath, rd);
      SelectionCallsOnce(magnetLink, rd, ids, after.1);
    }
  }

  /** The selection calls followed by calls that select nothing select files
      exactly once, third. */
  lemma SelectionCallsOnce(magnetLink: string, rd: Replies, ids: seq<string>, after: seq<Call>)
    requires forall c :: c in after ==> !c.SelectFiles?
    ensures var calls := SelectionCalls(magnetLink, rd, ids) + after;
      |calls| > 2 && calls[2] == SelectFiles(rd.torrentId, JoinWith(ids, ',')) &&
      forall k :: 0 <= k < |calls| && k != 2 ==> !calls[k].SelectFiles?
  {
    var calls := SelectionCalls(magnetLink, rd, ids) + after;
    forall k | 4 <= k < |calls| ensures !calls[k].SelectFiles? {
      assert calls[k] == after[k - 4];
    }
  }

  /** The failure report names the release title of the given path, the
      deletion names the path, and both are made only when a path was given. */
  lemma ReportAndDeleteOnlyWithPath(magnetLink: string, magnetFilePath: Option<string>, rd: Replies)
    ensures var calls := UploadSpec(magnetLink, magnetFilePath, rd).1;
      forall c :: c in calls ==>
        (c.MarkFailed? ==> Truthy(magnetFilePath) && c == MarkFailed(ReleaseTitle(magnetFilePath.value), magnetFilePath.value)) &&
        (c.DeleteMagnetFile? ==> Truthy(magnetFilePath) && c == DeleteMagnetFile(magnetFilePath.value))
  {
    var chosen := Selected(rd);
    if chosen != [] {
      var selected := SelectionCalls(magnetLink, rd, MemberIds(chosen));
      var after := AfterSelect(magnetFilePath, MemberNames(chosen), rd);
      AfterSelectPathCalls(magnetFilePath, MemberNames(chosen), rd);
      assert forall c :: c in selected + after.1 ==> c in selected || c in after.1;
    }
  }

  /** With a path given, a poll loop that returns None ends with the failure
      report. */
  lemma {:induction false} PollLoopNoneReported(torrentId: string, magnetFilePath: Option<string>, names: seq<string>,
                                                polls: seq<PollReply>, magnetFileExists: bool)
    requires Truthy(magnetFilePath)
    requires PollLoop(torrentId, magnetFilePath, names, polls, magnetFileExists).0 == Returned(None)
    ensures var calls := PollLoop(torrentId, magnetFilePath, names, polls, magnetFileExists).1;
      |calls| > 0 && calls[|calls| - 1] == FailureReport(magnetFilePath)[0]
  {
    var report := FailureReport(magnetFilePath);
    assert |report| == 1;
    var here := PollLoop(torrentId, magnetFilePath, names, polls, magnetFileExists);
    assert polls != [];
    if IsPendingStatus(polls[0].status) {
      var rest := PollLoop(torrentId, magnetFilePath, names, polls[1..], magnetFileExists);
      assert here == (rest.0, [GetInfo(torrentId), Sleep(10)] + rest.1);
      PollLoopNoneReported(torrentId, magnetFilePath, names, polls[1..], magnetFileExists);
    } else {
      assert here == Settle(torrentId, magnetFilePath, names, polls[0], magnetFileExists);
      assert polls[0].status != "downloaded";
      assert here.1 == [GetInfo(torrentId), RemoveTorrent(torrentId)] + report;
    }
  }

  /** With a path given, a None after the selection ends with the failure
      report. */
  lemma AfterSelectNoneReported(magnetFilePath: Option<string>, names: seq<string>, rd: Replies)
    requires Truthy(magnetFilePath)
    requires AfterSelect(magnetFilePath, names, rd).0 == Returned(None)
    ensures var calls := AfterSelect(magnetFilePath, names, rd).1;
      |calls| > 0 && calls[|calls| - 1] == FailureReport(magnetFilePath)[0]
  {
    var report := FailureReport(magnetFilePath);
    assert |report| == 1;
    if rd.statusAfterSelect != "queued" {
      PollLoopNoneReported(rd.torrentId, magnetFilePath, names, rd.polls, rd.magnetFileExists);
    } else {
      assert AfterSelect(magnetFilePath, names, rd).1 == [RemoveTorrent(rd.torrentId)] + report;
    }
  }

  /** With a path given, every None returned after a selection ends with the
      failure report for that path. */
  lemma FailureAfterSelectReported(magnetLink: string, magnetFilePath: Option<string>, rd: Replies)
    requires Truthy(magnetFilePath) && Selected(rd) != []
    requires UploadSpec(magnetLink, magnetFilePath, rd).0 == Returned(None)
    ensures var calls := UploadSpec(magnetLink, magnetFilePath, rd).1;
      |calls| > 0 && calls[|calls| - 1] == MarkFailed(ReleaseTitle(magnetFilePath.value), magnetFilePath.value)
  {
    var names := MemberNames(Selected(rd));
    var after := AfterSelect(magnetFilePath, names, rd);
    AfterSelectNoneReported(magnetFilePath, names, rd);
    var calls := SelectionCalls(magnetLink, rd, MemberIds(Selected(rd))) + after.1;
    assert calls[|calls| - 1] == after.1[|after.1| - 1];
  }

  lemma MagnetSuffixFirstCharUnique()
    ensures FirstCharUnique(".magnet")
  {
  }

  lemma AppendNoSlash(stem: string, suffix: string)
    requires '/' !in stem && '/' !in suffix
    ensures '/' !in stem + suffix
  {
    var name := stem + suffix;
    forall k | 0 <= k < |name| ensures name[k] != '/' {
      if k < |stem| { assert name[k] == stem[k]; } else { assert name[k] == suffix[k - |stem|]; }
    }
  }

  /** For a `.magnet` file in a folder, the release title is the file's name
      without its ".magnet", when that name holds no other ".magnet". */
  lemma ReleaseTitleOfMagnetFile(folder: string, stem: string)
    requires '/' !in stem && !Contains(stem, ".magnet")
    ensures ReleaseTitle(Paths.Join(folder, stem + ".magnet")) == stem
  {
    AppendNoSlash(stem, ".magnet");
    Paths.BasenameJoin(folder, stem + ".magnet");
    MagnetSuffixFirstCharUnique();
    RemoveAllTrailing(stem, ".magnet");
  }
}
