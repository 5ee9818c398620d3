/** The share request service: its checks in order, the duplicate report, and the two tables it
    updates in place. */
module ShareRequests {
  import opened Wrappers
  import opened SharePairs

  datatype Error =
    | SHARE_INACTIVE_USER
    | SHARE_NO_ROLE
    | SHARE_PERMISSION_DENIED
    | FILE_NOT_FOUND
    | FILE_NOT_ACTIVE
    | TARGET_NOT_FOUND
    | SHARE_INVALID_APPROVER
    | SHARE_INVALID_DATE_RANGE
    | SHARE_ACTIVE_EXISTS
    | SHARE_PENDING_EXISTS

  datatype Permission = FILE_SHARE_DIRECT | FILE_SHARE_REQUEST

  datatype Form = Form(requester: string, files: seq<string>, targets: seq<Target>, approver: Option<string>, startAt: int, endAt: int)

  /** What the other tables answer during the call: the requester's account, which files
      exist and whether they are active, which targets exist, and who may approve. */
  datatype World = World(isActive: bool, permissions: Option<set<Permission>>, files: map<string, bool>, users: set<Target>, approvers: set<string>)

  predicate Direct(w: World) { w.permissions.Some? && FILE_SHARE_DIRECT in w.permissions.value }

  /** The first file that is unknown or not active. */
  function FilesRefusal(w: World, files: seq<string>): Option<Error> {
    if files == [] then None
    else if files[0] !in w.files then Some(FILE_NOT_FOUND)
    else if !w.files[files[0]] then Some(FILE_NOT_ACTIVE)
    else FilesRefusal(w, files[1..])
  }

  // ------------------------------------------------------------------ the duplicate report

  datatype Found = ActiveShareExists(p: Pair) | PendingRequestExists(p: Pair)

  /** What one pair adds to the report; an active share hides a pending request. */
  function PairReport(s: State, p: Pair): seq<Found> {
    if HasActive(s.shares, s.now, p) then [ActiveShareExists(p)]
    else if HasPending(s.requests, p.file, p.target.userId) then [PendingRequestExists(p)]
    else []
  }

  function FileReport(s: State, file: string, targets: seq<Target>): seq<Found> {
    if targets == [] then []
    else FileReport(s, file, targets[..|targets| - 1]) + PairReport(s, Pair(file, targets[|targets| - 1]))
  }

  function Report(s: State, files: seq<string>, targets: seq<Target>): seq<Found> {
    if files == [] then []
    else Report(s, files[..|files| - 1], targets) + FileReport(s, files[|files| - 1], targets)
  }

  predicate FileFree(s: State, file: string, targets: seq<Target>) {
    forall j :: 0 <= j < |targets| ==> !Conflicts(s, Pair(file, targets[j]))
  }

  predicate TrueConflict(s: State, c: Found) {
    Conflicts(s, c.p) && (c.ActiveShareExists? <==> HasActive(s.shares, s.now, c.p))
  }

  lemma {:induction false} FileReportFree(s: State, file: string, targets: seq<Target>)
    ensures FileReport(s, file, targets) == [] <==> FileFree(s, file, targets)
  {
    if targets != [] {
      var n := |targets| - 1;
      FileReportFree(s, file, targets[..n]);
      assert PairReport(s, Pair(file, targets[n])) == [] <==> !Conflicts(s, Pair(file, targets[n]));
      if FileFree(s, file, targets) {
        forall j | 0 <= j < n ensures !Conflicts(s, Pair(file, targets[..n][j])) { assert !Conflicts(s, Pair(file, targets[j])); }
      }
      if FileFree(s, file, targets[..n]) && !Conflicts(s, Pair(file, targets[n])) {
        forall j | 0 <= j < |targets| ensures !Conflicts(s, Pair(file, targets[j])) {
          if j < n { assert !Conflicts(s, Pair(file, targets[..n][j])); }
        }
      }
    }
  }

  lemma {:induction false} FileReportEntry(s: State, file: string, targets: seq<Target>, c: Found)
    requires c in FileReport(s, file, targets)
    ensures TrueConflict(s, c) && c.p.file == file && c.p.target in targets
  {
    hide Conflicts, HasActive, HasPending;
    var n := |targets| - 1;
    if c in FileReport(s, file, targets[..n]) {
      FileReportEntry(s, file, targets[..n], c);
    } else {
      PairReportEntry(s, Pair(file, targets[n]), c);
    }
  }

  lemma PairReportEntry(s: State, p: Pair, c: Found)
    requires c in PairReport(s, p)
    ensures TrueConflict(s, c) && c.p == p
  {}

  /** The report is empty iff every pair is free. */
  lemma {:induction false} ReportFree(s: State, files: seq<string>, targets: seq<Target>)
    ensures Report(s, files, targets) == [] <==> Free(s, files, targets)
  {
    if files != [] {
      ReportFree(s, files[..|files| - 1], targets);
      FileReportFree(s, files[|files| - 1], targets);
      FreeSplit(s, files, targets);
      hide Free, FileFree;
    }
  }

  /** Each entry is a conflict of one of the pairs, named as active share iff there is one. */
  lemma {:induction false} ReportEntry(s: State, files: seq<string>, targets: seq<Target>, c: Found)
    requires c in Report(s, files, targets)
    ensures TrueConflict(s, c) && c.p.file in files && c.p.target in targets
  {
    hide TrueConflict, FileReport;
    var n := |files| - 1;
    if c in Report(s, files[..n], targets) {
      ReportEntry(s, files[..n], targets, c);
    } else {
      FileReportEntry(s, files[n], targets, c);
    }
  }

  lemma FreeSplit(s: State, files: seq<string>, targets: seq<Target>)
    requires files != []
    ensures Free(s, files, targets) <==> Free(s, files[..|files| - 1], targets) && FileFree(s, files[|files| - 1], targets)
  {
    var n, init := |files| - 1, files[..|files| - 1];
    if Free(s, files, targets) {
      forall i, j | 0 <= i < n && 0 <= j < |targets| ensures !Conflicts(s, Pair(init[i], targets[j])) {
        assert !Conflicts(s, Pair(files[i], targets[j]));
      }
      forall j | 0 <= j < |targets| ensures !Conflicts(s, Pair(files[n], targets[j])) {}
    }
    if Free(s, init, targets) && FileFree(s, files[n], targets) {
      forall i, j | 0 <= i < |files| && 0 <= j < |targets| ensures !Conflicts(s, Pair(files[i], targets[j])) {
        if i < n { assert !Conflicts(s, Pair(init[i], targets[j])); }
      }
    }
  }

  // ------------------------------------------------------------------ refusals

  function ConflictRefusal(s: State, files: seq<string>, targets: seq<Target>): Option<Error> {
    var report := Report(s, files, targets);
    if report == [] then None
    else if report[0].ActiveShareExists? then Some(SHARE_ACTIVE_EXISTS) else Some(SHARE_PENDING_EXISTS)
  }

  /** The checks of createShareRequest in their order. */
  function CreateRefusal(s: State, w: World, f: Form): Option<Error> {
    if !w.isActive then Some(SHARE_INACTIVE_USER)
    else if w.permissions.None? then Some(SHARE_NO_ROLE)
    else if w.permissions.value == {} then Some(SHARE_PERMISSION_DENIED)
    else if FilesRefusal(w, f.files).Some? then FilesRefusal(w, f.files)
    else if exists t :: t in f.targets && t !in w.users then Some(TARGET_NOT_FOUND)
    else if !Direct(w) && (f.approver.None? || f.approver.value == "") then Some(SHARE_PERMISSION_DENIED)
    else if !Direct(w) && f.approver.value !in w.approvers then Some(SHARE_INVALID_APPROVER)
    else if f.startAt >= f.endAt then Some(SHARE_INVALID_DATE_RANGE)
    else ConflictRefusal(s, f.files, f.targets)
  }

  /** What the form and the tables have to be for a request to be accepted. */
  predicate Acceptable(s: State, w: World, f: Form) {
    && w.isActive && w.permissions.Some? && w.permissions.value != {}
    && (forall file | file in f.files :: file in w.files && w.files[file])
    && (forall t | t in f.targets :: t in w.users)
    && (FILE_SHARE_DIRECT in w.permissions.value
        || (f.approver.Some? && f.approver.value != "" && f.approver.value in w.approvers))
    && Accepted(s, f.files, f.targets, f.startAt, f.endAt)
  }

  /** The defect an error names is there. */
  ghost predicate TrueReason(s: State, w: World, f: Form, e: Error) {
    match e
    case SHARE_INACTIVE_USER => !w.isActive
    case SHARE_NO_ROLE => w.permissions.None?
    case SHARE_PERMISSION_DENIED =>
      w.permissions.Some? && (w.permissions.value == {} || (FILE_SHARE_DIRECT !in w.permissions.value && (f.approver.None? || f.approver.value == "")))
    case FILE_NOT_FOUND => exists file :: file in f.files && file !in w.files
    case FILE_NOT_ACTIVE => exists file :: file in f.files && file in w.files && !w.files[file]
    case TARGET_NOT_FOUND => exists t :: t in f.targets && t !in w.users
    case SHARE_INVALID_APPROVER =>
      w.permissions.Some? && FILE_SHARE_DIRECT !in w.permissions.value && f.approver.Some? && f.approver.value != "" && f.approver.value !in w.approvers
    case SHARE_INVALID_DATE_RANGE => f.startAt >= f.endAt
    case SHARE_ACTIVE_EXISTS =>
      exists p: Pair :: p.file in f.files && p.target in f.targets && HasActive(s.shares, s.now, p)
    case SHARE_PENDING_EXISTS =>
      exists p: Pair :: p.file in f.files && p.target in f.targets && HasPending(s.requests, p.file, p.target.userId)
                        && !HasActive(s.shares, s.now, p)
  }

  lemma {:induction false} FilesReason(s: State, w: World, f: Form, files: seq<string>)
    requires FilesRefusal(w, files).Some? && forall file | file in files :: file in f.files
    ensures FilesRefusal(w, files).value in {FILE_NOT_FOUND, FILE_NOT_ACTIVE}
    ensures TrueReason(s, w, f, FilesRefusal(w, files).value)
    decreases |files|
  {
    if files[0] in w.files && w.files[files[0]] { FilesReason(s, w, f, files[1..]); }
  }

  lemma ConflictReason(s: State, w: World, f: Form)
    requires ConflictRefusal(s, f.files, f.targets).Some?
    ensures TrueReason(s, w, f, ConflictRefusal(s, f.files, f.targets).value)
  {
    var c := Report(s, f.files, f.targets)[0];
    ReportEntry(s, f.files, f.targets, c);
    hide Report;
  }

  /** A request is refused iff the form or the tables are not acceptable, with an error that
      names a defect they have. */
  lemma RefusalExact(s: State, w: World, f: Form)
    ensures CreateRefusal(s, w, f).None? <==> Acceptable(s, w, f)
    ensures CreateRefusal(s, w, f).Some? ==> TrueReason(s, w, f, CreateRefusal(s, w, f).value)
  {
    ReportFree(s, f.files, f.targets);
    FilesActive(w, f.files);
    if FilesRefusal(w, f.files).Some? { FilesReason(s, w, f, f.files); }
    if ConflictRefusal(s, f.files, f.targets).Some? { ConflictReason(s, w, f); }
    hide Report, Free, FilesRefusal, ConflictRefusal, HasActive, HasPending;
  }

  lemma {:induction false} FilesActive(w: World, files: seq<string>)
    ensures FilesRefusal(w, files).None? <==> forall file | file in files :: file in w.files && w.files[file]
  {
    if files != [] {
      FilesActive(w, files[1..]);
      assert files == [files[0]] + files[1..];
    }
  }

  // ------------------------------------------------------------------ the service

  class ShareRequestService {
    var requests: seq<Request>
    var shares: seq<Share>

    function At(now: int): State
      reads this
    {
      State(requests, shares, now)
    }

    constructor ()
      ensures requests == [] && shares == []
    { requests, shares := [], []; }

    method FindActivePublicShare(p: Pair, now: int) returns (found: bool)
      ensures found == HasActive(shares, now, p)
    {
      for k := 0 to |shares|
        invariant forall i | 0 <= i < k :: !LivePair(shares[i], now, p)
      {
        if LivePair(shares[k], now, p) { return true; }
      }
      return false;
    }

    method CheckFile(file: string, targets: seq<Target>, now: int) returns (conflicts: seq<Found>)
      ensures conflicts == FileReport(At(now), file, targets)
    {
      hide HasPending, HasActive;
      conflicts := [];
      for j := 0 to |targets|
        invariant conflicts == FileReport(At(now), file, targets[..j])
      {
        assert targets[..j + 1][..j] == targets[..j];
        var p := Pair(file, targets[j]);
        var active := FindActivePublicShare(p, now);
        if active {
          conflicts := conflicts + [ActiveShareExists(p)];
        } else if HasPending(requests, p.file, p.target.userId) {
          conflicts := conflicts + [PendingRequestExists(p)];
        }
      }
      assert targets[..|targets|] == targets;
    }

    method CheckDuplicates(files: seq<string>, targets: seq<Target>, now: int) returns (conflicts: seq<Found>)
      ensures conflicts == Report(At(now), files, targets)
    {
      hide FileReport;
      conflicts := [];
      for i := 0 to |files|
        invariant conflicts == Report(At(now), files[..i], targets)
      {
        assert files[..i + 1][..i] == files[..i];
        var ofFile := CheckFile(files[i], targets, now);
        conflicts := conflicts + ofFile;
      }
      assert files[..|files|] == files;
    }

    static method ValidateFiles(w: World, files: seq<string>) returns (refusal: Option<Error>)
      ensures refusal == FilesRefusal(w, files)
    {
      for i := 0 to |files|
        invariant FilesRefusal(w, files) == FilesRefusal(w, files[i..])
      {
        if files[i] !in w.files { return Some(FILE_NOT_FOUND); }
        if !w.files[files[i]] { return Some(FILE_NOT_ACTIVE); }
        assert files[i..][1..] == files[i + 1..];
      }
      return None;
    }

    static method ValidateTargets(w: World, targets: seq<Target>) returns (known: bool)
      ensures !known <==> exists t :: t in targets && t !in w.users
    {
      for i := 0 to |targets|
        invariant forall j | 0 <= j < i :: targets[j] in w.users
      {
        if targets[i] !in w.users { return false; }
      }
      return true;
    }

    method ShareFile(file: string, targets: seq<Target>, endAt: int)
      modifies this`shares
      ensures shares == old(shares) + SharesOf(file, targets, endAt)
    {
      for j := 0 to |targets|
        invariant shares == old(shares) + SharesOf(file, targets[..j], endAt)
      {
        assert targets[..j + 1][..j] == targets[..j];
        shares := shares + [Share(file, targets[j], endAt, false, false)];
      }
      assert targets[..|targets|] == targets;
    }

    method CreatePublicShares(r: Request)
      modifies this`shares
      ensures shares == old(shares) + NewShares(r.files, r.targets, r.endAt)
    {
      for i := 0 to |r.files|
        invariant shares == old(shares) + NewShares(r.files[..i], r.targets, r.endAt)
      {
        assert r.files[..i + 1][..i] == r.files[..i];
        ShareFile(r.files[i], r.targets, r.endAt);
      }
      assert r.files[..|r.files|] == r.files;
    }

    method CreateShareRequest(w: World, f: Form, now: int) returns (r: Result<nat, Error>)
      modifies this
      ensures r.Err? ==> CreateRefusal(old(At(now)), w, f) == Some(r.error) && At(now) == old(At(now))
      ensures r.Ok? ==> CreateRefusal(old(At(now)), w, f) == None && r.value == |old(requests)|
                        && At(now) == Create(old(At(now)), Direct(w), f.requester, f.files, f.targets, f.startAt, f.endAt)
    {
      if !w.isActive { return Err(SHARE_INACTIVE_USER); }
      if w.permissions.None? { return Err(SHARE_NO_ROLE); }
      if w.permissions.value == {} { return Err(SHARE_PERMISSION_DENIED); }
      var bad := ValidateFiles(w, f.files);
      if bad.Some? { return Err(bad.value); }
      var known := ValidateTargets(w, f.targets);
      if !known { return Err(TARGET_NOT_FOUND); }
      if !Direct(w) {
        if f.approver.None? || f.approver.value == "" { return Err(SHARE_PERMISSION_DENIED); }
        if f.approver.value !in w.approvers { return Err(SHARE_INVALID_APPROVER); }
      }
      if f.startAt >= f.endAt { return Err(SHARE_INVALID_DATE_RANGE); }
      var conflicts := CheckDuplicates(f.files, f.targets, now);
      if |conflicts| > 0 {
        return Err(if conflicts[0].ActiveShareExists? then SHARE_ACTIVE_EXISTS else SHARE_PENDING_EXISTS);
      }
      RefusalExact(At(now), w, f);
      var request := Request(PENDING, f.files, f.targets, f.requester, f.endAt);
      if Direct(w) {
        request := request.(status := APPROVED);
        CreatePublicShares(request);
      }
      r := Ok(|requests|);
      requests := requests + [request];
    }

    method ApproveRequest(id: nat, ghost now: int) returns (ok: bool)
      modifies this
      ensures At(now) == Approve(old(At(now)), id)
      ensures ok == Decidable(old(At(now)), id)
      ensures ok ==> |shares| == |old(shares)| + |requests[id].files| * |requests[id].targets|
    {
      if id >= |requests| || requests[id].status != PENDING { return false; }
      var r := requests[id];
      CreatePublicShares(r);
      NewSharesCount(r.files, r.targets, r.endAt, now, Pair("", USER));
      requests := SetStatus(requests, id, APPROVED);
      ok := true;
    }

    method RejectRequest(id: nat, commented: bool, ghost now: int) returns (ok: bool)
      modifies this`requests
      ensures At(now) == Reject(old(At(now)), id, commented)
      ensures ok == (Decidable(old(At(now)), id) && commented)
    {
      if id >= |requests| || requests[id].status != PENDING || !commented { return false; }
      requests := SetStatus(requests, id, REJECTED);
      ok := true;
    }

    method CancelRequest(id: nat, user: string, ghost now: int) returns (ok: bool)
      modifies this`requests
      ensures At(now) == Cancel(old(At(now)), id, user)
      ensures ok == (Decidable(old(At(now)), id) && old(requests)[id].requester == user)
    {
      if id >= |requests| || requests[id].status != PENDING || requests[id].requester != user { return false; }
      requests := SetStatus(requests, id, CANCELED);
      ok := true;
    }
  }
}
