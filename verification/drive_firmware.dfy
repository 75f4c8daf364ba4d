/** The selection rules of the drive-firmware upgrade script: which drives
    are optimal, which of them the firmware file is compatible with, and the
    gate that initiates the upgrade only for a non-empty list. The REST calls
    are replaced by the responses they would observe (`ArrayResponses`). */
module DriveFirmware {
  import opened Python
  import opened Http

  // ---------------------------------------------------------------------
  // Drive records and optimal_drives
  // ---------------------------------------------------------------------

  /** A drive record as the array lists it; only the keys the script reads. */
  datatype Drive = Drive(id: string, driveRef: string, status: string)

  const OptimalStatus: string := "optimal"

  predicate IsOptimal(d: Drive)
  {
    d.status == OptimalStatus
  }

  /** The `drives` argument of optimal_drives: omitted (`None`), a single
      drive record (a dict), or a list of drive records. */
  datatype DriveArgument = Omitted | Record(drive: Drive) | Records(drives: seq<Drive>)

  /** Python's `not drives`: `None` and the empty list are falsy. A drive
      record always carries its keys, so it is never an empty dict. */
  predicate IsFalsy(arg: DriveArgument)
  {
    arg.Omitted? || arg == Records([])
  }

  /** The response to GET .../drives: its status code and the listed drives. */
  datatype DrivesResponse = DrivesResponse(status: int, drives: seq<Drive>)

  /** The drive references of the optimal drives, in list order. */
  function OptimalRefs(drives: seq<Drive>): (refs: seq<string>)
    ensures |refs| <= |drives|
    ensures forall r :: r in refs <==> exists d :: d in drives && IsOptimal(d) && d.driveRef == r
  {
    if drives == [] then []
    else
      assert drives == [drives[0]] + drives[1..];
      (if IsOptimal(drives[0]) then [drives[0].driveRef] else []) + OptimalRefs(drives[1..])
  }

  /** The filter runs over consecutive pieces of the list one after the
      other: the refs keep the order of the drives they come from. */
  lemma {:induction false} OptimalRefsAppend(a: seq<Drive>, b: seq<Drive>)
    ensures OptimalRefs(a + b) == OptimalRefs(a) + OptimalRefs(b)
    decreases |a|
  {
    if a == [] {
      assert a + b == b;
    } else {
      assert (a + b)[0] == a[0];
      assert (a + b)[1..] == a[1..] + b;
      OptimalRefsAppend(a[1..], b);
    }
  }

  /** Every drive is kept exactly when it is optimal. */
  lemma {:induction false} OptimalRefsAllOrNothing(drives: seq<Drive>)
    ensures (forall i :: 0 <= i < |drives| ==> IsOptimal(drives[i])) ==>
              |OptimalRefs(drives)| == |drives|
              && forall i :: 0 <= i < |drives| ==> OptimalRefs(drives)[i] == drives[i].driveRef
    ensures (forall i :: 0 <= i < |drives| ==> !IsOptimal(drives[i])) ==> OptimalRefs(drives) == []
    decreases |drives|
  {
    if drives != [] {
      OptimalRefsAllOrNothing(drives[1..]);
    }
  }

  /** The list branch of optimal_drives as the source writes it: a loop that
      appends the ref of each optimal drive. */
  method CollectOptimalRefs(drives: seq<Drive>) returns (refs: seq<string>)
    ensures refs == OptimalRefs(drives)
  {
    refs := [];
    for i := 0 to |drives|
      invariant refs == OptimalRefs(drives[..i])
    {
      OptimalRefsAppend(drives[..i], [drives[i]]);
      assert drives[..i + 1] == drives[..i] + [drives[i]];
      if IsOptimal(drives[i]) {
        refs := refs + [drives[i].driveRef];
      }
    }
    assert drives[..|drives|] == drives;
  }

  /** The records optimal_drives filters: the argument, or the array's own
      list when the argument is falsy. */
  function ConsultedDrives(arg: DriveArgument, fetched: DrivesResponse): seq<Drive>
  {
    match arg
    case Omitted => fetched.drives
    case Record(d) => [d]
    case Records(ds) => if ds == [] then fetched.drives else ds
  }

  /** GET .../drives followed by raise_for_status, then the list branch. */
  function FetchOptimalRefs(fetched: DrivesResponse): Outcome<seq<string>>
  {
    if RaisesForStatus(fetched.status) then Raised(HttpError(fetched.status))
    else Returned(OptimalRefs(fetched.drives))
  }

  /** optimal_drives: a falsy argument is replaced by the array's list, whose
      GET must not fail; a single record yields its ref or nothing; a list
      yields the refs of its optimal drives. */
  function OptimalDrives(arg: DriveArgument, fetched: DrivesResponse): (r: Outcome<seq<string>>)
    ensures !r.Pending?
    ensures r.Raised? <==> IsFalsy(arg) && RaisesForStatus(fetched.status)
    ensures r.Raised? ==> r.error == HttpError(fetched.status)
    ensures r.Returned? ==> r.value == OptimalRefs(ConsultedDrives(arg, fetched))
    ensures arg.Record? ==> r == Returned(if IsOptimal(arg.drive) then [arg.drive.driveRef] else [])
  {
    match arg
    case Omitted => FetchOptimalRefs(fetched)
    case Record(d) =>
      if IsOptimal(d) then Returned([d.driveRef]) else Returned([])
    case Records(ds) =>
      if ds == [] then FetchOptimalRefs(fetched) else Returned(OptimalRefs(ds))
  }

  /** An empty explicit list is treated exactly like no list at all. */
  lemma EmptyListIsOmitted(fetched: DrivesResponse)
    ensures OptimalDrives(Records([]), fetched) == OptimalDrives(Omitted, fetched)
  {
  }

  // ---------------------------------------------------------------------
  // Firmware compatibility and fw_compatible_drives
  // ---------------------------------------------------------------------

  /** One element of an entry's `compatibleDrives`. */
  datatype CompatibleDrive = CompatibleDrive(driveRef: string)

  /** One element of `compatibilities`: a firmware file and the drives it fits. */
  datatype FirmwareCompatibility =
    FirmwareCompatibility(filename: string, compatibleDrives: seq<CompatibleDrive>)

  /** How many compatible-drive entries contain `ref`, by `in` on strings. */
  function MatchCount(ref: string, compatible: seq<CompatibleDrive>): nat
  {
    if compatible == [] then 0
    else (if Contains(ref, compatible[0].driveRef) then 1 else 0) + MatchCount(ref, compatible[1..])
  }

  /** The innermost loop: one drive ref against one entry's compatible
      drives, appending the ref once per entry that contains it. */
  function DriveMatches(ref: string, compatible: seq<CompatibleDrive>): (r: seq<string>)
    ensures r == Repeat(ref, MatchCount(ref, compatible))
  {
    if compatible == [] then []
    else
      (if Contains(ref, compatible[0].driveRef) then [ref] else [])
      + DriveMatches(ref, compatible[1..])
  }

  /** The loop over the optimal refs for one firmware entry. */
  function EntryMatches(refs: seq<string>, compatible: seq<CompatibleDrive>): (r: seq<string>)
    ensures forall x :: x in r ==> x in refs
  {
    if refs == [] then []
    else DriveMatches(refs[0], compatible) + EntryMatches(refs[1..], compatible)
  }

  /** The loop over the firmware entries: only entries naming `filename`
      contribute, each with the matches of every optimal ref in turn. */
  function CompatibleRefs(filename: string, refs: seq<string>,
                          firmwares: seq<FirmwareCompatibility>): (r: seq<string>)
    ensures forall x :: x in r ==> x in refs
  {
    if firmwares == [] then []
    else
      (if firmwares[0].filename == filename
       then EntryMatches(refs, firmwares[0].compatibleDrives) else [])
      + CompatibleRefs(filename, refs, firmwares[1..])
  }

  /** Over all entries naming `filename`, how many compatible drives contain `ref`. */
  function TotalMatches(filename: string, ref: string, firmwares: seq<FirmwareCompatibility>): nat
  {
    if firmwares == [] then 0
    else
      (if firmwares[0].filename == filename then MatchCount(ref, firmwares[0].compatibleDrives) else 0)
      + TotalMatches(filename, ref, firmwares[1..])
  }

  /** `ref` matches some compatible drive of some entry that names `filename`. */
  predicate Listed(filename: string, ref: string, firmwares: seq<FirmwareCompatibility>)
  {
    exists i, j :: 0 <= i < |firmwares| && firmwares[i].filename == filename
      && 0 <= j < |firmwares[i].compatibleDrives|
      && Contains(ref, firmwares[i].compatibleDrives[j].driveRef)
  }

  lemma {:induction false} RepeatMultiplicity(ref: string, n: nat, x: string)
    ensures multiset(Repeat(ref, n))[x] == if x == ref then n else 0
  {
    if n > 0 {
      RepeatMultiplicity(ref, n - 1, x);
      assert Repeat(ref, n) == Repeat(ref, n - 1) + [ref];
    }
  }

  lemma {:induction false} EntryMatchesMultiplicity(refs: seq<string>, compatible: seq<CompatibleDrive>, x: string)
    ensures multiset(EntryMatches(refs, compatible))[x] == multiset(refs)[x] * MatchCount(x, compatible)
    decreases |refs|
  {
    if refs != [] {
      var m := MatchCount(x, compatible);
      var c := if x == refs[0] then 1 else 0;
      var k := multiset(refs[1..])[x];
      calc {
        multiset(EntryMatches(refs, compatible))[x];
        { MultisetAppend(DriveMatches(refs[0], compatible), EntryMatches(refs[1..], compatible), x); }
        multiset(DriveMatches(refs[0], compatible))[x] + multiset(EntryMatches(refs[1..], compatible))[x];
        { RepeatMultiplicity(refs[0], MatchCount(refs[0], compatible), x);
          EntryMatchesMultiplicity(refs[1..], compatible, x); }
        c * m + k * m;
        { Distribute(c, k, m); }
        (c + k) * m;
        { MultisetAppend([refs[0]], refs[1..], x); assert [refs[0]] + refs[1..] == refs; }
        multiset(refs)[x] * m;
      }
    }
  }

  lemma MultisetAppend<T>(a: seq<T>, b: seq<T>, x: T)
    ensures multiset(a + b)[x] == multiset(a)[x] + multiset(b)[x]
  {
  }

  lemma Distribute(a: int, b: int, m: int)
    ensures (a + b) * m == a * m + b * m
    ensures m * (a + b) == m * a + m * b
  {
  }

  /** A ref appears in the result once for every time it occurs among the
      optimal refs, times the number of compatible drives containing it in
      entries that name the file: duplicates arise whenever that product
      exceeds one. */
  lemma {:induction false} CompatibleRefsMultiplicity(filename: string, refs: seq<string>,
                                                      firmwares: seq<FirmwareCompatibility>, x: string)
    ensures multiset(CompatibleRefs(filename, refs, firmwares))[x]
            == multiset(refs)[x] * TotalMatches(filename, x, firmwares)
    decreases |firmwares|
  {
    if firmwares != [] {
      CompatibleRefsMultiplicity(filename, refs, firmwares[1..], x);
      if firmwares[0].filename == filename {
        MatchingEntryStep(filename, refs, firmwares, x);
      } else {
        OtherEntryStep(filename, refs, firmwares, x);
      }
    } else {
      assert multiset(refs)[x] * 0 == 0;
    }
  }

  /** The induction step of CompatibleRefsMultiplicity for an entry naming the file. */
  lemma MatchingEntryStep(filename: string, refs: seq<string>,
                          firmwares: seq<FirmwareCompatibility>, x: string)
    requires firmwares != [] && firmwares[0].filename == filename
    requires multiset(CompatibleRefs(filename, refs, firmwares[1..]))[x]
             == multiset(refs)[x] * TotalMatches(filename, x, firmwares[1..])
    ensures multiset(CompatibleRefs(filename, refs, firmwares))[x]
            == multiset(refs)[x] * TotalMatches(filename, x, firmwares)
  {
    var head := EntryMatches(refs, firmwares[0].compatibleDrives);
    var tail := CompatibleRefs(filename, refs, firmwares[1..]);
    EntryMatchesMultiplicity(refs, firmwares[0].compatibleDrives, x);
    assert CompatibleRefs(filename, refs, firmwares) == head + tail;
    CombineCounts(head, tail, x, multiset(refs)[x],
                  MatchCount(x, firmwares[0].compatibleDrives), TotalMatches(filename, x, firmwares[1..]),
                  TotalMatches(filename, x, firmwares));
  }

  /** The induction step of CompatibleRefsMultiplicity for an entry naming another file. */
  lemma OtherEntryStep(filename: string, refs: seq<string>,
                       firmwares: seq<FirmwareCompatibility>, x: string)
    requires firmwares != [] && firmwares[0].filename != filename
    requires multiset(CompatibleRefs(filename, refs, firmwares[1..]))[x]
             == multiset(refs)[x] * TotalMatches(filename, x, firmwares[1..])
    ensures multiset(CompatibleRefs(filename, refs, firmwares))[x]
            == multiset(refs)[x] * TotalMatches(filename, x, firmwares)
  {
    assert CompatibleRefs(filename, refs, firmwares) == [] + CompatibleRefs(filename, refs, firmwares[1..]);
    assert TotalMatches(filename, x, firmwares) == TotalMatches(filename, x, firmwares[1..]);
  }

  lemma CombineCounts(head: seq<string>, tail: seq<string>, x: string, k: nat, m: nat, t: nat, total: nat)
    requires multiset(head)[x] == k * m
    requires multiset(tail)[x] == k * t
    requires total == m + t
    ensures multiset(head + tail)[x] == k * total
  {
    MultisetAppend(head, tail, x);
    Distribute(m, t, k);
  }

  lemma {:induction false} MatchCountPositive(ref: string, compatible: seq<CompatibleDrive>)
    ensures MatchCount(ref, compatible) > 0
            <==> exists j :: 0 <= j < |compatible| && Contains(ref, compatible[j].driveRef)
    decreases |compatible|
  {
    if compatible != [] {
      MatchCountPositive(ref, compatible[1..]);
      if j :| 0 <= j < |compatible| && Contains(ref, compatible[j].driveRef) {
        if j > 0 {
          assert compatible[1..][j - 1] == compatible[j];
        }
      }
    }
  }

  lemma {:induction false} TotalMatchesPositive(filename: string, ref: string, firmwares: seq<FirmwareCompatibility>)
    ensures TotalMatches(filename, ref, firmwares) > 0 <==> Listed(filename, ref, firmwares)
    decreases |firmwares|
  {
    if firmwares != [] {
      TotalMatchesPositive(filename, ref, firmwares[1..]);
      MatchCountPositive(ref, firmwares[0].compatibleDrives);
      if Listed(filename, ref, firmwares[1..]) {
        var i, j :| 0 <= i < |firmwares[1..]| && firmwares[1..][i].filename == filename
          && 0 <= j < |firmwares[1..][i].compatibleDrives|
          && Contains(ref, firmwares[1..][i].compatibleDrives[j].driveRef);
        assert firmwares[1..][i] == firmwares[i + 1];
      }
      if Listed(filename, ref, firmwares) {
        var i, j :| 0 <= i < |firmwares| && firmwares[i].filename == filename
          && 0 <= j < |firmwares[i].compatibleDrives|
          && Contains(ref, firmwares[i].compatibleDrives[j].driveRef);
        if i > 0 {
          assert firmwares[1..][i - 1] == firmwares[i];
        }
      }
    }
  }

  /** A ref is selected exactly when it is an optimal ref that some entry
      naming the file lists, by substring containment. */
  lemma CompatibleRefsMembership(filename: string, refs: seq<string>,
                                 firmwares: seq<FirmwareCompatibility>, x: string)
    ensures x in CompatibleRefs(filename, refs, firmwares) <==> x in refs && Listed(filename, x, firmwares)
  {
    CompatibleRefsMultiplicity(filename, refs, firmwares, x);
    TotalMatchesPositive(filename, x, firmwares);
    PositiveProduct(multiset(refs)[x], TotalMatches(filename, x, firmwares));
  }

  lemma PositiveProduct(a: nat, b: nat)
    ensures a * b > 0 <==> a > 0 && b > 0
  {
    if a > 0 && b > 0 {
      assert a * b >= b;
    }
  }

  /** Entries that do not name the file contribute nothing: with none
      naming it the result is empty. */
  lemma {:induction false} NoEntryForFile(filename: string, refs: seq<string>,
                                         firmwares: seq<FirmwareCompatibility>)
    requires forall i :: 0 <= i < |firmwares| ==> firmwares[i].filename != filename
    ensures CompatibleRefs(filename, refs, firmwares) == []
    decreases |firmwares|
  {
    if firmwares != [] {
      assert firmwares[0].filename != filename;
      NoEntryForFile(filename, refs, firmwares[1..]);
    }
  }

  /** Output order follows the firmware entries first. */
  lemma {:induction false} CompatibleRefsAppend(filename: string, refs: seq<string>,
                                                a: seq<FirmwareCompatibility>, b: seq<FirmwareCompatibility>)
    ensures CompatibleRefs(filename, refs, a + b)
            == CompatibleRefs(filename, refs, a) + CompatibleRefs(filename, refs, b)
    decreases |a|
  {
    if a == [] {
      assert a + b == b;
    } else {
      assert (a + b)[0] == a[0];
      assert (a + b)[1..] == a[1..] + b;
      CompatibleRefsAppend(filename, refs, a[1..], b);
    }
  }

  /** Within one entry, output order follows the order of the optimal refs. */
  lemma {:induction false} EntryMatchesAppend(a: seq<string>, b: seq<string>, compatible: seq<CompatibleDrive>)
    ensures EntryMatches(a + b, compatible) == EntryMatches(a, compatible) + EntryMatches(b, compatible)
    decreases |a|
  {
    if a == [] {
      assert a + b == b;
    } else {
      assert (a + b)[0] == a[0];
      assert (a + b)[1..] == a[1..] + b;
      EntryMatchesAppend(a[1..], b, compatible);
    }
  }

  /** Two compatible entries containing the same drive select it twice. */
  lemma DuplicateSelection(filename: string, ref: string)
    ensures CompatibleRefs(filename, [ref],
              [FirmwareCompatibility(filename, [CompatibleDrive(ref), CompatibleDrive(ref)])])
            == [ref, ref]
  {
    var entry := [CompatibleDrive(ref), CompatibleDrive(ref)];
    PrefixIsContained(ref, []);
    assert ref + [] == ref;
    assert entry[1..] == [CompatibleDrive(ref)];
    assert DriveMatches(ref, entry[1..]) == [ref];
    assert DriveMatches(ref, entry) == [ref, ref];
    assert EntryMatches([ref], entry) == [ref, ref];
  }

  /** A drive whose ref is only a prefix of a listed ref is still selected. */
  lemma PrefixRefSelected(filename: string, ref: string, suffix: string)
    ensures CompatibleRefs(filename, [ref],
              [FirmwareCompatibility(filename, [CompatibleDrive(ref + suffix)])])
            == [ref]
  {
    var entry := [CompatibleDrive(ref + suffix)];
    PrefixIsContained(ref, suffix);
    assert DriveMatches(ref, entry) == [ref];
    assert EntryMatches([ref], entry) == [ref];
  }

  /** fw_compatible_drives: the optimal refs of the consulted drives, matched
      against the compatibility list the array reports. */
  function FwCompatibleDrives(filename: string, arg: DriveArgument, fetched: DrivesResponse,
                              firmwares: seq<FirmwareCompatibility>): (r: Outcome<seq<string>>)
    ensures !r.Pending?
    ensures r.Raised? <==> IsFalsy(arg) && RaisesForStatus(fetched.status)
    ensures r.Raised? ==> r.error == HttpError(fetched.status)
    ensures r.Returned? ==> r.value == CompatibleRefs(filename, OptimalRefs(ConsultedDrives(arg, fetched)), firmwares)
    ensures r.Returned? ==> forall x :: x in r.value ==>
              exists d :: d in ConsultedDrives(arg, fetched) && IsOptimal(d) && d.driveRef == x
  {
    match OptimalDrives(arg, fetched)
    case Returned(refs) => Returned(CompatibleRefs(filename, refs, firmwares))
    case Raised(e) => Raised(e)
    case Pending => Pending
  }

  /** fw_compatible_drives selects a ref exactly when an optimal drive among
      those consulted has it and an entry for the file lists a compatible
      drive whose ref contains it. */
  lemma FwCompatibleMembership(filename: string, arg: DriveArgument, fetched: DrivesResponse,
                               firmwares: seq<FirmwareCompatibility>, x: string)
    requires FwCompatibleDrives(filename, arg, fetched, firmwares).Returned?
    ensures x in FwCompatibleDrives(filename, arg, fetched, firmwares).value
            <==> && (exists d :: d in ConsultedDrives(arg, fetched) && IsOptimal(d) && d.driveRef == x)
                 && Listed(filename, x, firmwares)
  {
    CompatibleRefsMembership(filename, OptimalDrives(arg, fetched).value, firmwares, x);
  }

  // ---------------------------------------------------------------------
  // drive_firmware_upgrade
  // ---------------------------------------------------------------------

  /** The REST calls the upgrade makes. */
  datatype DriveRequest =
    | UploadDriveFile
    | GetDrives
    | GetCompatibilities
    | InitiateUpgrade(filename: string, driveRefList: seq<string>)
    | GetUpgradeState

  const DownloadInProgress: string := "downloadInProgress"

  /** How many state polls the wait loop makes: it stops after the first
      poll whose overallStatus is not downloadInProgress, or never (None)
      when every observed poll still reports it. */
  function StatePolls(states: seq<string>): (n: Option<nat>)
    ensures n.Some? ==> 0 < n.value <= |states| && states[n.value - 1] != DownloadInProgress
    ensures n.Some? ==> forall j :: 0 <= j < n.value - 1 ==> states[j] == DownloadInProgress
    ensures n.None? <==> forall j :: 0 <= j < |states| ==> states[j] == DownloadInProgress
  {
    if states == [] then None
    else if states[0] != DownloadInProgress then Some(1)
    else
      match StatePolls(states[1..])
      case None => None
      case Some(k) => Some(k + 1)
  }

  /** What the array answers, in the order the upgrade asks. */
  datatype ArrayResponses = ArrayResponses(
    uploadStatus: int,                              // POST .../files/drive/
    drives: DrivesResponse,                         // GET .../drives, when the list is falsy
    compatibilities: seq<FirmwareCompatibility>,    // GET .../firmware/drives
    initiateStatus: int,                            // POST .../initiate-upgrade
    states: seq<string>)                            // overallStatus of each GET .../state

  /** The response of the initiate-upgrade request, which the upgrade returns. */
  datatype UpgradeResponse = UpgradeResponse(status: int)

  /** The compatible drives the upgrade computes. */
  function Selection(filename: string, arg: DriveArgument, obs: ArrayResponses): Outcome<seq<string>>
  {
    FwCompatibleDrives(filename, arg, obs.drives, obs.compatibilities)
  }

  predicate Initiates(requests: seq<DriveRequest>)
  {
    exists q :: q in requests && q.InitiateUpgrade?
  }

  /** drive_firmware_upgrade: upload the file, select the compatible drives,
      and initiate the upgrade for exactly them unless there are none; then
      wait until the download is no longer in progress. */
  function DriveFirmwareUpgrade(filename: string, arg: DriveArgument, obs: ArrayResponses)
    : (run: Run<DriveRequest, Option<UpgradeResponse>>)
    ensures |run.requests| > 0 && run.requests[0] == UploadDriveFile
    ensures RaisesForStatus(obs.uploadStatus) ==>
              run == Run([UploadDriveFile], Raised(HttpError(obs.uploadStatus)))
    ensures !RaisesForStatus(obs.uploadStatus) && IsFalsy(arg) && RaisesForStatus(obs.drives.status) ==>
              run == Run([UploadDriveFile, GetDrives], Raised(HttpError(obs.drives.status)))
    ensures run.outcome.Raised? <==>
              RaisesForStatus(obs.uploadStatus) || (IsFalsy(arg) && RaisesForStatus(obs.drives.status))
    ensures run.outcome == Returned(None)
            <==> !RaisesForStatus(obs.uploadStatus) && Selection(filename, arg, obs) == Returned([])
    ensures Initiates(run.requests)
            <==> !RaisesForStatus(obs.uploadStatus) && Selection(filename, arg, obs).Returned?
                 && Selection(filename, arg, obs).value != []
    ensures forall q :: q in run.requests && q.InitiateUpgrade? ==>
              q.filename == filename && Selection(filename, arg, obs) == Returned(q.driveRefList)
    ensures run.outcome.Pending? ==> Initiates(run.requests) && StatePolls(obs.states).None?
    ensures run.outcome.Returned? && run.outcome.value.Some? ==>
              run.outcome.value.value.status == obs.initiateStatus
              && StatePolls(obs.states).Some?
              && var k := StatePolls(obs.states).value;
                 k < |run.requests|
                 && run.requests[|run.requests| - k - 1].InitiateUpgrade?
                 && run.requests[|run.requests| - k..] == Repeat(GetUpgradeState, k)
  {
    if RaisesForStatus(obs.uploadStatus) then
      Run([UploadDriveFile], Raised(HttpError(obs.uploadStatus)))
    else
      var lookups := [UploadDriveFile] + (if IsFalsy(arg) then [GetDrives] else []);
      match Selection(filename, arg, obs)
      case Raised(e) => Run(lookups, Raised(e))
      case Pending => Run(lookups, Pending)
      case Returned(compatible) =>
        var listed := lookups + [GetCompatibilities];
        assert forall q :: q in listed ==> !q.InitiateUpgrade?;
        if |compatible| == 0 then
          Run(listed, Returned(None))
        else
          var initiated := listed + [InitiateUpgrade(filename, compatible)];
          assert initiated[|initiated| - 1] == InitiateUpgrade(filename, compatible);
          match StatePolls(obs.states)
          case None =>
            var polls := Repeat(GetUpgradeState, |obs.states|);
            assert forall q :: q in polls ==> !q.InitiateUpgrade?;
            Run(initiated + polls, Pending)
          case Some(k) =>
            var polls := Repeat(GetUpgradeState, k);
            assert forall q :: q in polls ==> !q.InitiateUpgrade?;
            assert (initiated + polls)[|initiated + polls| - k..] == polls;
            assert (initiated + polls)[|initiated + polls| - k - 1] == initiated[|initiated| - 1];
            Run(initiated + polls, Returned(Some(UpgradeResponse(obs.initiateStatus))))
  }

  /** The state GETs the wait makes: up to the first state other than
      downloadInProgress, or every observed one while it is still in progress. */
  function PollCount(states: seq<string>): nat
  {
    match StatePolls(states)
    case Some(k) => k
    case None => |states|
  }

  /** Once the upgrade is initiated, the run is: the upload, the drives GET
      when the argument is falsy, the compatibility GET, the initiate request
      for the selection, then the state GETs; it returns the initiate response
      when a poll leaves downloadInProgress, and is still waiting otherwise. */
  lemma InitiatedUpgradeTrace(filename: string, arg: DriveArgument, obs: ArrayResponses)
    requires Initiates(DriveFirmwareUpgrade(filename, arg, obs).requests)
    ensures Selection(filename, arg, obs).Returned?
    ensures DriveFirmwareUpgrade(filename, arg, obs).requests
            == [UploadDriveFile] + (if IsFalsy(arg) then [GetDrives] else [])
               + [GetCompatibilities, InitiateUpgrade(filename, Selection(filename, arg, obs).value)]
               + Repeat(GetUpgradeState, PollCount(obs.states))
    ensures DriveFirmwareUpgrade(filename, arg, obs).outcome
            == if StatePolls(obs.states).Some? then Returned(Some(UpgradeResponse(obs.initiateStatus)))
               else Pending
  {
    var lookups := [UploadDriveFile] + (if IsFalsy(arg) then [GetDrives] else []);
    assert lookups + [GetCompatibilities] + [InitiateUpgrade(filename, Selection(filename, arg, obs).value)]
           == lookups + [GetCompatibilities, InitiateUpgrade(filename, Selection(filename, arg, obs).value)];
  }

  /** With no compatible drive, the run is the upload, the drives GET when
      the argument is falsy, and the compatibility GET, and nothing else. */
  lemma EmptySelectionTrace(filename: string, arg: DriveArgument, obs: ArrayResponses)
    requires DriveFirmwareUpgrade(filename, arg, obs).outcome == Returned(None)
    ensures DriveFirmwareUpgrade(filename, arg, obs).requests
            == [UploadDriveFile] + (if IsFalsy(arg) then [GetDrives] else []) + [GetCompatibilities]
  {
  }
}
