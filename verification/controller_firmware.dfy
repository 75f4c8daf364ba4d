/** The control flow of the controller-firmware upgrade script: a health
    check gate, the firmware upload, and the bounded wait for both
    controllers to answer again. Every REST call is replaced by the response
    it would observe, given as a finite sequence for each polling loop. */
module ControllerFirmware {
  import opened Python
  import opened Http

  // ---------------------------------------------------------------------
  // Configuration and requests
  // ---------------------------------------------------------------------

  /** The script's configurable parameters that affect control flow. */
  datatype Config = Config(controllerA: string, controllerB: string, ignoreHealthCheck: bool)

  /** The values the script ships with. */
  const SourceConfig: Config := Config("https://example-a.ict.englab.netapp.com:8443",
                                       "https://example-b.ict.englab.netapp.com:8443",
                                       false)

  const EmbeddedFirmwarePath: string := "/devmgr/v2/firmware/embedded-firmware"
  const SystemPath: string := "/devmgr/v2/storage-systems/1"
  const HealthCheckPath: string := "/devmgr/v2/health-check"

  /** The REST calls the upgrade makes, with the URL each goes to. */
  datatype ControllerRequest =
    | PostHealthCheck(url: string)
    | GetHealthCheck(url: string)
    | UploadFirmware(url: string)
    | GetSystem(url: string)

  // ---------------------------------------------------------------------
  // health_check
  // ---------------------------------------------------------------------

  /** One GET of the health-check status: its status code, the
      `healthCheckRunning` flag, and the `successful` flag of each entry of
      `results`, in order. */
  datatype HealthPoll = HealthPoll(status: int, healthCheckRunning: bool, successful: seq<bool>)

  /** A poll the loop does not skip: it raises, or the check is no longer running. */
  predicate Settles(p: HealthPoll)
  {
    RaisesForStatus(p.status) || !p.healthCheckRunning
  }

  /** What the loop does with the poll that ends it: only the first entry of
      `results` is read, and a failed check yields the override flag. */
  function Decide(ignore: bool, p: HealthPoll): Outcome<bool>
  {
    if RaisesForStatus(p.status) then Raised(HttpError(p.status))
    else if p.successful == [] then Raised(IndexError)
    else if !p.successful[0] then Returned(ignore)
    else Returned(true)
  }

  /** How the health check ended and how many status GETs it made. */
  datatype HealthGate = HealthGate(outcome: Outcome<bool>, gets: nat)

  /** The polling loop: every poll of a running check is skipped, and the
      first poll that settles decides. */
  function PollHealth(ignore: bool, polls: seq<HealthPoll>): (g: HealthGate)
    ensures g.gets <= |polls|
    ensures forall j :: 0 <= j < g.gets - 1 ==> !Settles(polls[j])
    ensures g.outcome.Pending? <==> forall j :: 0 <= j < |polls| ==> !Settles(polls[j])
    ensures g.outcome.Pending? ==> g.gets == |polls|
    ensures !g.outcome.Pending? ==>
              0 < g.gets && Settles(polls[g.gets - 1]) && g.outcome == Decide(ignore, polls[g.gets - 1])
  {
    if polls == [] then HealthGate(Pending, 0)
    else if Settles(polls[0]) then HealthGate(Decide(ignore, polls[0]), 1)
    else
      var rest := PollHealth(ignore, polls[1..]);
      HealthGate(rest.outcome, rest.gets + 1)
  }

  /** health_check: a failed POST raises before any poll; otherwise the
      first poll whose check is not running decides, and the gate passes
      when that poll's first result succeeded or the override is set. */
  function HealthCheck(ignore: bool, postStatus: int, polls: seq<HealthPoll>): (g: HealthGate)
    ensures RaisesForStatus(postStatus) ==> g == HealthGate(Raised(HttpError(postStatus)), 0)
    ensures !RaisesForStatus(postStatus) ==> g == PollHealth(ignore, polls)
    ensures g.outcome.Returned? ==>
              && !RaisesForStatus(postStatus)
              && 0 < g.gets <= |polls|
              && var p := polls[g.gets - 1];
                 && !p.healthCheckRunning
                 && !RaisesForStatus(p.status)
                 && |p.successful| > 0
                 && g.outcome.value == (p.successful[0] || ignore)
  {
    if RaisesForStatus(postStatus) then HealthGate(Raised(HttpError(postStatus)), 0)
    else PollHealth(ignore, polls)
  }

  /** With the override set the gate never answers false; without it, a
      failed first result on the deciding poll answers false. */
  lemma OverrideDecides(ignore: bool, postStatus: int, polls: seq<HealthPoll>)
    ensures var g := HealthCheck(ignore, postStatus, polls);
            ignore ==> g.outcome != Returned(false)
    ensures var g := HealthCheck(ignore, postStatus, polls);
            !ignore && g.outcome.Returned? ==> (g.outcome.value <==> polls[g.gets - 1].successful[0])
  {
  }

  /** Two polls the loop cannot tell apart: the same status code, running
      flag, and first result (entries after the first are never read). */
  predicate SameFirstResult(p: HealthPoll, q: HealthPoll)
  {
    && p.status == q.status
    && p.healthCheckRunning == q.healthCheckRunning
    && (p.successful == [] <==> q.successful == [])
    && (p.successful != [] ==> p.successful[0] == q.successful[0])
  }

  /** Entries of `results` after the first never influence the gate. */
  lemma {:induction false} OnlyFirstResultConsulted(ignore: bool, polls: seq<HealthPoll>, others: seq<HealthPoll>)
    requires |polls| == |others|
    requires forall j :: 0 <= j < |polls| ==> SameFirstResult(polls[j], others[j])
    ensures PollHealth(ignore, polls) == PollHealth(ignore, others)
    decreases |polls|
  {
    if polls != [] {
      assert SameFirstResult(polls[0], others[0]);
      OnlyFirstResultConsulted(ignore, polls[1..], others[1..]);
    }
  }

  /** A later failed result does not stop the upgrade. */
  lemma LaterFailureIgnored()
    ensures HealthCheck(false, 200, [HealthPoll(200, false, [true, false])]).outcome == Returned(true)
  {
  }

  // ---------------------------------------------------------------------
  // upload_firmware_file
  // ---------------------------------------------------------------------

  /** upload_firmware_file: a status below 300 is a success; raise_for_status
      then raises for 4xx and 5xx, so a 3xx status is logged as a warning and
      yet returns normally. */
  function UploadFirmwareFile(status: int): (r: Outcome<()>)
    ensures !r.Pending?
    ensures status < 300 ==> r == Returned(())
    ensures r.Raised? <==> 400 <= status < 600
    ensures r.Raised? ==> r.error == HttpError(status)
  {
    if RaisesForStatus(status) then Raised(HttpError(status)) else Returned(())
  }

  // ---------------------------------------------------------------------
  // wait_for_availability
  // ---------------------------------------------------------------------

  /** One GET of a system URL: a connection error, or any response at all. */
  datatype SystemPoll = ConnectionRefused | Answered(status: int)

  /** The retry ceiling of each URL. */
  const RetryMax: nat := 1000

  /** The inner while loop from a given retry count: it polls until the
      first answer or until `RetryMax` polls; None when the observed
      responses run out first. */
  function PollsFrom(obs: seq<SystemPoll>, retries: nat): (n: Option<nat>)
    requires retries <= RetryMax && retries <= |obs|
    ensures n.Some? ==> retries <= n.value <= RetryMax && n.value <= |obs|
    ensures n.Some? ==> forall j :: retries <= j < n.value - 1 ==> obs[j].ConnectionRefused?
    ensures n.Some? ==> n.value == RetryMax || (retries < n.value && obs[n.value - 1].Answered?)
    ensures n.None? ==> |obs| < RetryMax && forall j :: retries <= j < |obs| ==> obs[j].ConnectionRefused?
    decreases RetryMax - retries
  {
    if retries == RetryMax then Some(RetryMax)
    else if retries == |obs| then None
    else if obs[retries].Answered? then Some(retries + 1)
    else PollsFrom(obs, retries + 1)
  }

  /** How many polls one URL gets: at least one, at most `RetryMax`, ending
      at the first answer whatever its status code. */
  function PollUrl(obs: seq<SystemPoll>): (n: Option<nat>)
    ensures n.Some? ==> 0 < n.value <= RetryMax && n.value <= |obs|
    ensures n.Some? ==> forall j :: 0 <= j < n.value - 1 ==> obs[j].ConnectionRefused?
    ensures n.Some? ==> n.value == RetryMax || obs[n.value - 1].Answered?
    ensures n.None? <==> |obs| < RetryMax && forall j :: 0 <= j < |obs| ==> obs[j].ConnectionRefused?
    ensures |obs| > 0 && obs[0].Answered? ==> n == Some(1)
  {
    PollsFrom(obs, 0)
  }

  /** wait_for_availability: each URL in turn, each with its own retry
      count; exhausting the retries raises nothing and moves on. */
  function WaitForAvailability(urls: seq<string>, obs: seq<SystemPoll>): (w: Run<ControllerRequest, ()>)
    ensures !w.outcome.Raised?
    ensures |w.requests| <= |obs|
    ensures w.outcome.Pending? ==> |w.requests| == |obs|
    ensures forall q :: q in w.requests ==> q.GetSystem? && q.url in urls
    decreases |urls|
  {
    if urls == [] then Run([], Returned(()))
    else
      match PollUrl(obs)
      case None => Run(Repeat(GetSystem(urls[0]), |obs|), Pending)
      case Some(n) =>
        var rest := WaitForAvailability(urls[1..], obs[n..]);
        Run(Repeat(GetSystem(urls[0]), n) + rest.requests, rest.outcome)
  }

  /** `counts[i]` polls of `urls[i]`, URL after URL. */
  function Expand(urls: seq<string>, counts: seq<nat>): seq<ControllerRequest>
    requires |urls| == |counts|
  {
    if urls == [] then []
    else Repeat(GetSystem(urls[0]), counts[0]) + Expand(urls[1..], counts[1..])
  }

  /** The number of polls spent on the URLs before a given one. */
  function Total(counts: seq<nat>): nat
  {
    if counts == [] then 0 else counts[0] + Total(counts[1..])
  }

  /** A completed wait visits every URL in list order, each between one and
      `RetryMax` times; the polls of each URL are exactly what `PollUrl`
      spends on the responses left over by the URLs before it. */
  lemma {:induction false} WaitVisitsInOrder(urls: seq<string>, obs: seq<SystemPoll>) returns (counts: seq<nat>)
    requires WaitForAvailability(urls, obs).outcome.Returned?
    ensures |counts| == |urls|
    ensures forall i :: 0 <= i < |counts| ==> 0 < counts[i] <= RetryMax
    ensures WaitForAvailability(urls, obs).requests == Expand(urls, counts)
    ensures Total(counts) <= |obs|
    ensures forall i :: 0 <= i < |counts| ==>
              Total(counts[..i]) <= |obs| && PollUrl(obs[Total(counts[..i])..]) == Some(counts[i])
    decreases |urls|
  {
    if urls == [] {
      counts := [];
    } else {
      var n := PollUrl(obs).value;
      var rest := WaitVisitsInOrder(urls[1..], obs[n..]);
      counts := [n] + rest;
      assert counts[1..] == rest;
      forall i | 0 <= i < |counts|
        ensures Total(counts[..i]) <= |obs| && PollUrl(obs[Total(counts[..i])..]) == Some(counts[i])
      {
        if i == 0 {
          assert counts[..0] == [];
          assert obs[0..] == obs;
        } else {
          assert counts[i] == rest[i - 1];
          SkipEarlierUrls(obs, n, rest, i);
        }
      }
    }
  }

  /** The responses left after the first URL's `n` polls and the earlier
      URLs' polls among `rest` are those left after all earlier polls. */
  lemma SkipEarlierUrls(obs: seq<SystemPoll>, n: nat, rest: seq<nat>, i: nat)
    requires n <= |obs| && 0 < i <= |rest|
    requires Total(rest[..i - 1]) <= |obs[n..]|
    ensures Total(([n] + rest)[..i]) == n + Total(rest[..i - 1]) <= |obs|
    ensures obs[n..][Total(rest[..i - 1])..] == obs[Total(([n] + rest)[..i])..]
  {
    assert ([n] + rest)[..i] == [n] + rest[..i - 1];
    assert ([n] + rest[..i - 1])[1..] == rest[..i - 1];
  }

  /** With `RetryMax` responses per URL observed, the wait always completes. */
  lemma {:induction false} WaitCompletes(urls: seq<string>, obs: seq<SystemPoll>)
    requires |obs| >= RetryMax * |urls|
    ensures WaitForAvailability(urls, obs).outcome == Returned(())
    decreases |urls|
  {
    if urls != [] {
      var n := PollUrl(obs).value;
      assert |obs[n..]| >= RetryMax * |urls[1..]|;
      WaitCompletes(urls[1..], obs[n..]);
    }
  }

  /** A URL that never answers gets exactly `RetryMax` polls, after which
      the wait silently moves on to the next URL. */
  lemma ExhaustedUrlIsSilent(urls: seq<string>, obs: seq<SystemPoll>)
    requires urls != [] && |obs| >= RetryMax
    requires forall j :: 0 <= j < RetryMax ==> obs[j].ConnectionRefused?
    ensures var rest := WaitForAvailability(urls[1..], obs[RetryMax..]);
            WaitForAvailability(urls, obs)
            == Run(Repeat(GetSystem(urls[0]), RetryMax) + rest.requests, rest.outcome)
  {
    assert PollUrl(obs) == Some(RetryMax);
  }

  // ---------------------------------------------------------------------
  // main
  // ---------------------------------------------------------------------

  /** What the arrays answer, in the order the script asks. */
  datatype ControllerResponses = ControllerResponses(
    healthPostStatus: int,          // POST health-check
    healthPolls: seq<HealthPoll>,   // GET health-check, one per poll
    uploadStatus: int,              // POST embedded-firmware
    systemPolls: seq<SystemPoll>)   // GET storage-systems/1, one per poll

  /** How main ends when it does not raise: normally, or through sys.exit. */
  datatype Exit = Completed | Exited(code: int)

  function HealthUrl(cfg: Config): string
  {
    cfg.controllerA + HealthCheckPath
  }

  function FirmwareUrl(cfg: Config): string
  {
    cfg.controllerA + EmbeddedFirmwarePath
  }

  /** Controller A's system URL, then controller B's. */
  function SystemUrls(cfg: Config): seq<string>
  {
    [cfg.controllerA + SystemPath, cfg.controllerB + SystemPath]
  }

  function Gate(cfg: Config, obs: ControllerResponses): HealthGate
  {
    HealthCheck(cfg.ignoreHealthCheck, obs.healthPostStatus, obs.healthPolls)
  }

  predicate Uploads(requests: seq<ControllerRequest>)
  {
    exists q :: q in requests && q.UploadFirmware?
  }

  /** main: the health gate, then the upload, then the wait on controller A
      and controller B; a failing gate exits with status 1 before any upload. */
  function Main(cfg: Config, obs: ControllerResponses): (run: Run<ControllerRequest, Exit>)
    ensures |run.requests| > 0 && run.requests[0] == PostHealthCheck(HealthUrl(cfg))
    ensures run.outcome == Returned(Exited(1)) <==> Gate(cfg, obs).outcome == Returned(false)
    ensures run.outcome.Returned? ==> run.outcome.value.Completed? || run.outcome.value == Exited(1)
    ensures Uploads(run.requests) <==> Gate(cfg, obs).outcome == Returned(true)
    ensures forall q :: q in run.requests && q.UploadFirmware? ==> q.url == FirmwareUrl(cfg)
    ensures run.outcome == Returned(Completed) ==>
              && Gate(cfg, obs).outcome == Returned(true)
              && !RaisesForStatus(obs.uploadStatus)
              && GetSystem(SystemUrls(cfg)[0]) in run.requests
              && GetSystem(SystemUrls(cfg)[1]) in run.requests
    ensures run.outcome.Raised? ==>
              Gate(cfg, obs).outcome.Raised? || RaisesForStatus(obs.uploadStatus)
    ensures Gate(cfg, obs).outcome.Raised? ==> run.outcome == Raised(Gate(cfg, obs).outcome.error)
    ensures Gate(cfg, obs).outcome == Returned(true) && RaisesForStatus(obs.uploadStatus) ==>
              run.outcome == Raised(HttpError(obs.uploadStatus))
  {
    var gate := Gate(cfg, obs);
    var checking := [PostHealthCheck(HealthUrl(cfg))] + Repeat(GetHealthCheck(HealthUrl(cfg)), gate.gets);
    assert forall q :: q in checking ==> !q.UploadFirmware?;
    match gate.outcome
    case Raised(e) => Run(checking, Raised(e))
    case Pending => Run(checking, Pending)
    case Returned(healthy) =>
      if !healthy then Run(checking, Returned(Exited(1)))
      else
        var uploading := checking + [UploadFirmware(FirmwareUrl(cfg))];
        assert uploading[|uploading| - 1] == UploadFirmware(FirmwareUrl(cfg));
        match UploadFirmwareFile(obs.uploadStatus)
        case Raised(e) => Run(uploading, Raised(e))
        case Pending => Run(uploading, Pending)
        case Returned(_) =>
          var wait := WaitForAvailability(SystemUrls(cfg), obs.systemPolls);
          if wait.outcome.Pending? then Run(uploading + wait.requests, Pending)
          else
            MainVisitsBoth(SystemUrls(cfg), obs.systemPolls);
            Run(uploading + wait.requests, Returned(Completed))
  }

  /** A completed wait on two URLs polled each of them. */
  lemma MainVisitsBoth(urls: seq<string>, obs: seq<SystemPoll>)
    requires |urls| == 2
    requires WaitForAvailability(urls, obs).outcome.Returned?
    ensures GetSystem(urls[0]) in WaitForAvailability(urls, obs).requests
    ensures GetSystem(urls[1]) in WaitForAvailability(urls, obs).requests
  {
    var counts := WaitVisitsInOrder(urls, obs);
    var tail := Expand(urls[1..], counts[1..]);
    assert Expand(urls, counts) == Repeat(GetSystem(urls[0]), counts[0]) + tail;
    assert Expand(urls, counts)[0] == GetSystem(urls[0]);
    assert urls[1..][0] == urls[1];
    assert tail == Repeat(GetSystem(urls[1]), counts[1]) + Expand(urls[2..], counts[2..]);
    assert tail[0] == GetSystem(urls[1]);
    assert Expand(urls, counts)[counts[0]] == GetSystem(urls[1]);
  }

  /** The order of the phases: gate, upload, wait. */
  function Phase(q: ControllerRequest): nat
  {
    match q
    case PostHealthCheck(_) => 0
    case GetHealthCheck(_) => 1
    case UploadFirmware(_) => 2
    case GetSystem(_) => 3
  }

  predicate InPhaseOrder(requests: seq<ControllerRequest>)
  {
    forall i, j :: 0 <= i < j < |requests| ==> Phase(requests[i]) <= Phase(requests[j])
  }

  lemma PhaseOrderAppend(a: seq<ControllerRequest>, b: seq<ControllerRequest>)
    requires InPhaseOrder(a) && InPhaseOrder(b)
    requires forall i, j :: 0 <= i < |a| && 0 <= j < |b| ==> Phase(a[i]) <= Phase(b[j])
    ensures InPhaseOrder(a + b)
  {
    forall i, j | 0 <= i < j < |a + b|
      ensures Phase((a + b)[i]) <= Phase((a + b)[j])
    {
      if j < |a| {
      } else if i >= |a| {
        assert (a + b)[i] == b[i - |a|] && (a + b)[j] == b[j - |a|];
      } else {
        assert (a + b)[j] == b[j - |a|];
      }
    }
  }

  /** Requests that all belong to one phase are in phase order. */
  lemma OnePhaseInOrder(requests: seq<ControllerRequest>, phase: nat)
    requires forall i :: 0 <= i < |requests| ==> Phase(requests[i]) == phase
    ensures InPhaseOrder(requests)
  {
  }

  /** The requests of the health check: one POST, then the GETs. */
  lemma CheckingInOrder(url: string, gets: nat)
    ensures InPhaseOrder([PostHealthCheck(url)] + Repeat(GetHealthCheck(url), gets))
  {
    OnePhaseInOrder(Repeat(GetHealthCheck(url), gets), 1);
    PhaseOrderAppend([PostHealthCheck(url)], Repeat(GetHealthCheck(url), gets));
  }

  /** Every request of main belongs to a phase no earlier than the one
      before it: the health check, then the upload, then the waits. */
  lemma MainPhasesInOrder(cfg: Config, obs: ControllerResponses)
    ensures InPhaseOrder(Main(cfg, obs).requests)
  {
    var gate := Gate(cfg, obs);
    var checking := [PostHealthCheck(HealthUrl(cfg))] + Repeat(GetHealthCheck(HealthUrl(cfg)), gate.gets);
    CheckingInOrder(HealthUrl(cfg), gate.gets);
    if gate.outcome == Returned(true) {
      var uploading := checking + [UploadFirmware(FirmwareUrl(cfg))];
      assert forall i :: 0 <= i < |checking| ==> Phase(checking[i]) <= 1;
      PhaseOrderAppend(checking, [UploadFirmware(FirmwareUrl(cfg))]);
      if !RaisesForStatus(obs.uploadStatus) {
        var wait := WaitForAvailability(SystemUrls(cfg), obs.systemPolls);
        assert forall j :: 0 <= j < |wait.requests| ==> wait.requests[j] in wait.requests;
        OnePhaseInOrder(wait.requests, 3);
        PhaseOrderAppend(uploading, wait.requests);
        assert Main(cfg, obs).requests == uploading + wait.requests;
      } else {
        assert Main(cfg, obs).requests == uploading;
      }
    } else {
      assert Main(cfg, obs).requests == checking;
    }
  }

  /** A completed wait on two URLs: the first URL's polls, then the second's,
      each counted by `PollUrl` on the responses left to it. */
  lemma TwoUrlWait(a: string, b: string, obs: seq<SystemPoll>) returns (c0: nat, c1: nat)
    requires WaitForAvailability([a, b], obs).outcome.Returned?
    ensures 0 < c0 <= RetryMax && 0 < c1 <= RetryMax && c0 + c1 <= |obs|
    ensures PollUrl(obs) == Some(c0)
    ensures PollUrl(obs[c0..]) == Some(c1)
    ensures WaitForAvailability([a, b], obs).requests == Repeat(GetSystem(a), c0) + Repeat(GetSystem(b), c1)
  {
    var urls := [a, b];
    var counts := WaitVisitsInOrder(urls, obs);
    c0, c1 := counts[0], counts[1];
    assert counts[..0] == [] && obs[0..] == obs;
    assert counts[..1] == [c0] && Total([c0]) == c0;
    assert urls[1..] == [b] && counts[1..] == [c1];
    assert Expand([b], [c1]) == Repeat(GetSystem(b), c1) + Expand([], []);
  }

  /** The order main promises once it completes: the health-check POST, its
      GETs, the upload, then controller A's system URL and controller B's,
      each polled as `PollUrl` prescribes on the responses left to it. */
  lemma MainTrace(cfg: Config, obs: ControllerResponses) returns (k: nat, c0: nat, c1: nat)
    requires Gate(cfg, obs).outcome == Returned(true)
    requires !RaisesForStatus(obs.uploadStatus)
    requires WaitForAvailability(SystemUrls(cfg), obs.systemPolls).outcome.Returned?
    ensures Main(cfg, obs).outcome == Returned(Completed)
    ensures k == Gate(cfg, obs).gets
    ensures 0 < c0 <= RetryMax && 0 < c1 <= RetryMax && c0 + c1 <= |obs.systemPolls|
    ensures PollUrl(obs.systemPolls) == Some(c0)
    ensures PollUrl(obs.systemPolls[c0..]) == Some(c1)
    ensures Main(cfg, obs).requests
            == [PostHealthCheck(HealthUrl(cfg))] + Repeat(GetHealthCheck(HealthUrl(cfg)), k)
               + [UploadFirmware(FirmwareUrl(cfg))]
               + Repeat(GetSystem(SystemUrls(cfg)[0]), c0) + Repeat(GetSystem(SystemUrls(cfg)[1]), c1)
  {
    k := Gate(cfg, obs).gets;
    var urls := SystemUrls(cfg);
    c0, c1 := TwoUrlWait(urls[0], urls[1], obs.systemPolls);
    var uploading := [PostHealthCheck(HealthUrl(cfg))] + Repeat(GetHealthCheck(HealthUrl(cfg)), k)
                     + [UploadFirmware(FirmwareUrl(cfg))];
    var wait := WaitForAvailability(urls, obs.systemPolls);
    assert Main(cfg, obs).requests == uploading + wait.requests;
  }

  /** When main stops before the wait: a gate that does not pass leaves only
      the health-check requests, so nothing is uploaded; a rejected upload
      status ends the run right after the upload; and main raises only the
      gate's error or, after a passing gate, the upload's. */
  lemma MainStopsEarly(cfg: Config, obs: ControllerResponses)
    ensures Gate(cfg, obs).outcome != Returned(true) ==>
              Main(cfg, obs).requests
              == [PostHealthCheck(HealthUrl(cfg))] + Repeat(GetHealthCheck(HealthUrl(cfg)), Gate(cfg, obs).gets)
    ensures Gate(cfg, obs).outcome == Returned(true) && RaisesForStatus(obs.uploadStatus) ==>
              Main(cfg, obs).requests
              == [PostHealthCheck(HealthUrl(cfg))] + Repeat(GetHealthCheck(HealthUrl(cfg)), Gate(cfg, obs).gets)
                 + [UploadFirmware(FirmwareUrl(cfg))]
    ensures Main(cfg, obs).outcome.Raised? ==>
              || Gate(cfg, obs).outcome.Raised?
              || (Gate(cfg, obs).outcome == Returned(true) && RaisesForStatus(obs.uploadStatus))
  {
  }

  /** main completes exactly when the gate passes, raise_for_status accepts
      the upload status and the wait on both system URLs comes to an end. */
  lemma MainCompletion(cfg: Config, obs: ControllerResponses)
    ensures Main(cfg, obs).outcome == Returned(Completed)
            <==> && Gate(cfg, obs).outcome == Returned(true)
                 && !RaisesForStatus(obs.uploadStatus)
                 && WaitForAvailability(SystemUrls(cfg), obs.systemPolls).outcome.Returned?
  {
  }

  /** A passing gate and an upload status raise_for_status accepts complete
      the upgrade whenever `RetryMax` responses per controller are observed,
      even if neither controller ever answers. */
  lemma MainCompletes(cfg: Config, obs: ControllerResponses)
    requires Gate(cfg, obs).outcome == Returned(true)
    requires !RaisesForStatus(obs.uploadStatus)
    requires |obs.systemPolls| >= 2 * RetryMax
    ensures Main(cfg, obs).outcome == Returned(Completed)
  {
    WaitCompletes(SystemUrls(cfg), obs.systemPolls);
  }

  /** A 3xx upload status, which the script logs as a warning, does not stop
      main: it goes on to wait for the controllers and never raises. */
  lemma RedirectedUploadContinues(cfg: Config, obs: ControllerResponses)
    requires Gate(cfg, obs).outcome == Returned(true)
    requires 300 <= obs.uploadStatus < 400
    ensures !Main(cfg, obs).outcome.Raised?
    ensures Uploads(Main(cfg, obs).requests)
    ensures |obs.systemPolls| >= 2 * RetryMax ==> Main(cfg, obs).outcome == Returned(Completed)
  {
    if |obs.systemPolls| >= 2 * RetryMax {
      MainCompletes(cfg, obs);
    }
  }

  /** The source's own configuration (override off): whenever the deciding
      poll's first result failed, main exits with status 1 and nothing is
      uploaded. */
  lemma SourceConfigStopsOnFailedCheck(obs: ControllerResponses)
    requires Gate(SourceConfig, obs).outcome.Returned?
    requires !obs.healthPolls[Gate(SourceConfig, obs).gets - 1].successful[0]
    ensures Main(SourceConfig, obs).outcome == Returned(Exited(1))
    ensures !Uploads(Main(SourceConfig, obs).requests)
  {
    OverrideDecides(false, obs.healthPostStatus, obs.healthPolls);
  }
}
