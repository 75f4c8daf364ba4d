# Firmware-upgrade decision rules of the storage-array REST samples

This project models, in Dafny, the decision and selection logic of two sample
scripts that drive a storage array's management REST API:

- the **drive-firmware upgrade** (`drive_firmware_upgrade.py`). It keeps the
  drive references of optimal drives (`optimal_drives`). It matches them
  against the array's firmware-compatibility list (`fw_compatible_drives`).
  It initiates the upgrade only for a non-empty list of compatible drives,
  then waits while the download is in progress (`drive_firmware_upgrade`);
- the **controller-firmware upgrade** (`controller_firmware_upgrade.py`). It
  runs a health-check gate (`health_check`), uploads the firmware
  (`upload_firmware_file`) and waits, with a bounded retry count, for both
  controllers to answer again (`wait_for_availability`). `main` puts these
  steps in order.

Every REST call is replaced by the response it would observe. The responses
are passed in as data: status codes, response bodies, and one finite
sequence per polling loop. Each script function ends in an `Outcome`: it
returns a value, raises an error (`HTTPError` from `raise_for_status`, or
`IndexError`), or is `Pending`. `Pending` means the observed responses ran
out while the script was still polling; this is how the unbounded loops are
modelled without a termination proof. The functions that issue several
requests (`DriveFirmwareUpgrade`, `WaitForAvailability`, `Main`) return a
`Run`: the requests issued, in order, and the `Outcome`. `HealthCheck`
returns a `HealthGate`: the `Outcome` and the number of status GETs.
`OptimalDrives`, `FwCompatibleDrives` and `UploadFirmwareFile` return the
`Outcome` alone.

Modules:

- `Python` (`python.dfy`): Python's `None` (`Option`) and `in` on two
  strings (`Contains`, a substring test), plus `Repeat`, which builds runs
  of identical requests in a trace.
- `Http` (`http.dfy`): which status codes `raise_for_status` rejects
  (400-599 only), the errors, `Outcome` and `Run`.
- `DriveFirmware` (`drive_firmware.dfy`): drive records, the optimal filter,
  compatibility matching, and the upgrade gate.
- `ControllerFirmware` (`controller_firmware.dfy`): the health gate, the
  upload status rule, the availability wait, and `main`.

Where the scripts' docstrings promise more than the code does, the model
follows the code:

- `health_check` reads only `results[0].successful`. A later failed result
  does not stop the upgrade (`LaterFailureIgnored`). An empty `results` list
  raises `IndexError`.
- `upload_firmware_file` aborts only on what `raise_for_status` rejects
  (4xx and 5xx). A 3xx status is logged as a warning and yet returns
  normally.
- Drive matching uses `in` between two strings, which is a substring test.
  A drive whose ref is a prefix of a listed ref is selected
  (`PrefixRefSelected`). A drive is appended once per containing entry, so
  the list sent to initiate-upgrade may hold duplicates
  (`DuplicateSelection`). For refs of equal length, `in` is plain equality
  (`EqualLengthContainsIsEquality`).
- `wait_for_availability` documents an `HTTPError` on a failure status, but
  never calls `raise_for_status`: any response, even a 5xx, ends the polling
  of that URL, and the wait raises nothing.
- `len(compatible_drives) is not 0` is modelled as a length test. It
  compares identity, which CPython's small-integer cache makes equal to
  `!= 0`.

## Model

| member | source | states |
|---|---|---|
| Python.ContainsIsOccurrence | drive_firmware_upgrade/drive_firmware_upgrade.py:150 | the scan behind `drive in compatible_drive['driveRef']` is true exactly when the ref occurs as a contiguous run somewhere in the compatible ref |
| Python.EqualLengthContainsIsEquality | drive_firmware_upgrade/drive_firmware_upgrade.py:150 | between two refs of the same length, the substring test is plain equality |
| Python.PrefixIsContained | drive_firmware_upgrade/drive_firmware_upgrade.py:150 | a ref is "in" every longer ref that starts with it, so the test accepts refs that are not equal |
| DriveFirmware.OptimalRefs | drive_firmware_upgrade/drive_firmware_upgrade.py:74-80 | a string is among the returned refs if and only if some drive in the list has status 'optimal' and that driveRef; never more refs than drives |
| DriveFirmware.OptimalRefsAppend | drive_firmware_upgrade/drive_firmware_upgrade.py:74-80 | filtering a list equals filtering its two halves and concatenating, so the refs keep input order |
| DriveFirmware.OptimalRefsAllOrNothing | drive_firmware_upgrade/drive_firmware_upgrade.py:74-80 | when every drive is optimal, the result is every driveRef in list order; when none is, it is empty |
| DriveFirmware.CollectOptimalRefs | drive_firmware_upgrade/drive_firmware_upgrade.py:74-80 | the source's append loop produces exactly the optimal-filter result |
| DriveFirmware.OptimalDrives | drive_firmware_upgrade/drive_firmware_upgrade.py:60-82 | a falsy argument (None or an empty list) is replaced by the array's drive list; a failed GET of that list, and only that, raises HTTPError with its status; a single record gives [driveRef] when optimal and [] otherwise; the result is the optimal refs of the drives consulted |
| DriveFirmware.EmptyListIsOmitted | drive_firmware_upgrade/drive_firmware_upgrade.py:62-65 | an explicit empty list behaves exactly like passing no list |
| DriveFirmware.DriveMatches | drive_firmware_upgrade/drive_firmware_upgrade.py:149-151 | one drive is appended once per compatible entry whose ref contains it, and nothing else is appended |
| DriveFirmware.EntryMatches | drive_firmware_upgrade/drive_firmware_upgrade.py:148-151 | for one firmware entry, only optimal refs are appended |
| DriveFirmware.CompatibleRefs | drive_firmware_upgrade/drive_firmware_upgrade.py:143-154 | every selected ref is one of the optimal refs |
| DriveFirmware.EntryMatchesMultiplicity | drive_firmware_upgrade/drive_firmware_upgrade.py:148-151 | within one entry, a ref appears (occurrences among the optimal refs) times (compatible entries containing it) times |
| DriveFirmware.CompatibleRefsMultiplicity | drive_firmware_upgrade/drive_firmware_upgrade.py:145-151 | a ref appears its number of optimal occurrences times the number of containing compatible drives over all entries naming the file; duplicates arise exactly when that product exceeds one |
| DriveFirmware.CompatibleRefsMembership | drive_firmware_upgrade/drive_firmware_upgrade.py:145-151 | a ref is selected if and only if it is optimal and some entry whose filename equals the requested file lists a compatible drive containing it |
| DriveFirmware.NoEntryForFile | drive_firmware_upgrade/drive_firmware_upgrade.py:145-147 | if no entry's filename equals the requested file, nothing is selected |
| DriveFirmware.CompatibleRefsAppend | drive_firmware_upgrade/drive_firmware_upgrade.py:145-151 | output order follows the firmware entries: the selection over a concatenated list is the concatenation of the selections |
| DriveFirmware.EntryMatchesAppend | drive_firmware_upgrade/drive_firmware_upgrade.py:148-151 | within one entry, output order follows the order of the optimal refs |
| DriveFirmware.DuplicateSelection | drive_firmware_upgrade/drive_firmware_upgrade.py:148-151 | two compatible entries with the same ref select that drive twice |
| DriveFirmware.PrefixRefSelected | drive_firmware_upgrade/drive_firmware_upgrade.py:150 | a drive whose ref is a proper prefix of a listed ref is selected |
| DriveFirmware.FwCompatibleDrives | drive_firmware_upgrade/drive_firmware_upgrade.py:127-154 | raises HTTPError with the drives GET's status exactly when the falsy-argument fallback GET fails; otherwise returns exactly the compatibility selection over the optimal refs of the consulted drives, so the multiplicity, order and duplicate results proved for that selection hold for the list sent to initiate-upgrade; every returned ref belongs to an optimal drive among those consulted |
| DriveFirmware.FwCompatibleMembership | drive_firmware_upgrade/drive_firmware_upgrade.py:138-154 | a ref is returned if and only if an optimal drive among those consulted has it and an entry whose filename equals the file lists a compatible drive whose ref contains it |
| DriveFirmware.StatePolls | drive_firmware_upgrade/drive_firmware_upgrade.py:117-119 | the wait stops after the first poll whose overallStatus is not 'downloadInProgress', and every earlier poll reported it; it never stops while every poll reports it |
| DriveFirmware.DriveFirmwareUpgrade | drive_firmware_upgrade/drive_firmware_upgrade.py:94-124 | the file is uploaded first, and a failed upload raises with no other request; a failed fallback drives GET raises its HTTPError after exactly the upload and that GET; the run raises exactly in those two cases; the result is None exactly when the compatible list is empty; an initiate-upgrade request is sent exactly when the list is non-empty, carrying the given filename and exactly that list; a returned response is the initiate response, after state polls that end at the first state other than 'downloadInProgress' |
| DriveFirmware.InitiatedUpgradeTrace | drive_firmware_upgrade/drive_firmware_upgrade.py:100-124 | once the upgrade is initiated, the requests are exactly: upload, the drives GET when the argument is falsy, the compatibility GET, the initiate request for the selection, then one state GET per poll up to the first state other than 'downloadInProgress'; the run then returns the initiate response, and is still waiting only while every observed state is 'downloadInProgress' |
| DriveFirmware.EmptySelectionTrace | drive_firmware_upgrade/drive_firmware_upgrade.py:100-123 | when nothing is compatible, the requests are exactly the upload, the drives GET when the argument is falsy, and the compatibility GET; no initiate request and no state poll |
| ControllerFirmware.PollHealth | firmware_upgrade/controller_firmware_upgrade.py:60-78 | every poll of a running check with an accepted status is skipped; the first poll that fails raise_for_status or reports not running decides |
| ControllerFirmware.HealthCheck | firmware_upgrade/controller_firmware_upgrade.py:49-80 | a failed POST raises before any poll; a returned verdict comes from a non-running, accepted poll with a non-empty results list, and equals results[0].successful or IGNORE_HEALTH_CHECK |
| ControllerFirmware.OverrideDecides | firmware_upgrade/controller_firmware_upgrade.py:69-74 | with the override set the gate never returns false; without it, the gate returns exactly the first result's success flag |
| ControllerFirmware.OnlyFirstResultConsulted | firmware_upgrade/controller_firmware_upgrade.py:66-69 | polls that agree on status, running flag and first result give the same gate, whatever follows results[0] |
| ControllerFirmware.LaterFailureIgnored | firmware_upgrade/controller_firmware_upgrade.py:69-80 | results [true, false] pass the gate |
| ControllerFirmware.UploadFirmwareFile | firmware_upgrade/controller_firmware_upgrade.py:83-104 | a status below 300 returns normally; HTTPError is raised exactly for 4xx and 5xx, carrying the status, so a 3xx also returns |
| ControllerFirmware.PollsFrom | firmware_upgrade/controller_firmware_upgrade.py:125-145 | from any retry count, the loop ends at the first response that is not a connection error or at 1000 retries; every skipped poll was a connection error |
| ControllerFirmware.PollUrl | firmware_upgrade/controller_firmware_upgrade.py:117-145 | each URL gets between 1 and 1000 polls with a fresh counter; any response, whatever its status code, ends the polling after one poll when it comes first |
| ControllerFirmware.WaitForAvailability | firmware_upgrade/controller_firmware_upgrade.py:117-145 | the wait never raises; it polls only the given URLs and uses no more polls than responses observed |
| ControllerFirmware.WaitVisitsInOrder | firmware_upgrade/controller_firmware_upgrade.py:117-145 | a completed wait polls every URL in list order, each between 1 and 1000 consecutive times; each URL's polls are exactly what the stop-at-first-answer rule gives on the responses left after the earlier URLs |
| ControllerFirmware.WaitCompletes | firmware_upgrade/controller_firmware_upgrade.py:117-145 | with 1000 observed responses per URL the wait always completes, even if no controller ever answers |
| ControllerFirmware.ExhaustedUrlIsSilent | firmware_upgrade/controller_firmware_upgrade.py:125-145 | a URL refusing 1000 times gets exactly 1000 polls, and the wait moves on to the next URL without an error |
| ControllerFirmware.Main | firmware_upgrade/controller_firmware_upgrade.py:148-166 | the first request is the health-check POST to controller A; main exits with status 1 exactly when the gate returns false; the firmware is uploaded exactly when the gate returns true; completion implies a passed gate, an accepted upload status and polls of both system URLs; a raise implies a raising gate or an upload status raise_for_status rejects, and a raising gate or, after a passing gate, a rejected upload status makes main raise that same error |
| ControllerFirmware.MainStopsEarly | firmware_upgrade/controller_firmware_upgrade.py:148-163 | a gate that does not pass leaves exactly the health-check POST and GETs, so main stops before any upload or system poll; after a passing gate, a rejected upload status leaves exactly those requests plus the upload; main raises only the gate's error or, after a passing gate, the upload's |
| ControllerFirmware.MainPhasesInOrder | firmware_upgrade/controller_firmware_upgrade.py:156-166 | the requests of main run in phase order: health-check POST, health-check GETs, upload, system GETs |
| ControllerFirmware.SourceConfigStopsOnFailedCheck | firmware_upgrade/controller_firmware_upgrade.py:156-159 | with the shipped configuration (override off), whatever the POST status and polls, a gate that returns on a poll whose first result failed makes main exit with status 1 and nothing is uploaded |
| ControllerFirmware.MainTrace | firmware_upgrade/controller_firmware_upgrade.py:148-166 | when the gate passes, the upload status is accepted and the wait ends, main completes having issued exactly: the health-check POST, its GETs, the upload, then 1-1000 GETs of controller A's system URL followed by 1-1000 of controller B's, each count being what the stop-at-first-answer rule gives on the responses left |
| ControllerFirmware.MainCompletion | firmware_upgrade/controller_firmware_upgrade.py:148-166 | main completes if and only if the gate returns true, raise_for_status accepts the upload status, and the wait on both system URLs ends |
| ControllerFirmware.MainCompletes | firmware_upgrade/controller_firmware_upgrade.py:156-167 | for every configuration, a passing gate, an upload status raise_for_status accepts, and 1000 observed responses per controller complete the upgrade, even if no controller answers |
| ControllerFirmware.RedirectedUploadContinues | firmware_upgrade/controller_firmware_upgrade.py:95-104 | after a passing gate, a 3xx upload status still uploads and never makes main raise; with enough responses main completes |

## Left out

- The AutoSupport scripts: each is one or two REST calls plus logging.
- Sessions, basic auth and TLS settings (`get_session`), reading the firmware file, and the multipart upload body. These are I/O through `requests`; only the resulting status codes and bodies are modelled.
- `time.sleep` and all logging, including the `retries % 60` progress message.
- Termination of the unbounded polls (the health-check loop and the drive-state loop). They run over finite response sequences, and running out is reported as `Pending` rather than proved impossible.
- JSON decoding and missing keys: a `KeyError` for a missing `compatibilities`, `overallStatus` or `fwVersion`, and a `json()` failure on a non-JSON body. Each modelled body always has the keys that are read.
- Exceptions other than a connection error during the availability wait (for example a read timeout). A poll is modelled either as a connection error or as a response.
- Transport exceptions of `requests` outside the availability wait: a `ConnectionError` or `Timeout` on the health-check POST or GET, on the upload POST, or on any request of the drive script propagates and ends the script. Every such request is modelled as receiving a status code.
- The drive script's `main`. It only calls the upgrade with no drive list against controller A and logs the result.
- The status of the compatibility GET and of the initiate-upgrade POST. The script checks neither with `raise_for_status`: the compatibility body is used as-is, and the initiate response is returned as-is.
