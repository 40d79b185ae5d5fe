# Attendance roster reconciliation, modelled in Dafny

The repository is a browser attendance tracker. A webcam frame goes through a
face detector and a face matcher. The matcher labels each face with an
enrolled person's name, or with the sentinel `"unknown"`. A detection tick
folds those labels into a roster: a JavaScript `Set` of entry records, keyed
by `label` by convention. Buttons start and stop the session, remove a
record, and export the roster.

The roster logic exists in four variants. This project models each of them:

| file | Dafny module | rule |
|---|---|---|
| public/js/modules/submodules/FaceDetectionManager.js | `AttentionRoster` (the pass as functions), `AttentionRecognition` (the class) | An existing entry is updated in place, and last write wins. Each entry keeps a bounded FIFO `detections` window. A pass is throttled by an interval; start, stop and restart control the loop. Also: the attentiveness score, the Excel rows and `s2ab`. |
| public/js/modules/FaceDetectionManager.js | `OriginalRecognition` | Insert-if-absent, so the first write wins. There is no session gate. Also: the `getCookie` parser. |
| public/js/modules/attendanceManager.js | `AttendanceManagerModule` | Insert-if-absent, and only while the session flag is set. Detections without a descriptor are dropped. `animate` refreshes the table at most every 2 s. |
| script.js | `LegacyScript` | As attendanceManager.js, but with no descriptor filter. The refresh in `animate` tests a property nothing assigns. |

`Common` holds the shared vocabulary:
- `parseInt` results, which may be NaN;
- settled or rejected engine promises;
- detections and sightings;
- a `JsSet` class, because the manager and the recognizer share one `Set` object;
- a `SessionFlag` class for a module-level `isAttendanceStarted`.

`Presence` holds the gated insert rule of the last two variants.

## How the model reads the source

- **Sets.** A `Set` is a sequence without duplicates, in insertion order. `set.delete(x)` is `Delete`. The label lookup `Array.from(set).find(e => e.label === l)` is `IndexOf` over the labels.
- **In-place updates.** Entries are values. Updating an entry in place replaces the element at its position.
- **Engines as inputs.** The detector, the matcher and the pose engine are inputs. A tick receives the settled detector output as an `EngineResult`: `Rejected` stands for the `catch` branch. The matcher is a function parameter. Clock readings are naturals that come with each detection.
- **Asynchrony.** A call that starts a detection (`startDetectionLoop`, `startAttendance`, `animate`) does not run the tick itself. The tick is the caller's later call of `DetectFacesAndPose` or `DetectFaces`. `requestAnimationFrame` is the returned `scheduled` flag, which asks for the next tick.
- **Late table in public/js/modules/FaceDetectionManager.js.** Each `forEach` callback awaits the matcher before it adds a record. The synchronous `updateAttendanceTable()` after the loop therefore shows the roster from before this tick's additions; the additions follow in detection order.
- **drawPoses in public/js/modules/FaceDetectionManager.js.** The tick awaits `this.Posenet.drawPoses()`, which public/js/modules/PoseNetManager.js does not define. As shipped, every tick throws into its `catch`. No record is added and no further frame is requested. The model takes the pose result as an input: `DrawPosesAsShipped` is `Rejected`, and `DrawAsIntended` is `draw()` resolving with `undefined`.
- **script.js refresh.** `animate` tests `this.isAttendanceStarted`. The constructor drops its `isAttendanceStarted` parameter and nothing assigns the property, so the periodic table refresh never happens. This behaviour is modelled as written.
- **Interval slider.** The input handler stores the slider's raw reading (seconds) as `detectionInterval`. `initialize` stores the same slider's reading times 1000. The class has both handlers, `OnIntervalInput` (corrected) and `OnIntervalInputAsWritten`; see Findings.

## Model

| member | source | states |
|---|---|---|
| `Common.OrDefault` | public/js/modules/submodules/FaceDetectionManager.js:42-45 | `n \|\| d` on a parseInt result: the number when non-zero, the default for NaN or 0 |
| `Common.AtLeast` | public/js/modules/submodules/FaceDetectionManager.js:307 | JavaScript's `x >= y` with `y` a `parseInt` result: false whenever `y` is NaN, otherwise the integer comparison |
| `Common.Exceeds` | public/js/modules/submodules/FaceDetectionManager.js:338 | JavaScript's `x > y` with `y` a `parseInt` result: false whenever `y` is NaN, otherwise the integer comparison |
| `Common.AllSightings` | script.js:241-242 | one sighting per detection, in order, labelled by the matcher applied to that detection's descriptor and timed by it |
| `Common.IndexOf` | public/js/modules/attendanceManager.js:263 | the label lookup finds nothing iff the label is absent, and otherwise the first position holding it |
| `Common.Delete` | public/js/modules/attendanceManager.js:207-208 | `set.delete`: no result element equals the deleted value, every other member stays, and a non-member leaves the set unchanged |
| `Common.DeleteMember` | public/js/modules/submodules/FaceDetectionManager.js:214-216 | in a set, deleting a member removes exactly its position and keeps the others in order |
| `Common.FirstSighting` | public/js/modules/attendanceManager.js:253-270 | the first sighting of a label exists iff the label was sighted, carries that label, and no earlier sighting carries it |
| `Common.JsSet.Add` | public/js/modules/FaceDetectionManager.js:341 | `set.add`: a new member goes to the end, and an existing member stays put |
| `Common.JsSet.Remove` | public/js/modules/FaceDetectionManager.js:274 | `set.delete` returns whether the value was a member, and removes it |
| `Common.JsSet.Clear` | public/js/modules/FaceDetectionManager.js:399 | `set.clear` empties the set |
| `Common.SessionFlag.constructor` | public/js/modules/attendanceManager.js:3 | the module-level `isAttendanceStarted` starts false |
| `AttentionRoster.Score` | public/js/modules/submodules/FaceDetectionManager.js:227-290 | the score lies in 0..4; it is 0 iff no condition holds and 4 iff all four hold |
| `AttentionRoster.StatusIsTwoConditions` | public/js/modules/submodules/FaceDetectionManager.js:227-290 | the status is Attentive iff at least two of the four conditions hold |
| `AttentionRoster.StatusOf` | public/js/modules/submodules/FaceDetectionManager.js:315-316 | a face is "Attentive" iff at least two of the four conditions hold |
| `AttentionRoster.Push` | public/js/modules/submodules/FaceDetectionManager.js:336-338 | the sample goes to the tail; the head is shifted exactly when the length exceeds the limit; a window within the limit stays within it |
| `AttentionRoster.PushAll` | public/js/modules/submodules/FaceDetectionManager.js:337-338 | a run of pushes adds at most one sample each, and a window within an integer limit stays within it |
| `AttentionRoster.PushAllKeepsNewest` | public/js/modules/submodules/FaceDetectionManager.js:336-338 | any run of pushes onto a window within limit n leaves the newest n samples of old and new, in order (a FIFO of capacity n) |
| `AttentionRoster.WindowOfTwo` | public/js/modules/submodules/FaceDetectionManager.js:336-338 | with limit 2, three samples leave the last two |
| `AttentionRoster.Refresh` | public/js/modules/submodules/FaceDetectionManager.js:334-338 | refreshing an entry keeps its label, takes the face's time and attentiveness, pushes one sample (so the window grows by at most one and stays within an integer limit it was within), and appends the sample unshifted when the window does not overflow |
| `AttentionRoster.Fresh` | public/js/modules/submodules/FaceDetectionManager.js:340-345 | an entry built for a new face carries its label, time and attentiveness and a window of exactly that one sample |
| `AttentionRoster.Step` | public/js/modules/submodules/FaceDetectionManager.js:332-347 | one face keeps the roster's labels; it adds a candidate, built by `Fresh`, exactly when its label is neither on the roster nor "unknown", and otherwise leaves the candidates alone |
| `AttentionRoster.Scan` | public/js/modules/submodules/FaceDetectionManager.js:308-348 | the face loop never changes the number of roster entries |
| `AttentionRoster.RefreshAllSpec` | public/js/modules/submodules/FaceDetectionManager.js:332-338 | the matching faces set an entry's timestamp and attentiveness from the last of them and push one sample each; with no match the entry is unchanged |
| `AttentionRoster.ScanKeepsLabels` | public/js/modules/submodules/FaceDetectionManager.js:308-348 | the face loop keeps the roster's labels, in order |
| `AttentionRoster.ScanCandidates` | public/js/modules/submodules/FaceDetectionManager.js:330-347 | the candidates are exactly the faces whose label is neither on the roster nor "unknown", in order |
| `AttentionRoster.ScanEntry` | public/js/modules/submodules/FaceDetectionManager.js:332-338 | each existing entry is refreshed in place by exactly the faces carrying its label |
| `AttentionRoster.MergeStep` | public/js/modules/submodules/FaceDetectionManager.js:351-358 | after one candidate the roster holds its label; with the label already present the length stays, otherwise the candidate is appended |
| `AttentionRoster.Merge` | public/js/modules/submodules/FaceDetectionManager.js:350-359 | the merge never shortens the roster |
| `AttentionRoster.MergeKeepsPrefix` | public/js/modules/submodules/FaceDetectionManager.js:350-359 | the merge keeps every earlier entry at its position with its label, and leaves those no candidate names unchanged |
| `AttentionRoster.MergeLabels` | public/js/modules/submodules/FaceDetectionManager.js:350-359 | after the merge a label is present iff the roster or a candidate had it |
| `AttentionRoster.MergeNoDuplicates` | public/js/modules/submodules/FaceDetectionManager.js:350-359 | the merge never puts a label on the roster twice |
| `AttentionRoster.MergeLastWins` | public/js/modules/submodules/FaceDetectionManager.js:350-359 | an entry whose label a candidate carries equals the last such candidate |
| `AttentionRoster.FreshEntriesLabels` | public/js/modules/submodules/FaceDetectionManager.js:339-347 | a candidate exists for a label iff it is not on the roster, is not "unknown", and some face carries it |
| `AttentionRoster.FreshEntriesLast` | public/js/modules/submodules/FaceDetectionManager.js:339-347 | the last candidate for a label is built from the last face carrying it |
| `AttentionRoster.Reconcile` | public/js/modules/submodules/FaceDetectionManager.js:307-359 | a full pass never shortens the roster |
| `AttentionRoster.ReconcileExisting` | public/js/modules/submodules/FaceDetectionManager.js:308-359 | after a pass, every old entry keeps its position and is refreshed by exactly the faces carrying its label |
| `AttentionRoster.ReconcileLabels` | public/js/modules/submodules/FaceDetectionManager.js:308-359 | after a pass a label is present iff it was before or some face carried it and it is not "unknown" |
| `AttentionRoster.ReconcileKeepsInvariant` | public/js/modules/submodules/FaceDetectionManager.js:308-359 | a pass keeps at most one entry per label and none for "unknown" |
| `AttentionRoster.ReconcileAdded` | public/js/modules/submodules/FaceDetectionManager.js:339-359 | every entry a pass adds is for a new label and is built from the last face carrying it |
| `AttentionRoster.UnknownIgnored` | public/js/modules/submodules/FaceDetectionManager.js:311-346 | an "unknown" face never yields an entry and never refreshes one |
| `AttentionRoster.LastObservationWins` | public/js/modules/submodules/FaceDetectionManager.js:332-359 | a label seen in the pass has its entry carry the timestamp and attentiveness of the last face with it, whether the entry is old or new |
| `AttentionRoster.UnobservedEntryUnchanged` | public/js/modules/submodules/FaceDetectionManager.js:308-359 | an entry no face matched is left exactly as it was, at its position |
| `AttentionRoster.WindowAfterPass` | public/js/modules/submodules/FaceDetectionManager.js:336-338 | an old entry's window after a pass is the newest n of its old samples followed by one per matching face |
| `AttentionRoster.WindowsStayWithin` | public/js/modules/submodules/FaceDetectionManager.js:332-347 | with a limit n >= 1 (a new entry starts with one sample), a pass keeps every window within n |
| `AttentionRecognition.ScaleToMs` | public/js/modules/submodules/FaceDetectionManager.js:42 | `parseInt(v * 1000)`: NaN iff the reading is NaN, otherwise 1000 times the reading |
| `AttentionRecognition.InitialInterval` | public/js/modules/submodules/FaceDetectionManager.js:42 | the initial interval is never 0: 1000 times the reading, or 1000 ms for NaN or 0 |
| `AttentionRecognition.InitialLimit` | public/js/modules/submodules/FaceDetectionManager.js:45 | the initial limit is never 0: the reading, or 5 for NaN or 0 |
| `AttentionRecognition.HandlerInterval` | public/js/modules/submodules/FaceDetectionManager.js:48-53 | the corrected handler's interval is NaN iff the reading is |
| `AttentionRecognition.HandlerIntervalAsWritten` | public/js/modules/submodules/FaceDetectionManager.js:49 | the handler as written stores the reading itself, in seconds: NaN iff the reading is NaN, and for every non-zero reading different from what `initialize` sets |
| `AttentionRecognition.HandlerIntervalDisagrees` | public/js/modules/submodules/FaceDetectionManager.js:42-49 | as written, any non-zero reading makes the handler store a different interval than `initialize` does for the same slider position; whatever the time of the last pass, a positive reading of n seconds opens the throttle at every instant from n ms to before 1000·n ms after it, where `initialize`'s interval for the same position keeps it closed |
| `AttentionRecognition.HandlerIntervalAgrees` | public/js/modules/submodules/FaceDetectionManager.js:42-49 | the corrected handler agrees with `initialize` for every non-zero reading, and for NaN the throttle never opens |
| `AttentionRecognition.PassDue` | public/js/modules/submodules/FaceDetectionManager.js:305-307 | the throttle opens iff the elapsed time reaches an integer interval, and never for a NaN interval |
| `AttentionRecognition.Truthy` | public/js/modules/submodules/FaceDetectionManager.js:76 | a truthy frame id is present, and the id 0 is falsy |
| `AttentionRecognition.Cleared` | public/js/modules/submodules/FaceDetectionManager.js:74-80 | after a stop the frame id is falsy, and a falsy id is left as it was |
| `AttentionRecognition.RestartBaseline` | public/js/modules/submodules/FaceDetectionManager.js:82-86 | with the baseline reset to 0, a tick passes the throttle iff the clock has reached the interval |
| `AttentionRecognition.AnalyzeAttentiveness` | public/js/modules/submodules/FaceDetectionManager.js:227-290 | attentive iff the accumulated score is at least 2, that is, iff two of the four conditions hold |
| `AttentionRecognition.ExcelSheet` | public/js/modules/submodules/FaceDetectionManager.js:375-381 | sheet "Attendance" with the four columns, one row per entry in roster order, carrying that entry's label, timestamp and detections, with an empty Poses cell |
| `AttentionRecognition.Row` | public/js/modules/submodules/FaceDetectionManager.js:376-381 | one sheet row carries the entry's label, timestamp and detections, and an empty Poses cell |
| `AttentionRecognition.ExportAfterRemove` | public/js/modules/submodules/FaceDetectionManager.js:214-216 | after removing an entry, the export has exactly that entry's row removed |
| `AttentionRecognition.ExportLabels` | public/js/modules/submodules/FaceDetectionManager.js:375-381 | the exported labels are distinct and never "unknown" |
| `AttentionRecognition.LowByte` | public/js/modules/submodules/FaceDetectionManager.js:403 | `charCodeAt(i) & 0xFF` is the code unit mod 256 |
| `AttentionRecognition.LowBytes` | public/js/modules/submodules/FaceDetectionManager.js:399-406 | one byte per code unit |
| `AttentionRecognition.BinaryStringRoundTrip` | public/js/modules/submodules/FaceDetectionManager.js:399-406 | a string whose code units are all below 256 converts to the same byte values |
| `AttentionRecognition.S2ab` | public/js/modules/submodules/FaceDetectionManager.js:399-406 | the buffer has exactly `s.length` bytes, byte i being code unit i mod 256 |
| `AttentionRecognition.FaceRecognition.constructor` | public/js/modules/submodules/FaceDetectionManager.js:9-22 | empty roster, loop off, no frame, baseline 0, interval 60000 ms, limit 5 |
| `AttentionRecognition.FaceRecognition.Initialize` | public/js/modules/submodules/FaceDetectionManager.js:41-63 | the interval and limit come from the inputs with their defaults, and the loop is on |
| `AttentionRecognition.FaceRecognition.StartDetectionLoop` | public/js/modules/submodules/FaceDetectionManager.js:69-72 | the loop flag is set and nothing else changes; the tick is the next call |
| `AttentionRecognition.FaceRecognition.StopDetectionLoop` | public/js/modules/submodules/FaceDetectionManager.js:74-80 | the flag is cleared, and a pending frame is cancelled and its id cleared |
| `AttentionRecognition.FaceRecognition.RestartDetectionLoop` | public/js/modules/submodules/FaceDetectionManager.js:82-86 | stop, baseline reset to 0, and the loop is back on |
| `AttentionRecognition.FaceRecognition.OnIntervalInput` | public/js/modules/submodules/FaceDetectionManager.js:48-53 | the corrected handler: the interval becomes the reading in milliseconds, and the loop restarts |
| `AttentionRecognition.FaceRecognition.OnIntervalInputAsWritten` | public/js/modules/submodules/FaceDetectionManager.js:48-53 | the handler as written: the interval becomes the raw reading in seconds, and the loop restarts |
| `AttentionRecognition.FaceRecognition.OnLimitInput` | public/js/modules/submodules/FaceDetectionManager.js:56-60 | the limit becomes the parsed reading, NaN included, and the loop is not restarted |
| `AttentionRecognition.FaceRecognition.RemoveEntry` | public/js/modules/submodules/FaceDetectionManager.js:214-216 | exactly the clicked entry's position is removed, and the invariant is kept |
| `AttentionRecognition.FaceRecognition.SaveAttendance` | public/js/modules/submodules/FaceDetectionManager.js:199-201 | the sheet is `ExcelSheet` of the roster: named "Attendance", columns Label, Timestamp, Poses and Detections, one row per entry in roster order with its label, timestamp, an empty Poses cell and its detections, never "unknown"; the roster is not changed |
| `AttentionRecognition.FaceRecognition.DetectFacesAndPose` | public/js/modules/submodules/FaceDetectionManager.js:292-373 | a resolved frame past the throttle reconciles the roster, shows its size and moves the baseline; otherwise these stay put. The next frame is requested iff the frame resolved and the loop is on |
| `AttentionRecognition.ScanFaces` | public/js/modules/submodules/FaceDetectionManager.js:308-348 | the face loop's push/shift and candidate collection equal the pass function, and keep the labels |
| `AttentionRecognition.MergeCandidates` | public/js/modules/submodules/FaceDetectionManager.js:350-359 | the `newEntries.forEach` loop equals the merge function |
| `AttentionRecognition.DeleteEntry` | public/js/modules/submodules/FaceDetectionManager.js:214-216 | `delete(entry)` keeps the roster invariant and removes exactly that entry's position |
| `AttentionRecognition.RemoveKeepsInvariant` | public/js/modules/submodules/FaceDetectionManager.js:214-216 | removing any one entry keeps the roster invariant |
| `AttentionRecognition.StopThenPendingTick` | public/js/modules/submodules/FaceDetectionManager.js:74-80 | after a stop, the pending tick requests no frame and no frame is pending |
| `AttentionRecognition.ThrottleAndRestart` | public/js/modules/submodules/FaceDetectionManager.js:82-86 | a second tick within the interval leaves the roster alone; after a restart the same tick runs |
| `Presence.AdmitAllSnoc` | public/js/modules/attendanceManager.js:253-270 | handling one more detection is one more admit step |
| `Presence.Admit` | script.js:243-259 | one sighting changes the roster iff the session is started, the label is not "unknown" and no record has it; the change appends a present record with the sighting's label and time |
| `Presence.AdmitAll` | script.js:241-261 | a tick adds at most one record per sighting, never removes one, and changes nothing while the session is stopped |
| `Presence.NewLabelNotMember` | public/js/modules/attendanceManager.js:263-264 | a record whose label is absent is not a member, so `add` appends it |
| `Presence.DeleteKeepsInvariant` | public/js/modules/attendanceManager.js:207-208 | deleting any record keeps at most one record per label and none for "unknown" |
| `Presence.InactiveTickChangesNothing` | public/js/modules/attendanceManager.js:265 | while the flag is false, no sequence of detections changes the roster |
| `Presence.AdmitAllExtends` | public/js/modules/attendanceManager.js:263-268 | a tick only appends; earlier records keep position and contents, timestamp included |
| `Presence.AdmitAllLabels` | public/js/modules/attendanceManager.js:253-270 | a label is present after a tick iff it was before, or the session is started, the label is not "unknown", and it was sighted |
| `Presence.AdmitAllKeepsInvariant` | public/js/modules/attendanceManager.js:253-270 | a tick keeps at most one record per label and none for "unknown" |
| `Presence.AdmitAllNew` | public/js/modules/attendanceManager.js:257-268 | every record a tick adds came while the session was started, is present, is for a new label, and carries the first sighting's time |
| `AttendanceManagerModule.ResultsFilter` | public/js/modules/attendanceManager.js:253-275 | one result per detection with a descriptor, labelled as its sighting; never more results than detections; as many results as detections iff every detection has a descriptor |
| `AttendanceManagerModule.Sightings` | public/js/modules/attendanceManager.js:253-266 | there are never more sightings than detections (the exact count is `ResultsFilter`) |
| `AttendanceManagerModule.Results` | public/js/modules/attendanceManager.js:253-275 | there are never more results than detections (the exact count is `ResultsFilter`) |
| `AttendanceManagerModule.FaceRecognition.constructor` | public/js/modules/attendanceManager.js:72-85 | the shared `Set` and flag are kept; both clock readings start at 0, no count is shown and the table is empty |
| `AttendanceManagerModule.FaceRecognition.UpdateAttendanceTable` | public/js/modules/attendanceManager.js:194-219 | the table shows exactly the roster, in order; the count and both clock readings stay |
| `AttendanceManagerModule.AttendanceManager.constructor` | public/js/modules/attendanceManager.js:16-34 | a fresh empty `Set` shared with a fresh recognizer, an empty table, and the given flag |
| `AttendanceManagerModule.FaceRecognition.HandleDetection` | public/js/modules/attendanceManager.js:253-273 | one callback performs the gated admit and shows the count after an add, and returns the match |
| `AttendanceManagerModule.FaceRecognition.DetectFaces` | public/js/modules/attendanceManager.js:240-291 | a resolved tick admits the sightings of the detections with descriptors and returns the filtered results; a rejected tick changes nothing; the count shows the roster size once it has grown |
| `AttendanceManagerModule.FaceRecognition.Animate` | public/js/modules/attendanceManager.js:222-237 | the table is refreshed iff the session is started and 2000 ms have passed since the last refresh, which is then set to now; the frame time is now |
| `AttendanceManagerModule.FaceRecognition.RemoveEntry` | public/js/modules/attendanceManager.js:207-211 | exactly the clicked record's position is removed, nothing else changes in the roster, and the table is refreshed |
| `AttendanceManagerModule.FaceRecognition.SaveAttendanceToFile` | public/js/modules/attendanceManager.js:181-191 | "attendance.json" as application/json, one element per record in roster order |
| `AttendanceManagerModule.AttendanceManager.StartAttendance` | public/js/modules/attendanceManager.js:37-43 | status "Active", flag true, and an empty roster whatever it held |
| `AttendanceManagerModule.AttendanceManager.StopAttendance` | public/js/modules/attendanceManager.js:46-51 | status "Inactive", flag false, every record kept, and the table refreshed; the displayed count and both clock readings stay |
| `AttendanceManagerModule.AttendanceManager.SaveAttendanceToFile` | public/js/modules/attendanceManager.js:54-56 | the download holds exactly the shared roster |
| `AttendanceManagerModule.LateCallbackAfterStop` | public/js/modules/attendanceManager.js:253-270 | a callback settling while the session runs adds a present record; one settling after stop adds nothing |
| `LegacyScript.FaceRecognition.HandleDetection` | script.js:241-261 | one callback hands any descriptor to the matcher, performs the gated admit, and returns the match |
| `LegacyScript.Results` | script.js:241-261 | exactly one result per detection, in order, with the matcher's label and the detection's box |
| `LegacyScript.FaceRecognition.UpdateAttendanceTable` | script.js:182-207 | the table shows exactly the roster, in order; the count and both clock readings stay |
| `LegacyScript.AttendanceManager.constructor` | script.js:16-32 | a fresh empty `Set` shared with a fresh recognizer, an empty table, the given flag, and the recognizer's own started property undefined |
| `LegacyScript.FaceRecognition.DetectFaces` | script.js:226-277 | a resolved tick admits one sighting per detection and returns one result per detection; a rejected one changes nothing |
| `LegacyScript.FaceRecognition.Animate` | script.js:209-224 | the refresh depends on the never-assigned property, and the frame time becomes now |
| `LegacyScript.FaceRecognition.RemoveEntry` | script.js:195-199 | exactly the clicked record is removed, and the table is refreshed |
| `LegacyScript.FaceRecognition.SaveAttendanceToFile` | script.js:170-180 | "attendance.json", one element per record in roster order |
| `LegacyScript.FaceRecognition.constructor` | script.js:67-88 | the `isAttendanceStarted` argument is dropped, and the property the refresh tests stays undefined |
| `LegacyScript.AttendanceManager.StartAttendance` | script.js:34-40 | status "Active", flag true, empty roster |
| `LegacyScript.AttendanceManager.StopAttendance` | script.js:42-47 | status "InActive", flag false, every record kept, and the table refreshed; the displayed count and both clock readings stay |
| `LegacyScript.AttendanceManager.SaveAttendanceToFile` | script.js:49-51 | the download holds exactly the shared roster |
| `LegacyScript.TableNeverRefreshedByAnimate` | script.js:209-218 | for any sequence of frame instants while the session runs with a record on the roster, `animate` leaves the table empty; only stop shows the record |
| `OriginalRecognition.AddAllExtends` | public/js/modules/FaceDetectionManager.js:338-344 | a tick only appends, so an existing record, first timestamp included, is never modified |
| `OriginalRecognition.AddAllLabels` | public/js/modules/FaceDetectionManager.js:338-344 | a label is present after a tick iff it was before or was sighted and is not "unknown"; the session flag plays no part |
| `OriginalRecognition.AddAllKeepsInvariant` | public/js/modules/FaceDetectionManager.js:338-344 | a tick keeps at most one record per label and none for "unknown" |
| `OriginalRecognition.AddAllNew` | public/js/modules/FaceDetectionManager.js:329-344 | every added record is present, carries the tick's pose, is for a new label, and has the first sighting's time |
| `OriginalRecognition.Add` | public/js/modules/FaceDetectionManager.js:329-344 | one sighting changes the roster iff the label is not "unknown" and no record has it, with no session gate; the change appends a present record with the tick's pose |
| `OriginalRecognition.AddAll` | public/js/modules/FaceDetectionManager.js:305-345 | a tick adds at most one record per sighting |
| `OriginalRecognition.RemoveKeepsInvariant` | public/js/modules/FaceDetectionManager.js:273-277 | deleting one record removes exactly its position and keeps the invariant |
| `OriginalRecognition.DeleteKeepsInvariant` | public/js/modules/FaceDetectionManager.js:274 | deleting any value, a member or a stale record, keeps one record per label and none for "unknown" |
| `OriginalRecognition.Split` | public/js/modules/FaceDetectionManager.js:234 | `split(';')` yields at least one part, none containing the separator |
| `OriginalRecognition.JoinSplit` | public/js/modules/FaceDetectionManager.js:234 | joining the parts of a split gives the string back |
| `OriginalRecognition.SplitJoin` | public/js/modules/FaceDetectionManager.js:234 | splitting a join of separator-free parts gives the parts back |
| `OriginalRecognition.TrimLeft` | public/js/modules/FaceDetectionManager.js:237-239 | the stripped segment is no longer than the segment and does not start with a space |
| `OriginalRecognition.TrimLeftSpec` | public/js/modules/FaceDetectionManager.js:237-239 | stripping keeps a suffix of the segment and removes only spaces |
| `OriginalRecognition.CookieIndex` | public/js/modules/FaceDetectionManager.js:235-243 | the first segment that, trimmed, starts with the name: none iff no segment does, and no earlier segment does |
| `OriginalRecognition.GetCookie` | public/js/modules/FaceDetectionManager.js:232-245 | the segment loop and the space-stripping loop return the value of the first matching segment, or "" |
| `OriginalRecognition.StripSpaces` | public/js/modules/FaceDetectionManager.js:237-239 | the `while` loop leaves the segment without its leading spaces |
| `OriginalRecognition.CookieLookup` | public/js/modules/FaceDetectionManager.js:232-245 | in a cookie built of `name=value` pairs, the value of the first pair with the name is read back |
| `OriginalRecognition.CookieMissing` | public/js/modules/FaceDetectionManager.js:232-245 | when no pair has the name, the result is "" |
| `OriginalRecognition.CookieValue` | public/js/modules/FaceDetectionManager.js:232-245 | "" when no segment, trimmed, starts with `name=`; otherwise some segment, trimmed, is `name=` followed by the value (that it is the first such segment is `CookieLookup`) |
| `OriginalRecognition.FaceRecognition.HandleDetection` | public/js/modules/FaceDetectionManager.js:329-344 | one callback adds the record iff the label is new and not "unknown", and shows the count after an add |
| `OriginalRecognition.FaceRecognition.constructor` | public/js/modules/FaceDetectionManager.js:25-36 | the shared `Set` is kept, no count is shown and the table is empty |
| `OriginalRecognition.FaceRecognition.UpdateAttendanceTable` | public/js/modules/FaceDetectionManager.js:261-285 | the table shows exactly the roster, in order; the count stays |
| `OriginalRecognition.FaceRecognition.DetectFacesAndPose` | public/js/modules/FaceDetectionManager.js:290-355 | if both engine calls resolve, every sighting is added ungated, the table shows the pre-tick roster, and the next frame is requested; if either rejects, nothing changes |
| `OriginalRecognition.FaceRecognition.RemoveEntry` | public/js/modules/FaceDetectionManager.js:273-277 | any rendered row, a stale one included, is deleted from the `Set` by value; when that record is still a member exactly its position goes; the invariant is kept and the table is refreshed |
| `OriginalRecognition.FaceRecognition.SaveAttendance` | public/js/modules/FaceDetectionManager.js:209-255 | a POST of the roster with key "tatakae" and the session name to the decoded REMOTEURL cookie plus "/create-session" |
| `OriginalRecognition.FaceRecoHandler.StartAttendance` | public/js/modules/FaceDetectionManager.js:396-401 | status "Active", flag true, empty roster, and no detection started |
| `OriginalRecognition.FaceRecoHandler.constructor` | public/js/modules/FaceDetectionManager.js:379-394 | a fresh empty `Set` shared with a fresh recognizer, an empty table, and the given flag |
| `OriginalRecognition.FaceRecoHandler.StopAttendance` | public/js/modules/FaceDetectionManager.js:403-407 | status "Inactive", flag false, every record kept, and the table refreshed; the displayed count stays |
| `OriginalRecognition.ShippedTickAddsNothing` | public/js/modules/FaceDetectionManager.js:303 | as shipped, a tick that sees a face adds nothing and requests no further frame |
| `OriginalRecognition.IntendedTickAddsEvenWhenStopped` | public/js/modules/FaceDetectionManager.js:338-351 | with the intended pose call, the tick adds the face and keeps the loop going, even after stop |

## Left out

- Face-api detection, the face matcher and the pose engines are left out, because they are foreign code. The model receives their output as inputs. This includes the floating-point geometry in `analyzeAttentiveness`: each of its four conditions is a boolean input.
- Attentiveness thresholds are left out: only the scoring rule is modelled.
- Webcam, canvases, drawing, the progress bar, `alert` and DOM table building are presentation. The table is modelled as the list of records it shows, and the count as the number it shows.
- Loading gallery descriptors, `localStorage` caching, `fetch`/`postData`, XLSX workbook writing and the downloads are left out as I/O. What is kept is the rows, the request body and the records handed over.
- `decodeURIComponent` is left out; it is a parameter of `SaveAttendance`.
- JSON serialisation of entries is left out. `Poses` and `Detections` cells hold the values, not their JSON text.
- Timestamps are naturals (clock readings), not ISO strings. The two `new Date()` calls per face in public/js/modules/submodules/FaceDetectionManager.js are one reading.
- Interleaving of ticks with button clicks inside one tick is left out. Async `forEach` ordering is modelled only as the one effect described above: the table lags one tick in public/js/modules/FaceDetectionManager.js.
- An exception thrown partway through a tick is left out. Examples: a null `faceMatcher` before the models load, or a failing pose call inside the V1 loop. Only a whole-tick rejection is modelled.
- Slider readings are integers; `parseInt` of a fractional or non-numeric reading is modelled only as its integer or NaN result.
- `getLabeledFaceDescriptions` and `getFaceDescriptors` are left out (fetch and storage).
- public/js/modules/PoseNetManager.js, public/js/modules/submodules/PoseNetManager.js, public/js/sketch.js, public/js/script.js, public/js/workers/image_taker_worker.js and routes/index.js are not part of this model. They hold drawing loops, timer plumbing, a constructor call, and server file I/O.
- The constructors' own calls into the engines are left out: `initialize` in the two FaceDetectionManager.js files, and the first `animate` in script.js and attendanceManager.js. They are the caller's later tick calls.
- `AttentionRoster.WindowsStayWithin` requires a limit of at least 1. A new entry starts with one sample and is never shifted, so with limit 0 or NaN its window exceeds the limit; this matches the source.
- `OriginalRecognition.AddAll` states only the upper bound on its length; that a tick only appends is `OriginalRecognition.AddAllExtends`, kept apart because the fuller contract makes the tick's loop too costly to verify.
- `AttendanceManagerModule.Sightings` and `AttendanceManagerModule.Results` state only that they are no longer than the detections; their exact length and labels are `AttendanceManagerModule.ResultsFilter`, for the same reason.
- `AttentionRecognition.FaceRecognition.OnIntervalInput` stores the corrected interval `HandlerInterval`; the handler as written is `AttentionRecognition.FaceRecognition.OnIntervalInputAsWritten`, which stores `HandlerIntervalAsWritten` (see Findings).
- `OriginalRecognition.FaceRecognition.DetectFacesAndPose` takes the pose result as an input. As shipped it is always `Rejected` (see Findings).
- `LegacyScript.FaceRecognition.Animate` states the refresh condition on the property it tests. The fact that the refresh never fires follows from the constructor and is shown by `LegacyScript.TableNeverRefreshedByAnimate`.

## Findings

| source | as written | input that shows it | evidently intended | confidence | as-written member | corrected member |
|---|---|---|---|---|---|---|
| public/js/modules/submodules/FaceDetectionManager.js:49 | the interval slider's handler stores `parseInt(value)`, in seconds, as `detectionInterval`, which is compared with milliseconds | a slider reading of 60: `initialize` sets 60000 ms, the handler 60 ms | `parseInt(value * 1000)`, as `initialize` does at line 42 | not executed; high | `AttentionRecognition.HandlerIntervalDisagrees` | `AttentionRecognition.HandlerIntervalAgrees` |
| public/js/modules/FaceDetectionManager.js:303 | the tick awaits `this.Posenet.drawPoses()`, which public/js/modules/PoseNetManager.js does not define, so every tick throws into the `catch`: no record is added and the loop stops | any tick, for example one face matched as "Alice" | call the pose engine's `draw()`, which resolves | not executed; high | `OriginalRecognition.ShippedTickAddsNothing` | `OriginalRecognition.IntendedTickAddsEvenWhenStopped` |
