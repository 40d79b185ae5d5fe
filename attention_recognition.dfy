/** The `FaceRecognition` class of
    public/js/modules/submodules/FaceDetectionManager.js: the detection loop
    state (`isDetecting`, `detectionFrameId`, `lastUpdate`), the configuration
    read from the two range inputs (`detectionInterval`, `detectionLimit`),
    one throttled detection tick that reconciles the roster, the remove
    button, the attentiveness scoring, the Excel row mapping and `s2ab`.

    Engine calls are inputs: a tick receives the faces of its frame as
    observations (label chosen by the matcher, attentiveness signals,
    snapshot, clock reading), or `Rejected` when the detection call throws.
    The animation frame a tick requests is the caller's next call of
    `DetectFacesAndPose`; the id the browser hands out is a parameter. */
module AttentionRecognition {
  import opened Common
  import opened AttentionRoster

  // ---------------------------------------------------------------------
  // Configuration

  /** `parseInt(value * 1000, 10)` for a range input whose value parses to
      `v` (in seconds): the same reading in milliseconds. */
  function ScaleToMs(v: JsInt): (r: JsInt)
    ensures r.NaN? <==> v.NaN?
    ensures v.Int? ==> r.value == 1000 * v.value
  {
    match v
    case Int(n) => Int(1000 * n)
    case NaN => NaN
  }

  /** The interval `initialize` sets: the input in milliseconds, or 1000 ms
      when the input is empty, unparsable or zero. */
  function InitialInterval(v: JsInt): (ms: int)
    ensures ms != 0
    ensures v.Int? && v.value != 0 ==> ms == 1000 * v.value
    ensures v.NaN? || v.value == 0 ==> ms == 1000
  {
    OrDefault(ScaleToMs(v), 1000)
  }

  /** The limit `initialize` sets: the input, or 5 samples when it is empty,
      unparsable or zero. */
  function InitialLimit(v: JsInt): (n: int)
    ensures n != 0
    ensures v.Int? && v.value != 0 ==> n == v.value
    ensures v.NaN? || v.value == 0 ==> n == 5
  {
    OrDefault(v, 5)
  }

  /** The interval the input handler stores, as the source writes it: the raw
      reading, without the conversion to milliseconds `initialize` applies. */
  function HandlerIntervalAsWritten(v: JsInt): (r: JsInt)
    ensures r.NaN? <==> v.NaN?
    ensures v.Int? ==> r.value == v.value
    ensures v.Int? && v.value != 0 ==> r != Int(InitialInterval(v))
  {
    v
  }

  /** The interval the input handler evidently means to store: the reading
      converted to milliseconds, as in `initialize`. A NaN reading stays NaN,
      which keeps the throttle closed. */
  function HandlerInterval(v: JsInt): (r: JsInt)
    ensures r.NaN? <==> v.NaN?
  {
    ScaleToMs(v)
  }

  /** As written, moving the slider to any non-zero number of seconds makes
      the interval a thousand times shorter than `initialize` would have set
      for the same position: whatever the last pass's time, a positive
      reading of `n` seconds lets the next tick through from `n` ms after
      it, while the interval `initialize` sets for that position keeps the
      throttle closed until `1000 * n` ms after it. */
  lemma HandlerIntervalDisagrees(n: int)
    requires n != 0
    ensures HandlerIntervalAsWritten(Int(n)) != Int(InitialInterval(Int(n)))
    ensures forall last: int, now: int :: 0 < n && last + n <= now < last + 1000 * n ==>
      PassDue(now, last, HandlerIntervalAsWritten(Int(n))) && !PassDue(now, last, Int(InitialInterval(Int(n))))
  {
  }

  /** The corrected handler agrees with `initialize` for every non-zero
      reading, and keeps the throttle closed for an unparsable one. */
  lemma HandlerIntervalAgrees(v: JsInt)
    ensures v.Int? && v.value != 0 ==> HandlerInterval(v) == Int(InitialInterval(v))
    ensures v.NaN? ==> forall elapsed: int :: !AtLeast(elapsed, HandlerInterval(v))
  {
  }

  // ---------------------------------------------------------------------
  // The throttle and the animation frame

  /** `currentTime - this.lastUpdate >= this.detectionInterval`. */
  predicate PassDue(now: int, lastUpdate: int, interval: JsInt): (due: bool)
    ensures interval.NaN? ==> !due
    ensures interval.Int? ==> (due <==> now - lastUpdate >= interval.value)
  {
    AtLeast(now - lastUpdate, interval)
  }

  /** A request id is truthy when present and non-zero. */
  predicate Truthy(id: Option<nat>): (t: bool)
    ensures t ==> id.Some?
    ensures id == Some(0) ==> !t
  {
    id.Some? && id.value != 0
  }

  /** The frame id after `stopDetectionLoop`. */
  function Cleared(id: Option<nat>): (r: Option<nat>)
    ensures !Truthy(r)
    ensures !Truthy(id) ==> r == id
  {
    if Truthy(id) then None else id
  }

  /** After a restart the baseline is 0, so a tick at clock `now` runs a pass
      exactly when `now` has reached the interval. */
  lemma RestartBaseline(now: int, interval: int)
    ensures PassDue(now, 0, Int(interval)) <==> now >= interval
  {
  }

  // ---------------------------------------------------------------------
  // Attentiveness

  /** `analyzeAttentiveness`: one point per condition that holds, attentive
      with at least two points. */
  method AnalyzeAttentiveness(s: Signals) returns (isAttentive: bool)
    ensures isAttentive <==> Score(s) >= 2
    ensures isAttentive <==> TwoConditionsHold(s)
  {
    var score: nat := 0;
    if s.attentiveExpression { score := score + 1; }
    if s.headFacingCamera { score := score + 1; }
    if s.handsNearFace { score := score + 1; }
    if s.mouthClosed { score := score + 1; }
    assert score == Score(s);
    isAttentive := score >= 2;
    StatusIsTwoConditions(s);
  }

  // ---------------------------------------------------------------------
  // The Excel export

  /** One row of the sheet `saveToExcel` writes. Entries carry no `poses`
      field, so `JSON.stringify(entry.poses)` is undefined: the cell is
      empty. */
  datatype ExcelRow = ExcelRow(rowLabel: string, timestamp: nat, poses: Option<string>, detections: seq<Sample>)

  datatype Sheet = Sheet(name: string, columns: seq<string>, rows: seq<ExcelRow>)

  function Row(e: Entry): (row: ExcelRow)
    ensures row.rowLabel == e.person && row.timestamp == e.timestamp
    ensures row.poses.None? && row.detections == e.detections
  {
    ExcelRow(e.person, e.timestamp, None, e.detections)
  }

  /** The sheet built from the roster, one row per entry in roster order. */
  function ExcelSheet(r: seq<Entry>): (sh: Sheet)
    ensures sh.name == "Attendance" && sh.columns == ["Label", "Timestamp", "Poses", "Detections"]
    ensures |sh.rows| == |r|
    ensures forall i :: 0 <= i < |r| ==>
      sh.rows[i].rowLabel == r[i].person && sh.rows[i].timestamp == r[i].timestamp &&
      sh.rows[i].poses.None? && sh.rows[i].detections == r[i].detections
  {
    Sheet("Attendance", ["Label", "Timestamp", "Poses", "Detections"],
      seq(|r|, i requires 0 <= i < |r| => Row(r[i])))
  }

  /** Removing an entry removes exactly its row from the next export. */
  lemma ExportAfterRemove(r: seq<Entry>, k: nat)
    requires RosterInvariant(r) && k < |r|
    ensures ExcelSheet(Delete(r, r[k])).rows == ExcelSheet(r).rows[..k] + ExcelSheet(r).rows[k + 1..]
  {
    DeleteMember(r, r[k], k);
    var a, b := ExcelSheet(Delete(r, r[k])).rows, ExcelSheet(r).rows[..k] + ExcelSheet(r).rows[k + 1..];
    assert |a| == |b|;
    forall i | 0 <= i < |a| ensures a[i] == b[i] {
      if i < k { assert b[i] == ExcelSheet(r).rows[i]; } else { assert b[i] == ExcelSheet(r).rows[i + 1]; }
    }
  }

  /** The exported labels are the roster's: distinct, and never "unknown". */
  lemma ExportLabels(r: seq<Entry>)
    requires RosterInvariant(r)
    ensures forall i, j :: 0 <= i < j < |r| ==> ExcelSheet(r).rows[i].rowLabel != ExcelSheet(r).rows[j].rowLabel
    ensures forall i :: 0 <= i < |r| ==> ExcelSheet(r).rows[i].rowLabel != Unknown
  {
    forall i | 0 <= i < |r| ensures ExcelSheet(r).rows[i].rowLabel == Labels(r)[i] { }
  }

  // ---------------------------------------------------------------------
  // s2ab

  /** `charCodeAt(i) & 0xFF`: the low byte of a UTF-16 code unit. */
  function LowByte(x: bv16): (b: bv8)
    ensures b as bv16 == x % 256
  {
    (x & 0xFF) as bv8
  }

  /** The low byte of each code unit. */
  function LowBytes(s: seq<bv16>): (b: seq<bv8>)
    ensures |b| == |s|
  {
    seq(|s|, i requires 0 <= i < |s| => LowByte(s[i]))
  }

  /** A binary string (every code unit below 256, which is what the workbook
      writer produces) survives the conversion unchanged. */
  lemma BinaryStringRoundTrip(s: seq<bv16>)
    requires forall i :: 0 <= i < |s| ==> s[i] < 256
    ensures forall i :: 0 <= i < |s| ==> LowBytes(s)[i] as bv16 == s[i]
  {
  }

  /** `s2ab`: a buffer of `s.length` bytes, byte `i` the low byte of code
      unit `i`. */
  method S2ab(s: seq<bv16>) returns (buf: array<bv8>)
    ensures buf.Length == |s|
    ensures forall i :: 0 <= i < |s| ==> buf[i] as bv16 == s[i] % 256
    ensures buf[..] == LowBytes(s)
  {
    buf := new bv8[|s|];
    var i := 0;
    while i < |s|
      invariant 0 <= i <= |s|
      invariant forall k :: 0 <= k < i ==> buf[k] == LowBytes(s)[k]
    {
      buf[i] := (s[i] & 0xFF) as bv8;
      i := i + 1;
    }
  }

  // ---------------------------------------------------------------------
  // The class

  class FaceRecognition {
    var attendanceToday: seq<Entry>
    var lastUpdate: int
    var isDetecting: bool
    var detectionFrameId: Option<nat>
    var detectionInterval: JsInt
    var detectionLimit: JsInt
    /** The number shown in the "Detected: n" element, once a pass has run. */
    var displayedCount: Option<nat>

    ghost predicate Valid()
      reads this
    {
      RosterInvariant(attendanceToday)
    }

    /** The owning handler passes a fresh, empty `Set`. */
    constructor ()
      ensures Valid() && attendanceToday == [] && displayedCount == None
      ensures lastUpdate == 0 && !isDetecting && detectionFrameId == None
      ensures detectionInterval == Int(60000) && detectionLimit == Int(5)
    {
      attendanceToday := [];
      lastUpdate := 0;
      isDetecting := false;
      detectionFrameId := None;
      detectionInterval := Int(60000);
      detectionLimit := Int(5);
      displayedCount := None;
    }

    /** The configuration part of `initialize`, then the start of the loop. */
    method Initialize(intervalInput: JsInt, limitInput: JsInt)
      requires Valid()
      modifies this
      ensures Valid() && isDetecting
      ensures detectionInterval == Int(InitialInterval(intervalInput))
      ensures detectionLimit == Int(InitialLimit(limitInput))
      ensures attendanceToday == old(attendanceToday) && lastUpdate == old(lastUpdate)
      ensures detectionFrameId == old(detectionFrameId) && displayedCount == old(displayedCount)
    {
      detectionInterval := Int(InitialInterval(intervalInput));
      detectionLimit := Int(InitialLimit(limitInput));
      StartDetectionLoop();
    }

    /** `startDetectionLoop`: set the flag and start a tick. The tick runs
        past its first `await`, so it is the caller's next call of
        `DetectFacesAndPose`. */
    method StartDetectionLoop()
      requires Valid()
      modifies this
      ensures Valid() && isDetecting
      ensures attendanceToday == old(attendanceToday) && lastUpdate == old(lastUpdate)
      ensures detectionFrameId == old(detectionFrameId) && displayedCount == old(displayedCount)
      ensures detectionInterval == old(detectionInterval) && detectionLimit == old(detectionLimit)
    {
      isDetecting := true;
    }

    /** `stopDetectionLoop`: clear the flag, and cancel the pending frame if
        there is one; the cancelled id is returned. */
    method StopDetectionLoop() returns (cancelled: Option<nat>)
      requires Valid()
      modifies this
      ensures Valid() && !isDetecting
      ensures cancelled == (if Truthy(old(detectionFrameId)) then old(detectionFrameId) else None)
      ensures detectionFrameId == Cleared(old(detectionFrameId))
      ensures attendanceToday == old(attendanceToday) && lastUpdate == old(lastUpdate)
      ensures detectionInterval == old(detectionInterval) && detectionLimit == old(detectionLimit)
      ensures displayedCount == old(displayedCount)
    {
      isDetecting := false;
      cancelled := None;
      if Truthy(detectionFrameId) {
        cancelled := detectionFrameId;
        detectionFrameId := None;
      }
    }

    /** `restartDetectionLoop`: stop, reset the baseline to 0, start again.
        By `RestartBaseline`, the next tick then passes the throttle exactly
        when the clock has reached the interval. */
    method RestartDetectionLoop() returns (cancelled: Option<nat>)
      requires Valid()
      modifies this
      ensures Valid() && isDetecting && lastUpdate == 0
      ensures cancelled == (if Truthy(old(detectionFrameId)) then old(detectionFrameId) else None)
      ensures detectionFrameId == Cleared(old(detectionFrameId))
      ensures attendanceToday == old(attendanceToday) && displayedCount == old(displayedCount)
      ensures detectionInterval == old(detectionInterval) && detectionLimit == old(detectionLimit)
    {
      cancelled := StopDetectionLoop();
      lastUpdate := 0;
      StartDetectionLoop();
    }

    /** The interval slider's `input` handler (with the conversion to
        milliseconds), which restarts the loop. */
    method OnIntervalInput(v: JsInt) returns (cancelled: Option<nat>)
      requires Valid()
      modifies this
      ensures Valid() && isDetecting && lastUpdate == 0
      ensures detectionInterval == HandlerInterval(v)
      ensures cancelled == (if Truthy(old(detectionFrameId)) then old(detectionFrameId) else None)
      ensures detectionFrameId == Cleared(old(detectionFrameId))
      ensures attendanceToday == old(attendanceToday) && displayedCount == old(displayedCount)
      ensures detectionLimit == old(detectionLimit)
    {
      detectionInterval := HandlerInterval(v);
      cancelled := RestartDetectionLoop();
    }

    /** The interval slider's `input` handler as the source writes it: the
        raw reading, in seconds, becomes the interval the throttle compares
        with milliseconds; the loop restarts. */
    method OnIntervalInputAsWritten(v: JsInt) returns (cancelled: Option<nat>)
      requires Valid()
      modifies this
      ensures Valid() && isDetecting && lastUpdate == 0
      ensures detectionInterval == HandlerIntervalAsWritten(v)
      ensures cancelled == (if Truthy(old(detectionFrameId)) then old(detectionFrameId) else None)
      ensures detectionFrameId == Cleared(old(detectionFrameId))
      ensures attendanceToday == old(attendanceToday) && displayedCount == old(displayedCount)
      ensures detectionLimit == old(detectionLimit)
    {
      detectionInterval := HandlerIntervalAsWritten(v);
      cancelled := RestartDetectionLoop();
    }

    /** The limit slider's `input` handler: the parsed value, NaN included,
        becomes the limit; the loop is not restarted. */
    method OnLimitInput(v: JsInt)
      modifies this
      ensures detectionLimit == v
      ensures attendanceToday == old(attendanceToday) && lastUpdate == old(lastUpdate)
      ensures isDetecting == old(isDetecting) && detectionFrameId == old(detectionFrameId)
      ensures detectionInterval == old(detectionInterval) && displayedCount == old(displayedCount)
    {
      detectionLimit := v;
    }

    /** The remove button of a table row: `attendanceToday.delete(entry)`. */
    method RemoveEntry(e: Entry)
      requires Valid()
      modifies this
      ensures Valid()
      ensures e !in old(attendanceToday) ==> attendanceToday == old(attendanceToday)
      ensures forall k :: 0 <= k < |old(attendanceToday)| && old(attendanceToday)[k] == e ==>
        attendanceToday == old(attendanceToday)[..k] + old(attendanceToday)[k + 1..]
      ensures lastUpdate == old(lastUpdate) && isDetecting == old(isDetecting)
      ensures detectionFrameId == old(detectionFrameId) && displayedCount == old(displayedCount)
      ensures detectionInterval == old(detectionInterval) && detectionLimit == old(detectionLimit)
    {
      DeleteEntry(attendanceToday, e);
      attendanceToday := Delete(attendanceToday, e);
    }

    /** `saveToExcel(attendanceToday)`: the sheet, without touching the roster. */
    method SaveAttendance() returns (sheet: Sheet)
      requires Valid()
      ensures |sheet.rows| == |attendanceToday|
      ensures forall i :: 0 <= i < |attendanceToday| ==>
        sheet.rows[i].rowLabel == attendanceToday[i].person && sheet.rows[i].timestamp == attendanceToday[i].timestamp
      ensures forall i :: 0 <= i < |attendanceToday| ==> sheet.rows[i].rowLabel != Unknown
      ensures sheet == ExcelSheet(attendanceToday)
    {
      sheet := ExcelSheet(attendanceToday);
      ExportLabels(attendanceToday);
    }

    /** `detectFacesAndPose`. A frame whose detection call rejected changes
        nothing and requests no frame. Otherwise, when the throttle lets the
        pass through, every face refreshes its entry in place or becomes a
        candidate, the candidates are merged, the count is shown and the
        baseline moves to `currentTime`; then, while the loop is on, the
        next frame is requested. */
    method DetectFacesAndPose(currentTime: int, frame: EngineResult<seq<Observation>>, frameId: nat)
      returns (scheduled: bool)
      requires Valid()
      modifies this
      ensures Valid()
      ensures var ran := frame.Resolved? && PassDue(currentTime, old(lastUpdate), old(detectionInterval));
        && attendanceToday == (if ran then Reconcile(old(attendanceToday), frame.value, old(detectionLimit)) else old(attendanceToday))
        && lastUpdate == (if ran then currentTime else old(lastUpdate))
        && displayedCount == (if ran then Some(|attendanceToday|) else old(displayedCount))
      ensures scheduled <==> frame.Resolved? && old(isDetecting)
      ensures detectionFrameId == (if scheduled then Some(frameId) else old(detectionFrameId))
      ensures isDetecting == old(isDetecting)
      ensures detectionInterval == old(detectionInterval) && detectionLimit == old(detectionLimit)
    {
      scheduled := false;
      if frame.Rejected? {
        return;
      }
      var obs := frame.value;
      if PassDue(currentTime, lastUpdate, detectionInterval) {
        var roster, newEntries := ScanFaces(attendanceToday, obs, detectionLimit);
        roster := MergeCandidates(roster, newEntries);
        ReconcileKeepsInvariant(attendanceToday, obs, detectionLimit);
        attendanceToday := roster;
        displayedCount := Some(|attendanceToday|);
        lastUpdate := currentTime;
      }
      if isDetecting {
        detectionFrameId := Some(frameId);
        scheduled := true;
      }
    }
  }

  /** The `for (const detection of resizedDetections)` loop of a pass: a
      face whose label is on the roster refreshes that entry in place (push
      one sample, shift the oldest when over the limit); any other face,
      unless "unknown", becomes a candidate. */
  method ScanFaces(r: seq<Entry>, obs: seq<Observation>, limit: JsInt) returns (roster: seq<Entry>, newEntries: seq<Entry>)
    ensures PassState(roster, newEntries) == Scan(r, obs, limit)
    ensures Labels(roster) == Labels(r)
    ensures newEntries == FreshEntries(obs, Labels(r))
  {
    roster, newEntries := r, [];
    var i := 0;
    while i < |obs|
      invariant 0 <= i <= |obs|
      invariant PassState(roster, newEntries) == Scan(r, obs[..i], limit)
    {
      var o := obs[i];
      var isAttentive := AnalyzeAttentiveness(o.signals);
      var status := if isAttentive then Attentive else NotAttentive;
      var found := IndexOf(Labels(roster), o.person);
      if found.Some? {
        var k := found.value;
        var e := roster[k];
        var window := e.detections + [Sample(o.snapshot, o.at)];
        if Exceeds(|window|, limit) {
          window := window[1..];
        }
        roster := roster[k := e.(timestamp := o.at, attentiveness := status, detections := window)];
      } else if o.person != Unknown {
        newEntries := newEntries + [Fresh(o)];
      }
      assert obs[..i + 1][..i] == obs[..i];
      i := i + 1;
    }
    assert obs[..|obs|] == obs;
    ScanKeepsLabels(r, obs, limit);
    ScanCandidates(r, obs, limit);
  }

  /** `newEntries.forEach`: a candidate overwrites the entry that has its
      label, or is added to the set. */
  method MergeCandidates(r: seq<Entry>, newEntries: seq<Entry>) returns (roster: seq<Entry>)
    ensures roster == Merge(r, newEntries)
  {
    roster := r;
    var j := 0;
    while j < |newEntries|
      invariant 0 <= j <= |newEntries|
      invariant roster == Merge(r, newEntries[..j])
    {
      var c := newEntries[j];
      var found := IndexOf(Labels(roster), c.person);
      if found.Some? {
        var k := found.value;
        roster := roster[k := roster[k].(timestamp := c.timestamp,
          attentiveness := c.attentiveness, detections := c.detections)];
      } else {
        roster := roster + [c];
      }
      assert newEntries[..j + 1][..j] == newEntries[..j];
      j := j + 1;
    }
    assert newEntries[..|newEntries|] == newEntries;
  }

  /** Deleting an entry from a roster keeps the invariant and removes
      exactly its position. */
  lemma DeleteEntry(r: seq<Entry>, e: Entry)
    requires RosterInvariant(r)
    ensures RosterInvariant(Delete(r, e))
    ensures forall k :: 0 <= k < |r| && r[k] == e ==> Delete(r, e) == r[..k] + r[k + 1..]
  {
    forall i, j | 0 <= i < j < |r| ensures r[i] != r[j] {
      assert Labels(r)[i] != Labels(r)[j];
    }
    forall k | 0 <= k < |r| && r[k] == e ensures Delete(r, e) == r[..k] + r[k + 1..] {
      DeleteMember(r, e, k);
    }
    if e in r {
      var k :| 0 <= k < |r| && r[k] == e;
      DeleteMember(r, e, k);
      RemoveKeepsInvariant(r, k);
    }
  }

  /** Labels of a roster without its `k`-th entry. */
  lemma RemoveKeepsInvariant(r: seq<Entry>, k: nat)
    requires RosterInvariant(r) && k < |r|
    ensures RosterInvariant(r[..k] + r[k + 1..])
  {
    var s := r[..k] + r[k + 1..];
    assert Labels(s) == Labels(r)[..k] + Labels(r)[k + 1..];
    NoDuplicatesWithout(Labels(r), k);
  }

  // ---------------------------------------------------------------------
  // Scenarios

  /** Stopping the loop while a tick is pending: the tick may still run its
      pass, but it requests no further frame, and nothing is pending after
      the stop. */
  method StopThenPendingTick(obs: seq<Observation>) returns (scheduled: bool, pending: Option<nat>)
    ensures !scheduled && pending.None?
  {
    var fr := new FaceRecognition();
    fr.StartDetectionLoop();
    var first := fr.DetectFacesAndPose(60000, Resolved(obs), 7);
    assert first && fr.detectionFrameId == Some(7);
    var cancelled := fr.StopDetectionLoop();
    assert cancelled == Some(7);
    scheduled := fr.DetectFacesAndPose(120000, Resolved(obs), 8);
    pending := fr.detectionFrameId;
  }

  /** Two ticks inside one interval: the second leaves the roster alone; a
      restart lets the next tick through at once. */
  method ThrottleAndRestart(obs1: seq<Observation>, obs2: seq<Observation>) returns (same: bool, ranAfterRestart: bool)
    ensures same && ranAfterRestart
  {
    var fr := new FaceRecognition();
    fr.StartDetectionLoop();
    var _ := fr.DetectFacesAndPose(60000, Resolved(obs1), 1);
    var after := fr.attendanceToday;
    assert fr.lastUpdate == 60000;
    var _ := fr.DetectFacesAndPose(60000 + 59999, Resolved(obs2), 2);
    same := fr.attendanceToday == after;
    var _ := fr.RestartDetectionLoop();
    var _ := fr.DetectFacesAndPose(60000 + 59999, Resolved(obs2), 3);
    ranAfterRestart := fr.lastUpdate == 60000 + 59999;
  }
}
