/** script.js: the same manager and recognizer as
    public/js/modules/attendanceManager.js, with three differences kept
    here: the detection callback hands every descriptor to the matcher
    (there is no filter for a missing one), the stop button shows
    "InActive", and `animate` tests `this.isAttendanceStarted`, a property
    no code assigns (the constructor's `isAttendanceStarted` parameter is
    unused), so the periodic table refresh never happens.

    As in the other module, the `.then` callback of `detectFaces` is a call
    of `FaceRecognition.DetectFaces` with the settled value. */
module LegacyScript {
  import opened Common
  import opened Presence

  /** The `map` of the callback: one result per detection. */
  function Results(ds: seq<Detection>, bestMatch: Option<Descriptor> -> string): (rs: seq<MatchResult>)
    ensures |rs| == |ds|
    ensures forall i :: 0 <= i < |ds| ==> rs[i] == MatchResult(bestMatch(ds[i].descriptor), ds[i].box)
  {
    seq(|ds|, i requires 0 <= i < |ds| => MatchResult(bestMatch(ds[i].descriptor), ds[i].box))
  }

  class FaceRecognition {
    const attendanceToday: JsSet<PresenceEntry>
    const flag: SessionFlag
    /** `this.isAttendanceStarted`: never assigned, so `undefined`. */
    const ownStartedProperty: Option<bool>
    var lastTableUpdateTime: int
    var lastFrameTime: int
    var displayedCount: Option<nat>
    var tableRows: seq<PresenceEntry>

    ghost predicate Valid()
      reads this, attendanceToday
    {
      RosterInvariant(attendanceToday.elements)
    }

    /** The `isAttendanceStarted` argument is accepted and dropped. */
    constructor (attendanceToday: JsSet<PresenceEntry>, isAttendanceStarted: bool, flag: SessionFlag)
      requires RosterInvariant(attendanceToday.elements)
      ensures Valid() && this.attendanceToday == attendanceToday && this.flag == flag
      ensures ownStartedProperty == None
      ensures lastTableUpdateTime == 0 && lastFrameTime == 0 && displayedCount == None && tableRows == []
    {
      this.attendanceToday := attendanceToday;
      this.flag := flag;
      ownStartedProperty := None;
      lastTableUpdateTime := 0;
      lastFrameTime := 0;
      displayedCount := None;
      tableRows := [];
    }

    method UpdateAttendanceTable()
      modifies this
      ensures tableRows == attendanceToday.elements
      ensures lastTableUpdateTime == old(lastTableUpdateTime) && lastFrameTime == old(lastFrameTime)
      ensures displayedCount == old(displayedCount)
    {
      tableRows := attendanceToday.elements;
    }

    /** The arrow function given to `resizedDetections.map`, for one
        detection: add a record when the label is new, not "unknown", and
        the session is started; the match is returned either way. */
    method HandleDetection(d: Detection, bestMatch: Option<Descriptor> -> string) returns (res: MatchResult)
      requires Valid()
      modifies this, attendanceToday
      ensures Valid()
      ensures res == MatchResult(bestMatch(d.descriptor), d.box)
      ensures attendanceToday.elements ==
        Admit(old(attendanceToday.elements), Sighting(bestMatch(d.descriptor), d.at), flag.isAttendanceStarted)
      ensures displayedCount == if |attendanceToday.elements| > |old(attendanceToday.elements)|
        then Some(|attendanceToday.elements|) else old(displayedCount)
      ensures tableRows == old(tableRows)
      ensures lastTableUpdateTime == old(lastTableUpdateTime) && lastFrameTime == old(lastFrameTime)
    {
      var matched := bestMatch(d.descriptor);
      if matched != Unknown {
        var entry := PresenceEntry(matched, d.at, true);
        var existing := IndexOf(Labels(attendanceToday.elements), entry.person);
        if existing.None? {
          if flag.isAttendanceStarted {
            NewLabelNotMember(attendanceToday.elements, entry);
            ghost var r := attendanceToday.elements;
            attendanceToday.Add(entry);
            AdmitAllKeepsInvariant(r, [Sighting(matched, d.at)], true);
            assert [Sighting(matched, d.at)][..0] == [];
            displayedCount := Some(attendanceToday.Size());
          }
        }
      }
      res := MatchResult(matched, d.box);
    }

    /** The `.then` callback of `detectFaces`, or its `.catch`. */
    method DetectFaces(result: EngineResult<seq<Detection>>, bestMatch: Option<Descriptor> -> string)
      returns (results: seq<MatchResult>)
      requires Valid()
      modifies this, attendanceToday
      ensures Valid()
      ensures attendanceToday.elements == if result.Resolved?
        then AdmitAll(old(attendanceToday.elements), AllSightings(result.value, bestMatch), flag.isAttendanceStarted)
        else old(attendanceToday.elements)
      ensures results == if result.Resolved? then Results(result.value, bestMatch) else []
      ensures displayedCount == if |attendanceToday.elements| > |old(attendanceToday.elements)|
        then Some(|attendanceToday.elements|) else old(displayedCount)
      ensures tableRows == old(tableRows)
      ensures lastTableUpdateTime == old(lastTableUpdateTime) && lastFrameTime == old(lastFrameTime)
    {
      results := [];
      if result.Rejected? {
        return;
      }
      var ds := result.value;
      ghost var r0 := attendanceToday.elements;
      ghost var started := flag.isAttendanceStarted;
      var i := 0;
      while i < |ds|
        invariant 0 <= i <= |ds|
        invariant Valid() && flag.isAttendanceStarted == started
        invariant attendanceToday.elements == AdmitAll(r0, AllSightings(ds[..i], bestMatch), started)
        invariant results == Results(ds[..i], bestMatch)
        invariant |attendanceToday.elements| >= |r0|
        invariant displayedCount == if |attendanceToday.elements| > |r0| then Some(|attendanceToday.elements|) else old(displayedCount)
        invariant tableRows == old(tableRows)
        invariant lastTableUpdateTime == old(lastTableUpdateTime) && lastFrameTime == old(lastFrameTime)
      {
        var d := ds[i];
        assert AllSightings(ds[..i + 1], bestMatch) == AllSightings(ds[..i], bestMatch) + [Sighting(bestMatch(d.descriptor), d.at)];
        AdmitAllSnoc(r0, AllSightings(ds[..i], bestMatch), Sighting(bestMatch(d.descriptor), d.at), started);
        var res := HandleDetection(d, bestMatch);
        results := results + [res];
        i := i + 1;
      }
      assert ds[..|ds|] == ds;
    }

    /** `animate`: the table is refreshed when `this.isAttendanceStarted` is
        truthy and 2000 ms have passed since the last refresh; a detection
        is started (a later `DetectFaces`) and the frame time recorded. The
        constructor leaves that property `undefined` and nothing assigns
        it, so the refresh never happens. */
    method Animate(currentTime: int) returns (refreshed: bool)
      modifies this
      ensures refreshed <==> ownStartedProperty == Some(true) && currentTime - old(lastTableUpdateTime) >= 2000
      ensures tableRows == if refreshed then attendanceToday.elements else old(tableRows)
      ensures lastTableUpdateTime == if refreshed then currentTime else old(lastTableUpdateTime)
      ensures lastFrameTime == currentTime && displayedCount == old(displayedCount)
    {
      refreshed := false;
      if ownStartedProperty == Some(true) {
        if currentTime - lastTableUpdateTime >= 2000 {
          UpdateAttendanceTable();
          lastTableUpdateTime := currentTime;
          refreshed := true;
        }
      }
      lastFrameTime := currentTime;
    }

    /** The remove button of table row `k`. */
    method RemoveEntry(k: nat)
      requires Valid() && k < |tableRows|
      modifies this, attendanceToday
      ensures Valid()
      ensures attendanceToday.elements == Delete(old(attendanceToday.elements), old(tableRows)[k])
      ensures forall i :: 0 <= i < |old(attendanceToday.elements)| && old(attendanceToday.elements)[i] == old(tableRows)[k] ==>
        attendanceToday.elements == old(attendanceToday.elements)[..i] + old(attendanceToday.elements)[i + 1..]
      ensures tableRows == attendanceToday.elements
      ensures lastTableUpdateTime == old(lastTableUpdateTime) && lastFrameTime == old(lastFrameTime)
      ensures displayedCount == old(displayedCount)
    {
      var entry := tableRows[k];
      ghost var r := attendanceToday.elements;
      var _ := attendanceToday.Remove(entry);
      DeleteKeepsInvariant(r, entry);
      DistinctRecords(r);
      forall i | 0 <= i < |r| && r[i] == entry ensures attendanceToday.elements == r[..i] + r[i + 1..] {
        DeleteMember(r, entry, i);
      }
      UpdateAttendanceTable();
    }

    /** `saveAttendanceToFile`: every record, in roster order. */
    method SaveAttendanceToFile() returns (download: JsonDownload)
      ensures download.fileName == "attendance.json" && download.mimeType == "application/json"
      ensures |download.records| == |attendanceToday.elements|
      ensures forall i :: 0 <= i < |download.records| ==> download.records[i] == attendanceToday.elements[i]
    {
      download := JsonDownload("attendance.json", "application/json", attendanceToday.elements);
    }
  }

  class AttendanceManager {
    const attendanceToday: JsSet<PresenceEntry>
    const flag: SessionFlag
    const faceRecognition: FaceRecognition
    var status: string

    ghost predicate Valid()
      reads this, faceRecognition, attendanceToday
    {
      faceRecognition.attendanceToday == attendanceToday && faceRecognition.flag == flag && faceRecognition.Valid()
    }

    /** The constructor passes the flag's current value, which the
        recognizer drops. */
    constructor (flag: SessionFlag)
      ensures Valid() && this.flag == flag && fresh(attendanceToday) && fresh(faceRecognition)
      ensures attendanceToday.elements == [] && faceRecognition.tableRows == [] && status == ""
      ensures faceRecognition.ownStartedProperty == None
    {
      var roster := new JsSet<PresenceEntry>();
      attendanceToday := roster;
      this.flag := flag;
      faceRecognition := new FaceRecognition(roster, flag.isAttendanceStarted, flag);
      status := "";
    }

    method StartAttendance()
      requires Valid()
      modifies this, flag, attendanceToday
      ensures Valid() && status == "Active" && flag.isAttendanceStarted
      ensures attendanceToday.elements == []
      ensures faceRecognition.tableRows == old(faceRecognition.tableRows)
    {
      status := "Active";
      flag.isAttendanceStarted := true;
      attendanceToday.Clear();
    }

    method StopAttendance()
      requires Valid()
      modifies this, flag, faceRecognition
      ensures Valid() && status == "InActive" && !flag.isAttendanceStarted
      ensures attendanceToday.elements == old(attendanceToday.elements)
      ensures faceRecognition.tableRows == attendanceToday.elements
      ensures faceRecognition.displayedCount == old(faceRecognition.displayedCount)
      ensures faceRecognition.lastTableUpdateTime == old(faceRecognition.lastTableUpdateTime)
      ensures faceRecognition.lastFrameTime == old(faceRecognition.lastFrameTime)
    {
      status := "InActive";
      flag.isAttendanceStarted := false;
      faceRecognition.UpdateAttendanceTable();
    }

    method SaveAttendanceToFile() returns (download: JsonDownload)
      requires Valid()
      ensures download.records == attendanceToday.elements
    {
      download := faceRecognition.SaveAttendanceToFile();
    }
  }

  // ---------------------------------------------------------------------
  // Scenarios

  /** Whatever instants the animation frames arrive at, while the session
      runs and a record is on the roster, `animate` leaves the table empty:
      rows appear only through stop and remove. */
  method TableNeverRefreshedByAnimate(d: Descriptor, b: Box, times: seq<int>)
    returns (rowsAfterAnimate: nat, rowsAfterStop: nat)
    ensures rowsAfterAnimate == 0 && rowsAfterStop == 1
  {
    var flag := new SessionFlag();
    var m := new AttendanceManager(flag);
    var alice: Option<Descriptor> -> string := _ => "Alice";
    m.StartAttendance();
    var _ := m.faceRecognition.DetectFaces(Resolved([Detection(Some(d), b, 5)]), alice);
    assert AllSightings([Detection(Some(d), b, 5)], alice) == [Sighting("Alice", 5)];
    assert AdmitAll([], [Sighting("Alice", 5)], true) == [PresenceEntry("Alice", 5, true)] by {
      assert [Sighting("Alice", 5)][..0] == [];
    }
    var i := 0;
    while i < |times|
      invariant 0 <= i <= |times|
      invariant m.Valid() && flag.isAttendanceStarted
      invariant m.faceRecognition.tableRows == []
      invariant m.attendanceToday.elements == [PresenceEntry("Alice", 5, true)]
    {
      var _ := m.faceRecognition.Animate(times[i]);
      i := i + 1;
    }
    rowsAfterAnimate := |m.faceRecognition.tableRows|;
    m.StopAttendance();
    rowsAfterStop := |m.faceRecognition.tableRows|;
  }
}
