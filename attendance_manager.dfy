/** public/js/modules/attendanceManager.js: an `AttendanceManager` that owns
    the roster `Set` and the session buttons, and a `FaceRecognition` that
    shares the same `Set` and the module-level `isAttendanceStarted` flag.

    `detectFaces` only starts the detector; its `.then` callback runs when
    the detector's promise settles, which is modelled as a call of
    `FaceRecognition.DetectFaces` with the settled value (`Rejected` for the
    `.catch` branch). Starting the session or an animation frame starts such
    a detection; its callback is a later call. */
module AttendanceManagerModule {
  import opened Common
  import opened Presence

  /** The sightings of a tick: one per detection that has a descriptor,
      labelled by the matcher, in order. */
  function Sightings(ds: seq<Detection>, bestMatch: Descriptor -> string): (ss: seq<Sighting>)
    ensures |ss| <= |ds|
    decreases |ds|
  {
    if |ds| == 0 then []
    else
      var d := ds[|ds| - 1];
      Sightings(ds[..|ds| - 1], bestMatch) + (if d.descriptor.Some? then [Sighting(bestMatch(d.descriptor.value), d.at)] else [])
  }

  /** The `map(...).filter(result => result !== null)` of the callback. */
  function Results(ds: seq<Detection>, bestMatch: Descriptor -> string): (rs: seq<MatchResult>)
    ensures |rs| <= |ds|
    decreases |ds|
  {
    if |ds| == 0 then []
    else
      var d := ds[|ds| - 1];
      Results(ds[..|ds| - 1], bestMatch) + (if d.descriptor.Some? then [MatchResult(bestMatch(d.descriptor.value), d.box)] else [])
  }

  /** The number of detections that have a descriptor. */
  function WithDescriptor(ds: seq<Detection>): (n: nat)
    decreases |ds|
  {
    if |ds| == 0 then 0 else WithDescriptor(ds[..|ds| - 1]) + (if ds[|ds| - 1].descriptor.Some? then 1 else 0)
  }

  /** Detections without a descriptor are dropped from the results: there is
      one result, and one sighting, per detection that has one, the result
      carrying the sighting's label; so there are never more results than
      detections, and as many exactly when every detection has a
      descriptor. */
  lemma {:induction false} ResultsFilter(ds: seq<Detection>, bestMatch: Descriptor -> string)
    ensures |Results(ds, bestMatch)| == |Sightings(ds, bestMatch)| == WithDescriptor(ds) <= |ds|
    ensures forall k :: 0 <= k < |Results(ds, bestMatch)| ==>
      Results(ds, bestMatch)[k].matchLabel == Sightings(ds, bestMatch)[k].person
    ensures WithDescriptor(ds) == |ds| <==> forall i :: 0 <= i < |ds| ==> ds[i].descriptor.Some?
    decreases |ds|
  {
    if |ds| > 0 {
      var p := ds[..|ds| - 1];
      ResultsFilter(p, bestMatch);
      assert forall i :: 0 <= i < |p| ==> p[i] == ds[i];
    }
  }

  class FaceRecognition {
    const attendanceToday: JsSet<PresenceEntry>
    const flag: SessionFlag
    var lastTableUpdateTime: int
    var lastFrameTime: int
    /** The number shown in the "Detected: n" element, once a record was added. */
    var displayedCount: Option<nat>
    /** The records the table shows, as of its last refresh. */
    var tableRows: seq<PresenceEntry>

    ghost predicate Valid()
      reads this, attendanceToday
    {
      RosterInvariant(attendanceToday.elements)
    }

    constructor (attendanceToday: JsSet<PresenceEntry>, flag: SessionFlag)
      requires RosterInvariant(attendanceToday.elements)
      ensures Valid() && this.attendanceToday == attendanceToday && this.flag == flag
      ensures lastTableUpdateTime == 0 && lastFrameTime == 0 && displayedCount == None && tableRows == []
    {
      this.attendanceToday := attendanceToday;
      this.flag := flag;
      lastTableUpdateTime := 0;
      lastFrameTime := 0;
      displayedCount := None;
      tableRows := [];
    }

    /** `updateAttendanceTable`: one row per record, in roster order. */
    method UpdateAttendanceTable()
      modifies this
      ensures tableRows == attendanceToday.elements
      ensures lastTableUpdateTime == old(lastTableUpdateTime) && lastFrameTime == old(lastFrameTime)
      ensures displayedCount == old(displayedCount)
    {
      tableRows := attendanceToday.elements;
    }

    /** The arrow function given to `resizedDetections.map`, for one
        detection: null without a descriptor; otherwise the match, after
        adding a record when the label is new, not "unknown", and the
        session is started. */
    method HandleDetection(d: Detection, bestMatch: Descriptor -> string) returns (res: Option<MatchResult>)
      requires Valid()
      modifies this, attendanceToday
      ensures Valid()
      ensures res == if d.descriptor.Some? then Some(MatchResult(bestMatch(d.descriptor.value), d.box)) else None
      ensures attendanceToday.elements == if d.descriptor.Some?
        then Admit(old(attendanceToday.elements), Sighting(bestMatch(d.descriptor.value), d.at), flag.isAttendanceStarted)
        else old(attendanceToday.elements)
      ensures displayedCount == if |attendanceToday.elements| > |old(attendanceToday.elements)|
        then Some(|attendanceToday.elements|) else old(displayedCount)
      ensures tableRows == old(tableRows)
      ensures lastTableUpdateTime == old(lastTableUpdateTime) && lastFrameTime == old(lastFrameTime)
    {
      res := None;
      if d.descriptor.Some? {
        var matched := bestMatch(d.descriptor.value);
        if matched != Unknown {
          var entry := PresenceEntry(matched, d.at, true);
          var existing := IndexOf(Labels(attendanceToday.elements), entry.person);
          if existing.None? {
            if flag.isAttendanceStarted {
              NewLabelNotMember(attendanceToday.elements, entry);
              ghost var r := attendanceToday.elements;
              attendanceToday.Add(entry);
              AdmitAllKeepsInvariant(r, [Sighting(matched, d.at)], true);
              assert [Sighting(matched, d.at)][..0] == [];
              displayedCount := Some(attendanceToday.Size());
            }
          }
        }
        res := Some(MatchResult(matched, d.box));
      }
    }

    /** The `.then` callback of `detectFaces`, or its `.catch`. */
    method DetectFaces(result: EngineResult<seq<Detection>>, bestMatch: Descriptor -> string)
      returns (results: seq<MatchResult>)
      requires Valid()
      modifies this, attendanceToday
      ensures Valid()
      ensures attendanceToday.elements == if result.Resolved?
        then AdmitAll(old(attendanceToday.elements), Sightings(result.value, bestMatch), flag.isAttendanceStarted)
        else old(attendanceToday.elements)
      ensures results == if result.Resolved? then Results(result.value, bestMatch) else []
      ensures displayedCount == if |attendanceToday.elements| > |old(attendanceToday.elements)|
        then Some(|attendanceToday.elements|) else old(displayedCount)
      ensures tableRows == old(tableRows)
      ensures lastTableUpdateTime == old(lastTableUpdateTime) && lastFrameTime == old(lastFrameTime)
    {
      results := [];
      if result.Rejected? {
        return;
      }
      var ds := result.value;
      ghost var r0 := attendanceToday.elements;
      ghost var started := flag.isAttendanceStarted;
      var i := 0;
      while i < |ds|
        invariant 0 <= i <= |ds|
        invariant Valid() && flag.isAttendanceStarted == started
        invariant attendanceToday.elements == AdmitAll(r0, Sightings(ds[..i], bestMatch), started)
        invariant results == Results(ds[..i], bestMatch)
        invariant |attendanceToday.elements| >= |r0|
        invariant displayedCount == if |attendanceToday.elements| > |r0| then Some(|attendanceToday.elements|) else old(displayedCount)
        invariant tableRows == old(tableRows)
        invariant lastTableUpdateTime == old(lastTableUpdateTime) && lastFrameTime == old(lastFrameTime)
      {
        var d := ds[i];
        assert ds[..i + 1][..i] == ds[..i];
        if d.descriptor.Some? {
          AdmitAllSnoc(r0, Sightings(ds[..i], bestMatch), Sighting(bestMatch(d.descriptor.value), d.at), started);
        } else {
          assert Sightings(ds[..i + 1], bestMatch) == Sightings(ds[..i], bestMatch);
        }
        var res := HandleDetection(d, bestMatch);
        if res.Some? {
          results := results + [res.value];
        }
        i := i + 1;
      }
      assert ds[..|ds|] == ds;
    }

    /** `animate`: while the session is started, refresh the table when two
        seconds have passed since the last refresh; start a detection (a
        later `DetectFaces`) and record the frame time. */
    method Animate(currentTime: int) returns (refreshed: bool)
      modifies this
      ensures refreshed <==> flag.isAttendanceStarted && currentTime - old(lastTableUpdateTime) >= 2000
      ensures tableRows == if refreshed then attendanceToday.elements else old(tableRows)
      ensures lastTableUpdateTime == if refreshed then currentTime else old(lastTableUpdateTime)
      ensures lastFrameTime == currentTime && displayedCount == old(displayedCount)
    {
      refreshed := false;
      if flag.isAttendanceStarted {
        if currentTime - lastTableUpdateTime >= 2000 {
          UpdateAttendanceTable();
          lastTableUpdateTime := currentTime;
          refreshed := true;
        }
      }
      lastFrameTime := currentTime;
    }

    /** The remove button of table row `k`: delete that row's record from the
        `Set`, then refresh the table. */
    method RemoveEntry(k: nat)
      requires Valid() && k < |tableRows|
      modifies this, attendanceToday
      ensures Valid()
      ensures attendanceToday.elements == Delete(old(attendanceToday.elements), old(tableRows)[k])
      ensures forall i :: 0 <= i < |old(attendanceToday.elements)| && old(attendanceToday.elements)[i] == old(tableRows)[k] ==>
        attendanceToday.elements == old(attendanceToday.elements)[..i] + old(attendanceToday.elements)[i + 1..]
      ensures tableRows == attendanceToday.elements
      ensures lastTableUpdateTime == old(lastTableUpdateTime) && lastFrameTime == old(lastFrameTime)
      ensures displayedCount == old(displayedCount)
    {
      var entry := tableRows[k];
      ghost var r := attendanceToday.elements;
      var _ := attendanceToday.Remove(entry);
      DeleteKeepsInvariant(r, entry);
      DistinctRecords(r);
      forall i | 0 <= i < |r| && r[i] == entry ensures attendanceToday.elements == r[..i] + r[i + 1..] {
        DeleteMember(r, entry, i);
      }
      UpdateAttendanceTable();
    }

    /** `saveAttendanceToFile`: every record, in roster order, as a JSON
        download; the roster is not touched. */
    method SaveAttendanceToFile() returns (download: JsonDownload)
      ensures download.fileName == "attendance.json" && download.mimeType == "application/json"
      ensures |download.records| == |attendanceToday.elements|
      ensures forall i :: 0 <= i < |download.records| ==> download.records[i] == attendanceToday.elements[i]
    {
      download := JsonDownload("attendance.json", "application/json", attendanceToday.elements);
    }
  }

  class AttendanceManager {
    const attendanceToday: JsSet<PresenceEntry>
    const flag: SessionFlag
    const faceRecognition: FaceRecognition
    /** The text of the status element. */
    var status: string

    ghost predicate Valid()
      reads this, faceRecognition, attendanceToday
    {
      faceRecognition.attendanceToday == attendanceToday && faceRecognition.flag == flag && faceRecognition.Valid()
    }

    /** A manager with a new, empty `Set`, sharing the module's flag. */
    constructor (flag: SessionFlag)
      ensures Valid() && this.flag == flag && fresh(attendanceToday) && fresh(faceRecognition)
      ensures attendanceToday.elements == [] && faceRecognition.tableRows == [] && status == ""
    {
      var roster := new JsSet<PresenceEntry>();
      attendanceToday := roster;
      this.flag := flag;
      faceRecognition := new FaceRecognition(roster, flag);
      status := "";
    }

    /** `startAttendance`: show "Active", set the flag, empty the `Set`, and
        start a detection (whose callback is a later `DetectFaces`). */
    method StartAttendance()
      requires Valid()
      modifies this, flag, attendanceToday
      ensures Valid() && status == "Active" && flag.isAttendanceStarted
      ensures attendanceToday.elements == []
      ensures faceRecognition.tableRows == old(faceRecognition.tableRows)
    {
      status := "Active";
      flag.isAttendanceStarted := true;
      attendanceToday.Clear();
    }

    /** `stopAttendance`: show "Inactive", clear the flag, refresh the table;
        no record is removed. */
    method StopAttendance()
      requires Valid()
      modifies this, flag, faceRecognition
      ensures Valid() && status == "Inactive" && !flag.isAttendanceStarted
      ensures attendanceToday.elements == old(attendanceToday.elements)
      ensures faceRecognition.tableRows == attendanceToday.elements
      ensures faceRecognition.displayedCount == old(faceRecognition.displayedCount)
      ensures faceRecognition.lastTableUpdateTime == old(faceRecognition.lastTableUpdateTime)
      ensures faceRecognition.lastFrameTime == old(faceRecognition.lastFrameTime)
    {
      status := "Inactive";
      flag.isAttendanceStarted := false;
      faceRecognition.UpdateAttendanceTable();
    }

    method SaveAttendanceToFile() returns (download: JsonDownload)
      requires Valid()
      ensures download.records == attendanceToday.elements
    {
      download := faceRecognition.SaveAttendanceToFile();
    }
  }

  // ---------------------------------------------------------------------
  // Scenarios

  /** A detection whose callback settles after the session was stopped adds
      nothing; one that settles while it runs adds a present record. */
  method LateCallbackAfterStop(d: Descriptor, b: Box) returns (addedAfterStop: bool, addedWhileActive: bool)
    ensures !addedAfterStop && addedWhileActive
  {
    var flag := new SessionFlag();
    var m := new AttendanceManager(flag);
    var carol: Descriptor -> string := _ => "Carol";
    m.StartAttendance();
    var _ := m.faceRecognition.DetectFaces(Resolved([Detection(Some(d), b, 10)]), carol);
    assert Sightings([Detection(Some(d), b, 10)], carol) == [Sighting("Carol", 10)];
    addedWhileActive := m.attendanceToday.elements == [PresenceEntry("Carol", 10, true)];
    m.StartAttendance();
    m.StopAttendance();
    var _ := m.faceRecognition.DetectFaces(Resolved([Detection(Some(d), b, 20)]), carol);
    InactiveTickChangesNothing([], Sightings([Detection(Some(d), b, 20)], carol));
    addedAfterStop := |m.attendanceToday.elements| > 0;
  }
}
