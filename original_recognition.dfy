/** public/js/modules/FaceDetectionManager.js: the recognizer with a pose
    slot. A tick awaits the face detections and then the pose, adds one
    record `{label, timestamp, pose, present}` for every label that is not
    "unknown" and not yet on the roster, refreshes the table and requests
    the next frame. The session flag is never consulted, so records are
    added whether or not the session is started.

    A tick is a call of `FaceRecognition.DetectFacesAndPose` with the settled
    values of the two awaited engine calls; `requestAnimationFrame` is the
    returned flag that asks for the next such call. */
module OriginalRecognition {
  import opened Common

  datatype Keypoint = Keypoint(part: string, x: real, y: real, score: real)

  /** A pose as the pose engine reports it. */
  datatype Pose = Pose(keypoints: seq<Keypoint>)

  /** `{label, timestamp, pose, present}`; `pose == None` is `undefined`. */
  datatype PoseEntry = PoseEntry(person: string, timestamp: nat, pose: Option<Pose>, present: bool)

  /** The body of the `fetch` that `saveAttendance` posts. */
  datatype PostRequest = PostRequest(url: string, httpMethod: string, contentType: string,
                                     key: string, name: string, students: seq<PoseEntry>)

  function Labels(r: seq<PoseEntry>): (ls: seq<string>)
    ensures |ls| == |r| && forall i :: 0 <= i < |r| ==> ls[i] == r[i].person
  {
    seq(|r|, i requires 0 <= i < |r| => r[i].person)
  }

  /** At most one record per label, and never a record for "unknown". */
  ghost predicate RosterInvariant(r: seq<PoseEntry>) {
    NoDuplicates(Labels(r)) && Unknown !in Labels(r)
  }

  lemma LabelsSnoc(r: seq<PoseEntry>, e: PoseEntry)
    ensures Labels(r + [e]) == Labels(r) + [e.person]
  {
  }

  /** One detection's callback: add a record for a label that is neither on
      the roster nor "unknown"; there is no session gate. */
  function Add(r: seq<PoseEntry>, s: Sighting, pose: Option<Pose>): (r': seq<PoseEntry>)
    ensures r' != r <==> s.person != Unknown && s.person !in Labels(r)
    ensures r' != r ==> r' == r + [PoseEntry(s.person, s.at, pose, true)]
  {
    if IndexOf(Labels(r), s.person).None? && s.person != Unknown
    then r + [PoseEntry(s.person, s.at, pose, true)]
    else r
  }

  /** The roster after every callback of a tick has run. */
  function AddAll(r: seq<PoseEntry>, ss: seq<Sighting>, pose: Option<Pose>): (r': seq<PoseEntry>)
    ensures |r'| <= |r| + |ss|
    decreases |ss|
  {
    if |ss| == 0 then r else Add(AddAll(r, ss[..|ss| - 1], pose), ss[|ss| - 1], pose)
  }

  lemma AddAllSnoc(r: seq<PoseEntry>, ss: seq<Sighting>, s: Sighting, pose: Option<Pose>)
    ensures AddAll(r, ss + [s], pose) == Add(AddAll(r, ss, pose), s, pose)
  {
    assert (ss + [s])[..|ss|] == ss;
  }

  /** A tick only appends: every earlier record keeps its position and its
      contents. */
  lemma {:induction false} AddAllExtends(r: seq<PoseEntry>, ss: seq<Sighting>, pose: Option<Pose>)
    ensures |AddAll(r, ss, pose)| >= |r| && AddAll(r, ss, pose)[..|r|] == r
    decreases |ss|
  {
    if |ss| > 0 {
      AddAllExtends(r, ss[..|ss| - 1], pose);
    }
  }

  /** The labels after a tick: the old ones and every sighted label other
      than "unknown". */
  lemma {:induction false} AddAllLabels(r: seq<PoseEntry>, ss: seq<Sighting>, pose: Option<Pose>, l: string)
    ensures l in Labels(AddAll(r, ss, pose)) <==> l in Labels(r) || (l != Unknown && l in Persons(ss))
    decreases |ss|
  {
    if |ss| > 0 {
      var p, s := ss[..|ss| - 1], ss[|ss| - 1];
      AddAllLabels(r, p, pose, l);
      var m := AddAll(r, p, pose);
      assert Persons(ss) == Persons(p) + [s.person];
      if IndexOf(Labels(m), s.person).None? && s.person != Unknown {
        LabelsSnoc(m, PoseEntry(s.person, s.at, pose, true));
      }
    }
  }

  /** A tick keeps at most one record per label and none for "unknown". */
  lemma {:induction false} AddAllKeepsInvariant(r: seq<PoseEntry>, ss: seq<Sighting>, pose: Option<Pose>)
    requires RosterInvariant(r)
    ensures RosterInvariant(AddAll(r, ss, pose))
    decreases |ss|
  {
    if |ss| > 0 {
      var p, s := ss[..|ss| - 1], ss[|ss| - 1];
      AddAllKeepsInvariant(r, p, pose);
      var m := AddAll(r, p, pose);
      if IndexOf(Labels(m), s.person).None? && s.person != Unknown {
        LabelsSnoc(m, PoseEntry(s.person, s.at, pose, true));
      }
    }
  }

  /** Every record a tick adds is present, carries the tick's pose, is for a
      label the roster did not have, and has the time of the FIRST sighting
      of that label. */
  lemma {:induction false} AddAllNew(r: seq<PoseEntry>, ss: seq<Sighting>, pose: Option<Pose>, j: nat)
    requires |r| <= j < |AddAll(r, ss, pose)|
    ensures var e := AddAll(r, ss, pose)[j];
      && e.present && e.pose == pose && e.person !in Labels(r)
      && FirstSighting(ss, e.person).Some? && e.timestamp == FirstSighting(ss, e.person).value.at
    decreases |ss|
  {
    var p, s := ss[..|ss| - 1], ss[|ss| - 1];
    var m := AddAll(r, p, pose);
    AddAllExtends(r, p, pose);
    if j < |m| {
      AddAllNew(r, p, pose, j);
      assert AddAll(r, ss, pose)[j] == m[j];
    } else {
      var l := s.person;
      assert AddAll(r, ss, pose) == m + [PoseEntry(l, s.at, pose, true)];
      assert l !in Labels(m);
      AddAllLabels(r, p, pose, l);
      assert FirstSighting(p, l).None?;
    }
  }

  lemma NewLabelNotMember(r: seq<PoseEntry>, e: PoseEntry)
    requires e.person !in Labels(r)
    ensures e !in r
  {
    forall i | 0 <= i < |r| ensures r[i] != e {
      assert Labels(r)[i] == r[i].person;
    }
  }

  lemma LabelsWithout(r: seq<PoseEntry>, k: nat)
    requires k < |r|
    ensures Labels(r[..k] + r[k + 1..]) == Labels(r)[..k] + Labels(r)[k + 1..]
  {
    var a, b := Labels(r[..k] + r[k + 1..]), Labels(r)[..k] + Labels(r)[k + 1..];
    assert |a| == |b|;
    forall i | 0 <= i < |a| ensures a[i] == b[i] {
      if i < k { assert b[i] == Labels(r)[i]; } else { assert b[i] == Labels(r)[i + 1]; }
    }
  }

  /** Deleting one record keeps the invariant, and in a roster with
      distinct labels it removes exactly that record's position. */
  lemma RemoveKeepsInvariant(r: seq<PoseEntry>, k: nat)
    requires RosterInvariant(r) && k < |r|
    ensures RosterInvariant(Delete(r, r[k]))
    ensures Delete(r, r[k]) == r[..k] + r[k + 1..]
  {
    forall i, j | 0 <= i < j < |r| ensures r[i] != r[j] {
      assert Labels(r)[i] != Labels(r)[j];
    }
    DeleteMember(r, r[k], k);
    LabelsWithout(r, k);
    NoDuplicatesWithout(Labels(r), k);
  }

  /** Deleting any record, a member or a stale one, keeps the invariant. */
  lemma DeleteKeepsInvariant(r: seq<PoseEntry>, e: PoseEntry)
    requires RosterInvariant(r)
    ensures RosterInvariant(Delete(r, e))
  {
    if e in r {
      var k :| 0 <= k < |r| && r[k] == e;
      RemoveKeepsInvariant(r, k);
    }
  }

  // ---------------------------------------------------------------------
  // document.cookie

  /** `s.split(sep)` for a one-character separator: never empty; the empty
      string splits into one empty part. */
  function Split(s: string, sep: char): (parts: seq<string>)
    ensures |parts| >= 1
    ensures forall i :: 0 <= i < |parts| ==> sep !in parts[i]
    decreases |s|
  {
    if |s| == 0 then [""]
    else
      var rest := Split(s[1..], sep);
      if s[0] == sep then [""] + rest else [[s[0]] + rest[0]] + rest[1..]
  }

  /** `parts.join(sep)`. */
  function Join(parts: seq<string>, sep: char): string
    requires |parts| >= 1
    decreases |parts|
  {
    if |parts| == 1 then parts[0] else parts[0] + [sep] + Join(parts[1..], sep)
  }

  /** Joining the parts of a split gives the string back. */
  lemma {:induction false} JoinSplit(s: string, sep: char)
    ensures Join(Split(s, sep), sep) == s
    decreases |s|
  {
    if |s| > 0 {
      var rest := Split(s[1..], sep);
      JoinSplit(s[1..], sep);
      if s[0] == sep {
        assert Split(s, sep)[1..] == rest;
      } else if |rest| == 1 {
        assert Split(s, sep) == [[s[0]] + rest[0]];
      } else {
        var parts := Split(s, sep);
        assert parts[1..] == rest[1..];
        assert Join(rest, sep) == rest[0] + [sep] + Join(rest[1..], sep);
      }
    }
  }

  /** Splitting a join of separator-free parts gives the parts back. */
  lemma {:induction false} SplitJoin(parts: seq<string>, sep: char)
    requires |parts| >= 1
    requires forall i :: 0 <= i < |parts| ==> sep !in parts[i]
    ensures Split(Join(parts, sep), sep) == parts
    decreases |parts|, |parts[0]|
  {
    var p0 := parts[0];
    if |p0| > 0 {
      var tail := [p0[1..]] + parts[1..];
      assert Join(parts, sep) == [p0[0]] + Join(tail, sep) by {
        if |parts| == 1 {
        } else {
          assert tail[1..] == parts[1..];
          assert Join(tail, sep) == p0[1..] + [sep] + Join(parts[1..], sep);
        }
      }
      assert sep !in tail[0];
      SplitJoin(tail, sep);
      var s := Join(parts, sep);
      assert s[1..] == Join(tail, sep);
      assert [p0[0]] + tail[0] == p0;
      assert tail[1..] == parts[1..];
      assert [[p0[0]] + tail[0]] + tail[1..] == parts;
    } else if |parts| > 1 {
      SplitJoin(parts[1..], sep);
      var s := Join(parts, sep);
      assert s == [sep] + Join(parts[1..], sep);
      assert s[1..] == Join(parts[1..], sep);
    }
  }

  /** The segment with its leading spaces removed. */
  function TrimLeft(c: string): (t: string)
    ensures |t| <= |c|
    ensures |t| == 0 || t[0] != ' '
    decreases |c|
  {
    if |c| > 0 && c[0] == ' ' then TrimLeft(c[1..]) else c
  }

  /** `TrimLeft` keeps a suffix of the segment and removes spaces only. */
  lemma {:induction false} TrimLeftSpec(c: string)
    ensures TrimLeft(c) == c[|c| - |TrimLeft(c)|..]
    ensures forall i :: 0 <= i < |c| - |TrimLeft(c)| ==> c[i] == ' '
    decreases |c|
  {
    if |c| > 0 && c[0] == ' ' {
      TrimLeftSpec(c[1..]);
      assert forall i :: 1 <= i < |c| ==> c[i] == c[1..][i - 1];
    }
  }

  predicate StartsWith(s: string, prefix: string) {
    |prefix| <= |s| && s[..|prefix|] == prefix
  }

  /** `c.indexOf(name) == 0` once the segment's leading spaces are gone. */
  predicate Matches(segment: string, name: string) {
    StartsWith(TrimLeft(segment), name)
  }

  /** The first segment that matches `name`. */
  function CookieIndex(segs: seq<string>, name: string): (k: Option<nat>)
    ensures k.None? <==> forall i :: 0 <= i < |segs| ==> !Matches(segs[i], name)
    ensures k.Some? ==> k.value < |segs| && Matches(segs[k.value], name)
    ensures k.Some? ==> forall i :: 0 <= i < k.value ==> !Matches(segs[i], name)
    decreases |segs|
  {
    if |segs| == 0 then None
    else if Matches(segs[0], name) then Some(0)
    else
      var rest := CookieIndex(segs[1..], name);
      assert forall i :: 1 <= i < |segs| ==> segs[i] == segs[1..][i - 1];
      if rest.None? then None else Some(rest.value + 1)
  }

  /** What `getCookie(cname)` returns for a given `document.cookie`. */
  function CookieValue(cookie: string, cname: string): (v: string)
    ensures (forall i :: 0 <= i < |Split(cookie, ';')| ==> !Matches(Split(cookie, ';')[i], cname + "=")) ==> v == ""
    ensures CookieIndex(Split(cookie, ';'), cname + "=").Some? ==>
      exists k :: 0 <= k < |Split(cookie, ';')| && TrimLeft(Split(cookie, ';')[k]) == cname + "=" + v
  {
    var segs := Split(cookie, ';');
    var name := cname + "=";
    match CookieIndex(segs, name)
    case None => ""
    case Some(k) => TrimLeft(segs[k])[|name|..]
  }

  /** `getCookie`, with its loop over the segments and its inner loop that
      strips leading spaces. */
  method GetCookie(cookie: string, cname: string) returns (value: string)
    ensures value == CookieValue(cookie, cname)
  {
    var name := cname + "=";
    var ca := Split(cookie, ';');
    var i := 0;
    while i < |ca|
      invariant 0 <= i <= |ca|
      invariant forall j :: 0 <= j < i ==> !Matches(ca[j], name)
    {
      var c := StripSpaces(ca[i]);
      if StartsWith(c, name) {
        CookieIndexFirst(ca, name, i);
        return c[|name|..];
      }
      i := i + 1;
    }
    value := "";
  }

  /** The inner `while` of `getCookie`: drop leading spaces. */
  method StripSpaces(segment: string) returns (c: string)
    ensures c == TrimLeft(segment)
  {
    c := segment;
    while |c| > 0 && c[0] == ' '
      invariant TrimLeft(c) == TrimLeft(segment)
    {
      c := c[1..];
    }
  }

  lemma CookieIndexFirst(segs: seq<string>, name: string, i: nat)
    requires i < |segs| && Matches(segs[i], name)
    requires forall j :: 0 <= j < i ==> !Matches(segs[j], name)
    ensures CookieIndex(segs, name) == Some(i)
  {
  }

  /** A cookie written as `; `-separated `name=value` pairs is read back:
      the value of the first pair with that name, or "" when none has it. */
  lemma CookieLookup(pairs: seq<string>, cname: string, k: nat, v: string)
    requires 1 <= |pairs| && k < |pairs|
    requires forall i :: 0 <= i < |pairs| ==> ';' !in pairs[i]
    requires TrimLeft(pairs[k]) == cname + "=" + v
    requires forall i :: 0 <= i < k ==> !Matches(pairs[i], cname + "=")
    ensures CookieValue(Join(pairs, ';'), cname) == v
  {
    SplitJoin(pairs, ';');
    var name := cname + "=";
    assert Matches(pairs[k], name);
    CookieIndexFirst(pairs, name, k);
    assert TrimLeft(pairs[k])[|name|..] == v;
  }

  lemma CookieMissing(pairs: seq<string>, cname: string)
    requires 1 <= |pairs|
    requires forall i :: 0 <= i < |pairs| ==> ';' !in pairs[i]
    requires forall i :: 0 <= i < |pairs| ==> !Matches(pairs[i], cname + "=")
    ensures CookieValue(Join(pairs, ';'), cname) == ""
  {
    SplitJoin(pairs, ';');
  }

  // ---------------------------------------------------------------------
  // The pose engine as the tick calls it

  /** `this.Posenet.drawPoses()`: public/js/modules/PoseNetManager.js
      defines no such method, so the call throws and the tick lands in its
      `catch`. */
  const DrawPosesAsShipped: EngineResult<Option<Pose>> := Rejected

  /** The pose engine's `draw()`, which the call evidently means: it
      resolves, with `undefined`. */
  const DrawAsIntended: EngineResult<Option<Pose>> := Resolved(None)

  class FaceRecognition {
    const attendanceToday: JsSet<PoseEntry>
    var tableRows: seq<PoseEntry>
    var displayedCount: Option<nat>

    ghost predicate Valid()
      reads this, attendanceToday
    {
      RosterInvariant(attendanceToday.elements)
    }

    /** The constructor's `initialize` chain (webcam, models, canvases, pose
        engine, then the first tick) is the caller's later calls. */
    constructor (attendanceToday: JsSet<PoseEntry>)
      requires RosterInvariant(attendanceToday.elements)
      ensures Valid() && this.attendanceToday == attendanceToday
      ensures tableRows == [] && displayedCount == None
    {
      this.attendanceToday := attendanceToday;
      tableRows := [];
      displayedCount := None;
    }

    method UpdateAttendanceTable()
      modifies this
      ensures tableRows == attendanceToday.elements && displayedCount == old(displayedCount)
    {
      tableRows := attendanceToday.elements;
    }

    /** The part of one `forEach` callback after its awaits: add the record
        when the label is new and not "unknown", and show the count. */
    method HandleDetection(d: Detection, bestMatch: Option<Descriptor> -> string, pose: Option<Pose>)
      requires Valid()
      modifies this, attendanceToday
      ensures Valid()
      ensures attendanceToday.elements == Add(old(attendanceToday.elements), Sighting(bestMatch(d.descriptor), d.at), pose)
      ensures displayedCount == if |attendanceToday.elements| > |old(attendanceToday.elements)|
        then Some(|attendanceToday.elements|) else old(displayedCount)
      ensures tableRows == old(tableRows)
    {
      var matched := bestMatch(d.descriptor);
      var entry := PoseEntry(matched, d.at, pose, true);
      var existing := IndexOf(Labels(attendanceToday.elements), entry.person);
      if existing.None? && entry.person != Unknown {
        NewLabelNotMember(attendanceToday.elements, entry);
        ghost var r := attendanceToday.elements;
        attendanceToday.Add(entry);
        AddAllKeepsInvariant(r, [Sighting(matched, d.at)], pose);
        assert [Sighting(matched, d.at)][..0] == [];
        displayedCount := Some(attendanceToday.Size());
      }
    }

    /** One tick, given the settled face detections and pose. When either
        rejects, the `catch` swallows it: nothing changes and no frame is
        requested. Otherwise the table is refreshed and the next frame
        requested; the table shows the roster from BEFORE this tick's
        additions, because each `forEach` callback awaits the matcher before
        it adds, so the adds run after the synchronous refresh (in detection
        order). */
    method DetectFacesAndPose(faces: EngineResult<seq<Detection>>, pose: EngineResult<Option<Pose>>,
                              bestMatch: Option<Descriptor> -> string)
      returns (scheduled: bool)
      requires Valid()
      modifies this, attendanceToday
      ensures Valid()
      ensures scheduled <==> faces.Resolved? && pose.Resolved?
      ensures attendanceToday.elements == if scheduled
        then AddAll(old(attendanceToday.elements), AllSightings(faces.value, bestMatch), pose.value)
        else old(attendanceToday.elements)
      ensures tableRows == if scheduled then old(attendanceToday.elements) else old(tableRows)
      ensures displayedCount == if |attendanceToday.elements| > |old(attendanceToday.elements)|
        then Some(|attendanceToday.elements|) else old(displayedCount)
    {
      if faces.Rejected? || pose.Rejected? {
        return false;
      }
      var ds, p := faces.value, pose.value;
      UpdateAttendanceTable();
      ghost var r0 := attendanceToday.elements;
      var i := 0;
      while i < |ds|
        invariant 0 <= i <= |ds|
        invariant Valid()
        invariant attendanceToday.elements == AddAll(r0, AllSightings(ds[..i], bestMatch), p)
        invariant |attendanceToday.elements| >= |r0|
        invariant displayedCount == if |attendanceToday.elements| > |r0| then Some(|attendanceToday.elements|) else old(displayedCount)
        invariant tableRows == r0
      {
        var d := ds[i];
        assert AllSightings(ds[..i + 1], bestMatch) == AllSightings(ds[..i], bestMatch) + [Sighting(bestMatch(d.descriptor), d.at)];
        AddAllSnoc(r0, AllSightings(ds[..i], bestMatch), Sighting(bestMatch(d.descriptor), d.at), p);
        HandleDetection(d, bestMatch, p);
        i := i + 1;
      }
      assert ds[..|ds|] == ds;
      scheduled := true;
    }

    /** The remove button of table row `k`: delete the record that row was
        drawn from, whatever the `Set` holds by now (the table may lag behind
        a tick or a start), then refresh the table. */
    method RemoveEntry(k: nat)
      requires Valid() && k < |tableRows|
      modifies this, attendanceToday
      ensures Valid()
      ensures attendanceToday.elements == Delete(old(attendanceToday.elements), old(tableRows)[k])
      ensures forall i :: 0 <= i < |old(attendanceToday.elements)| && old(attendanceToday.elements)[i] == old(tableRows)[k] ==>
        attendanceToday.elements == old(attendanceToday.elements)[..i] + old(attendanceToday.elements)[i + 1..]
      ensures tableRows == attendanceToday.elements && displayedCount == old(displayedCount)
    {
      var entry := tableRows[k];
      ghost var r := attendanceToday.elements;
      var _ := attendanceToday.Remove(entry);
      DeleteKeepsInvariant(r, entry);
      forall i | 0 <= i < |r| && r[i] == entry ensures attendanceToday.elements == r[..i] + r[i + 1..] {
        RemoveKeepsInvariant(r, i);
      }
      UpdateAttendanceTable();
    }

    /** `saveAttendance`: the records are posted, with the fixed key and the
        session name, to the decoded `REMOTEURL` cookie plus
        "/create-session". */
    method SaveAttendance(cookie: string, sessionName: string, decodeUri: string -> string)
      returns (request: PostRequest)
      ensures request.url == decodeUri(CookieValue(cookie, "REMOTEURL")) + "/create-session"
      ensures request.httpMethod == "POST" && request.contentType == "application/json"
      ensures request.key == "tatakae" && request.name == sessionName
      ensures request.students == attendanceToday.elements
    {
      var remote := GetCookie(cookie, "REMOTEURL");
      request := PostRequest(decodeUri(remote) + "/create-session", "POST", "application/json",
                             "tatakae", sessionName, attendanceToday.elements);
    }
  }

  class FaceRecoHandler {
    const attendanceToday: JsSet<PoseEntry>
    const flag: SessionFlag
    const faceRecognition: FaceRecognition
    var status: string

    ghost predicate Valid()
      reads this, faceRecognition, attendanceToday
    {
      faceRecognition.attendanceToday == attendanceToday && faceRecognition.Valid()
    }

    constructor (flag: SessionFlag)
      ensures Valid() && this.flag == flag && fresh(attendanceToday) && fresh(faceRecognition)
      ensures attendanceToday.elements == [] && faceRecognition.tableRows == [] && status == ""
    {
      var roster := new JsSet<PoseEntry>();
      attendanceToday := roster;
      this.flag := flag;
      faceRecognition := new FaceRecognition(roster);
      status := "";
    }

    /** Sets the flag and clears the roster; starts no detection. */
    method StartAttendance()
      requires Valid()
      modifies this, flag, attendanceToday
      ensures Valid() && status == "Active" && flag.isAttendanceStarted
      ensures attendanceToday.elements == []
      ensures faceRecognition.tableRows == old(faceRecognition.tableRows)
    {
      status := "Active";
      flag.isAttendanceStarted := true;
      attendanceToday.Clear();
    }

    method StopAttendance()
      requires Valid()
      modifies this, flag, faceRecognition
      ensures Valid() && status == "Inactive" && !flag.isAttendanceStarted
      ensures attendanceToday.elements == old(attendanceToday.elements)
      ensures faceRecognition.tableRows == attendanceToday.elements
      ensures faceRecognition.displayedCount == old(faceRecognition.displayedCount)
    {
      status := "Inactive";
      flag.isAttendanceStarted := false;
      faceRecognition.UpdateAttendanceTable();
    }
  }

  // ---------------------------------------------------------------------
  // Scenarios

  /** As shipped, a tick that sees a face adds nothing and requests no
      further frame: the pose call throws first. */
  method ShippedTickAddsNothing(d: Descriptor, b: Box) returns (scheduled: bool, rosterSize: nat)
    ensures !scheduled && rosterSize == 0
  {
    var flag := new SessionFlag();
    var h := new FaceRecoHandler(flag);
    h.StartAttendance();
    scheduled := h.faceRecognition.DetectFacesAndPose(Resolved([Detection(Some(d), b, 5)]), DrawPosesAsShipped, _ => "Alice");
    rosterSize := |h.attendanceToday.elements|;
  }

  /** With the pose call the code means, the same tick adds the face, keeps
      the loop going, and does so even after the session is stopped. */
  method IntendedTickAddsEvenWhenStopped(d: Descriptor, b: Box) returns (scheduled: bool, roster: seq<PoseEntry>)
    ensures scheduled && roster == [PoseEntry("Alice", 5, None, true)]
  {
    var flag := new SessionFlag();
    var h := new FaceRecoHandler(flag);
    h.StartAttendance();
    h.StopAttendance();
    var alice: Option<Descriptor> -> string := _ => "Alice";
    scheduled := h.faceRecognition.DetectFacesAndPose(Resolved([Detection(Some(d), b, 5)]), DrawAsIntended, alice);
    assert AllSightings([Detection(Some(d), b, 5)], alice) == [Sighting("Alice", 5)];
    assert AddAll([], [Sighting("Alice", 5)], None) == [PoseEntry("Alice", 5, None, true)] by {
      assert [Sighting("Alice", 5)][..0] == [];
    }
    roster := h.attendanceToday.elements;
  }
}
