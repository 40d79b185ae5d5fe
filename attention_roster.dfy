/** The roster reconciliation performed by one detection pass of
    `FaceRecognition.detectFacesAndPose` in
    public/js/modules/submodules/FaceDetectionManager.js, as pure functions
    over the roster, and what the pass guarantees about it.

    A pass handles the faces of one frame in order. A face whose label is
    already on the roster refreshes that entry in place: new timestamp, new
    attentiveness, and one more sample in its bounded `detections` window.
    A face whose label is not on the roster (and is not "unknown") becomes a
    candidate in `newEntries`; after the last face the candidates are merged
    into the roster, a later candidate for the same label overwriting an
    earlier one. */
module AttentionRoster {
  import opened Common

  datatype Attentiveness = Attentive | NotAttentive

  /** The four conditions `analyzeAttentiveness` tests. Each is false when the
      data it needs (expressions, landmarks, a confident pose) is missing. */
  datatype Signals = Signals(
    attentiveExpression: bool,
    headFacingCamera: bool,
    handsNearFace: bool,
    mouthClosed: bool)

  /** `requiredDetection`: what an entry keeps of one face detection. */
  datatype Snapshot = Snapshot(expressions: seq<real>, landmarks: seq<(real, real)>, descriptor: seq<real>)

  /** One element `[requiredDetection, time]` of an entry's `detections` window. */
  datatype Sample = Sample(snapshot: Snapshot, at: nat)

  datatype Entry = Entry(person: string, attentiveness: Attentiveness, timestamp: nat, detections: seq<Sample>)

  /** One face of a pass: the matcher's label, the attentiveness signals, the
      snapshot, and the clock reading at which the pass handled it. */
  datatype Observation = Observation(person: string, signals: Signals, snapshot: Snapshot, at: nat)

  // ---------------------------------------------------------------------
  // Attentiveness

  function Point(b: bool): nat { if b then 1 else 0 }

  /** One point per condition that holds. */
  function Score(s: Signals): (n: nat)
    ensures n <= 4
    ensures n == 0 <==> !s.attentiveExpression && !s.headFacingCamera && !s.handsNearFace && !s.mouthClosed
    ensures n == 4 <==> s.attentiveExpression && s.headFacingCamera && s.handsNearFace && s.mouthClosed
  {
    Point(s.attentiveExpression) + Point(s.headFacingCamera) + Point(s.handsNearFace) + Point(s.mouthClosed)
  }

  function StatusOf(s: Signals): (a: Attentiveness)
    ensures a == Attentive <==> TwoConditionsHold(s)
  {
    if Score(s) >= 2 then Attentive else NotAttentive
  }

  /** Attentive means: at least two of the four conditions hold. */
  predicate TwoConditionsHold(s: Signals) {
    || (s.attentiveExpression && s.headFacingCamera)
    || (s.attentiveExpression && s.handsNearFace)
    || (s.attentiveExpression && s.mouthClosed)
    || (s.headFacingCamera && s.handsNearFace)
    || (s.headFacingCamera && s.mouthClosed)
    || (s.handsNearFace && s.mouthClosed)
  }

  lemma StatusIsTwoConditions(s: Signals)
    ensures StatusOf(s) == Attentive <==> TwoConditionsHold(s)
  {
  }

  // ---------------------------------------------------------------------
  // The roster and its invariant

  function Labels(r: seq<Entry>): (ls: seq<string>)
    ensures |ls| == |r| && forall i :: 0 <= i < |r| ==> ls[i] == r[i].person
  {
    seq(|r|, i requires 0 <= i < |r| => r[i].person)
  }

  /** At most one entry per label, and never an entry for "unknown". */
  ghost predicate RosterInvariant(r: seq<Entry>) {
    NoDuplicates(Labels(r)) && Unknown !in Labels(r)
  }

  // ---------------------------------------------------------------------
  // The bounded detections window

  /** `detections.push(sample)`, then `detections.shift()` if the window is
      now longer than `detectionLimit`. */
  function Push(window: seq<Sample>, s: Sample, limit: JsInt): (w: seq<Sample>)
    ensures w == window + [s] <==> !Exceeds(|window| + 1, limit)
    ensures w != window + [s] ==> w == (window + [s])[1..]
    ensures limit.Int? && |window| <= limit.value ==> |w| <= limit.value
  {
    var pushed := window + [s];
    if Exceeds(|pushed|, limit) then pushed[1..] else pushed
  }

  function PushAll(window: seq<Sample>, ss: seq<Sample>, limit: JsInt): (w: seq<Sample>)
    ensures |w| <= |window| + |ss|
    ensures limit.Int? && |window| <= limit.value ==> |w| <= limit.value
    decreases |ss|
  {
    if |ss| == 0 then window else Push(PushAll(window, ss[..|ss| - 1], limit), ss[|ss| - 1], limit)
  }

  /** The last `n` elements of `s`, or all of `s` when it is shorter. */
  function Newest(s: seq<Sample>, n: nat): (r: seq<Sample>)
    ensures |r| <= n && |r| <= |s|
  {
    if |s| <= n then s else s[|s| - n..]
  }

  /** The window is a FIFO of capacity `n`: after any number of pushes onto a
      window that fitted, it holds exactly the `n` newest samples, oldest
      first. */
  lemma {:induction false} PushAllKeepsNewest(window: seq<Sample>, ss: seq<Sample>, n: nat)
    requires |window| <= n
    ensures PushAll(window, ss, Int(n)) == Newest(window + ss, n)
  {
    if |ss| > 0 {
      var p, last := ss[..|ss| - 1], ss[|ss| - 1];
      PushAllKeepsNewest(window, p, n);
      var a := window + p;
      assert window + ss == a + [last];
      if |a| > n {
        assert (a[|a| - n..] + [last])[1..] == (a + [last])[|a| + 1 - n..];
      }
    }
  }

  /** The scenario of a limit of 2 and three observations of one person. */
  lemma WindowOfTwo(s1: Sample, s2: Sample, s3: Sample)
    ensures PushAll([], [s1, s2, s3], Int(2)) == [s2, s3]
  {
    PushAllKeepsNewest([], [s1, s2, s3], 2);
  }

  // ---------------------------------------------------------------------
  // One pass

  /** The update of an entry whose label one face of the pass matched. */
  function Refresh(e: Entry, o: Observation, limit: JsInt): (f: Entry)
    ensures f.person == e.person && f.timestamp == o.at
    ensures f.attentiveness == Attentive <==> TwoConditionsHold(o.signals)
    ensures |f.detections| <= |e.detections| + 1
    ensures limit.Int? && |e.detections| <= limit.value ==> |f.detections| <= limit.value
    ensures !Exceeds(|e.detections| + 1, limit) ==> f.detections == e.detections + [Sample(o.snapshot, o.at)]
  {
    e.(timestamp := o.at,
       attentiveness := StatusOf(o.signals),
       detections := Push(e.detections, Sample(o.snapshot, o.at), limit))
  }

  /** The entry built for a face whose label is not on the roster. */
  function Fresh(o: Observation): (e: Entry)
    ensures e.person == o.person && e.timestamp == o.at
    ensures e.attentiveness == Attentive <==> TwoConditionsHold(o.signals)
    ensures |e.detections| == 1 && e.detections[0] == Sample(o.snapshot, o.at)
  {
    Entry(o.person, StatusOf(o.signals), o.at, [Sample(o.snapshot, o.at)])
  }

  datatype PassState = PassState(roster: seq<Entry>, newEntries: seq<Entry>)

  /** The body of the `for (const detection of resizedDetections)` loop. */
  function Step(st: PassState, o: Observation, limit: JsInt): (next: PassState)
    ensures Labels(next.roster) == Labels(st.roster)
    ensures o.person in Labels(st.roster) || o.person == Unknown ==> next.newEntries == st.newEntries
    ensures o.person !in Labels(st.roster) && o.person != Unknown ==> next.newEntries == st.newEntries + [Fresh(o)]
  {
    match IndexOf(Labels(st.roster), o.person)
    case Some(i) => PassState(st.roster[i := Refresh(st.roster[i], o, limit)], st.newEntries)
    case None => if o.person != Unknown then PassState(st.roster, st.newEntries + [Fresh(o)]) else st
  }

  /** The state after the loop has handled every face of `obs`. */
  function Scan(r: seq<Entry>, obs: seq<Observation>, limit: JsInt): (st: PassState)
    ensures |st.roster| == |r|
    decreases |obs|
  {
    if |obs| == 0 then PassState(r, [])
    else Step(Scan(r, obs[..|obs| - 1], limit), obs[|obs| - 1], limit)
  }

  /** The body of `newEntries.forEach`: overwrite the entry with that label,
      or add the candidate to the set. */
  function MergeStep(r: seq<Entry>, e: Entry): (m: seq<Entry>)
    ensures e.person in Labels(m)
    ensures e.person in Labels(r) ==> |m| == |r|
    ensures e.person !in Labels(r) ==> m == r + [e]
  {
    match IndexOf(Labels(r), e.person)
    case Some(i) =>
      var m := r[i := r[i].(timestamp := e.timestamp, attentiveness := e.attentiveness, detections := e.detections)];
      LabelsUpdate(r, i, m[i]);
      m
    case None => LabelsSnoc(r, e); r + [e]
  }

  function Merge(r: seq<Entry>, es: seq<Entry>): (m: seq<Entry>)
    ensures |m| >= |r|
    decreases |es|
  {
    if |es| == 0 then r else MergeStep(Merge(r, es[..|es| - 1]), es[|es| - 1])
  }

  /** The roster after one pass that ran (it passed the interval throttle). */
  function Reconcile(r: seq<Entry>, obs: seq<Observation>, limit: JsInt): (m: seq<Entry>)
    ensures |m| >= |r|
  {
    var st := Scan(r, obs, limit);
    Merge(st.roster, st.newEntries)
  }

  // ---------------------------------------------------------------------
  // Reference definitions the pass is characterised by

  /** The faces of `obs` labelled `l`, in order. */
  function Matching(obs: seq<Observation>, l: string): (m: seq<Observation>)
    ensures |m| <= |obs|
    ensures forall k :: 0 <= k < |m| ==> m[k].person == l
    decreases |obs|
  {
    if |obs| == 0 then []
    else Matching(obs[..|obs| - 1], l) + (if obs[|obs| - 1].person == l then [obs[|obs| - 1]] else [])
  }

  function Samples(obs: seq<Observation>): (ss: seq<Sample>)
    ensures |ss| == |obs| && forall k :: 0 <= k < |obs| ==> ss[k] == Sample(obs[k].snapshot, obs[k].at)
  {
    seq(|obs|, k requires 0 <= k < |obs| => Sample(obs[k].snapshot, obs[k].at))
  }

  /** An entry refreshed by every face of `obs` that carries its label. */
  function RefreshAll(e: Entry, obs: seq<Observation>, limit: JsInt): Entry
    decreases |obs|
  {
    if |obs| == 0 then e
    else
      var before := RefreshAll(e, obs[..|obs| - 1], limit);
      if obs[|obs| - 1].person == e.person then Refresh(before, obs[|obs| - 1], limit) else before
  }

  /** The candidates of `obs` for labels outside `known`, in order. */
  function FreshEntries(obs: seq<Observation>, known: seq<string>): seq<Entry>
    decreases |obs|
  {
    if |obs| == 0 then []
    else
      var o := obs[|obs| - 1];
      FreshEntries(obs[..|obs| - 1], known) + (if o.person !in known && o.person != Unknown then [Fresh(o)] else [])
  }

  /** The last entry of `es` labelled `l`. */
  function LastWith(es: seq<Entry>, l: string): (r: Option<Entry>)
    ensures r.Some? <==> l in Labels(es)
    ensures r.Some? ==> r.value.person == l
    decreases |es|
  {
    if |es| == 0 then None
    else if es[|es| - 1].person == l then Some(es[|es| - 1])
    else
      assert Labels(es) == Labels(es[..|es| - 1]) + [es[|es| - 1].person];
      LastWith(es[..|es| - 1], l)
  }

  // ---------------------------------------------------------------------
  // Lemmas about one entry

  /** What the matching faces of a pass do to an entry: they set its
      timestamp and attentiveness from the last of them and push one sample
      each; an entry no face matched is left alone. */
  lemma {:induction false} RefreshAllSpec(e: Entry, obs: seq<Observation>, limit: JsInt)
    ensures var m := Matching(obs, e.person); var e' := RefreshAll(e, obs, limit);
      && e'.person == e.person
      && (m == [] ==> e' == e)
      && (m != [] ==> e'.timestamp == m[|m| - 1].at && e'.attentiveness == StatusOf(m[|m| - 1].signals))
      && e'.detections == PushAll(e.detections, Samples(m), limit)
    decreases |obs|
  {
    if |obs| > 0 {
      var p, o := obs[..|obs| - 1], obs[|obs| - 1];
      RefreshAllSpec(e, p, limit);
      var mp := Matching(p, e.person);
      if o.person == e.person {
        assert Matching(obs, e.person) == mp + [o];
        var ss := Samples(mp + [o]);
        assert ss[..|mp|] == Samples(mp);
        assert ss[|mp|] == Sample(o.snapshot, o.at);
        assert PushAll(e.detections, ss, limit) == Push(PushAll(e.detections, Samples(mp), limit), Sample(o.snapshot, o.at), limit);
      } else {
        assert Matching(obs, e.person) == mp;
      }
    }
  }

  // ---------------------------------------------------------------------
  // Lemmas about the loop phase

  lemma LabelsUpdate(r: seq<Entry>, i: nat, e: Entry)
    requires i < |r| && e.person == r[i].person
    ensures Labels(r[i := e]) == Labels(r)
  {
  }

  lemma LabelsSnoc(a: seq<Entry>, e: Entry)
    ensures Labels(a + [e]) == Labels(a) + [e.person]
  {
  }

  /** The loop never adds or removes roster entries. */
  lemma {:induction false} ScanKeepsLabels(r: seq<Entry>, obs: seq<Observation>, limit: JsInt)
    ensures Labels(Scan(r, obs, limit).roster) == Labels(r)
    decreases |obs|
  {
    if |obs| > 0 {
      var p, o := obs[..|obs| - 1], obs[|obs| - 1];
      ScanKeepsLabels(r, p, limit);
      var st := Scan(r, p, limit);
      match IndexOf(Labels(st.roster), o.person)
      case Some(i) => LabelsUpdate(st.roster, i, Refresh(st.roster[i], o, limit));
      case None =>
    }
  }

  /** The candidates are the faces whose label was not on the roster, in
      order, one candidate per face (a label seen twice gives two). */
  lemma {:induction false} ScanCandidates(r: seq<Entry>, obs: seq<Observation>, limit: JsInt)
    ensures Scan(r, obs, limit).newEntries == FreshEntries(obs, Labels(r))
    decreases |obs|
  {
    if |obs| > 0 {
      var p := obs[..|obs| - 1];
      ScanCandidates(r, p, limit);
      ScanKeepsLabels(r, p, limit);
    }
  }

  /** Each existing entry is refreshed in place by exactly the faces that
      carry its label. */
  lemma {:induction false} ScanEntry(r: seq<Entry>, obs: seq<Observation>, limit: JsInt, i: nat)
    requires NoDuplicates(Labels(r)) && i < |r|
    ensures |Scan(r, obs, limit).roster| == |r|
    ensures Scan(r, obs, limit).roster[i] == RefreshAll(r[i], obs, limit)
    decreases |obs|
  {
    ScanKeepsLabels(r, obs, limit);
    if |obs| > 0 {
      var p, o := obs[..|obs| - 1], obs[|obs| - 1];
      ScanEntry(r, p, limit, i);
      ScanKeepsLabels(r, p, limit);
      var st := Scan(r, p, limit);
      assert Labels(st.roster)[i] == r[i].person;
      match IndexOf(Labels(st.roster), o.person)
      case Some(j) =>
        assert Labels(r)[j] == o.person;
        if j != i {
          assert Labels(r)[i] != Labels(r)[j];
        }
      case None =>
        assert o.person !in Labels(r);
    }
  }

  // ---------------------------------------------------------------------
  // Lemmas about the merge phase

  /** Candidates are in the set's labels exactly when no earlier state knew
      them; merging keeps every earlier entry at its position, with its label,
      and touches only entries whose label some candidate carries. */
  lemma {:induction false} MergeKeepsPrefix(r: seq<Entry>, es: seq<Entry>)
    ensures var m := Merge(r, es);
      && |m| >= |r|
      && (forall i :: 0 <= i < |r| ==> m[i].person == r[i].person)
      && (forall i :: 0 <= i < |r| && r[i].person !in Labels(es) ==> m[i] == r[i])
    decreases |es|
  {
    if |es| > 0 {
      var p, e := es[..|es| - 1], es[|es| - 1];
      MergeKeepsPrefix(r, p);
      assert Labels(es) == Labels(p) + [e.person];
    }
  }

  /** The labels after merging are those of the roster and of the candidates. */
  lemma {:induction false} MergeLabels(r: seq<Entry>, es: seq<Entry>, l: string)
    ensures l in Labels(Merge(r, es)) <==> l in Labels(r) || l in Labels(es)
    decreases |es|
  {
    if |es| > 0 {
      var p, e := es[..|es| - 1], es[|es| - 1];
      MergeLabels(r, p, l);
      var m := Merge(r, p);
      assert Labels(es) == Labels(p) + [e.person];
      match IndexOf(Labels(m), e.person)
      case Some(i) => LabelsUpdate(m, i, m[i].(timestamp := e.timestamp, attentiveness := e.attentiveness, detections := e.detections));
      case None =>
        assert Merge(r, es) == m + [e];
        LabelsSnoc(m, e);
    }
  }

  /** Merging never puts a label on the roster twice. */
  lemma {:induction false} MergeNoDuplicates(r: seq<Entry>, es: seq<Entry>)
    requires NoDuplicates(Labels(r))
    ensures NoDuplicates(Labels(Merge(r, es)))
    decreases |es|
  {
    if |es| > 0 {
      var p, e := es[..|es| - 1], es[|es| - 1];
      MergeNoDuplicates(r, p);
      var m := Merge(r, p);
      match IndexOf(Labels(m), e.person)
      case Some(i) => LabelsUpdate(m, i, m[i].(timestamp := e.timestamp, attentiveness := e.attentiveness, detections := e.detections));
      case None => LabelsSnoc(m, e);
    }
  }

  /** Last write wins: an entry whose label some candidate carries equals the
      last such candidate. */
  lemma {:induction false} MergeLastWins(r: seq<Entry>, es: seq<Entry>)
    requires NoDuplicates(Labels(r))
    ensures var m := Merge(r, es);
      forall j :: 0 <= j < |m| && m[j].person in Labels(es) ==> LastWith(es, m[j].person) == Some(m[j])
    decreases |es|
  {
    if |es| > 0 {
      var p, e := es[..|es| - 1], es[|es| - 1];
      MergeLastWins(r, p);
      MergeNoDuplicates(r, p);
      var m := Merge(r, p);
      var m' := Merge(r, es);
      assert Labels(es) == Labels(p) + [e.person];
      forall j | 0 <= j < |m'| && m'[j].person in Labels(es)
        ensures LastWith(es, m'[j].person) == Some(m'[j])
      {
        MergeLastWinsStep(r, p, e, j);
      }
    }
  }

  lemma MergeLastWinsStep(r: seq<Entry>, p: seq<Entry>, e: Entry, j: nat)
    requires NoDuplicates(Labels(Merge(r, p)))
    requires forall k :: 0 <= k < |Merge(r, p)| && Merge(r, p)[k].person in Labels(p) ==>
      LastWith(p, Merge(r, p)[k].person) == Some(Merge(r, p)[k])
    requires j < |Merge(r, p + [e])| && Merge(r, p + [e])[j].person in Labels(p + [e])
    ensures LastWith(p + [e], Merge(r, p + [e])[j].person) == Some(Merge(r, p + [e])[j])
  {
    var es := p + [e];
    assert es[..|es| - 1] == p;
    var m := Merge(r, p);
    var m' := Merge(r, es);
    assert m' == MergeStep(m, e);
    LabelsSnoc(p, e);
    var l := m'[j].person;
    match IndexOf(Labels(m), e.person)
    case Some(i) =>
      assert m[i].person == e.person;
      assert m' == m[i := e];
      if j != i {
        assert Labels(m)[j] != Labels(m)[i];
        assert l != e.person && l in Labels(p);
        assert LastWith(es, l) == LastWith(p, l);
      }
    case None =>
      assert m' == m + [e];
      if j < |m| {
        assert m'[j] == m[j];
        assert Labels(m)[j] == l;
        assert l != e.person && l in Labels(p);
        assert LastWith(p, m[j].person) == Some(m[j]);
        assert LastWith(es, l) == LastWith(p, l);
      }
  }

  // ---------------------------------------------------------------------
  // Lemmas about the candidates

  /** A candidate is made for exactly the known labels of the pass that the
      roster did not have. */
  lemma {:induction false} FreshEntriesLabels(obs: seq<Observation>, known: seq<string>, l: string)
    ensures l in Labels(FreshEntries(obs, known)) <==> l !in known && l != Unknown && Matching(obs, l) != []
    decreases |obs|
  {
    if |obs| > 0 {
      var p, o := obs[..|obs| - 1], obs[|obs| - 1];
      FreshEntriesLabels(p, known, l);
      var fp := FreshEntries(p, known);
      if o.person !in known && o.person != Unknown {
        assert FreshEntries(obs, known) == fp + [Fresh(o)];
        LabelsSnoc(fp, Fresh(o));
      } else {
        assert FreshEntries(obs, known) == fp;
      }
      if o.person == l {
        assert Matching(obs, l) == Matching(p, l) + [o];
      } else {
        assert Matching(obs, l) == Matching(p, l);
      }
    }
  }

  /** The last candidate for a label is built from the last face carrying it. */
  lemma {:induction false} FreshEntriesLast(obs: seq<Observation>, known: seq<string>, l: string)
    requires l !in known && l != Unknown && Matching(obs, l) != []
    ensures LastWith(FreshEntries(obs, known), l) == Some(Fresh(Matching(obs, l)[|Matching(obs, l)| - 1]))
    decreases |obs|
  {
    var p, o := obs[..|obs| - 1], obs[|obs| - 1];
    var fp := FreshEntries(p, known);
    var added := o.person !in known && o.person != Unknown;
    assert FreshEntries(obs, known) == fp + (if added then [Fresh(o)] else []);
    if o.person == l {
      assert Matching(obs, l) == Matching(p, l) + [o];
      LastWithSnoc(fp, Fresh(o), l);
    } else {
      assert Matching(obs, l) == Matching(p, l);
      FreshEntriesLast(p, known, l);
      if added {
        LastWithSnoc(fp, Fresh(o), l);
      } else {
        assert fp + [] == fp;
      }
    }
  }

  lemma LastWithSnoc(es: seq<Entry>, e: Entry, l: string)
    ensures LastWith(es + [e], l) == if e.person == l then Some(e) else LastWith(es, l)
  {
    assert (es + [e])[..|es|] == es;
  }

  // ---------------------------------------------------------------------
  // What a pass guarantees

  /** Every old entry keeps its position and is refreshed by exactly the
      faces carrying its label. */
  lemma ReconcileExisting(r: seq<Entry>, obs: seq<Observation>, limit: JsInt, i: nat)
    requires RosterInvariant(r) && i < |r|
    ensures Reconcile(r, obs, limit)[i] == RefreshAll(r[i], obs, limit)
  {
    var st := Scan(r, obs, limit);
    ScanKeepsLabels(r, obs, limit);
    ScanCandidates(r, obs, limit);
    ScanEntry(r, obs, limit, i);
    MergeKeepsPrefix(st.roster, st.newEntries);
    FreshEntriesLabels(obs, Labels(r), r[i].person);
    assert Labels(r)[i] == r[i].person;
    assert Labels(st.roster)[i] == r[i].person;
  }

  /** The labels after a pass: the old ones and every known label of the pass. */
  lemma ReconcileLabels(r: seq<Entry>, obs: seq<Observation>, limit: JsInt, l: string)
    ensures l in Labels(Reconcile(r, obs, limit)) <==> l in Labels(r) || (l != Unknown && Matching(obs, l) != [])
  {
    var st := Scan(r, obs, limit);
    ScanKeepsLabels(r, obs, limit);
    ScanCandidates(r, obs, limit);
    MergeLabels(st.roster, st.newEntries, l);
    FreshEntriesLabels(obs, Labels(r), l);
  }

  /** At most one entry per label and none for "unknown", after any pass. */
  lemma ReconcileKeepsInvariant(r: seq<Entry>, obs: seq<Observation>, limit: JsInt)
    requires RosterInvariant(r)
    ensures RosterInvariant(Reconcile(r, obs, limit))
  {
    var st := Scan(r, obs, limit);
    ScanKeepsLabels(r, obs, limit);
    MergeNoDuplicates(st.roster, st.newEntries);
    ReconcileLabels(r, obs, limit, Unknown);
  }

  /** Every entry a pass adds is for a label the roster did not have, and is
      built from the LAST face carrying that label. */
  lemma ReconcileAdded(r: seq<Entry>, obs: seq<Observation>, limit: JsInt, j: nat)
    requires RosterInvariant(r) && |r| <= j < |Reconcile(r, obs, limit)|
    ensures var l := Reconcile(r, obs, limit)[j].person;
      && l !in Labels(r) && Matching(obs, l) != []
      && Reconcile(r, obs, limit)[j] == Fresh(Matching(obs, l)[|Matching(obs, l)| - 1])
  {
    var st := Scan(r, obs, limit);
    var m := Reconcile(r, obs, limit);
    var l := m[j].person;
    ScanKeepsLabels(r, obs, limit);
    ScanCandidates(r, obs, limit);
    MergeKeepsPrefix(st.roster, st.newEntries);
    MergeNoDuplicates(st.roster, st.newEntries);
    forall i | 0 <= i < |r| ensures r[i].person != l {
      assert Labels(st.roster)[i] == Labels(r)[i];
      assert Labels(m)[i] != Labels(m)[j];
    }
    assert l !in Labels(r);
    MergeLabels(st.roster, st.newEntries, l);
    assert Labels(m)[j] == l;
    FreshEntriesLabels(obs, Labels(r), l);
    FreshEntriesLast(obs, Labels(r), l);
    MergeLastWins(st.roster, st.newEntries);
  }

  /** A face labelled "unknown" never yields an entry, and never refreshes
      one: no entry's matching faces include it. */
  lemma UnknownIgnored(r: seq<Entry>, obs: seq<Observation>, limit: JsInt)
    requires RosterInvariant(r)
    ensures Unknown !in Labels(Reconcile(r, obs, limit))
    ensures forall i, k :: 0 <= i < |r| && 0 <= k < |Matching(obs, r[i].person)| ==>
      Matching(obs, r[i].person)[k].person != Unknown
  {
    ReconcileLabels(r, obs, limit, Unknown);
    forall i | 0 <= i < |r| ensures r[i].person != Unknown {
      assert Labels(r)[i] == r[i].person;
    }
  }

  /** Last write wins for every label the pass saw: its one entry carries the
      timestamp and attentiveness of the last face with that label, whether
      the entry was already there or is new. */
  lemma LastObservationWins(r: seq<Entry>, obs: seq<Observation>, limit: JsInt, l: string)
    requires RosterInvariant(r)
    requires l != Unknown && Matching(obs, l) != []
    ensures var m := Reconcile(r, obs, limit); var last := Matching(obs, l)[|Matching(obs, l)| - 1];
      && l in Labels(m)
      && (forall j :: 0 <= j < |m| && m[j].person == l ==>
            m[j].timestamp == last.at && m[j].attentiveness == StatusOf(last.signals))
  {
    ReconcileLabels(r, obs, limit, l);
    var m := Reconcile(r, obs, limit);
    forall j | 0 <= j < |m| && m[j].person == l
      ensures m[j].timestamp == Matching(obs, l)[|Matching(obs, l)| - 1].at
      ensures m[j].attentiveness == StatusOf(Matching(obs, l)[|Matching(obs, l)| - 1].signals)
    {
      if j < |r| {
        ReconcileExisting(r, obs, limit, j);
        RefreshAllSpec(r[j], obs, limit);
      } else {
        ReconcileAdded(r, obs, limit, j);
      }
    }
  }

  /** An entry no face of the pass matched is left exactly as it was, at its
      position. */
  lemma UnobservedEntryUnchanged(r: seq<Entry>, obs: seq<Observation>, limit: JsInt, i: nat)
    requires RosterInvariant(r) && i < |r| && Matching(obs, r[i].person) == []
    ensures Reconcile(r, obs, limit)[i] == r[i]
  {
    ReconcileExisting(r, obs, limit, i);
    RefreshAllSpec(r[i], obs, limit);
  }

  /** The window of an existing entry after a pass: the newest `n` of its
      old samples followed by one sample per matching face, in order. */
  lemma WindowAfterPass(r: seq<Entry>, obs: seq<Observation>, n: nat, i: nat)
    requires RosterInvariant(r) && i < |r| && |r[i].detections| <= n
    ensures Reconcile(r, obs, Int(n))[i].detections ==
      Newest(r[i].detections + Samples(Matching(obs, r[i].person)), n)
  {
    ReconcileExisting(r, obs, Int(n), i);
    RefreshAllSpec(r[i], obs, Int(n));
    PushAllKeepsNewest(r[i].detections, Samples(Matching(obs, r[i].person)), n);
  }

  ghost predicate WindowsWithin(r: seq<Entry>, n: nat) {
    forall i :: 0 <= i < |r| ==> |r[i].detections| <= n
  }

  /** With a limit of at least one sample, a pass keeps every window within it. */
  lemma WindowsStayWithin(r: seq<Entry>, obs: seq<Observation>, n: nat)
    requires RosterInvariant(r) && WindowsWithin(r, n) && n >= 1
    ensures WindowsWithin(Reconcile(r, obs, Int(n)), n)
  {
    var m := Reconcile(r, obs, Int(n));
    forall i | 0 <= i < |m| ensures |m[i].detections| <= n {
      if i < |r| {
        WindowAfterPass(r, obs, n, i);
      } else {
        ReconcileAdded(r, obs, Int(n), i);
      }
    }
  }
}
