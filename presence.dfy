/** The presence roster shared by public/js/modules/attendanceManager.js and
    script.js: records `{label, timestamp, present}` that a detection tick
    adds, one per label, only while the session is started. A record is
    never updated once added, so the first sighting of a label wins. */
module Presence {
  import opened Common

  datatype PresenceEntry = PresenceEntry(person: string, timestamp: nat, present: bool)

  /** `{ match, detection }`: the matcher's label and the detection's box. */
  datatype MatchResult = MatchResult(matchLabel: string, box: Box)

  /** The JSON download `saveAttendanceToFile` offers. */
  datatype JsonDownload = JsonDownload(fileName: string, mimeType: string, records: seq<PresenceEntry>)

  function Labels(r: seq<PresenceEntry>): (ls: seq<string>)
    ensures |ls| == |r| && forall i :: 0 <= i < |r| ==> ls[i] == r[i].person
  {
    seq(|r|, i requires 0 <= i < |r| => r[i].person)
  }

  /** At most one record per label, and never a record for "unknown". */
  ghost predicate RosterInvariant(r: seq<PresenceEntry>) {
    NoDuplicates(Labels(r)) && Unknown !in Labels(r)
  }

  /** The handling of one sighting: a record is added when the label is not
      "unknown", no record has it yet, and the session flag is set. */
  function Admit(r: seq<PresenceEntry>, s: Sighting, started: bool): (r': seq<PresenceEntry>)
    ensures r' != r <==> started && s.person != Unknown && s.person !in Labels(r)
    ensures r' != r ==> r' == r + [PresenceEntry(s.person, s.at, true)]
  {
    if s.person != Unknown && IndexOf(Labels(r), s.person).None? && started
    then r + [PresenceEntry(s.person, s.at, true)]
    else r
  }

  /** The roster after a tick has handled every sighting of `ss`. */
  function AdmitAll(r: seq<PresenceEntry>, ss: seq<Sighting>, started: bool): (r': seq<PresenceEntry>)
    ensures |r| <= |r'| <= |r| + |ss|
    ensures !started ==> r' == r
    decreases |ss|
  {
    if |ss| == 0 then r else Admit(AdmitAll(r, ss[..|ss| - 1], started), ss[|ss| - 1], started)
  }

  lemma AdmitAllSnoc(r: seq<PresenceEntry>, ss: seq<Sighting>, s: Sighting, started: bool)
    ensures AdmitAll(r, ss + [s], started) == Admit(AdmitAll(r, ss, started), s, started)
  {
    assert (ss + [s])[..|ss|] == ss;
  }

  /** A record whose label is not on the roster is not a member of it. */
  lemma NewLabelNotMember(r: seq<PresenceEntry>, e: PresenceEntry)
    requires e.person !in Labels(r)
    ensures e !in r
  {
    forall i | 0 <= i < |r| ensures r[i] != e {
      assert Labels(r)[i] == r[i].person;
    }
  }

  /** Deleting one record keeps the invariant, whichever record it is. */
  lemma DeleteKeepsInvariant(r: seq<PresenceEntry>, e: PresenceEntry)
    requires RosterInvariant(r)
    ensures RosterInvariant(Delete(r, e))
  {
    if e in r {
      var k :| 0 <= k < |r| && r[k] == e;
      DeleteMember(r, e, k);
      LabelsWithout(r, k);
      NoDuplicatesWithout(Labels(r), k);
    }
  }

  lemma LabelsWithout(r: seq<PresenceEntry>, k: nat)
    requires k < |r|
    ensures Labels(r[..k] + r[k + 1..]) == Labels(r)[..k] + Labels(r)[k + 1..]
  {
    var a, b := Labels(r[..k] + r[k + 1..]), Labels(r)[..k] + Labels(r)[k + 1..];
    assert |a| == |b|;
    forall i | 0 <= i < |a| ensures a[i] == b[i] {
      if i < k { assert b[i] == Labels(r)[i]; } else { assert b[i] == Labels(r)[i + 1]; }
    }
  }

  /** Distinct labels make distinct records. */
  lemma DistinctRecords(r: seq<PresenceEntry>)
    requires NoDuplicates(Labels(r))
    ensures NoDuplicates(r)
  {
    forall i, j | 0 <= i < j < |r| ensures r[i] != r[j] {
      assert Labels(r)[i] != Labels(r)[j];
    }
  }

  lemma LabelsSnoc(r: seq<PresenceEntry>, e: PresenceEntry)
    ensures Labels(r + [e]) == Labels(r) + [e.person]
  {
  }

  /** While the session is stopped, no sequence of sightings changes the
      roster. */
  lemma {:induction false} InactiveTickChangesNothing(r: seq<PresenceEntry>, ss: seq<Sighting>)
    ensures AdmitAll(r, ss, false) == r
    decreases |ss|
  {
    if |ss| > 0 {
      InactiveTickChangesNothing(r, ss[..|ss| - 1]);
    }
  }

  /** A tick only appends: every earlier record keeps its position and its
      contents, timestamp included. */
  lemma {:induction false} AdmitAllExtends(r: seq<PresenceEntry>, ss: seq<Sighting>, started: bool)
    ensures |AdmitAll(r, ss, started)| >= |r| && AdmitAll(r, ss, started)[..|r|] == r
    decreases |ss|
  {
    if |ss| > 0 {
      AdmitAllExtends(r, ss[..|ss| - 1], started);
    }
  }

  /** The labels after a tick: the old ones, and, if the session is started,
      every label other than "unknown" that was sighted. */
  lemma {:induction false} AdmitAllLabels(r: seq<PresenceEntry>, ss: seq<Sighting>, started: bool, l: string)
    ensures l in Labels(AdmitAll(r, ss, started)) <==>
      l in Labels(r) || (started && l != Unknown && l in Persons(ss))
    decreases |ss|
  {
    if |ss| > 0 {
      var p, s := ss[..|ss| - 1], ss[|ss| - 1];
      AdmitAllLabels(r, p, started, l);
      var m := AdmitAll(r, p, started);
      assert Persons(ss) == Persons(p) + [s.person];
      if s.person != Unknown && IndexOf(Labels(m), s.person).None? && started {
        LabelsSnoc(m, PresenceEntry(s.person, s.at, true));
      }
    }
  }

  /** A tick keeps at most one record per label and none for "unknown". */
  lemma {:induction false} AdmitAllKeepsInvariant(r: seq<PresenceEntry>, ss: seq<Sighting>, started: bool)
    requires RosterInvariant(r)
    ensures RosterInvariant(AdmitAll(r, ss, started))
    decreases |ss|
  {
    if |ss| > 0 {
      var p, s := ss[..|ss| - 1], ss[|ss| - 1];
      AdmitAllKeepsInvariant(r, p, started);
      var m := AdmitAll(r, p, started);
      if s.person != Unknown && IndexOf(Labels(m), s.person).None? && started {
        LabelsSnoc(m, PresenceEntry(s.person, s.at, true));
      }
    }
  }

  /** Every record a tick adds is present, is for a label the roster did not
      have, and carries the time of the FIRST sighting of that label. */
  lemma {:induction false} AdmitAllNew(r: seq<PresenceEntry>, ss: seq<Sighting>, started: bool, j: nat)
    requires |r| <= j < |AdmitAll(r, ss, started)|
    ensures var e := AdmitAll(r, ss, started)[j];
      && started && e.present && e.person !in Labels(r)
      && FirstSighting(ss, e.person).Some? && e.timestamp == FirstSighting(ss, e.person).value.at
    decreases |ss|
  {
    var p, s := ss[..|ss| - 1], ss[|ss| - 1];
    var m := AdmitAll(r, p, started);
    AdmitAllExtends(r, p, started);
    if j < |m| {
      AdmitAllNew(r, p, started, j);
      assert AdmitAll(r, ss, started)[j] == m[j];
    } else {
      var l := s.person;
      assert AdmitAll(r, ss, started) == m + [PresenceEntry(l, s.at, true)];
      assert l !in Labels(m);
      AdmitAllLabels(r, p, started, l);
      assert FirstSighting(p, l).None?;
    }
  }
}
