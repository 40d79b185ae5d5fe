/** Vocabulary shared by the four roster variants: the JavaScript values the
    source relies on (parseInt results, settled or rejected promises, the
    "unknown" matcher sentinel), what a detection tick hands the roster
    logic (detections and the matcher's sightings), and the two operations
    every variant performs on its roster `Set`: look an entry up by label,
    and delete an entry. */
module Common {

  datatype Option<T> = None | Some(value: T)

  /** The result of an engine call the source awaits: it either resolves with
      a value or rejects (the source's `catch` branch). */
  datatype EngineResult<T> = Resolved(value: T) | Rejected

  /** What `parseInt` can return: an integer or NaN. */
  datatype JsInt = Int(value: int) | NaN

  /** The label the face matcher reports when no enrolled person is close enough. */
  const Unknown: string := "unknown"

  /** JavaScript's `x >= y` where `y` may be NaN (every comparison with NaN is false). */
  predicate AtLeast(x: int, y: JsInt): (b: bool)
    ensures y.NaN? ==> !b
    ensures y.Int? ==> (b <==> x >= y.value)
  {
    y.Int? && x >= y.value
  }

  /** JavaScript's `x > y` where `y` may be NaN. */
  predicate Exceeds(x: int, y: JsInt): (b: bool)
    ensures y.NaN? ==> !b
    ensures y.Int? ==> (b <==> x > y.value)
  {
    y.Int? && x > y.value
  }

  /** JavaScript's `n || d` applied to a `parseInt` result: NaN and 0 are falsy. */
  function OrDefault(n: JsInt, d: int): (r: int)
    ensures n.Int? && n.value != 0 ==> r == n.value
    ensures n.NaN? || n.value == 0 ==> r == d
  {
    if n.Int? && n.value != 0 then n.value else d
  }

  /** A face descriptor as the detector reports it. */
  type Descriptor = seq<real>

  datatype Box = Box(x: real, y: real, width: real, height: real)

  /** One element of `resizedDetections`: its descriptor, if any, its box,
      and the clock reading at which the callback handled it. */
  datatype Detection = Detection(descriptor: Option<Descriptor>, box: Box, at: nat)

  /** What the matcher made of one detection: the label of the best match
      and the clock reading at which the callback handled it. */
  datatype Sighting = Sighting(person: string, at: nat)

  /** The sightings of a tick whose every detection goes to the matcher,
      with or without a descriptor: one per detection, in order. */
  function AllSightings(ds: seq<Detection>, bestMatch: Option<Descriptor> -> string): (ss: seq<Sighting>)
    ensures |ss| == |ds|
    ensures forall i :: 0 <= i < |ds| ==> ss[i] == Sighting(bestMatch(ds[i].descriptor), ds[i].at)
  {
    seq(|ds|, i requires 0 <= i < |ds| => Sighting(bestMatch(ds[i].descriptor), ds[i].at))
  }

  /** The labels of a tick's sightings, in order. */
  function Persons(ss: seq<Sighting>): (ps: seq<string>)
    ensures |ps| == |ss| && forall i :: 0 <= i < |ss| ==> ps[i] == ss[i].person
  {
    seq(|ss|, i requires 0 <= i < |ss| => ss[i].person)
  }

  /** The first sighting of `l` in `ss`: it exists iff `l` was sighted, and
      no earlier sighting carries `l`. */
  function FirstSighting(ss: seq<Sighting>, l: string): (f: Option<Sighting>)
    ensures f.Some? <==> l in Persons(ss)
    ensures f.Some? ==> f.value.person == l
    ensures f.Some? ==> exists i :: 0 <= i < |ss| && ss[i] == f.value && forall j :: 0 <= j < i ==> ss[j].person != l
    decreases |ss|
  {
    if |ss| == 0 then None
    else
      var p := ss[..|ss| - 1];
      assert Persons(ss) == Persons(p) + [ss[|ss| - 1].person];
      match FirstSighting(p, l)
      case Some(s) =>
        assert forall i :: 0 <= i < |p| ==> p[i] == ss[i];
        Some(s)
      case None =>
        if ss[|ss| - 1].person == l then
          assert forall j :: 0 <= j < |p| ==> Persons(p)[j] == ss[j].person;
          Some(ss[|ss| - 1])
        else None
  }

  ghost predicate NoDuplicates<T>(s: seq<T>) {
    forall i, j :: 0 <= i < j < |s| ==> s[i] != s[j]
  }

  /** `Array.from(set).find(e => e.label === x)`, on the roster's labels: the
      position of the first entry with that label, if any. */
  function IndexOf(s: seq<string>, x: string): (r: Option<nat>)
    ensures r.None? <==> x !in s
    ensures r.Some? ==> r.value < |s| && s[r.value] == x
    ensures r.Some? ==> forall j :: 0 <= j < r.value ==> s[j] != x
  {
    if |s| == 0 then None
    else if s[0] == x then Some(0)
    else match IndexOf(s[1..], x)
      case None => None
      case Some(k) => Some(k + 1)
  }

  /** `set.delete(x)` on a JavaScript `Set`, whose iteration order is
      insertion order: every other member stays, in its order. */
  function Delete<T(==)>(s: seq<T>, x: T): (r: seq<T>)
    ensures |r| <= |s|
    ensures forall i :: 0 <= i < |r| ==> r[i] in s && r[i] != x
    ensures forall i :: 0 <= i < |s| && s[i] != x ==> s[i] in r
    ensures x !in s ==> r == s
  {
    if |s| == 0 then []
    else if s[0] == x then Delete(s[1..], x)
    else [s[0]] + Delete(s[1..], x)
  }

  /** In a set (no member twice) deleting a member removes exactly its one
      position and keeps the others in order. */
  lemma {:induction false} DeleteMember<T>(s: seq<T>, x: T, k: nat)
    requires NoDuplicates(s) && k < |s| && s[k] == x
    ensures Delete(s, x) == s[..k] + s[k + 1..]
    ensures NoDuplicates(Delete(s, x))
  {
    if k == 0 {
      NotInTail(s);
    } else {
      var t := s[1..];
      NoDuplicatesTail(s);
      DeleteMember(t, x, k - 1);
      assert s[0] != s[k];
      SplitAround(s, k);
    }
    NoDuplicatesWithout(s, k);
  }

  lemma NotInTail<T>(s: seq<T>)
    requires NoDuplicates(s) && |s| > 0
    ensures s[0] !in s[1..]
  {
    forall j | 0 <= j < |s| - 1 ensures s[1..][j] != s[0] { assert s[1..][j] == s[j + 1]; }
  }

  lemma NoDuplicatesTail<T>(s: seq<T>)
    requires NoDuplicates(s) && |s| > 0
    ensures NoDuplicates(s[1..])
  {
    var t := s[1..];
    forall i, j | 0 <= i < j < |t| ensures t[i] != t[j] { assert t[i] == s[i + 1] && t[j] == s[j + 1]; }
  }

  lemma SplitAround<T>(s: seq<T>, k: nat)
    requires 0 < k < |s|
    ensures [s[0]] + (s[1..][..k - 1] + s[1..][k..]) == s[..k] + s[k + 1..]
  {
    assert s[1..][..k - 1] == s[1..k];
    assert s[1..][k..] == s[k + 1..];
    assert s[..k] == [s[0]] + s[1..k];
  }

  lemma NoDuplicatesWithout<T>(s: seq<T>, k: nat)
    requires NoDuplicates(s) && k < |s|
    ensures NoDuplicates(s[..k] + s[k + 1..])
  {
    var r := s[..k] + s[k + 1..];
    forall i, j | 0 <= i < j < |r| ensures r[i] != r[j] {
      var i' := if i < k then i else i + 1;
      var j' := if j < k then j else j + 1;
      assert r[i] == s[i'] && r[j] == s[j'];
    }
  }

  /** A JavaScript `Set`, iterated in insertion order. The rosters hold
      entries that are never equal unless they are the same record, so
      membership by value stands for membership by identity. */
  class JsSet<T(==)> {
    var elements: seq<T>

    /** `new Set()`. */
    constructor ()
      ensures elements == []
    {
      elements := [];
    }

    /** `set.add(x)`: a new member goes to the end; a member stays put. */
    method Add(x: T)
      modifies this
      ensures elements == if x in old(elements) then old(elements) else old(elements) + [x]
    {
      if x !in elements {
        elements := elements + [x];
      }
    }

    /** `set.delete(x)`. */
    method Remove(x: T) returns (removed: bool)
      modifies this
      ensures removed <==> x in old(elements)
      ensures elements == Delete(old(elements), x)
    {
      removed := x in elements;
      elements := Delete(elements, x);
    }

    /** `set.clear()`. */
    method Clear()
      modifies this
      ensures elements == []
    {
      elements := [];
    }

    function Size(): (n: nat)
      reads this
      ensures n == |elements|
    {
      |elements|
    }
  }

  /** A module-level `let isAttendanceStarted = false`, shared by every
      object of its module. */
  class SessionFlag {
    var isAttendanceStarted: bool

    constructor ()
      ensures !isAttendanceStarted
    {
      isAttendanceStarted := false;
    }
  }
}
