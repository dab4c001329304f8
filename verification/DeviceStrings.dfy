/**
 Device specification strings (DeviceStringParser.cpp): a list of entries of the form
 "hw:port,node" or "guid:number" against which the config ROMs on the bus are matched. Entries
 are heap objects; they are represented here by handles, so that freeing can be counted.
 */
module DeviceStrings {
  import opened StringList
  import opened Wrappers

  /** What DeviceString::parse extracts. A field the entry does not set keeps its initial value. */
  datatype Spec = BusNode(port: int, node: int) | GuidSpec(guid: nat)
  {
    function Port(): int { if BusNode? then port else -1 }
    function Node(): int { if BusNode? then node else -1 }
    function Guid(): nat { if GuidSpec? then guid else 0 }
  }

  /** What matching looks at in a config ROM: GUID, port and the node number within the bus */
  datatype Rom = Rom(guid: nat, port: int, node: nat)

  predicate Matches(x: Spec, rom: Rom) {
    match x
    case BusNode(port, node) => port >= 0 && rom.port == port && (node >= 0 ==> rom.node == node)
    case GuidSpec(guid) => guid != 0 && guid == rom.guid
  }

  /** DeviceString::operator==, which goes by the type of its left operand */
  predicate Equal(x: Spec, y: Spec) {
    match x
    case BusNode(port, node) => port == y.Port() && node == y.Node()
    case GuidSpec(guid) => guid != 0 && guid == y.Guid()
  }

  // ----- pruning, on the specs alone -----

  predicate HasEqual(s: seq<Spec>, x: Spec) {
    exists i :: 0 <= i < |s| && Equal(s[i], x)
  }

  /** What is left of s when every entry equal to an earlier one is dropped. */
  function Kept(s: seq<Spec>): seq<Spec> {
    if s == [] then []
    else
      var front, x := s[..|s| - 1], s[|s| - 1];
      Kept(front) + if HasEqual(front, x) then [] else [x]
  }

  predicate Duplicate(s: seq<Spec>, i: nat) {
    i < |s| && exists j :: 0 <= j < i && Equal(s[j], s[i])
  }

  /** Being a duplicate depends on the entries before only. */
  lemma DuplicateInPrefix(s: seq<Spec>, n: nat)
    requires n < |s|
    ensures HasEqual(s[..n], s[n]) <==> Duplicate(s, n)
    ensures forall i: nat :: i < n ==> (Duplicate(s[..n], i) <==> Duplicate(s, i))
  {
    var front := s[..n];
    assert forall j :: 0 <= j < n ==> front[j] == s[j];
    if Duplicate(s, n) {
      var j :| 0 <= j < n && Equal(s[j], s[n]);
      assert Equal(front[j], s[n]);
    }
    forall i: nat | i < n ensures Duplicate(front, i) <==> Duplicate(s, i) {
      if Duplicate(s, i) {
        var j :| 0 <= j < i && Equal(s[j], s[i]);
        assert Equal(front[j], front[i]);
      }
    }
  }

  function SurvivorIndices(s: seq<Spec>): seq<nat> {
    if s == [] then []
    else
      var n := |s| - 1;
      SurvivorIndices(s[..n]) + if HasEqual(s[..n], s[n]) then [] else [n]
  }

  lemma {:induction false} SurvivorIff(s: seq<Spec>, i: nat)
    ensures i in SurvivorIndices(s) <==> i < |s| && !Duplicate(s, i)
    decreases |s|
  {
    hide Duplicate, HasEqual;
    if s != [] {
      var n := |s| - 1;
      SurvivorIff(s[..n], i);
      DuplicateInPrefix(s, n);
    }
  }

  lemma {:induction false} SurvivorsInOrder(s: seq<Spec>)
    ensures |SurvivorIndices(s)| == |Kept(s)|
    ensures forall k :: 0 <= k < |Kept(s)| ==>
              SurvivorIndices(s)[k] < |s| && Kept(s)[k] == s[SurvivorIndices(s)[k]]
    ensures forall i, j :: 0 <= i < j < |SurvivorIndices(s)| ==> SurvivorIndices(s)[i] < SurvivorIndices(s)[j]
    decreases |s|
  {
    hide HasEqual;
    if s != [] {
      SurvivorsInOrder(s[..|s| - 1]);
    }
  }

  /**
   The survivors are the entries without an equal predecessor, in their original order:
   indices lists their positions.
   */
  lemma KeptIndices(s: seq<Spec>) returns (indices: seq<nat>)
    ensures |indices| == |Kept(s)|
    ensures forall i, j :: 0 <= i < j < |indices| ==> indices[i] < indices[j]
    ensures forall k :: 0 <= k < |indices| ==> indices[k] < |s| && Kept(s)[k] == s[indices[k]]
    ensures forall i: nat :: i in indices <==> i < |s| && !Duplicate(s, i)
  {
    indices := SurvivorIndices(s);
    SurvivorsInOrder(s);
    forall i: nat ensures i in indices <==> i < |s| && !Duplicate(s, i) {
      SurvivorIff(s, i);
    }
  }

  lemma InKept(s: seq<Spec>, i: nat)
    requires i < |s| && !Duplicate(s, i)
    ensures s[i] in Kept(s)
  {
    var indices := KeptIndices(s);
    assert i in indices;
  }

  lemma FromKept(s: seq<Spec>, x: Spec) returns (i: nat)
    requires x in Kept(s)
    ensures i < |s| && s[i] == x && !Duplicate(s, i)
  {
    var indices := KeptIndices(s);
    var k :| 0 <= k < |Kept(s)| && Kept(s)[k] == x;
    i := indices[k];
    assert i in indices;
  }

  lemma NoTwoEqual(s: seq<Spec>)
    ensures forall i, j :: 0 <= i < j < |Kept(s)| ==> !Equal(Kept(s)[i], Kept(s)[j])
  {
    var indices := KeptIndices(s);
    forall i, j | 0 <= i < j < |Kept(s)| ensures !Equal(Kept(s)[i], Kept(s)[j]) {
      assert indices[j] in indices;
    }
  }

  /** Comparing the other way round only differs for an entry "hw:-1" against a GUID. */
  lemma EqualIsSymmetricIff(x: Spec, y: Spec)
    ensures Equal(x, y) && !Equal(y, x) <==> x == BusNode(-1, -1) && y.GuidSpec?
  {}

  lemma EqualIsTransitive(x: Spec, y: Spec, z: Spec)
    requires Equal(x, y) && Equal(y, z)
    ensures Equal(x, z)
  {}

  /** An entry dropped earlier has an equal that is still there. */
  lemma {:induction false} KeptStillHasEqual(s: seq<Spec>, x: Spec)
    ensures HasEqual(Kept(s), x) <==> HasEqual(s, x)
    decreases |s|
  {
    if s != [] {
      var n := |s| - 1;
      var front, last := s[..n], s[n];
      KeptStillHasEqual(front, x);
      assert s == front + [last];
      HasEqualConcat(front, [last], x);
      KeptSnoc(front, last);
      hide Kept, HasEqual;
      if HasEqual(front, last) {
        EqualToDropped(front, last, x);
      } else {
        HasEqualConcat(Kept(front), [last], x);
      }
    }
  }

  lemma KeptSnoc(front: seq<Spec>, last: Spec)
    ensures Kept(front + [last]) == if HasEqual(front, last) then Kept(front) else Kept(front) + [last]
  {
    assert (front + [last])[..|front|] == front;
  }

  /** What equals a dropped entry equals an earlier one. */
  lemma EqualToDropped(front: seq<Spec>, last: Spec, x: Spec)
    requires HasEqual(front, last)
    ensures HasEqual([last], x) ==> HasEqual(front, x)
  {
    if HasEqual([last], x) {
      assert Equal([last][0], x);
      var j :| 0 <= j < |front| && Equal(front[j], last);
      EqualIsTransitive(front[j], last, x);
    }
  }

  lemma HasEqualConcat(s: seq<Spec>, t: seq<Spec>, x: Spec)
    ensures HasEqual(s + t, x) <==> HasEqual(s, x) || HasEqual(t, x)
  {
    if HasEqual(s, x) {
      var i :| 0 <= i < |s| && Equal(s[i], x);
      assert (s + t)[i] == s[i];
    }
    if HasEqual(t, x) {
      var i :| 0 <= i < |t| && Equal(t[i], x);
      assert (s + t)[|s| + i] == t[i];
    }
  }

  lemma {:induction false} KeptTwice(s: seq<Spec>)
    ensures Kept(Kept(s)) == Kept(s)
    decreases |s|
  {
    if s != [] {
      var front, last := s[..|s| - 1], s[|s| - 1];
      KeptTwice(front);
      KeptStillHasEqual(front, last);
      if !HasEqual(front, last) {
        var t := Kept(front) + [last];
        assert Kept(s) == t && t[..|t| - 1] == Kept(front) && t[|t| - 1] == last;
        assert Kept(t) == Kept(Kept(front)) + [last];
      } else {
        assert Kept(s) == Kept(front) + [];
        assert Kept(s) == Kept(front);
      }
    }
  }

  /** Pruning what was pruned before together with new entries is pruning everything at once. */
  lemma {:induction false} PruneAgain(a: seq<Spec>, b: seq<Spec>)
    ensures Kept(Kept(a) + b) == Kept(a + b)
    decreases |b|
  {
    if b == [] {
      KeptTwice(a);
      assert a + b == a && Kept(a) + b == Kept(a);
    } else {
      var front, last := b[..|b| - 1], b[|b| - 1];
      PruneAgain(a, front);
      assert (a + b)[..|a + b| - 1] == a + front;
      assert (Kept(a) + b)[..|Kept(a) + b| - 1] == Kept(a) + front;
      KeptStillHasEqual(a + front, last);
      KeptStillHasEqual(Kept(a) + front, last);
    }
  }

  // ----- matching -----

  predicate MatchedBy(s: seq<Spec>, rom: Rom) {
    exists i :: 0 <= i < |s| && Matches(s[i], rom)
  }

  /** The position of the first match, -1 if there is none */
  predicate IsPosition(s: seq<Spec>, rom: Rom, pos: int) {
    if pos == -1 then !MatchedBy(s, rom)
    else 0 <= pos < |s| && Matches(s[pos], rom) && forall i :: 0 <= i < pos ==> !Matches(s[i], rom)
  }

  function PositionFrom(s: seq<Spec>, rom: Rom, k: nat): (pos: int)
    requires k <= |s|
    decreases |s| - k
  {
    if k == |s| then -1 else if Matches(s[k], rom) then k else PositionFrom(s, rom, k + 1)
  }

  function Position(s: seq<Spec>, rom: Rom): int {
    PositionFrom(s, rom, 0)
  }

  lemma {:induction false} PositionIsFirst(s: seq<Spec>, rom: Rom, k: nat)
    requires k <= |s| && forall i :: 0 <= i < k ==> !Matches(s[i], rom)
    ensures IsPosition(s, rom, PositionFrom(s, rom, k))
    ensures PositionFrom(s, rom, k) == PositionFrom(s, rom, 0)
    decreases |s| - k
  {
    if k < |s| && !Matches(s[k], rom) {
      PositionIsFirst(s, rom, k + 1);
    }
    SamePosition(s, rom, k);
  }

  lemma {:induction false} SamePosition(s: seq<Spec>, rom: Rom, k: nat)
    requires k <= |s| && forall i :: 0 <= i < k ==> !Matches(s[i], rom)
    ensures PositionFrom(s, rom, k) == PositionFrom(s, rom, 0)
    decreases k
  {
    if k > 0 {
      SamePosition(s, rom, k - 1);
    }
  }

  /** Every GUID entry that follows an entry "hw:-1" has its like before that entry. */
  predicate GuidsCovered(s: seq<Spec>) {
    forall j, i :: 0 <= j < i < |s| && s[j] == BusNode(-1, -1) && s[i].GuidSpec? && s[i].guid != 0 ==>
      s[i] in s[..j]
  }

  /** A survivor matches whatever a GUID or bus entry ahead of all its likes matches. */
  lemma FirstMatchSurvives(s: seq<Spec>, rom: Rom)
    requires GuidsCovered(s) && MatchedBy(s, rom)
    ensures MatchedBy(Kept(s), rom)
  {
    PositionIsFirst(s, rom, 0);
    var i := Position(s, rom);
    assert forall k :: 0 <= k < i ==> s[k] != s[i];
    forall j | 0 <= j < i ensures !Equal(s[j], s[i]) {
      assert s[i] !in s[..j];
    }
    InKept(s, i);
  }

  function FreePort(s: seq<Spec>): (p: nat)
    ensures forall i :: 0 <= i < |s| ==> s[i].Port() < p
  {
    if s == [] then 0
    else
      var p := FreePort(s[1..]);
      assert forall i :: 0 < i < |s| ==> s[i] == s[1..][i - 1];
      if s[0].Port() < p then p else s[0].Port() + 1
  }

  /**
   The set of matched config ROMs survives pruning exactly when no "hw:-1" shadows a GUID entry, and so
   whenever no port is negative.
   */
  lemma PruningKeepsMatches(s: seq<Spec>)
    ensures (forall i :: 0 <= i < |s| && s[i].BusNode? ==> s[i].port >= 0) ==> GuidsCovered(s)
    ensures (forall rom :: MatchedBy(Kept(s), rom) <==> MatchedBy(s, rom)) <==> GuidsCovered(s)
  {
    if GuidsCovered(s) {
      forall rom ensures MatchedBy(Kept(s), rom) <==> MatchedBy(s, rom) {
        if MatchedBy(Kept(s), rom) {
          var k :| 0 <= k < |Kept(s)| && Matches(Kept(s)[k], rom);
          var i := FromKept(s, Kept(s)[k]);
          assert Matches(s[i], rom);
        }
        if MatchedBy(s, rom) {
          FirstMatchSurvives(s, rom);
        }
      }
    } else {
      var j, i :| 0 <= j < i < |s| && s[j] == BusNode(-1, -1) && s[i].GuidSpec? && s[i].guid != 0 && s[i] !in s[..j];
      var rom := Rom(s[i].guid, FreePort(s), 0);
      assert Matches(s[i], rom);
      assert MatchedBy(s, rom);
      forall k | 0 <= k < |Kept(s)| ensures !Matches(Kept(s)[k], rom) {
        var m := FromKept(s, Kept(s)[k]);
        assert m < j ==> s[m] in s[..j];
        assert j < m && s[m].GuidSpec? ==> Equal(s[j], s[m]);
      }
      assert !MatchedBy(Kept(s), rom);
    }
  }

  /** "hw:-1" before a GUID: pruning removes the GUID, and its device is not matched any more. */
  lemma ShadowedGuid(guid: nat, rom: Rom)
    requires guid != 0 && rom.guid == guid
    ensures var s := [BusNode(-1, -1), GuidSpec(guid)];
            Kept(s) == [BusNode(-1, -1)] && MatchedBy(s, rom) && !MatchedBy(Kept(s), rom)
  {
    var hw, s := [BusNode(-1, -1)], [BusNode(-1, -1), GuidSpec(guid)];
    assert s[..1] == hw && hw[..0] == [] && Kept(hw) == [] + hw;
    assert Equal(hw[0], s[1]) && Matches(s[1], rom);
  }

  // ----- the text of a list of entries -----

  /** The substrings parseString hands to DeviceString::parse, in order */
  function Pieces(s: string): seq<string>
    decreases |s|
  {
    var k := Find(s, ";", 0);
    if k == |s| then [s]
    else [s[..k]] + if k + 1 == |s| then [] else Pieces(s[k + 1..])
  }

  /** These are the pieces between the semicolons, except that an empty string is one empty piece. */
  lemma {:induction false} PiecesAreSplit(s: string)
    ensures Pieces(s) == if s == "" then [""] else Split(s, ";")
    decreases |s|
  {
    hide SplitFrom, OccursAt, Find;
    if s != "" {
      var k := Find(s, ";", 0);
      SplitStep(s, ";", 0);
      assert s[0..k] == s[..k];
      SplitStep(s, ";", k + 1);
      if k < |s| && k + 1 < |s| {
        PiecesAreSplit(s[k + 1..]);
        SplitShift(s, k + 1, ";", 0);
      } else if k == |s| {
        assert s[..k] == s;
      }
    } else {
      assert Find(s, ";", 0) == 0;
    }
  }

  // ----- the parser object -----

  function Unwrapped(o: Option<Spec>): seq<Spec> {
    if o.Some? then [o.value] else []
  }

  /** The specs of the pieces that parse */
  function Parsed(pieces: seq<string>, numbers: Numbers): seq<Spec> {
    if pieces == [] then [] else Unwrapped(ParsePiece(numbers, pieces[0])) + Parsed(pieces[1..], numbers)
  }

  /** strtol and strtoll; None where they set errno */
  datatype Numbers = Numbers(strtol: string -> Option<int>, strtoll: string -> Option<nat>)

  /** DeviceString::parse */
  function ParsePiece(numbers: Numbers, s: string): Option<Spec> {
    if "hw:" <= s then
      var detail := s[3..];
      var comma := Find(detail, ",", 0);
      if comma == |detail| then
        var port := numbers.strtol(detail);
        if port.None? then None else Some(BusNode(port.value, -1))
      else
        var port, node := numbers.strtol(detail[..comma]), numbers.strtol(detail[comma + 1..]);
        if port.None? || node.None? then None else Some(BusNode(port.value, node.value))
    else if "guid:" <= s then
      var guid := numbers.strtoll(s[5..]);
      if guid.None? then None else Some(GuidSpec(guid.value))
    else None
  }

  datatype Entry = Entry(handle: nat, spec: Spec)

  function Specs(entries: seq<Entry>): (s: seq<Spec>)
    ensures |s| == |entries|
    ensures forall i :: 0 <= i < |s| ==> s[i] == entries[i].spec
  {
    seq(|entries|, i requires 0 <= i < |entries| => entries[i].spec)
  }

  function Handles(entries: seq<Entry>): (s: seq<nat>)
    ensures |s| == |entries|
    ensures forall i :: 0 <= i < |s| ==> s[i] == entries[i].handle
  {
    seq(|entries|, i requires 0 <= i < |entries| => entries[i].handle)
  }

  predicate Distinct(entries: seq<Entry>) {
    forall i, j :: 0 <= i < j < |entries| ==> entries[i].handle != entries[j].handle
  }

  /** The entries whose handles are not among those gone. */
  function Without(entries: seq<Entry>, gone: seq<nat>): seq<Entry> {
    if entries == [] then []
    else
      var front, x := entries[..|entries| - 1], entries[|entries| - 1];
      Without(front, gone) + if x.handle in gone then [] else [x]
  }

  lemma {:induction false} WithoutIsPart(entries: seq<Entry>, gone: seq<nat>)
    requires Distinct(entries)
    ensures Distinct(Without(entries, gone))
    ensures forall x :: x in Without(entries, gone) ==> x in entries && x.handle !in gone
    decreases |entries|
  {
    if entries != [] {
      WithoutIsPart(entries[..|entries| - 1], gone);
    }
  }

  lemma {:induction false} WithoutMore(entries: seq<Entry>, gone: seq<nat>, h: nat)
    ensures Without(Without(entries, gone), [h]) == Without(entries, gone + [h])
    decreases |entries|
  {
    if entries != [] {
      var front, x := entries[..|entries| - 1], entries[|entries| - 1];
      WithoutMore(front, gone, h);
      if x.handle in gone {
        assert Without(entries, gone) == Without(front, gone);
      } else {
        var t := Without(front, gone) + [x];
        assert Without(entries, gone) == t && t[..|t| - 1] == Without(front, gone);
        assert Without(t, [h]) == Without(Without(front, gone), [h]) + if x.handle == h then [] else [x];
      }
    }
  }

  lemma {:induction false} WithoutNone(entries: seq<Entry>, gone: seq<nat>)
    requires forall i :: 0 <= i < |entries| ==> entries[i].handle !in gone
    ensures Without(entries, gone) == entries
    decreases |entries|
  {
    if entries != [] {
      WithoutNone(entries[..|entries| - 1], gone);
    }
  }

  lemma {:induction false} WithoutAt(entries: seq<Entry>, i: nat)
    requires Distinct(entries) && i < |entries|
    ensures Without(entries, [entries[i].handle]) == entries[..i] + entries[i + 1..]
    decreases |entries|
  {
    hide Without, Distinct;
    var n := |entries| - 1;
    var front := entries[..n];
    DistinctFront(entries);
    WithoutLast(entries, [entries[i].handle]);
    if i == n {
      WithoutNone(front, [entries[i].handle]);
      assert entries[i + 1..] == [];
    } else {
      WithoutAt(front, i);
      assert front[..i] + front[i + 1..] + [entries[n]] == entries[..i] + entries[i + 1..];
    }
  }

  lemma DistinctFront(entries: seq<Entry>)
    requires Distinct(entries) && entries != []
    ensures Distinct(entries[..|entries| - 1])
    ensures forall k :: 0 <= k < |entries| - 1 ==> entries[k].handle != entries[|entries| - 1].handle
  {}

  lemma WithoutLast(entries: seq<Entry>, gone: seq<nat>)
    requires entries != []
    ensures var front, x := entries[..|entries| - 1], entries[|entries| - 1];
            Without(entries, gone) == Without(front, gone) + if x.handle in gone then [] else [x]
  {}

  /** Taking out the handles of all duplicates is pruning. */
  lemma {:induction false} WithoutDuplicates(entries: seq<Entry>, gone: seq<nat>)
    requires forall b: nat :: b < |entries| ==> (entries[b].handle in gone <==> Duplicate(Specs(entries), b))
    ensures Specs(Without(entries, gone)) == Kept(Specs(entries))
    decreases |entries|
  {
    hide Duplicate, HasEqual, Equal;
    if entries != [] {
      var n := |entries| - 1;
      var front := entries[..n];
      assert Specs(entries)[..n] == Specs(front);
      DuplicateInPrefix(Specs(entries), n);
      WithoutDuplicates(front, gone);
    }
  }

  class DeviceStringParser {
    const numbers: Numbers
    var strings: seq<Entry>
    // The objects deleted so far, and the number of objects created so far.
    var freed: seq<nat>
    var created: nat

    /** Every object created is either in the list or has been deleted, and that exactly once. */
    ghost predicate Valid()
      reads this
    {
      && Distinct(strings)
      && (forall i :: 0 <= i < |strings| ==> strings[i].handle < created)
      && Objects(strings, freed) == Created(created)
    }

    constructor (numbers: Numbers)
      ensures Valid() && strings == [] && freed == [] && this.numbers == numbers
    {
      this.numbers, strings, freed, created := numbers, [], [], 0;
    }

    method FindDeviceString(h: nat) returns (i: int)
      ensures i == -1 ==> forall k :: 0 <= k < |strings| ==> strings[k].handle != h
      ensures i != -1 ==> 0 <= i < |strings| && strings[i].handle == h
    {
      i := 0;
      while i < |strings|
        invariant 0 <= i <= |strings|
        invariant forall k :: 0 <= k < i ==> strings[k].handle != h
      {
        if strings[i].handle == h {
          return i;
        }
        i := i + 1;
      }
      return -1;
    }

    /** Removes and deletes an object, or does nothing when it is not (or no longer) in the list. */
    method RemoveDeviceString(h: nat) returns (ok: bool)
      requires Valid()
      modifies this
      ensures Valid() && created == old(created)
      ensures ok <==> h in Handles(old(strings))
      ensures strings == Without(old(strings), [h])
      ensures freed == if ok then old(freed) + [h] else old(freed)
    {
      hide Distinct, Objects, Created, Without, Handles;
      var i := FindDeviceString(h);
      if i < 0 {
        WithoutNone(strings, [h]);
        NoHandle(strings, h);
        return false;
      }
      assert Handles(strings)[i] == h;
      WithoutAt(strings, i);
      WithoutIsPart(strings, [h]);
      ObjectMoved(strings, freed, i);
      StillBounded(strings, Without(strings, [h]), created);
      strings := strings[..i] + strings[i + 1..];
      freed := freed + [h];
      return true;
    }

    method AddDeviceString(h: nat, spec: Spec) returns (ok: bool)
      requires Valid() && h == created
      modifies this
      ensures Valid() && created == old(created) + 1 && freed == old(freed)
      ensures ok && strings == old(strings) + [Entry(h, spec)]
    {
      var i := FindDeviceString(h);
      DistinctEntries(strings, created, spec);
      ObjectCreated(strings, freed, created, spec);
      hide Distinct, Objects, Created;
      created := created + 1;
      strings := strings + [Entry(h, spec)];
      return true;
    }

    /** The handles of all entries equal to an earlier one; one of them may be listed several times. */
    method FindDuplicates() returns (duplicates: seq<nat>)
      requires Valid()
      ensures forall b: nat :: b < |strings| ==> (strings[b].handle in duplicates <==> Duplicate(Specs(strings), b))
    {
      duplicates := [];
      ghost var specs := Specs(strings);
      var a: nat := 0;
      while a < |strings|
        invariant a <= |strings| == |specs|
        invariant forall b: nat :: b < |strings| ==> (strings[b].handle in duplicates <==> EqualBefore(specs, a, b))
      {
        var b: nat := a + 1;
        ghost var before := duplicates;
        while b < |strings|
          invariant a < b <= |strings|
          invariant forall c: nat :: c < |strings| ==>
            (strings[c].handle in duplicates <==>
               strings[c].handle in before || (a < c < b && Equal(specs[a], specs[c])))
        {
          if Equal(strings[a].spec, strings[b].spec) {
            duplicates := duplicates + [strings[b].handle];
          }
          b := b + 1;
        }
        EqualBeforeNext(specs, a);
        a := a + 1;
      }
    }

    method PruneDuplicates()
      requires Valid()
      modifies this
      ensures Valid() && created == old(created)
      ensures Specs(strings) == Kept(old(Specs(strings)))
    {
      var duplicates := FindDuplicates();
      WithoutDuplicates(strings, duplicates);
      RemoveAll(duplicates);
    }

    method RemoveAll(duplicates: seq<nat>)
      requires Valid()
      modifies this
      ensures Valid() && created == old(created)
      ensures strings == Without(old(strings), duplicates)
    {
      hide Without, Distinct, Objects, Created;
      WithoutNone(strings, []);
      var k: nat := 0;
      while k < |duplicates|
        invariant k <= |duplicates|
        invariant Valid() && created == old(created)
        invariant strings == Without(old(strings), duplicates[..k])
      {
        WithoutMore(old(strings), duplicates[..k], duplicates[k]);
        assert duplicates[..k] + [duplicates[k]] == duplicates[..k + 1];
        var _ := RemoveDeviceString(duplicates[k]);
        k := k + 1;
      }
      assert duplicates[..k] == duplicates;
    }

    /** One round of parseString's loop: a new object parses the piece and is kept or deleted at once. */
    method AddPiece(piece: string)
      requires Valid()
      modifies this
      ensures Valid()
      ensures Specs(strings) == old(Specs(strings)) + Unwrapped(ParsePiece(numbers, piece))
    {
      var h := created;
      var spec := ParsePiece(numbers, piece);
      if spec.Some? {
        var _ := AddDeviceString(h, spec.value);
        SpecsSnoc(old(strings), Entry(h, spec.value));
      } else {
        ObjectDropped(strings, freed, created);
        created := created + 1;
        freed := freed + [h];
      }
    }

    /** parseString always succeeds; the list is then what pruning leaves of the old and the new entries. */
    method ParseString(s: string) returns (ok: bool)
      requires Valid()
      modifies this
      ensures Valid() && ok
      ensures Specs(strings) ==
              Kept(old(Specs(strings)) + Parsed(Pieces(s), numbers))
    {
      hide Find, Pieces, Parsed, ParsePiece, Specs, Kept, Objects, Created, Distinct;
      var tmp := s;
      var more := true;
      ghost var all := old(Specs(strings)) + Parsed(Pieces(s), numbers);
      while more
        invariant Valid()
        invariant if more then Specs(strings) + Parsed(Pieces(tmp), numbers) == all else Specs(strings) == all
        decreases more, |tmp|
      {
        ghost var was := Specs(strings);
        var nextSep := Find(tmp, ";", 0);
        var toParse := tmp[..nextSep];
        FirstPieceParsed(tmp, numbers);
        AddPiece(toParse);
        more := nextSep < |tmp| && nextSep + 1 < |tmp|;
        if nextSep < |tmp| {
          tmp := tmp[nextSep + 1..];
        }
      }
      PruneDuplicates();
      return true;
    }

    method MatchPosition(rom: Rom) returns (pos: int)
      ensures pos == Position(Specs(strings), rom) && IsPosition(Specs(strings), rom, pos)
    {
      PositionIsFirst(Specs(strings), rom, 0);
      pos := 0;
      while pos < |strings|
        invariant 0 <= pos <= |strings|
        invariant Position(Specs(strings), rom) == PositionFrom(Specs(strings), rom, pos)
      {
        if Matches(strings[pos].spec, rom) {
          return;
        }
        pos := pos + 1;
      }
      return -1;
    }

    method Match(rom: Rom) returns (m: bool)
      ensures m <==> MatchedBy(Specs(strings), rom)
    {
      var pos := MatchPosition(rom);
      return pos != -1;
    }
  }

  lemma SpecsSnoc(entries: seq<Entry>, x: Entry)
    ensures Specs(entries + [x]) == Specs(entries) + [x.spec]
  {}

  predicate EqualBefore(specs: seq<Spec>, n: nat, b: nat)
    requires b < |specs|
  {
    exists a :: 0 <= a < n && a < b && Equal(specs[a], specs[b])
  }

  lemma EqualBeforeNext(specs: seq<Spec>, n: nat)
    requires n < |specs|
    ensures forall b: nat :: b < |specs| ==>
              (EqualBefore(specs, n + 1, b) <==> EqualBefore(specs, n, b) || (n < b && Equal(specs[n], specs[b])))
  {}

  lemma FirstPieceParsed(s: string, numbers: Numbers)
    ensures var k := Find(s, ";", 0);
            Parsed(Pieces(s), numbers) ==
            Unwrapped(ParsePiece(numbers, s[..k]))
            + if k < |s| && k + 1 < |s| then Parsed(Pieces(s[k + 1..]), numbers) else []
  {
    hide Pieces, Find, ParsePiece, Unwrapped;
    var k := Find(s, ";", 0);
    FirstPieceFound(s);
    var rest := if k < |s| && k + 1 < |s| then Pieces(s[k + 1..]) else [];
    assert Pieces(s)[1..] == rest;
    assert Parsed([], numbers) == [];
  }

  lemma FirstPieceFound(s: string)
    ensures var k := Find(s, ";", 0);
            Pieces(s) == [s[..k]] + if k < |s| && k + 1 < |s| then Pieces(s[k + 1..]) else []
  {
    hide Find;
    var k := Find(s, ";", 0);
    if k == |s| {
      assert s[..k] == s && [s] + [] == [s];
    } else if k + 1 == |s| {
      assert Pieces(s) == [s[..k]] + [];
    } else {
      assert Pieces(s) == [s[..k]] + Pieces(s[k + 1..]);
    }
  }

  // ----- objects -----

  ghost function Objects(entries: seq<Entry>, freed: seq<nat>): multiset<nat> {
    multiset(Handles(entries)) + multiset(freed)
  }

  ghost function Created(n: nat): multiset<nat> {
    if n == 0 then multiset{} else Created(n - 1) + multiset{n - 1}
  }

  lemma ObjectMoved(entries: seq<Entry>, freed: seq<nat>, i: nat)
    requires i < |entries|
    ensures Objects(entries[..i] + entries[i + 1..], freed + [entries[i].handle]) == Objects(entries, freed)
  {
    var h := Handles(entries);
    assert Handles(entries[..i] + entries[i + 1..]) == h[..i] + h[i + 1..];
    assert h == h[..i] + [h[i]] + h[i + 1..];
  }

  lemma ObjectCreated(entries: seq<Entry>, freed: seq<nat>, n: nat, spec: Spec)
    requires Objects(entries, freed) == Created(n)
    ensures Objects(entries + [Entry(n, spec)], freed) == Created(n + 1)
  {
    assert Handles(entries + [Entry(n, spec)]) == Handles(entries) + [n];
  }

  lemma NoHandle(entries: seq<Entry>, h: nat)
    requires forall i :: 0 <= i < |entries| ==> entries[i].handle != h
    ensures h !in Handles(entries)
  {}

  lemma StillBounded(entries: seq<Entry>, rest: seq<Entry>, n: nat)
    requires forall i :: 0 <= i < |entries| ==> entries[i].handle < n
    requires forall x :: x in rest ==> x in entries
    ensures forall i :: 0 <= i < |rest| ==> rest[i].handle < n
  {
    forall i | 0 <= i < |rest| ensures rest[i].handle < n {
      assert rest[i] in rest;
    }
  }

  lemma DistinctEntries(entries: seq<Entry>, n: nat, spec: Spec)
    requires Distinct(entries) && forall i :: 0 <= i < |entries| ==> entries[i].handle < n
    ensures Distinct(entries + [Entry(n, spec)])
    ensures forall i :: 0 <= i < |entries| + 1 ==> (entries + [Entry(n, spec)])[i].handle < n + 1
  {}

  lemma ObjectDropped(entries: seq<Entry>, freed: seq<nat>, n: nat)
    requires Objects(entries, freed) == Created(n)
    ensures Objects(entries, freed + [n]) == Created(n + 1)
  {}

  // ----- any sequence of calls -----

  /** The specs listed after a sequence of parseString calls, each of which prunes. */
  function AfterCalls(numbers: Numbers, texts: seq<string>): seq<Spec> {
    if texts == [] then []
    else Kept(AfterCalls(numbers, texts[..|texts| - 1]) + Parsed(Pieces(texts[|texts| - 1]), numbers))
  }

  /** All the specs in these texts */
  function AllSpecs(numbers: Numbers, texts: seq<string>): seq<Spec> {
    if texts == [] then []
    else AllSpecs(numbers, texts[..|texts| - 1]) + Parsed(Pieces(texts[|texts| - 1]), numbers)
  }

  /**
   However the entries are spread over calls, the list is the one that pruning all of them at once
   leaves, has no equal entries, and matches the same ROMs exactly when no "hw:-1" shadows a GUID.
   */
  lemma {:induction false} CallsPruneOnce(numbers: Numbers, texts: seq<string>)
    ensures AfterCalls(numbers, texts) == Kept(AllSpecs(numbers, texts))
    ensures (forall rom :: MatchedBy(AfterCalls(numbers, texts), rom) <==> MatchedBy(AllSpecs(numbers, texts), rom))
            <==> GuidsCovered(AllSpecs(numbers, texts))
    decreases |texts|
  {
    if texts != [] {
      var before := texts[..|texts| - 1];
      CallsPruneOnce(numbers, before);
      PruneAgain(AllSpecs(numbers, before), Parsed(Pieces(texts[|texts| - 1]), numbers));
    }
    PruningKeepsMatches(AllSpecs(numbers, texts));
  }

  // ----- what the text of an entry means -----

  lemma FoundAfter(a: string, d: char, b: string)
    requires d !in a
    ensures Find(a + [d] + b, [d], 0) == |a|
  {
    var s := a + [d] + b;
    assert s[|a|..|a| + 1] == [d];
    SkipTo(s, [d], 0, |a|);
  }

  lemma NotFound(a: string, d: char)
    requires d !in a
    ensures Find(a, [d], 0) == |a|
  {
    SkipTo(a, [d], 0, |a|);
  }

  /** "hw:" and two numbers with a comma between them: port and node, if both can be read */
  lemma NodeText(numbers: Numbers, a: string, b: string)
    requires ',' !in a
    ensures var port, node := numbers.strtol(a), numbers.strtol(b);
            ParsePiece(numbers, "hw:" + a + "," + b) ==
            if port.Some? && node.Some? then Some(BusNode(port.value, node.value)) else None
  {
    var s := "hw:" + a + "," + b;
    FoundAfter(a, ',', b);
    assert "hw:" <= s && s[3..] == a + [','] + b;
    assert s[3..][..|a|] == a && s[3..][|a| + 1..] == b;
  }

  /** "hw:" and one number: a port, with any node */
  lemma PortText(numbers: Numbers, a: string)
    requires ',' !in a
    ensures var port := numbers.strtol(a);
            ParsePiece(numbers, "hw:" + a) == if port.Some? then Some(BusNode(port.value, -1)) else None
  {
    var s := "hw:" + a;
    NotFound(a, ',');
    assert "hw:" <= s && s[3..] == a;
  }

  /** "guid:" and a number */
  lemma GuidText(numbers: Numbers, g: string)
    ensures var guid := numbers.strtoll(g);
            ParsePiece(numbers, "guid:" + g) == if guid.Some? then Some(GuidSpec(guid.value)) else None
  {
    var s := "guid:" + g;
    assert s[0] == 'g' && !("hw:" <= s) && "guid:" <= s && s[5..] == g;
  }

  lemma OnePieceParsed(numbers: Numbers, s: string)
    requires ';' !in s
    ensures Kept(Parsed(Pieces(s), numbers)) == Unwrapped(ParsePiece(numbers, s))
  {
    hide ParsePiece, Find;
    NotFound(s, ';');
    FirstPieceParsed(s, numbers);
    assert s[..|s|] == s;
    hide Pieces, Parsed;
    KeptOne(Unwrapped(ParsePiece(numbers, s)));
  }

  lemma KeptOne(s: seq<Spec>)
    requires |s| <= 1
    ensures Kept(s) == s
  {
    if |s| == 1 {
      assert s[..0] == [] && s == [s[0]] && Kept(s) == [] + [s[0]];
    }
  }

  lemma MatchedByOne(spec: Spec, rom: Rom)
    ensures MatchedBy([spec], rom) <==> Matches(spec, rom)
  {
    assert [spec][0] == spec;
  }

  /** A parser that is given one text */
  method ParseOne(numbers: Numbers, s: string) returns (parser: DeviceStringParser)
    requires ';' !in s
    ensures fresh(parser) && parser.Valid() && Specs(parser.strings) == Unwrapped(ParsePiece(numbers, s))
  {
    hide Pieces, Parsed, ParsePiece, Kept, Objects, Created, Distinct;
    parser := new DeviceStringParser(numbers);
    OnePieceParsed(numbers, s);
    assert Specs(parser.strings) == [] && [] + Parsed(Pieces(s), numbers) == Parsed(Pieces(s), numbers);
    var _ := parser.ParseString(s);
  }

  /** It accepts a device by port and node; a negative port accepts nothing, a negative node any. */
  method MatchNodeText(numbers: Numbers, a: string, b: string, port: int, node: int, rom: Rom) returns (m: bool)
    requires ',' !in a && ';' !in a && ';' !in b
    requires numbers.strtol(a) == Some(port) && numbers.strtol(b) == Some(node)
    ensures m <==> port >= 0 && rom.port == port && (node < 0 || rom.node == node)
  {
    hide ParsePiece;
    NodeText(numbers, a, b);
    MatchedByOne(BusNode(port, node), rom);
    var parser := ParseOne(numbers, "hw:" + a + "," + b);
    m := parser.Match(rom);
  }

  /** It accepts all devices on a port. */
  method MatchPortText(numbers: Numbers, a: string, port: int, rom: Rom) returns (m: bool)
    requires ',' !in a && ';' !in a && numbers.strtol(a) == Some(port)
    ensures m <==> port >= 0 && rom.port == port
  {
    hide ParsePiece;
    PortText(numbers, a);
    MatchedByOne(BusNode(port, -1), rom);
    var parser := ParseOne(numbers, "hw:" + a);
    m := parser.Match(rom);
  }

  /** It accepts a device by its GUID, but none for a GUID of zero. */
  method MatchGuidText(numbers: Numbers, g: string, guid: nat, rom: Rom) returns (m: bool)
    requires ';' !in g && numbers.strtoll(g) == Some(guid)
    ensures m <==> guid != 0 && rom.guid == guid
  {
    hide ParsePiece;
    GuidText(numbers, g);
    MatchedByOne(GuidSpec(guid), rom);
    var parser := ParseOne(numbers, "guid:" + g);
    m := parser.Match(rom);
  }
}
