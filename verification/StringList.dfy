/**
 Splitting and joining lists of names (ffadotypes.h, stringlist).
 */
module StringList {

  /** d occurs in s at position k. */
  predicate OccursAt(s: string, d: string, k: nat) {
    k + |d| <= |s| && s[k..k + |d|] == d
  }

  /** std::string::find from start on, with the end of the string when there is no occurrence */
  function Find(s: string, d: string, start: nat): (k: nat)
    requires start <= |s|
    ensures start <= k <= |s|
    decreases |s| - start
  {
    if start == |s| || OccursAt(s, d, start) then start else Find(s, d, start + 1)
  }

  lemma {:induction false} FindsFirst(s: string, d: string, start: nat)
    requires start <= |s|
    ensures Find(s, d, start) < |s| ==> OccursAt(s, d, Find(s, d, start))
    ensures forall j: nat :: start <= j < Find(s, d, start) ==> !OccursAt(s, d, j)
    decreases |s| - start
  {
    if start < |s| && !OccursAt(s, d, start) {
      FindsFirst(s, d, start + 1);
    }
  }

  function SplitFrom(s: string, d: string, start: nat): seq<string>
    requires d != ""
    decreases |s| - start
  {
    if start >= |s| then []
    else
      var end := Find(s, d, start);
      [s[start..end]] + SplitFrom(s, d, end + |d|)
  }

  lemma SplitStep(s: string, d: string, start: nat)
    requires d != ""
    ensures start < |s| ==>
              SplitFrom(s, d, start) == [s[start..Find(s, d, start)]] + SplitFrom(s, d, Find(s, d, start) + |d|)
    ensures start >= |s| ==> SplitFrom(s, d, start) == []
  {}

  function Split(s: string, d: string): seq<string>
    requires d != ""
  {
    SplitFrom(s, d, 0)
  }

  function Join(xs: seq<string>, d: string): string {
    if xs == [] then "" else if |xs| == 1 then xs[0] else xs[0] + d + Join(xs[1..], d)
  }

  lemma Appended(xs: seq<string>, x: string, ys: seq<string>)
    ensures xs + ([x] + ys) == xs + [x] + ys
  {}

  /** With an empty delimiter the loop would not advance. */
  method SplitString(s: string, delimiter: string) returns (result: seq<string>)
    requires delimiter != ""
    ensures result == Split(s, delimiter)
  {
    hide SplitFrom, Find;
    result := [];
    var start: nat := 0;
    while start < |s|
      invariant result + SplitFrom(s, delimiter, start) == Split(s, delimiter)
      decreases |s| - start
    {
      SplitStep(s, delimiter, start);
      var end := Find(s, delimiter, start);
      SplitStep(s, delimiter, end + |delimiter|);
      Appended(result, s[start..end], SplitFrom(s, delimiter, end + |delimiter|));
      result := result + [s[start..end]];
      start := end + |delimiter|;
    }
    SplitStep(s, delimiter, start);
  }

  method JoinStrings(xs: seq<string>, joiner: string) returns (result: string)
    ensures result == Join(xs, joiner)
  {
    result := "";
    var i := 0;
    while i < |xs|
      invariant 0 <= i <= |xs|
      invariant result + Join(xs[i..], joiner) == Join(xs, joiner)
    {
      assert xs[i..][1..] == xs[i + 1..];
      result := result + xs[i];
      i := i + 1;
      if i < |xs| {
        result := result + joiner;
      }
    }
  }

  // ----- join after split -----

  /** The scan from start on consumes a delimiter that ends the string. */
  predicate EndsOnDelimiter(s: string, d: string, start: nat)
    requires d != ""
    decreases |s| - start
  {
    start < |s| &&
    var end := Find(s, d, start);
    (end < |s| && end + |d| == |s|) || EndsOnDelimiter(s, d, end + |d|)
  }

  lemma {:induction false} JoinSplitFrom(s: string, d: string, start: nat)
    requires d != "" && start <= |s|
    ensures Join(SplitFrom(s, d, start), d) + (if EndsOnDelimiter(s, d, start) then d else "") == s[start..]
    decreases |s| - start
  {
    hide SplitFrom, Find;
    SplitStep(s, d, start);
    if start < |s| {
      FindsFirst(s, d, start);
      var end := Find(s, d, start);
      var next := end + |d|;
      SplitStep(s, d, next);
      var piece := s[start..end];
      if next < |s| {
        var rest := SplitFrom(s, d, next);
        JoinSplitFrom(s, d, next);
        JoinedPiece(piece, rest, d);
        TwoCuts(s, start, end, next);
      } else {
        assert SplitFrom(s, d, next) == [];
        if end < |s| {
          TwoCuts(s, start, end, next);
        }
      }
    }
  }

  lemma JoinedPiece(x: string, rest: seq<string>, d: string)
    requires rest != []
    ensures Join([x] + rest, d) == x + d + Join(rest, d)
  {
    assert ([x] + rest)[1..] == rest;
  }

  lemma TwoCuts(s: string, a: nat, b: nat, c: nat)
    requires a <= b <= c <= |s|
    ensures s[a..] == s[a..b] + s[b..c] + s[c..]
  {}

  /** Joining what was split gives the string back, short of one delimiter that the scan consumed at the very end. */
  lemma JoinAfterSplit(s: string, d: string)
    requires d != ""
    ensures !EndsOnDelimiter(s, d, 0) ==> Join(Split(s, d), d) == s
    ensures EndsOnDelimiter(s, d, 0) ==> Join(Split(s, d), d) + d == s
    ensures Join(Split(s, d), d) == s <==> !EndsOnDelimiter(s, d, 0)
  {
    JoinSplitFrom(s, d, 0);
    assert s[0..] == s;
    assert |Join(Split(s, d), d) + d| > |Join(Split(s, d), d)|;
  }

  /** With a delimiter of one character the scan ends on a delimiter exactly when the string does. */
  lemma {:induction false} OneCharacterEnd(s: string, d: string, start: nat)
    requires |d| == 1
    ensures EndsOnDelimiter(s, d, start) <==> start < |s| && s[|s| - 1..] == d
    decreases |s| - start
  {
    if start < |s| {
      FindsFirst(s, d, start);
      var end := Find(s, d, start);
      OneCharacterEnd(s, d, end + 1);
      if end == |s| {
        assert !OccursAt(s, d, |s| - 1);
      } else if end + 1 == |s| {
        assert s[end..end + 1] == s[end..];
      }
    }
  }

  // ----- split after join, for a delimiter of one character -----

  lemma SliceShift(u: string, off: nat, i: nat, j: nat)
    requires off <= |u| && i <= j <= |u| - off
    ensures u[off..][i..j] == u[off + i..off + j]
  {}

  lemma {:induction false} FindShift(u: string, off: nat, d: string, start: nat)
    requires off <= |u| && start <= |u| - off
    ensures Find(u, d, off + start) == off + Find(u[off..], d, start)
    decreases |u| - start
  {
    if start < |u| - off {
      if start + |d| <= |u| - off {
        SliceShift(u, off, start, start + |d|);
      }
      assert OccursAt(u, d, off + start) == OccursAt(u[off..], d, start);
      FindShift(u, off, d, start + 1);
    }
  }

  lemma {:induction false} SplitShift(u: string, off: nat, d: string, start: nat)
    requires d != "" && off <= |u|
    ensures SplitFrom(u, d, off + start) == SplitFrom(u[off..], d, start)
    decreases |u| - start
  {
    hide SplitFrom, Find, OccursAt;
    SplitStep(u, d, off + start);
    SplitStep(u[off..], d, start);
    if start < |u| - off {
      var end := Find(u[off..], d, start);
      FindShift(u, off, d, start);
      SliceShift(u, off, start, end);
      SplitShift(u, off, d, end + |d|);
      assert off + (end + |d|) == off + end + |d|;
    }
  }

  predicate Contains(x: string, d: string) {
    exists k: nat :: k <= |x| && OccursAt(x, d, k)
  }

  predicate Splittable(xs: seq<string>, d: string) {
    && (forall i :: 0 <= i < |xs| ==> !Contains(xs[i], d))
    && (xs != [] ==> xs[|xs| - 1] != "")
  }

  lemma FirstPiece(x: string, d: string, t: string)
    requires |d| == 1 && !Contains(x, d)
    ensures Find(x + d + t, d, 0) == |x|
  {
    var s := x + d + t;
    assert OccursAt(s, d, |x|);
    FindsFirst(s, d, 0);
    var k := Find(s, d, 0);
    if k < |x| {
      assert s[k..k + 1] == x[k..k + 1];
      assert OccursAt(x, d, k);
    }
  }

  lemma {:induction false} SplitJoined(xs: seq<string>, d: string)
    requires |d| == 1 && Splittable(xs, d)
    ensures Split(Join(xs, d), d) == xs
    decreases |xs|
  {
    if |xs| == 1 {
      OnePiece(xs[0], d);
    } else if |xs| > 1 {
      var x, t := xs[0], Join(xs[1..], d);
      SplitJoined(xs[1..], d);
      FirstPiece(x, d, t);
      var s := x + d + t;
      assert s[0..|x|] == x && s[|x| + 1..] == t;
      SplitShift(s, |x| + 1, d, 0);
    }
  }

  lemma OnePiece(x: string, d: string)
    requires |d| == 1 && !Contains(x, d) && x != ""
    ensures Split(x, d) == [x]
  {
    FindsFirst(x, d, 0);
    assert Find(x, d, 0) == |x|;
    assert x[0..|x|] == x;
    assert SplitFrom(x, d, |x| + 1) == [];
  }

  lemma {:induction false} PiecesAreClean(s: string, d: string, start: nat, i: nat)
    requires |d| == 1 && i < |SplitFrom(s, d, start)|
    ensures !Contains(SplitFrom(s, d, start)[i], d)
    decreases |s| - start
  {
    FindsFirst(s, d, start);
    var end := Find(s, d, start);
    if i > 0 {
      PiecesAreClean(s, d, end + 1, i - 1);
    } else {
      CleanBefore(s, d, start, end);
    }
  }

  lemma CleanBefore(s: string, d: string, start: nat, end: nat)
    requires |d| == 1 && start <= end <= |s|
    requires forall k | start <= k < end :: !OccursAt(s, d, k)
    ensures !Contains(s[start..end], d)
  {
    forall k: nat | k <= end - start ensures !OccursAt(s[start..end], d, k) {
      if k < end - start {
        assert !OccursAt(s, d, start + k);
        var piece := s[start..end];
        assert piece[k] == s[start + k];
        assert piece[k..k + 1] == [piece[k]] == s[start + k..start + k + 1];
      }
    }
  }

  lemma {:induction false} JoinedEnd(xs: seq<string>, d: string)
    requires |d| == 1 && |xs| >= 2 && xs[|xs| - 1] == ""
    ensures |Join(xs, d)| > 0 && Join(xs, d)[|Join(xs, d)| - 1..] == d
    decreases |xs|
  {
    if |xs| > 2 {
      JoinedEnd(xs[1..], d);
    } else {
      assert Join(xs[1..], d) == "";
    }
  }

  /**
   Splitting what was joined gives the list back exactly when no element contains the delimiter
   and the last element is not empty.
   */
  lemma SplitAfterJoin(xs: seq<string>, d: string)
    requires |d| == 1
    ensures Split(Join(xs, d), d) == xs <==> Splittable(xs, d)
  {
    if Splittable(xs, d) {
      SplitJoined(xs, d);
    } else if Split(Join(xs, d), d) == xs {
      forall i | 0 <= i < |xs| ensures !Contains(xs[i], d) {
        PiecesAreClean(Join(xs, d), d, 0, i);
      }
      JoinAfterSplit(Join(xs, d), d);
      OneCharacterEnd(Join(xs, d), d, 0);
      if |xs| >= 2 {
        JoinedEnd(xs, d);
      }
      assert false;
    }
  }

  // ----- lists of names as DICE devices store them -----

  /** Device::splitNameString (dice_avdevice.cpp): names separated by one backslash, ended by two */
  method SplitNameString(s: string) returns (names: seq<string>)
    ensures names == SplitNames(s)
  {
    var text := s[..Find(s, "\\\\", 0)];
    names := SplitString(text, "\\");
  }

  function SplitNames(s: string): seq<string> {
    Split(s[..Find(s, "\\\\", 0)], "\\")
  }

  predicate Names(xs: seq<string>) {
    forall i :: 0 <= i < |xs| ==> xs[i] != "" && !Contains(xs[i], "\\")
  }

  /** Nothing in a joined list of proper names looks like the end of the list. */
  lemma {:induction false} NoEarlyEnd(xs: seq<string>, t: string)
    requires Names(xs) && xs != []
    ensures Join(xs, "\\") != "" && Join(xs, "\\")[0] != '\\'
    ensures Find(Join(xs, "\\") + "\\\\" + t, "\\\\", 0) == |Join(xs, "\\")|
    decreases |xs|
  {
    hide Find, OccursAt;
    var x, d, e := xs[0], "\\", "\\\\";
    CleanName(x);
    if |xs| == 1 {
      FindAfterName(x, e + t);
      FindHere(e, t);
      assert x + (e + t) == x + e + t;
    } else {
      var rest := Join(xs[1..], d) + e + t;
      NoEarlyEnd(xs[1..], t);
      FindAfterName(x, d + rest);
      FindAfterSeparator(rest);
      assert x + (d + rest) == Join(xs, d) + e + t;
    }
  }

  lemma FindAfterSeparator(rest: string)
    requires rest != "" && rest[0] != '\\'
    ensures Find("\\" + rest, "\\\\", 0) == 1 + Find(rest, "\\\\", 0)
  {
    var s := "\\" + rest;
    assert s[0..2][1] == rest[0];
    assert !OccursAt(s, "\\\\", 0);
    assert s[1..] == rest;
    FindShift(s, 1, "\\\\", 0);
  }

  lemma FindHere(d: string, t: string)
    ensures Find(d + t, d, 0) == 0
  {
    assert OccursAt(d + t, d, 0);
  }

  lemma CleanName(x: string)
    requires !Contains(x, "\\")
    ensures forall k :: 0 <= k < |x| ==> x[k] != '\\'
  {
    forall k: nat | k < |x| ensures x[k] != '\\' {
      assert !OccursAt(x, "\\", k);
      assert x[k..k + 1] == [x[k]];
    }
  }

  lemma FindAfterName(x: string, tail: string)
    requires forall k :: 0 <= k < |x| ==> x[k] != '\\'
    ensures Find(x + tail, "\\\\", 0) == |x| + Find(tail, "\\\\", 0)
  {
    SkipTo(x + tail, "\\\\", 0, |x|);
    assert (x + tail)[|x|..] == tail;
    FindShift(x + tail, |x|, "\\\\", 0);
  }

  lemma {:induction false} SkipTo(s: string, d: string, start: nat, k: nat)
    requires d != "" && start <= k <= |s|
    requires forall j: nat :: start <= j < k ==> s[j] != d[0]
    ensures Find(s, d, start) == Find(s, d, k)
    decreases k - start
  {
    if start < k {
      if OccursAt(s, d, start) {
        assert s[start..start + |d|][0] == d[0];
      }
      SkipTo(s, d, start + 1, k);
    }
  }

  /** A device that joins its non-empty, backslash-free names and ends the list has them read back. */
  lemma NamesRoundTrip(xs: seq<string>, t: string)
    requires Names(xs)
    ensures SplitNames(Join(xs, "\\") + "\\\\" + t) == xs
  {
    var s := Join(xs, "\\") + "\\\\" + t;
    if xs == [] {
      assert OccursAt(s, "\\\\", 0);
      assert s[..0] == "";
    } else {
      NoEarlyEnd(xs, t);
      assert s[..|Join(xs, "\\")|] == Join(xs, "\\");
      SplitJoined(xs, "\\");
    }
  }
}
