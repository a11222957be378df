/**
 * The back-reference from a task to an assignment: a task's description ends
 * with ` #<assignment id>`, and `extract_ass_id` reads the id back as the
 * digits of the last `#<digits>` in the description (course.py:38-40).
 */
module Marker {
  import opened Wrappers
  import opened PyText

  /** Where the pattern `#(\d+)` matches: a `#` directly followed by a digit. */
  predicate MarkerAt(s: string, i: int) {
    0 <= i && i + 1 < |s| && s[i] == '#' && IsDigit(s[i + 1])
  }

  /** A non-empty text of decimal digits: what `(\d+)` captures. */
  predicate IsDigitRun(d: string) {
    |d| > 0 && forall k :: 0 <= k < |d| ==> IsDigit(d[k])
  }

  /** Where the greedy run of digits starting at `j` ends. */
  function DigitRunEnd(s: string, j: nat): (e: nat)
    requires j <= |s|
    ensures j <= e <= |s|
    ensures forall k :: j <= k < e ==> IsDigit(s[k])
    ensures e == |s| || !IsDigit(s[e])
    decreases |s| - j
  {
    if j < |s| && IsDigit(s[j]) then DigitRunEnd(s, j + 1) else j
  }

  /** The digits `\d+` captures after the `#` at position `i`: non-empty, all digits, and greedy. */
  function DigitsAfter(s: string, i: int): (d: string)
    requires MarkerAt(s, i)
    ensures |d| > 0 && i + 1 + |d| <= |s| && d == s[i + 1..i + 1 + |d|]
    ensures forall k :: 0 <= k < |d| ==> IsDigit(d[k])
    ensures i + 1 + |d| == |s| || !IsDigit(s[i + 1 + |d|])
  {
    s[i + 1..DigitRunEnd(s, i + 1)]
  }

  /** The scan of `re.findall` from position `p`: the captured digits of every match, left to right, resuming after each match. */
  function FindFrom(s: string, p: nat): (r: seq<string>)
    ensures forall k :: 0 <= k < |r| ==> IsDigitRun(r[k])
    decreases |s| - p
  {
    if p >= |s| then []
    else if MarkerAt(s, p) then [DigitsAfter(s, p)] + FindFrom(s, DigitRunEnd(s, p + 1))
    else FindFrom(s, p + 1)
  }

  /** `re.findall(r"#(\d+)", s)`. */
  function FindAll(s: string): (r: seq<string>)
    ensures forall k :: 0 <= k < |r| ==> IsDigitRun(r[k])
  {
    FindFrom(s, 0)
  }

  /** `extract_ass_id`: the last match, or `None` when there is none. */
  function ExtractAssId(description: string): (id: Option<string>)
    ensures id != None ==> IsDigitRun(id.value)
  {
    var matches := FindAll(description);
    if matches == [] then None else Some(matches[|matches| - 1])
  }

  /** The description written for an assignment: `f"{name} #{id}"` (course.py:157, course.py:176). */
  function Describe(name: string, id: nat): string {
    name + " #" + NatToString(id)
  }

  /** The scan from `p` finds nothing exactly when no `#` at or after `p` is followed by a digit. */
  lemma {:induction false} FindFromEmpty(s: string, p: nat)
    ensures FindFrom(s, p) == [] <==> forall i :: p <= i < |s| ==> !MarkerAt(s, i)
    decreases |s| - p
  {
    if p < |s| && !MarkerAt(s, p) {
      FindFromEmpty(s, p + 1);
    }
  }

  /** The last match of the scan from `p` is the capture at the last marker, when that marker is at or after `p`. */
  lemma {:induction false} FindFromLast(s: string, p: nat, i: nat)
    requires p <= i && MarkerAt(s, i)
    requires forall j :: i < j < |s| ==> !MarkerAt(s, j)
    ensures FindFrom(s, p) != [] && FindFrom(s, p)[|FindFrom(s, p)| - 1] == DigitsAfter(s, i)
    decreases |s| - p
  {
    if p == i {
      FindFromEmpty(s, DigitRunEnd(s, i + 1));
    } else if MarkerAt(s, p) {
      var e := DigitRunEnd(s, p + 1);
      assert !IsDigit(s[i]);
      FindFromLast(s, e, i);
    } else {
      FindFromLast(s, p + 1, i);
    }
  }

  /** `extract_ass_id` returns `None` exactly when no `#` is followed by a digit. */
  lemma ExtractNone(description: string)
    ensures ExtractAssId(description) == None
        <==> forall i :: 0 <= i < |description| ==> !MarkerAt(description, i)
  {
    FindFromEmpty(description, 0);
  }

  /** `extract_ass_id` returns the full digit run of the last `#<digits>`. */
  lemma ExtractLast(description: string, i: nat)
    requires MarkerAt(description, i)
    requires forall j :: i < j < |description| ==> !MarkerAt(description, j)
    ensures ExtractAssId(description) == Some(DigitsAfter(description, i))
  {
    FindFromLast(description, 0, i);
  }

  /** A digit run inside `x` ends where it ends in `x + y`, when `y` starts with a non-digit. */
  lemma {:induction false} DigitRunEndPrefix(x: string, y: string, j: nat)
    requires j <= |x| && y != [] && !IsDigit(y[0])
    ensures DigitRunEnd(x + y, j) == DigitRunEnd(x, j)
    decreases |x| - j
  {
    if j < |x| {
      assert (x + y)[j] == x[j];
      if IsDigit(x[j]) {
        DigitRunEndPrefix(x, y, j + 1);
      }
    } else {
      assert (x + y)[j] == y[0];
    }
  }

  /** A digit run inside `y` ends where it ends in `x + y`, shifted by `|x|`. */
  lemma {:induction false} DigitRunEndShift(x: string, y: string, j: nat)
    requires j <= |y|
    ensures DigitRunEnd(x + y, |x| + j) == |x| + DigitRunEnd(y, j)
    decreases |y| - j
  {
    if j < |y| {
      assert (x + y)[|x| + j] == y[j];
      if IsDigit(y[j]) {
        DigitRunEndShift(x, y, j + 1);
      }
    }
  }

  /** A match of `y` at `q` is a match of `x + y` at `|x| + q`, with the same digits and the same end. */
  lemma MatchShift(x: string, y: string, q: nat)
    requires q < |y|
    ensures MarkerAt(x + y, |x| + q) == MarkerAt(y, q)
    ensures MarkerAt(y, q) ==>
      DigitsAfter(x + y, |x| + q) == DigitsAfter(y, q)
      && DigitRunEnd(x + y, |x| + q + 1) == |x| + DigitRunEnd(y, q + 1)
  {
    var s := x + y;
    assert s[|x| + q] == y[q];
    if q + 1 < |y| {
      assert s[|x| + q + 1] == y[q + 1];
    }
    if MarkerAt(y, q) {
      var e := DigitRunEnd(y, q + 1);
      DigitRunEndShift(x, y, q + 1);
      assert s[|x| + q + 1..|x| + e] == y[q + 1..e];
    }
  }

  /** The scan of `x + y` past `x` is the scan of `y`. */
  lemma {:induction false} FindFromShift(x: string, y: string, q: nat)
    requires q <= |y|
    ensures FindFrom(x + y, |x| + q) == FindFrom(y, q)
    decreases |y| - q
  {
    if q < |y| {
      MatchShift(x, y, q);
      if MarkerAt(y, q) {
        FindFromShift(x, y, DigitRunEnd(y, q + 1));
      } else {
        FindFromShift(x, y, q + 1);
      }
    }
  }

  /** A match of `x + y` inside `x` is a match of `x`, with the same digits and the same end, when `y` starts with a non-digit. */
  lemma MatchPrefix(x: string, y: string, p: nat)
    requires p < |x| && y != [] && !IsDigit(y[0])
    ensures MarkerAt(x + y, p) == MarkerAt(x, p)
    ensures MarkerAt(x, p) ==>
      DigitsAfter(x + y, p) == DigitsAfter(x, p)
      && DigitRunEnd(x + y, p + 1) == DigitRunEnd(x, p + 1)
  {
    var s := x + y;
    assert s[p] == x[p];
    if p + 1 < |x| {
      assert s[p + 1] == x[p + 1];
    } else {
      assert s[p + 1] == y[0];
    }
    if MarkerAt(x, p) {
      var e := DigitRunEnd(x, p + 1);
      DigitRunEndPrefix(x, y, p + 1);
      assert s[p + 1..e] == x[p + 1..e];
    }
  }

  /** Matches never straddle a boundary followed by a non-digit: the scan of `x + y` from inside `x`. */
  lemma {:induction false} FindFromAppend(x: string, y: string, p: nat)
    requires p <= |x| && y != [] && !IsDigit(y[0])
    ensures FindFrom(x + y, p) == FindFrom(x, p) + FindFrom(y, 0)
    decreases |x| - p
  {
    if p == |x| {
      FindFromShift(x, y, 0);
    } else {
      MatchPrefix(x, y, p);
      if MarkerAt(x, p) {
        var e := DigitRunEnd(x, p + 1);
        FindFromAppend(x, y, e);
        assert [DigitsAfter(x, p)] + (FindFrom(x, e) + FindFrom(y, 0)) == ([DigitsAfter(x, p)] + FindFrom(x, e)) + FindFrom(y, 0);
      } else {
        FindFromAppend(x, y, p + 1);
      }
    }
  }

  /** Matches never straddle a boundary followed by a non-digit. */
  lemma FindAllAppend(x: string, y: string)
    requires y != [] && !IsDigit(y[0])
    ensures FindAll(x + y) == FindAll(x) + FindAll(y)
  {
    FindFromAppend(x, y, 0);
  }

  /** A `#` followed by digits and nothing else is one match. */
  lemma FindAllTrailing(d: string)
    requires d != [] && forall k :: 0 <= k < |d| ==> IsDigit(d[k])
    ensures FindAll("#" + d) == [d]
  {
    var s := "#" + d;
    assert s[1] == d[0];
    assert MarkerAt(s, 0);
    forall k | 1 <= k < |s| ensures IsDigit(s[k]) {
      assert s[k] == d[k - 1];
    }
    assert DigitRunEnd(s, 1) == |s|;
    assert s[1..|s|] == d;
    assert DigitsAfter(s, 0) == d;
    assert FindFrom(s, |s|) == [];
  }

  /** Whatever precedes it, a trailing `#<digits>` is what `extract_ass_id` returns. */
  lemma ExtractTrailing(w: string, d: string)
    requires d != [] && forall k :: 0 <= k < |d| ==> IsDigit(d[k])
    ensures ExtractAssId(w + "#" + d) == Some(d)
  {
    FindAllAppend(w, "#" + d);
    FindAllTrailing(d);
    assert w + "#" + d == w + ("#" + d);
  }

  /** Round trip: the id written into a description is the id read back, even when the name holds `#<digits>` of its own. */
  lemma DescribeRoundTrip(name: string, id: nat)
    ensures ExtractAssId(Describe(name, id)) == Some(NatToString(id))
  {
    ExtractTrailing(name + " ", NatToString(id));
    assert Describe(name, id) == name + " " + "#" + NatToString(id);
  }

  /** The round trip survives the `strip()` applied before extraction (course.py:138, course.py:142), whatever the name. */
  lemma StrippedRoundTrip(name: string, id: nat)
    ensures ExtractAssId(Strip(Describe(name, id))) == Some(NatToString(id))
  {
    var s := Describe(name, id);
    var d := NatToString(id);
    var hash := |name| + 1;
    assert s[hash] == '#';
    var l := TrimLeft(s);
    TrimLeftSpec(s);
    var m := |s| - |l|;
    assert m <= hash;
    assert l == s[m..hash] + "#" + d;
    assert !IsSpace(l[|l| - 1]);
    assert TrimRight(l) == l;
    ExtractTrailing(s[m..hash], d);
  }
}
