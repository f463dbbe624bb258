/**
 * The JavaScript string operations the preview relies on, on `seq<char>`:
 * `indexOf`, `includes`, `split` with a non-empty separator, and an ASCII
 * `toLowerCase`.
 */
module Strings {
  import opened Wrappers

  /** `sep` occurs in `s` starting at offset `i`. */
  predicate IsAt(s: string, sep: string, i: int) {
    0 <= i && i + |sep| <= |s| && s[i..i + |sep|] == sep
  }

  /** Dropping the first character shifts every occurrence one place to the left. */
  lemma IsAtTail(s: string, sep: string, k: nat)
    requires |s| > 0
    ensures IsAt(s[1..], sep, k) <==> IsAt(s, sep, k + 1)
  {
    if 0 <= k && k + |sep| <= |s| - 1 {
      assert s[1..][k..k + |sep|] == s[k + 1..k + 1 + |sep|];
    }
  }

  /** The leftmost occurrence of `sep` in `s` (`String.prototype.indexOf`). */
  function Find(s: string, sep: string): (r: Option<nat>)
    ensures r.Some? ==> IsAt(s, sep, r.value)
    ensures r.Some? ==> forall j :: 0 <= j < r.value ==> !IsAt(s, sep, j)
    ensures r.None? <==> forall j :: !IsAt(s, sep, j)
    decreases |s|
  {
    if |s| < |sep| then None
    else if s[..|sep|] == sep then Some(0)
    else
      var rest := Find(s[1..], sep);
      assert forall k: nat :: IsAt(s[1..], sep, k) <==> IsAt(s, sep, k + 1) by {
        forall k: nat { IsAtTail(s, sep, k); }
      }
      assert !IsAt(s, sep, 0);
      assert forall j :: 0 < j ==> (IsAt(s, sep, j) <==> IsAt(s[1..], sep, j - 1));
      match rest
      case None => None
      case Some(k) => Some(k + 1)
  }

  /** `s.includes(sub)`. */
  predicate Contains(s: string, sub: string) {
    Find(s, sub).Some?
  }

  /**
   * `s.split(sep)` for a non-empty separator: the pieces between the leftmost,
   * non-overlapping occurrences of `sep`, scanning from the left.
   */
  function Split(s: string, sep: string): (r: seq<string>)
    requires |sep| > 0
    ensures |r| >= 1
    decreases |s|
  {
    match Find(s, sep)
    case None => [s]
    case Some(i) => [s[..i]] + Split(s[i + |sep|..], sep)
  }

  /** `parts.join(sep)`. */
  function Join(parts: seq<string>, sep: string): string
    requires |parts| >= 1
  {
    if |parts| == 1 then parts[0] else parts[0] + sep + Join(parts[1..], sep)
  }

  /** `sep + parts[i]` for every part, concatenated: the tail of a join. */
  function JoinTail(parts: seq<string>, sep: string): string {
    if parts == [] then "" else JoinTail(parts[..|parts| - 1], sep) + sep + parts[|parts| - 1]
  }

  lemma {:induction false} JoinTailCons(x: string, ys: seq<string>, sep: string)
    ensures JoinTail([x] + ys, sep) == sep + x + JoinTail(ys, sep)
    decreases |ys|
  {
    if ys != [] {
      var init := ys[..|ys| - 1];
      assert ([x] + ys)[..|ys|] == [x] + init;
      JoinTailCons(x, init, sep);
    } else {
      assert [x] + ys == [x];
      assert [x][..0] == [];
    }
  }

  /** A join is its first part followed by the tail. */
  lemma {:induction false} JoinAsTail(parts: seq<string>, sep: string)
    requires |parts| >= 1
    ensures Join(parts, sep) == parts[0] + JoinTail(parts[1..], sep)
    decreases |parts|
  {
    if |parts| == 1 {
      assert parts[1..] == [];
    } else {
      JoinAsTail(parts[1..], sep);
      assert parts[1..] == [parts[1]] + parts[2..];
      assert parts[1..][1..] == parts[2..];
      JoinTailCons(parts[1], parts[2..], sep);
    }
  }

  /** Joining the pieces of a split with the separator gives back the string. */
  lemma {:induction false} JoinSplit(s: string, sep: string)
    requires |sep| > 0
    ensures Join(Split(s, sep), sep) == s
    decreases |s|
  {
    match Find(s, sep)
    case None =>
    case Some(i) =>
      var rest := s[i + |sep|..];
      var tail := Split(rest, sep);
      JoinSplit(rest, sep);
      var parts := [s[..i]] + tail;
      assert Split(s, sep) == parts;
      assert parts[1..] == tail;
      assert Join(parts, sep) == s[..i] + sep + Join(tail, sep);
      assert s[i..i + |sep|] == sep;
      assert s == s[..i] + s[i..i + |sep|] + rest;
  }

  /** A string splits into more than one piece exactly when it contains the separator. */
  lemma SplitOneIffAbsent(s: string, sep: string)
    requires |sep| > 0
    ensures |Split(s, sep)| == 1 <==> !Contains(s, sep)
  {
  }

  /** The text before the leftmost occurrence does not contain the separator. */
  lemma BeforeFirstAvoidsSeparator(s: string, sep: string, i: nat)
    requires |sep| > 0 && Find(s, sep) == Some(i)
    ensures !Contains(s[..i], sep)
  {
    var p := s[..i];
    if Find(p, sep).Some? {
      var j := Find(p, sep).value;
      assert p[j..j + |sep|] == s[j..j + |sep|];
      assert IsAt(s, sep, j);
    }
  }

  /** No piece of a split contains the separator. */
  lemma {:induction false} SplitPiecesAvoidSeparator(s: string, sep: string, k: nat)
    requires |sep| > 0 && k < |Split(s, sep)|
    ensures !Contains(Split(s, sep)[k], sep)
    decreases |s|
  {
    match Find(s, sep)
    case None =>
    case Some(i) =>
      var rest := s[i + |sep|..];
      assert Split(s, sep) == [s[..i]] + Split(rest, sep);
      if k == 0 {
        BeforeFirstAvoidsSeparator(s, sep, i);
      } else {
        SplitPiecesAvoidSeparator(rest, sep, k - 1);
      }
  }

  /** ASCII `toLowerCase` of one character. */
  function LowerChar(c: char): char {
    if 'A' <= c <= 'Z' then (c as int + 32) as char else c
  }

  /**
   * ASCII `toLowerCase`: same length, no upper-case letter left, every
   * upper-case letter replaced by its lower-case partner and every other
   * character kept.
   */
  function Lower(s: string): (r: string)
    ensures |r| == |s|
    ensures forall i :: 0 <= i < |r| ==> !('A' <= r[i] <= 'Z')
    ensures forall i :: 0 <= i < |s| && !('A' <= s[i] <= 'Z') ==> r[i] == s[i]
    ensures forall i :: 0 <= i < |s| && 'A' <= s[i] <= 'Z' ==> 'a' <= r[i] <= 'z' && r[i] as int == s[i] as int + 32
  {
    seq(|s|, i requires 0 <= i < |s| => LowerChar(s[i]))
  }

  /** A lower-cased string has no upper-case letter, so lower-casing it again changes nothing. */
  lemma LowerIdempotent(s: string)
    ensures Lower(Lower(s)) == Lower(s)
  {
  }

  /** Lower-casing both sides keeps an occurrence where it was. */
  lemma LowerKeepsContains(s: string, sub: string)
    requires Contains(s, sub)
    ensures Contains(Lower(s), Lower(sub))
  {
    var i := Find(s, sub).value;
    assert Lower(s)[i..i + |sub|] == Lower(sub) by {
      forall k | 0 <= k < |sub| ensures Lower(s)[i..i + |sub|][k] == Lower(sub)[k] {
        assert s[i + k] == sub[k];
      }
    }
    assert IsAt(Lower(s), Lower(sub), i);
  }
}
