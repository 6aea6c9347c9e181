/**
 * The .NET string operations the preference viewer relies on, over `string`
 * (a sequence of `char`): ordinal `Contains`, `ToLower`, `Split` on the Unity
 * hash marker `"_h"`, and `IsNullOrWhiteSpace`. `IndexOf` is the
 * first-occurrence scan that `Split` performs.
 */
module Strings {
  import opened Wrappers

  // ---------------------------------------------------------------------------
  // Occurrences of one string inside another
  // ---------------------------------------------------------------------------

  /** `t` occurs in `s` starting at position `i`. */
  ghost predicate OccursAt(s: string, t: string, i: int) {
    0 <= i && i + |t| <= |s| && s[i..i + |t|] == t
  }

  predicate StartsWith(s: string, p: string) {
    |p| <= |s| && s[..|p|] == p
  }

  /** Ordinal `String.Contains`: `t` appears somewhere in `s` as a contiguous block. */
  predicate Contains(s: string, t: string)
    decreases |s|
  {
    StartsWith(s, t) || (|s| > 0 && Contains(s[1..], t))
  }

  /** An occurrence at any position makes `Contains` hold. */
  lemma {:induction false} OccursAtContains(s: string, t: string, i: int)
    requires OccursAt(s, t, i)
    ensures Contains(s, t)
    decreases i
  {
    if i > 0 {
      assert s[1..][i - 1..i - 1 + |t|] == s[i..i + |t|];
      OccursAtContains(s[1..], t, i - 1);
    }
  }

  /** When `Contains` holds, some position carries an occurrence. */
  lemma {:induction false} ContainsOccursAt(s: string, t: string)
    requires Contains(s, t)
    ensures exists i :: OccursAt(s, t, i)
    decreases |s|
  {
    if StartsWith(s, t) {
      assert OccursAt(s, t, 0);
    } else {
      ContainsOccursAt(s[1..], t);
      var i :| OccursAt(s[1..], t, i);
      assert s[1..][i..i + |t|] == s[i + 1..i + 1 + |t|];
      assert OccursAt(s, t, i + 1);
    }
  }

  /** `Contains` holds exactly when some position carries an occurrence. */
  lemma ContainsIff(s: string, t: string)
    ensures Contains(s, t) <==> exists i :: OccursAt(s, t, i)
  {
    if Contains(s, t) {
      ContainsOccursAt(s, t);
    }
    forall i | OccursAt(s, t, i) ensures Contains(s, t) {
      OccursAtContains(s, t, i);
    }
  }

  /** Every string contains the empty string. */
  lemma ContainsEmpty(s: string)
    ensures Contains(s, "")
  {
  }

  /** Containment is transitive: a block inside a block of `a` is inside `a`. */
  lemma ContainsTransitive(a: string, b: string, c: string)
    requires Contains(a, b) && Contains(b, c)
    ensures Contains(a, c)
  {
    ContainsIff(a, b);
    ContainsIff(b, c);
    var i :| OccursAt(a, b, i);
    var j :| OccursAt(b, c, j);
    forall k | 0 <= k < |c| ensures a[i + j..i + j + |c|][k] == c[k] {
      assert c[k] == b[j..j + |c|][k] == b[j + k];
      assert b[j + k] == a[i..i + |b|][j + k] == a[i + j + k];
    }
    assert a[i + j..i + j + |c|] == c;
    OccursAtContains(a, c, i + j);
  }

  /** The first position where `t` occurs in `s`, if any: the scan `Split` performs for each separator. */
  function IndexOf(s: string, t: string): (r: Option<nat>)
    ensures r.Some? ==> OccursAt(s, t, r.value)
    ensures r.Some? ==> forall j :: 0 <= j < r.value ==> !OccursAt(s, t, j)
    ensures r.None? ==> forall j :: !OccursAt(s, t, j)
    decreases |s|
  {
    if StartsWith(s, t) then
      Some(0)
    else if |s| == 0 then
      None
    else
      OccursAtShift(s, t);
      match IndexOf(s[1..], t)
      case None => None
      case Some(k) => Some(k + 1)
  }

  /** Past the first position, occurrences in `s` are the occurrences in `s[1..]`, one position later. */
  lemma OccursAtShift(s: string, t: string)
    requires |s| > 0
    ensures forall j :: j > 0 ==> (OccursAt(s, t, j) <==> OccursAt(s[1..], t, j - 1))
  {
    forall j | j > 0 ensures OccursAt(s, t, j) <==> OccursAt(s[1..], t, j - 1) {
      if j + |t| <= |s| {
        assert s[1..][j - 1..j - 1 + |t|] == s[j..j + |t|];
      }
    }
  }

  /** `IndexOf` finds something exactly when `Contains` holds. */
  lemma IndexOfContains(s: string, t: string)
    ensures IndexOf(s, t).Some? <==> Contains(s, t)
  {
    ContainsIff(s, t);
  }

  // ---------------------------------------------------------------------------
  // Splitting on the hash marker
  // ---------------------------------------------------------------------------

  /** The separator Unity writes between a preference key and its hash suffix. */
  const HashMarker: string := "_h"

  /**
   * `s.Split(new[] { "_h" }, StringSplitOptions.None)`: the pieces between
   * successive non-overlapping occurrences of the marker, scanning from the
   * left; empty pieces are kept.
   */
  function Split(s: string): (pieces: seq<string>)
    ensures |pieces| >= 1
    decreases |s|
  {
    match IndexOf(s, HashMarker)
    case None => [s]
    case Some(i) => [s[..i]] + Split(s[i + |HashMarker|..])
  }

  /** `String.Join("_h", pieces)`. */
  function Join(pieces: seq<string>): string
    requires |pieces| >= 1
  {
    if |pieces| == 1 then pieces[0] else pieces[0] + HashMarker + Join(pieces[1..])
  }

  /** Splitting loses nothing: joining the pieces with the marker restores the input. */
  lemma {:induction false} JoinSplit(s: string)
    ensures Join(Split(s)) == s
    decreases |s|
  {
    match IndexOf(s, HashMarker)
    case None =>
    case Some(i) =>
      var head, rest := s[..i], s[i + |HashMarker|..];
      assert Split(s) == [head] + Split(rest);
      JoinSplit(rest);
      JoinCons(head, Split(rest));
      assert s[i..i + |HashMarker|] == HashMarker;
      assert s == head + s[i..i + |HashMarker|] + rest;
  }

  /** Joining a piece in front of others puts the marker between them. */
  lemma JoinCons(head: string, pieces: seq<string>)
    requires |pieces| >= 1
    ensures Join([head] + pieces) == head + HashMarker + Join(pieces)
  {
    assert ([head] + pieces)[1..] == pieces;
  }

  /** No piece produced by `Split` contains the marker. */
  lemma SplitPiecesHaveNoMarker(s: string)
    ensures forall k :: 0 <= k < |Split(s)| ==> !Contains(Split(s)[k], HashMarker)
  {
    forall k | 0 <= k < |Split(s)| ensures !Contains(Split(s)[k], HashMarker) {
      SplitPieceHasNoMarker(s, k);
    }
  }

  /** Piece `k` of `Split(s)` does not contain the marker. */
  lemma {:induction false} SplitPieceHasNoMarker(s: string, k: nat)
    requires k < |Split(s)|
    ensures !Contains(Split(s)[k], HashMarker)
    decreases |s|
  {
    match IndexOf(s, HashMarker)
    case None =>
      ContainsIff(s, HashMarker);
    case Some(i) =>
      var rest := s[i + |HashMarker|..];
      if k == 0 {
        assert Split(s)[0] == s[..i];
        FirstPieceHasNoMarker(s, i);
      } else {
        assert Split(s)[k] == Split(rest)[k - 1];
        SplitPieceHasNoMarker(rest, k - 1);
      }
  }

  /** The part of `s` before the first occurrence of the marker does not contain it. */
  lemma FirstPieceHasNoMarker(s: string, i: nat)
    requires IndexOf(s, HashMarker) == Some(i)
    ensures !Contains(s[..i], HashMarker)
  {
    assert OccursAt(s, HashMarker, i);
    forall j ensures !OccursAt(s[..i], HashMarker, j) {
      if 0 <= j && j + |HashMarker| <= i {
        assert !OccursAt(s, HashMarker, j);
        assert s[..i][j..j + |HashMarker|] == s[j..j + |HashMarker|];
      }
    }
    ContainsIff(s[..i], HashMarker);
  }

  // ---------------------------------------------------------------------------
  // Lowering
  // ---------------------------------------------------------------------------

  /** `Char.ToLower`, restricted to the ASCII letters A-Z. */
  function LowerChar(c: char): char {
    if 'A' <= c <= 'Z' then (c as int - 'A' as int + 'a' as int) as char else c
  }

  /** `String.ToLower`: every character lowered, length unchanged. */
  function Lower(s: string): string {
    seq(|s|, i requires 0 <= i < |s| => LowerChar(s[i]))
  }

  /** Lowering twice is lowering once. */
  lemma LowerIdempotent(s: string)
    ensures Lower(Lower(s)) == Lower(s)
  {
    forall k | 0 <= k < |s| ensures Lower(Lower(s))[k] == Lower(s)[k] {
    }
  }

  /** Lowering commutes with taking a slice. */
  lemma LowerSlice(s: string, i: nat, j: nat)
    requires i <= j <= |s|
    ensures Lower(s)[i..j] == Lower(s[i..j])
  {
    forall k | 0 <= k < j - i ensures Lower(s)[i..j][k] == Lower(s[i..j])[k] {
      assert s[i..j][k] == s[i + k];
    }
  }

  /** A block of `t` inside `s` is, once both are lowered, still a block inside. */
  lemma ContainsLower(s: string, t: string)
    requires Contains(s, t)
    ensures Contains(Lower(s), Lower(t))
  {
    ContainsIff(s, t);
    var i :| OccursAt(s, t, i);
    LowerSlice(s, i, i + |t|);
    assert OccursAt(Lower(s), Lower(t), i);
    ContainsIff(Lower(s), Lower(t));
  }

  // ---------------------------------------------------------------------------
  // White space
  // ---------------------------------------------------------------------------

  /**
   * `Char.IsWhiteSpace`: the control characters U+0009 to U+000D, U+0085, and
   * the Unicode space, line and paragraph separators.
   */
  predicate IsWhiteSpace(c: char) {
    var n := c as int;
    (0x09 <= n <= 0x0D) || n == 0x20 || n == 0x85 || n == 0xA0 || n == 0x1680
    || (0x2000 <= n <= 0x200A) || n == 0x2028 || n == 0x2029 || n == 0x202F
    || n == 0x205F || n == 0x3000
  }

  /** `String.IsNullOrWhiteSpace` on a non-null string: empty, or white space only. */
  predicate IsNullOrWhiteSpace(s: string) {
    forall i :: 0 <= i < |s| ==> IsWhiteSpace(s[i])
  }
}
