/**
 * String helpers shared by the layout engine, the text importer and the editor:
 * JavaScript's `String.prototype.trim`, the `\s` character class, splitting on a
 * separator and global replacement of a literal pattern.
 *
 * A node's text marks a line break with the two characters backslash and `n`
 * (not with a newline character); `Break` is that marker.
 */
module Text {

  /** The two-character line-break marker stored in node texts. */
  const Break: string := ['\\', 'n']

  /** JavaScript's WhiteSpace and LineTerminator characters: what `trim` strips and `\s` matches. */
  predicate IsSpace(c: char) {
    || c == ' ' || c == '\t' || c == '\n' || c == '\r'
    || c == '\U{B}' || c == '\U{C}' || c == '\U{A0}' || c == '\U{1680}'
    || ('\U{2000}' <= c <= '\U{200A}')
    || c == '\U{2028}' || c == '\U{2029}' || c == '\U{202F}' || c == '\U{205F}'
    || c == '\U{3000}' || c == '\U{FEFF}'
  }

  predicate AllSpace(s: string) {
    forall i :: 0 <= i < |s| ==> IsSpace(s[i])
  }

  /** Length of the longest all-space prefix (the match of `/^\s+/`, or 0). */
  function LeadingSpaces(s: string): (k: nat)
    ensures k <= |s|
    ensures forall i :: 0 <= i < k ==> IsSpace(s[i])
    ensures k < |s| ==> !IsSpace(s[k])
  {
    if s == [] || !IsSpace(s[0]) then 0 else 1 + LeadingSpaces(s[1..])
  }

  /** Length of the longest all-space suffix. */
  function TrailingSpaces(s: string): (k: nat)
    ensures k <= |s|
    ensures forall i :: |s| - k <= i < |s| ==> IsSpace(s[i])
    ensures k < |s| ==> !IsSpace(s[|s| - 1 - k])
  {
    if s == [] || !IsSpace(s[|s| - 1]) then 0 else 1 + TrailingSpaces(s[..|s| - 1])
  }

  /** Length of the longest prefix made of tab characters (the match of `/^\t+/`, or 0). */
  function LeadingTabs(s: string): (k: nat)
    ensures k <= |s|
    ensures forall i :: 0 <= i < k ==> s[i] == '\t'
    ensures k < |s| ==> s[k] != '\t'
  {
    if s == [] || s[0] != '\t' then 0 else 1 + LeadingTabs(s[1..])
  }

  /** `s` without its leading white space. */
  function TrimStart(s: string): string {
    if s != [] && IsSpace(s[0]) then TrimStart(s[1..]) else s
  }

  /** `s` without its trailing white space. */
  function TrimEnd(s: string): string {
    if s != [] && IsSpace(s[|s| - 1]) then TrimEnd(s[..|s| - 1]) else s
  }

  /** `s.trim()`: the string without its leading and trailing white space. */
  function Trim(s: string): string {
    TrimEnd(TrimStart(s))
  }

  lemma {:induction false} TrimStartSpec(s: string)
    ensures TrimStart(s) == s[LeadingSpaces(s)..]
  {
    if s != [] && IsSpace(s[0]) {
      TrimStartSpec(s[1..]);
      assert s[1..][LeadingSpaces(s[1..])..] == s[1 + LeadingSpaces(s[1..])..];
    }
  }

  lemma {:induction false} TrimEndSpec(s: string)
    ensures TrimEnd(s) == s[..|s| - TrailingSpaces(s)]
  {
    if s != [] && IsSpace(s[|s| - 1]) {
      TrimEndSpec(s[..|s| - 1]);
      var u := s[..|s| - 1];
      assert u[..|u| - TrailingSpaces(u)] == s[..|s| - TrailingSpaces(s)];
    }
  }

  /**
   * Trimming gives the empty string exactly for an all-space string; otherwise a
   * string that neither starts nor ends with space; and it only ever removes space:
   * the result is the middle of s between an all-space prefix and an all-space suffix.
   */
  lemma {:induction false} TrimSpec(s: string)
    ensures Trim(s) == [] <==> AllSpace(s)
    ensures Trim(s) != [] ==> !IsSpace(Trim(s)[0]) && !IsSpace(Trim(s)[|Trim(s)| - 1])
    ensures LeadingSpaces(s) + |Trim(s)| <= |s|
    ensures Trim(s) == s[LeadingSpaces(s)..LeadingSpaces(s) + |Trim(s)|]
    ensures AllSpace(s[..LeadingSpaces(s)]) && AllSpace(s[LeadingSpaces(s) + |Trim(s)|..])
  {
    var lead := LeadingSpaces(s);
    var u := s[lead..];
    var trail := TrailingSpaces(u);
    assert Trim(s) == u[..|u| - trail] by {
      TrimStartSpec(s);
      TrimEndSpec(u);
    }
    TrimMiddle(s, lead, u, trail, Trim(s));
  }

  /** The facts of `TrimSpec`, about the middle `t` left between the leading and trailing space. */
  lemma {:induction false} TrimMiddle(s: string, lead: nat, u: string, trail: nat, t: string)
    requires lead == LeadingSpaces(s) && u == s[lead..] && trail == TrailingSpaces(u) && t == u[..|u| - trail]
    ensures t == [] <==> AllSpace(s)
    ensures t != [] ==> !IsSpace(t[0]) && !IsSpace(t[|t| - 1])
    ensures lead + |t| <= |s|
    ensures t == s[lead..lead + |t|]
    ensures AllSpace(s[..lead]) && AllSpace(s[lead + |t|..])
  {
    TrimEmpty(s, lead, u, trail, t);
    TrimEdges(s, lead, u, trail, t);
    TrimBounds(s, lead, u, trail, t);
  }

  /** Nothing is left exactly when the string is all space. */
  lemma {:induction false} TrimEmpty(s: string, lead: nat, u: string, trail: nat, t: string)
    requires lead == LeadingSpaces(s) && u == s[lead..] && trail == TrailingSpaces(u) && t == u[..|u| - trail]
    ensures t == [] <==> AllSpace(s)
  {
    if lead < |s| {
      assert !IsSpace(s[lead]);
      assert !IsSpace(u[0]);
      assert trail < |u|;
    }
  }

  /** What is left neither starts nor ends with space. */
  lemma {:induction false} TrimEdges(s: string, lead: nat, u: string, trail: nat, t: string)
    requires lead == LeadingSpaces(s) && u == s[lead..] && trail == TrailingSpaces(u) && t == u[..|u| - trail]
    ensures t != [] ==> !IsSpace(t[0]) && !IsSpace(t[|t| - 1])
  {
    if t != [] {
      assert !IsSpace(u[0]);
      assert t[0] == u[0] && t[|t| - 1] == u[|u| - 1 - trail];
    }
  }

  /** What is left is the middle of s, between an all-space prefix and an all-space suffix. */
  lemma {:induction false} TrimBounds(s: string, lead: nat, u: string, trail: nat, t: string)
    requires lead == LeadingSpaces(s) && u == s[lead..] && trail == TrailingSpaces(u) && t == u[..|u| - trail]
    ensures lead + |t| <= |s|
    ensures t == s[lead..lead + |t|]
    ensures AllSpace(s[..lead]) && AllSpace(s[lead + |t|..])
  {
    forall i | 0 <= i < |t| ensures t[i] == s[lead + i] {
      assert t[i] == u[i];
    }
    TrimSides(s, lead, u, trail, |t|);
  }

  /** The parts cut off on either side are all space. */
  lemma {:induction false} TrimSides(s: string, lead: nat, u: string, trail: nat, n: nat)
    requires lead == LeadingSpaces(s) && u == s[lead..] && trail == TrailingSpaces(u) && n == |u| - trail
    ensures AllSpace(s[..lead]) && AllSpace(s[lead + n..])
  {
    LeadSide(s, lead);
    TrailSide(s, lead, u, trail, n);
  }

  lemma {:induction false} LeadSide(s: string, lead: nat)
    requires lead == LeadingSpaces(s)
    ensures AllSpace(s[..lead])
  {
    var pre := s[..lead];
    forall i | 0 <= i < |pre| ensures IsSpace(pre[i]) {
      assert pre[i] == s[i];
    }
  }

  lemma {:induction false} TrailSide(s: string, lead: nat, u: string, trail: nat, n: nat)
    requires lead <= |s| && u == s[lead..] && trail == TrailingSpaces(u) && n == |u| - trail
    ensures AllSpace(s[lead + n..])
  {
    var post := s[lead + n..];
    assert post == u[n..];
    forall i | 0 <= i < |post| ensures IsSpace(post[i]) {
      assert post[i] == u[n + i];
    }
  }

  /** Whether `s` holds the break marker at index `i`. */
  predicate BreakAt(s: string, i: int) {
    0 <= i && i + 1 < |s| && s[i] == '\\' && s[i + 1] == 'n'
  }

  /** The number of break markers in `s`, counted at every index (an independent reference for `SplitBreaks`). */
  function CountBreaks(s: string): nat {
    if |s| < 2 then 0 else (if BreakAt(s, 0) then 1 else 0) + CountBreaks(s[1..])
  }

  /** `s.split("\\n")`: the pieces between break markers, scanning left to right. */
  function SplitBreaks(s: string): (parts: seq<string>)
    ensures |parts| >= 1
  {
    if s == [] then [[]]
    else if BreakAt(s, 0) then [[]] + SplitBreaks(s[2..])
    else
      var rest := SplitBreaks(s[1..]);
      [[s[0]] + rest[0]] + rest[1..]
  }

  /** Pieces joined back with the break marker (`parts.join("\\n")`). */
  function JoinBreaks(parts: seq<string>): string
    requires |parts| >= 1
  {
    if |parts| == 1 then parts[0] else parts[0] + Break + JoinBreaks(parts[1..])
  }

  /** The first line of `s` ends at n: no marker starts before n, and n is the end of `s` or a marker. */
  predicate LineEnd(s: string, n: nat) {
    n <= |s| && (forall i :: 0 <= i < n ==> !BreakAt(s, i)) && (n == |s| || BreakAt(s, n))
  }

  /** The first line ends at one place only: the first marker, or the end of the text. */
  lemma {:induction false} LineEndUnique(s: string, n: nat, m: nat)
    requires LineEnd(s, n) && LineEnd(s, m)
    ensures n == m
  {
  }

  /** The first piece, as the zone label uses it (`text.split("\\n")[0]`): the text up to its first marker. */
  function FirstLine(s: string): (line: string)
    ensures |line| <= |s| && line == s[..|line|]
    ensures LineEnd(s, |line|)
    ensures line == s || BreakAt(s, |line|)
  {
    SplitBreaksFirst(s);
    SplitBreaks(s)[0]
  }

  /** The break marker cannot overlap itself: after a marker at 0, index 1 is not a marker. */
  lemma {:induction false} CountAfterBreak(s: string)
    requires BreakAt(s, 0)
    ensures CountBreaks(s) == 1 + CountBreaks(s[2..])
  {
    assert s[1..][1..] == s[2..];
    assert !BreakAt(s[1..], 0);
  }

  /** Splitting yields one more piece than there are markers (`split(..).length` counts lines). */
  lemma {:induction false} SplitCount(s: string)
    ensures |SplitBreaks(s)| == 1 + CountBreaks(s)
    decreases |s|
  {
    if s == [] {
    } else if BreakAt(s, 0) {
      SplitCount(s[2..]);
      CountAfterBreak(s);
    } else {
      SplitCount(s[1..]);
    }
  }

  /** Joining the pieces with the marker gives the text back. */
  lemma {:induction false} SplitJoin(s: string)
    ensures JoinBreaks(SplitBreaks(s)) == s
    decreases |s|
  {
    if s == [] {
    } else if BreakAt(s, 0) {
      SplitJoin(s[2..]);
      assert s == Break + s[2..];
    } else {
      var rest := SplitBreaks(s[1..]);
      SplitJoin(s[1..]);
      if |rest| == 1 {
      } else {
        assert SplitBreaks(s)[1..] == rest[1..];
        assert JoinBreaks(SplitBreaks(s)) == [s[0]] + rest[0] + Break + JoinBreaks(rest[1..]);
      }
    }
  }

  /** The first piece is the text up to its first marker. */
  lemma {:induction false} SplitBreaksFirst(s: string)
    ensures |SplitBreaks(s)[0]| <= |s| && SplitBreaks(s)[0] == s[..|SplitBreaks(s)[0]|]
    ensures LineEnd(s, |SplitBreaks(s)[0]|)
    decreases |s|
  {
    if s == [] || BreakAt(s, 0) {
    } else {
      SplitBreaksFirst(s[1..]);
      var r := SplitBreaks(s[1..])[0];
      var f := [s[0]] + r;
      assert SplitBreaks(s)[0] == f;
      forall i | 0 <= i < |f| ensures !BreakAt(s, i) {
        if i > 0 {
          assert !BreakAt(s[1..], i - 1);
        }
      }
      if |r| < |s[1..]| {
        assert BreakAt(s[1..], |r|);
      }
    }
  }

  /** `s.split(sep)` for a one-character separator. */
  function Split(s: string, sep: char): (parts: seq<string>)
    ensures |parts| >= 1
    ensures forall k, i :: 0 <= k < |parts| && 0 <= i < |parts[k]| ==> parts[k][i] != sep
  {
    if s == [] then [[]]
    else if s[0] == sep then [[]] + Split(s[1..], sep)
    else
      var rest := Split(s[1..], sep);
      assert forall i :: 0 <= i < |rest[0]| ==> rest[0][i] != sep;
      [[s[0]] + rest[0]] + rest[1..]
  }

  /** Pieces joined back with the separator. */
  function Join(parts: seq<string>, sep: char): string
    requires |parts| >= 1
  {
    if |parts| == 1 then parts[0] else parts[0] + [sep] + Join(parts[1..], sep)
  }

  /** Splitting and joining with the same separator gives the text back. */
  lemma {:induction false} SplitJoinChar(s: string, sep: char)
    ensures Join(Split(s, sep), sep) == s
    decreases |s|
  {
    if s == [] {
    } else if s[0] == sep {
      SplitJoinChar(s[1..], sep);
    } else {
      var rest := Split(s[1..], sep);
      SplitJoinChar(s[1..], sep);
      if |rest| > 1 {
        assert Split(s, sep)[1..] == rest[1..];
      }
    }
  }

  /** Whether `pat` occurs in `s` at index `i`. */
  predicate OccursAt(s: string, pat: string, i: int) {
    0 <= i && i + |pat| <= |s| && s[i..i + |pat|] == pat
  }

  /** `s.replace(/pat/g, rep)` for a literal pattern: leftmost, non-overlapping occurrences. */
  function ReplaceAll(s: string, pat: string, rep: string): string
    requires pat != []
    decreases |s|
  {
    if s == [] then []
    else if OccursAt(s, pat, 0) then rep + ReplaceAll(s[|pat|..], pat, rep)
    else [s[0]] + ReplaceAll(s[1..], pat, rep)
  }

  /** Replacing the break marker by a space leaves no break marker behind. */
  lemma {:induction false} ReplaceBreakRemovesBreaks(s: string)
    ensures forall i :: 0 <= i < |ReplaceAll(s, Break, " ")| ==> !BreakAt(ReplaceAll(s, Break, " "), i)
    decreases |s|
  {
    if s == [] {
    } else if OccursAt(s, Break, 0) {
      ReplaceBreakRemovesBreaks(s[2..]);
      var r := ReplaceAll(s[2..], Break, " ");
      forall i | 0 <= i < |" " + r| ensures !BreakAt(" " + r, i) {
        if i > 0 { assert !BreakAt(r, i - 1); }
      }
    } else {
      ReplaceBreakRemovesBreaks(s[1..]);
      var r := ReplaceAll(s[1..], Break, " ");
      var t := [s[0]] + r;
      forall i | 0 <= i < |t| ensures !BreakAt(t, i) {
        if i > 0 {
          assert !BreakAt(r, i - 1);
        } else if BreakAt(t, 0) {
          ReplaceHead(s[1..]);
          assert false;
        }
      }
    }
  }

  /** The replacement starts with `n` only when the text itself does. */
  lemma {:induction false} ReplaceHead(s: string)
    ensures |ReplaceAll(s, Break, " ")| > 0 && ReplaceAll(s, Break, " ")[0] == 'n' ==> |s| > 0 && s[0] == 'n'
  {
    if s != [] && OccursAt(s, Break, 0) {
      assert ReplaceAll(s, Break, " ")[0] == ' ';
    }
  }
}
