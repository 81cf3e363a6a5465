/** Characters and strings as the command grammar sees them: the `\s` / `\S`
    classes of JavaScript regular expressions, runs of either class, and
    `String.prototype.startsWith`. */
module Text {

  /** The characters JavaScript's `\s` matches: the ECMAScript WhiteSpace
      characters (tab, vertical tab, form feed, no-break space, byte order
      mark and the Unicode space separators) and the LineTerminator
      characters (line feed, carriage return, line and paragraph separator). */
  predicate IsSpace(c: char) {
    || c == ' ' || c == '\t' || c == '\n' || c == '\r'
    || c == '\U{000B}' || c == '\U{000C}'
    || c == '\U{00A0}' || c == '\U{1680}'
    || ('\U{2000}' <= c <= '\U{200A}')
    || c == '\U{2028}' || c == '\U{2029}'
    || c == '\U{202F}' || c == '\U{205F}' || c == '\U{3000}' || c == '\U{FEFF}'
  }

  /** A string `\s+` matches in full. */
  predicate IsGap(w: string) {
    |w| > 0 && forall i | 0 <= i < |w| :: IsSpace(w[i])
  }

  /** A string `\S+` matches in full: one argument of a command. */
  predicate IsToken(t: string) {
    |t| > 0 && forall i | 0 <= i < |t| :: !IsSpace(t[i])
  }

  /** `s.startsWith(p)`. */
  predicate StartsWith(s: string, p: string) {
    |p| <= |s| && s[..|p|] == p
  }

  /** Where a greedy `\s+` (when `space` holds) or `\S+` (otherwise)
      started at position `i` of `s` stops: the end of the longest stretch
      from `i` made only of characters of that class. `RunFromStops` states
      what it finds. */
  function RunFrom(s: string, i: nat, space: bool): (j: nat)
    requires i <= |s|
    ensures i <= j <= |s|
    decreases |s| - i
  {
    if i == |s| || IsSpace(s[i]) != space then i else RunFrom(s, i + 1, space)
  }

  /** A run covers only characters of its class and stops at the end of the
      string or at the first character of the other class. */
  lemma {:induction false} RunFromStops(s: string, i: nat, space: bool)
    requires i <= |s|
    ensures forall k | i <= k < RunFrom(s, i, space) :: IsSpace(s[k]) == space
    ensures RunFrom(s, i, space) < |s| ==> IsSpace(s[RunFrom(s, i, space)]) != space
    decreases |s| - i
  {
    if i < |s| && IsSpace(s[i]) == space {
      RunFromStops(s, i + 1, space);
    }
  }

  /** The run is determined by where the class changes: if `s[i..j]` is all
      of one class and `s[j]`, if any, is not, the run from `i` ends at `j`. */
  lemma {:induction false} RunStopsAt(s: string, i: nat, j: nat, space: bool)
    requires i <= j <= |s|
    requires forall k | i <= k < j :: IsSpace(s[k]) == space
    requires j < |s| ==> IsSpace(s[j]) != space
    ensures RunFrom(s, i, space) == j
    decreases j - i
  {
    if i < j {
      RunStopsAt(s, i + 1, j, space);
    }
  }
}
