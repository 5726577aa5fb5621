/** String operations of JavaScript that the pipeline relies on:
    `String.prototype.split` with a literal separator, `Array.prototype.join`,
    `trim`, and `toLowerCase` on ASCII letters. */
module Text {
  import opened Common

  /** The characters matched by `\s` in a JavaScript regular expression, which are also
      the ones `String.prototype.trim` removes: WhiteSpace and LineTerminator code points. */
  predicate IsSpace(c: char)
  {
    var n := c as int;
    9 <= n <= 13 || n == 0x20 || n == 0xA0 || n == 0x1680 || 0x2000 <= n <= 0x200A ||
    n == 0x2028 || n == 0x2029 || n == 0x202F || n == 0x205F || n == 0x3000 || n == 0xFEFF
  }

  /** `\d`: an ASCII decimal digit. */
  predicate IsDigit(c: char)
  {
    '0' <= c <= '9'
  }

  /** `sep` occurs in `s` starting at index `i`. */
  predicate OccursAt(s: string, sep: string, i: nat)
  {
    i + |sep| <= |s| && s[i..i + |sep|] == sep
  }

  lemma OccursAtShift(s: string, sep: string, j: nat)
    requires |s| > 0
    ensures OccursAt(s, sep, j + 1) <==> OccursAt(s[1..], sep, j)
  {
    if j + 1 + |sep| <= |s| {
      assert s[j + 1..j + 1 + |sep|] == s[1..][j..j + |sep|];
    }
  }

  /** An occurrence-free stretch of `s[1..]`, shifted one place right, is occurrence-free in `s`. */
  lemma NoOccurrenceShift(s: string, sep: string, bound: nat)
    requires |s| > 0 && !OccursAt(s, sep, 0)
    requires forall j :: 0 <= j < bound ==> !OccursAt(s[1..], sep, j)
    ensures forall j :: 0 <= j <= bound ==> !OccursAt(s, sep, j)
  {
    forall j | 0 < j <= bound ensures !OccursAt(s, sep, j) {
      OccursAtShift(s, sep, j - 1);
    }
  }

  /** `s.indexOf(sep)`: the leftmost occurrence of `sep` in `s`, if any. */
  function IndexOf(s: string, sep: string): (r: Option<nat>)
    requires |sep| > 0
    ensures r.Some? ==> OccursAt(s, sep, r.value)
    ensures r.Some? ==> forall j :: 0 <= j < r.value ==> !OccursAt(s, sep, j)
    ensures r.None? ==> forall j :: 0 <= j <= |s| ==> !OccursAt(s, sep, j)
    decreases |s|
  {
    if |s| < |sep| then None
    else if s[..|sep|] == sep then Some(0)
    else
      assert !OccursAt(s, sep, 0) by { assert s[0..|sep|] == s[..|sep|]; }
      match IndexOf(s[1..], sep)
      case None =>
        NoOccurrenceShift(s, sep, |s| - 1);
        None
      case Some(k) =>
        NoOccurrenceShift(s, sep, k);
        OccursAtShift(s, sep, k);
        Some(k + 1)
  }

  /** A text is the concatenation of its three slices at two cut points. */
  lemma Reassemble<T>(s: seq<T>, q: nat, e: nat)
    requires q <= e <= |s|
    ensures s == s[..q] + s[q..e] + s[e..]
  {
  }

  /** An occurrence in a suffix is an occurrence in the whole text, shifted by the cut. */
  lemma OccursInSuffix(s: string, sep: string, start: nat, j: nat)
    requires start <= |s| && OccursAt(s[start..], sep, j)
    ensures OccursAt(s, sep, start + j)
  {
    assert s[start + j..start + j + |sep|] == s[start..][j..j + |sep|];
  }

  /** `s.split(sep)` for a non-empty literal separator: the pieces between the
      non-overlapping occurrences of `sep`, found from left to right. */
  function Split(s: string, sep: string): (parts: seq<string>)
    requires |sep| > 0
    ensures |parts| >= 1
    decreases |s|
  {
    match IndexOf(s, sep)
    case None => [s]
    case Some(i) => [s[..i]] + Split(s[i + |sep|..], sep)
  }

  /** The first piece of a split ends at the first occurrence of the separator. */
  lemma SplitStep(s: string, sep: string, i: nat)
    requires |sep| > 0 && IndexOf(s, sep) == Some(i)
    ensures i + |sep| <= |s|
    ensures Split(s, sep) == [s[..i]] + Split(s[i + |sep|..], sep)
  {
    assert OccursAt(s, sep, i);
  }

  /** `parts.join(sep)`: nothing for no parts, the part itself for one, and otherwise the
      first part followed by the separator. */
  function Join(parts: seq<string>, sep: string): (r: string)
    ensures parts == [] ==> r == ""
    ensures |parts| == 1 ==> r == parts[0]
    ensures |parts| >= 2 ==> parts[0] + sep <= r
  {
    if |parts| == 0 then ""
    else if |parts| == 1 then parts[0]
    else parts[0] + sep + Join(parts[1..], sep)
  }

  /** Joining the pieces of a split with the same separator gives the text back. */
  lemma {:induction false} JoinSplit(s: string, sep: string)
    requires |sep| > 0
    ensures Join(Split(s, sep), sep) == s
    decreases |s|
  {
    match IndexOf(s, sep)
    case None =>
    case Some(i) =>
      var rest := Split(s[i + |sep|..], sep);
      JoinSplit(s[i + |sep|..], sep);
      assert Split(s, sep) == [s[..i]] + rest;
      assert ([s[..i]] + rest)[1..] == rest;
      assert s == s[..i] + s[i..i + |sep|] + s[i + |sep|..];
  }

  /** Splitting a join on a one-character separator that no piece contains gives the pieces back. */
  lemma {:induction false} SplitJoin(parts: seq<string>, sep: string)
    requires |sep| == 1 && |parts| >= 1
    requires forall k :: 0 <= k < |parts| ==> sep[0] !in parts[k]
    ensures Split(Join(parts, sep), sep) == parts
  {
    var s := Join(parts, sep);
    if |parts| == 1 {
      NoSeparatorBefore(s, s, sep);
      assert IndexOf(s, sep).None?;
    } else {
      var p := parts[0];
      var tail := Join(parts[1..], sep);
      assert s == p + sep + tail;
      assert OccursAt(s, sep, |p|) by { assert s[|p|..|p| + 1] == sep; }
      NoSeparatorBefore(s, p, sep);
      SplitStep(s, sep, |p|);
      assert s[..|p|] == p;
      assert s[|p| + 1..] == tail;
      SplitJoin(parts[1..], sep);
    }
  }

  /** A one-character separator absent from a prefix of `s` occurs nowhere inside it. */
  lemma NoSeparatorBefore(s: string, p: string, sep: string)
    requires |sep| == 1 && p <= s && sep[0] !in p
    ensures forall j :: 0 <= j < |p| ==> !OccursAt(s, sep, j)
  {
    forall j | 0 <= j < |p| ensures !OccursAt(s, sep, j) {
      assert s[j] == p[j];
      if j + 1 <= |s| {
        assert s[j..j + 1][0] == s[j];
      }
    }
  }

  /** A text is trimmed when it does not start or end with whitespace. */
  predicate IsTrimmed(s: string)
  {
    s == [] || (!IsSpace(s[0]) && !IsSpace(s[|s| - 1]))
  }

  /** `r` is `s` with the whitespace before index `a` and after `a + |r|` removed. */
  predicate TrimmedAt(s: string, a: nat, r: string)
  {
    a + |r| <= |s| && s[a..a + |r|] == r &&
    (forall k :: 0 <= k < a ==> IsSpace(s[k])) &&
    (forall k :: a + |r| <= k < |s| ==> IsSpace(s[k]))
  }

  /** The index of the first non-whitespace character at or after `i`, or `|s|`. */
  function SkipSpaces(s: string, i: nat): (a: nat)
    requires i <= |s|
    ensures i <= a <= |s|
    ensures forall k :: i <= k < a ==> IsSpace(s[k])
    ensures a == |s| || !IsSpace(s[a])
    decreases |s| - i
  {
    if i < |s| && IsSpace(s[i]) then SkipSpaces(s, i + 1) else i
  }

  /** The end of `s[a..e]` once its trailing whitespace is dropped. */
  function SkipSpacesBack(s: string, a: nat, e: nat): (f: nat)
    requires a <= e <= |s|
    ensures a <= f <= e
    ensures forall k :: f <= k < e ==> IsSpace(s[k])
    ensures f == a || !IsSpace(s[f - 1])
    decreases e
  {
    if a < e && IsSpace(s[e - 1]) then SkipSpacesBack(s, a, e - 1) else e
  }

  /** `s.trim()`: the longest infix of `s` that neither starts nor ends with whitespace,
      obtained by removing only whitespace; empty exactly when `s` is all whitespace. */
  function Trim(s: string): (r: string)
    ensures IsTrimmed(r)
    ensures exists a :: TrimmedAt(s, a, r)
    ensures r == [] <==> forall k :: 0 <= k < |s| ==> IsSpace(s[k])
    ensures IsTrimmed(s) ==> r == s
  {
    var a := SkipSpaces(s, 0);
    var e := SkipSpacesBack(s, a, |s|);
    assert TrimmedAt(s, a, s[a..e]);
    s[a..e]
  }

  /** `c.toLowerCase()` for ASCII letters. */
  function LowerChar(c: char): char
  {
    if 'A' <= c <= 'Z' then (c as int + 32) as char else c
  }

  /** `s.toLowerCase()` restricted to ASCII: upper-case ASCII letters become their lower-case
      counterparts, every other character is kept. */
  function Lower(s: string): (r: string)
    ensures |r| == |s|
    ensures forall k :: 0 <= k < |r| ==> !('A' <= r[k] <= 'Z')
    ensures forall k :: 0 <= k < |s| && !('A' <= s[k] <= 'Z') ==> r[k] == s[k]
    ensures forall k :: 0 <= k < |s| && 'A' <= s[k] <= 'Z' ==> r[k] as int == s[k] as int + 32
  {
    seq(|s|, k requires 0 <= k < |s| => LowerChar(s[k]))
  }
}
