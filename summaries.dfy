/** The batch summariser of src/App.jsx: the offline fallback (keep the first two
    ". "-separated sentences), the parse of the summarisation service's numbered reply,
    and `batchSummarize`, which picks between them. */
module Summaries {
  import opened Common
  import opened Text

  /** The sentence separator of the fallback summariser. */
  const SentenceBreak := ". "

  /** How many sentences the fallback summariser keeps. */
  const KeptSentences := 2

  /** `t.split(". ").slice(0, 2).join(". ")`: the fallback summary is a prefix of the text. */
  function Fallback(text: string): (r: string)
    ensures r <= text
  {
    var parts := Split(text, SentenceBreak);
    var kept := if |parts| < KeptSentences then |parts| else KeptSentences;
    JoinPrefix(parts, kept, SentenceBreak);
    JoinSplit(text, SentenceBreak);
    Join(parts[..kept], SentenceBreak)
  }

  /** Joining the first `k` pieces gives a prefix of joining them all. */
  lemma {:induction false} JoinPrefix(parts: seq<string>, k: nat, sep: string)
    requires 1 <= k <= |parts|
    ensures Join(parts[..k], sep) <= Join(parts, sep)
  {
    if k == |parts| {
      assert parts[..k] == parts;
    } else if k > 1 {
      JoinPrefix(parts[1..], k - 1, sep);
      assert parts[..k][1..] == parts[1..][..k - 1];
    }
  }

  lemma JoinTwo(a: string, b: string, sep: string)
    ensures Join([a, b], sep) == a + sep + b
  {
    assert [a, b][1..] == [b];
  }

  /** The text contains the sentence separator at most once. */
  predicate AtMostOneBreak(text: string)
  {
    forall i, j ::
      (0 <= i <= |text| && 0 <= j <= |text| &&
       OccursAt(text, SentenceBreak, i) && OccursAt(text, SentenceBreak, j)) ==> i == j
  }

  /** The fallback summary is the whole text exactly when the text has at most one ". ";
      otherwise it is strictly shorter. */
  lemma FallbackKeepsShortText(text: string)
    ensures Fallback(text) == text <==> AtMostOneBreak(text)
  {
    match IndexOf(text, SentenceBreak)
    case None =>
      FallbackOneSentence(text);
    case Some(i) =>
      match IndexOf(text[i + 2..], SentenceBreak)
      case None =>
        FallbackTwoSentences(text, i);
      case Some(j) =>
        FallbackManySentences(text, i, j);
  }

  lemma FallbackOneSentence(text: string)
    requires IndexOf(text, SentenceBreak).None?
    ensures Fallback(text) == text && AtMostOneBreak(text)
  {
    assert Split(text, SentenceBreak) == [text];
    assert [text][..1] == [text];
  }

  lemma FallbackTwoSentences(text: string, i: nat)
    requires IndexOf(text, SentenceBreak) == Some(i)
    requires IndexOf(text[i + 2..], SentenceBreak).None?
    ensures Fallback(text) == text && AtMostOneBreak(text)
  {
    var rest := text[i + 2..];
    var parts := Split(text, SentenceBreak);
    assert Split(rest, SentenceBreak) == [rest];
    assert parts == [text[..i], rest];
    assert parts[..2] == parts;
    JoinSplit(text, SentenceBreak);
    forall a: nat, b: nat | a <= |text| && b <= |text| &&
      OccursAt(text, SentenceBreak, a) && OccursAt(text, SentenceBreak, b)
      ensures a == b
    {
      OnlyOccurrence(text, i, a);
      OnlyOccurrence(text, i, b);
    }
  }

  lemma FallbackManySentences(text: string, i: nat, j: nat)
    requires IndexOf(text, SentenceBreak) == Some(i)
    requires IndexOf(text[i + 2..], SentenceBreak) == Some(j)
    ensures Fallback(text) == text[..i + 2 + j]
    ensures Fallback(text) != text && !AtMostOneBreak(text)
  {
    FallbackLength(text, i, j);
    OccursInSuffix(text, SentenceBreak, i + 2, j);
  }

  /** With a second ". ", the fallback ends just before it. */
  lemma FallbackLength(text: string, i: nat, j: nat)
    requires IndexOf(text, SentenceBreak) == Some(i)
    requires IndexOf(text[i + 2..], SentenceBreak) == Some(j)
    ensures |Fallback(text)| == i + 2 + j
  {
    FirstTwoPieces(text, i, j);
    JoinTwo(text[..i], text[i + 2..][..j], SentenceBreak);
  }

  /** With a second ". " the split has at least three pieces, the first two being the text
      before each break. */
  lemma FirstTwoPieces(text: string, i: nat, j: nat)
    requires IndexOf(text, SentenceBreak) == Some(i)
    requires IndexOf(text[i + 2..], SentenceBreak) == Some(j)
    ensures Split(text, SentenceBreak)[..KeptSentences] == [text[..i], text[i + 2..][..j]]
    ensures |Split(text, SentenceBreak)| > KeptSentences
  {
    var rest := text[i + 2..];
    SplitStep(text, SentenceBreak, i);
    SplitStep(rest, SentenceBreak, j);
    var tail := Split(rest[j + 2..], SentenceBreak);
    var parts := [text[..i]] + ([rest[..j]] + tail);
    assert parts[..2] == [text[..i], rest[..j]];
  }

  /** With `i` the leftmost ". " in `text` and none after it, `i` is the only one. */
  lemma OnlyOccurrence(text: string, i: nat, a: nat)
    requires IndexOf(text, SentenceBreak) == Some(i)
    requires IndexOf(text[i + 2..], SentenceBreak) == None
    requires OccursAt(text, SentenceBreak, a)
    ensures a == i
  {
    BreakAt(text, i);
    BreakAt(text, a);
    BreakInSuffix(text, i + 2, a);
  }

  lemma BreakAt(text: string, k: nat)
    requires OccursAt(text, SentenceBreak, k)
    ensures text[k] == '.' && text[k + 1] == ' '
  {
    assert text[k..k + 2] == SentenceBreak;
  }

  lemma BreakInSuffix(text: string, start: int, a: int)
    ensures 0 <= start <= a && a + 2 <= |text| && OccursAt(text, SentenceBreak, a) ==>
      OccursAt(text[start..], SentenceBreak, a - start)
  {
    if 0 <= start <= a && a + 2 <= |text| {
      assert text[start..][a - start..a - start + 2] == text[a..a + 2];
    }
  }

  /** The fallback summary of a non-empty text is non-empty. */
  lemma FallbackNonEmpty(text: string)
    requires text != ""
    ensures Fallback(text) != ""
  {
    FallbackKeepsShortText(text);
    var parts := Split(text, SentenceBreak);
    if |parts| >= 2 {
      assert parts[..2] == [parts[0], parts[1]];
      JoinTwo(parts[0], parts[1], SentenceBreak);
    } else {
      JoinSplit(text, SentenceBreak);
      assert parts[..|parts|] == parts;
    }
  }

  // ---------------------------------------------------------------------------------------
  // The numbered reply of the summarisation service, split on the pattern /\n\d+\.\s/.

  /** A match of /\n\d+\.\s/: a newline, one or more ASCII digits, a full stop and one
      whitespace character. */
  predicate IsMarker(w: string)
  {
    |w| >= 4 && w[0] == '\n' && (forall k :: 1 <= k < |w| - 2 ==> IsDigit(w[k])) &&
    w[|w| - 2] == '.' && IsSpace(w[|w| - 1])
  }

  /** No infix of `w` is a marker. */
  predicate MarkerFree(w: string)
  {
    forall j, e :: 0 <= j <= e <= |w| ==> !IsMarker(w[j..e])
  }

  /** Two markers that start at the same place are the same marker. */
  lemma MarkerUnique(t: string, n: nat, m: nat)
    requires n <= |t| && m <= |t| && IsMarker(t[..n]) && IsMarker(t[..m])
    ensures n == m
  {
  }

  /** The number of leading ASCII digits of `t`. */
  function DigitRun(t: string): (n: nat)
    ensures n <= |t|
    ensures forall k :: 0 <= k < n ==> IsDigit(t[k])
    ensures n == |t| || !IsDigit(t[n])
  {
    if t != [] && IsDigit(t[0]) then 1 + DigitRun(t[1..]) else 0
  }

  /** The length of the marker at the start of `t`, if the regular expression matches there.
      The greedy `\d+` can only stop at the first non-digit, so a match is unique. */
  function MarkerLen(t: string): (r: Option<nat>)
    ensures r.Some? ==> r.value <= |t| && IsMarker(t[..r.value])
    ensures forall n :: 0 <= n <= |t| && IsMarker(t[..n]) ==> r == Some(n)
  {
    if t == [] || t[0] != '\n' then None
    else
      var d := DigitRun(t[1..]);
      if 1 <= d && d + 2 < |t| && t[d + 1] == '.' && IsSpace(t[d + 2]) then
        assert IsMarker(t[..d + 3]);
        Some(d + 3)
      else None
  }

  /** No marker starts at `p` when the regular expression does not match there. */
  lemma NoMarkerAt(s: string, p: nat)
    requires p <= |s| && MarkerLen(s[p..]).None?
    ensures forall e :: p <= e <= |s| ==> !IsMarker(s[p..e])
  {
    forall e | p <= e <= |s| ensures !IsMarker(s[p..e]) {
      assert s[p..][..e - p] == s[p..e];
    }
  }

  /** The first match of the pattern at or after index `p`, as its start and end: the search
      `String.prototype.split` performs before cutting the next piece. */
  function FirstMarker(s: string, p: nat): (r: Option<(nat, nat)>)
    requires p <= |s|
    ensures r.Some? ==> p <= r.value.0 < r.value.1 <= |s|
    decreases |s| - p
  {
    if p == |s| then None
    else match MarkerLen(s[p..])
      case Some(n) => Some((p, p + n))
      case None => FirstMarker(s, p + 1)
  }

  /** The search finds a match exactly when there is one, and then the leftmost one. */
  lemma {:induction false} FirstMarkerIsLeftmost(s: string, p: nat)
    requires p <= |s|
    ensures FirstMarker(s, p).Some? ==>
      var (q, e) := FirstMarker(s, p).value;
      IsMarker(s[q..e]) && forall j, f :: p <= j < q && j <= f <= |s| ==> !IsMarker(s[j..f])
    ensures FirstMarker(s, p).None? ==> forall j, f :: p <= j <= f <= |s| ==> !IsMarker(s[j..f])
    decreases |s| - p
  {
    if p == |s| {
      forall j, f | p <= j <= f <= |s| ensures !IsMarker(s[j..f]) {
        assert s[j..f] == [];
      }
    } else {
      match MarkerLen(s[p..])
      case Some(n) =>
        assert s[p..][..n] == s[p..p + n];
      case None =>
        NoMarkerAt(s, p);
        FirstMarkerIsLeftmost(s, p + 1);
        match FirstMarker(s, p + 1)
        case Some((q, e)) =>
          ExtendLeft(s, p, q);
        case None =>
          ExtendLeft(s, p, |s| + 1);
    }
  }

  /** A start with no match in front of a stretch of starts with no match. */
  lemma ExtendLeft(s: string, p: nat, bound: nat)
    requires p < |s|
    requires forall e :: p <= e <= |s| ==> !IsMarker(s[p..e])
    requires forall j, f :: p + 1 <= j < bound && j <= f <= |s| ==> !IsMarker(s[j..f])
    ensures forall j, f :: p <= j < bound && j <= f <= |s| ==> !IsMarker(s[j..f])
  {
  }

  /** `segs[0] + marks[0] + segs[1] + marks[1] + ... + segs[|marks|]`. */
  function Weave(segs: seq<string>, marks: seq<string>): string
    requires |segs| == |marks| + 1
  {
    if marks == [] then segs[0] else segs[0] + marks[0] + Weave(segs[1..], marks[1..])
  }

  /** No match of the pattern starts before index `n` of `w`, not even one that runs past `n`. */
  predicate NoMatchBefore(w: string, n: nat)
  {
    forall j, f :: 0 <= j < n && j <= f <= |w| ==> !IsMarker(w[j..f])
  }

  /** `reply.split(/\n\d+\.\s/)` together with the matched separators: the reply is the
      pieces woven with the markers, every separator is a match of the pattern, and every cut
      is at the leftmost match: in what remains of the reply from piece k on, no match starts
      inside piece k, not even one reaching past its end. */
  function Tokenize(s: string): (r: (seq<string>, seq<string>))
    ensures |r.0| == |r.1| + 1
    ensures Weave(r.0, r.1) == s
    ensures forall k :: 0 <= k < |r.1| ==> IsMarker(r.1[k])
    ensures forall k :: 0 <= k < |r.0| ==> MarkerFree(r.0[k])
    ensures forall k :: 0 <= k < |r.0| ==> NoMatchBefore(Weave(r.0[k..], r.1[k..]), |r.0[k]|)
    decreases |s|
  {
    match FirstMarker(s, 0)
    case None =>
      NoFirstMarker(s);
      assert [s][0..] == [s];
      ([s], [])
    case Some((q, e)) =>
      var rest := Tokenize(s[e..]);
      BeforeFirstMarker(s, q, e);
      ConsTokens(s[..q], s[q..e], rest.0, rest.1);
      Reassemble(s, q, e);
      ConsLeftmost(s[..q], s[q..e], rest.0, rest.1);
      ([s[..q]] + rest.0, [s[q..e]] + rest.1)
  }

  /** A piece cut at the leftmost match, in front of a tokenisation cut at leftmost matches,
      gives a tokenisation cut at leftmost matches. */
  lemma ConsLeftmost(seg: string, mark: string, segs: seq<string>, marks: seq<string>)
    requires |segs| == |marks| + 1
    requires NoMatchBefore(seg + mark + Weave(segs, marks), |seg|)
    requires forall k :: 0 <= k < |segs| ==> NoMatchBefore(Weave(segs[k..], marks[k..]), |segs[k]|)
    ensures forall k :: 0 <= k < |segs| + 1 ==>
      NoMatchBefore(Weave(([seg] + segs)[k..], ([mark] + marks)[k..]), |([seg] + segs)[k]|)
  {
    var all, allMarks := [seg] + segs, [mark] + marks;
    forall k | 0 <= k < |all| ensures NoMatchBefore(Weave(all[k..], allMarks[k..]), |all[k]|) {
      if k == 0 {
        assert all[k..] == all && allMarks[k..] == allMarks;
        assert all[1..] == segs && allMarks[1..] == marks;
      } else {
        assert all[k..] == segs[k - 1..] && allMarks[k..] == marks[k - 1..];
      }
    }
  }

  /** A marker-free piece and a marker put in front of a tokenisation give a tokenisation. */
  lemma ConsTokens(seg: string, mark: string, segs: seq<string>, marks: seq<string>)
    requires |segs| == |marks| + 1
    requires IsMarker(mark) && MarkerFree(seg)
    requires forall k :: 0 <= k < |marks| ==> IsMarker(marks[k])
    requires forall k :: 0 <= k < |segs| ==> MarkerFree(segs[k])
    ensures Weave([seg] + segs, [mark] + marks) == seg + mark + Weave(segs, marks)
    ensures forall k :: 0 <= k < |marks| + 1 ==> IsMarker(([mark] + marks)[k])
    ensures forall k :: 0 <= k < |segs| + 1 ==> MarkerFree(([seg] + segs)[k])
  {
    assert ([seg] + segs)[1..] == segs;
    assert ([mark] + marks)[1..] == marks;
  }

  /** A text in which the search finds no match is free of markers. */
  lemma NoFirstMarker(s: string)
    requires FirstMarker(s, 0).None?
    ensures MarkerFree(s) && NoMatchBefore(s, |s|)
  {
    FirstMarkerIsLeftmost(s, 0);
  }

  /** The match the search finds is a marker, and the text before it is free of markers. */
  lemma BeforeFirstMarker(s: string, q: nat, e: nat)
    requires FirstMarker(s, 0) == Some((q, e))
    ensures q <= e <= |s| && IsMarker(s[q..e]) && MarkerFree(s[..q]) && NoMatchBefore(s, q)
  {
    FirstMarkerIsLeftmost(s, 0);
    PrefixMarkerFree(s, q);
  }

  /** A prefix in which no match starts is free of markers. */
  lemma PrefixMarkerFree(s: string, q: nat)
    requires q <= |s|
    requires forall j, f :: 0 <= j < q && j <= f <= |s| ==> !IsMarker(s[j..f])
    ensures MarkerFree(s[..q])
  {
    forall j, f | 0 <= j <= f <= q ensures !IsMarker(s[..q][j..f]) {
      assert s[..q][j..f] == s[j..f];
      if j == q {
        assert |s[j..f]| == 0;
      }
    }
  }

  /** The pieces of `reply.split(/\n\d+\.\s/)`. */
  function Segments(reply: string): seq<string>
  {
    Tokenize(reply).0
  }

  /** `segs[i + 1]?.trim() || text`: the trimmed piece when there is one and it is not
      blank, the text otherwise. */
  function PickOne(piece: Option<string>, text: string): string
  {
    if piece.Some? && Trim(piece.value) != "" then Trim(piece.value) else text
  }

  /** `segs[i + 1]`, or `undefined` past the end. */
  function PieceAfter(segs: seq<string>, i: nat): Option<string>
  {
    if i + 1 < |segs| then Some(segs[i + 1]) else None
  }

  /** `texts.map((_, i) => segs[i + 1]?.trim() || texts[i])`: text i gets piece i + 1,
      trimmed, when that piece exists and is not blank, and keeps itself otherwise. */
  function PickSummaries(segs: seq<string>, texts: seq<string>): (r: seq<string>)
    ensures |r| == |texts|
    ensures forall i :: 0 <= i < |texts| && i + 1 < |segs| && Trim(segs[i + 1]) != "" ==>
      r[i] == Trim(segs[i + 1])
    ensures forall i :: 0 <= i < |texts| && (i + 1 >= |segs| || Trim(segs[i + 1]) == "") ==>
      r[i] == texts[i]
  {
    seq(|texts|, i requires 0 <= i < |texts| => PickOne(PieceAfter(segs, i), texts[i]))
  }

  /** Line 91 as written: the reply is split as it is, so the piece before the first
      `\n<n>. ` is discarded even when it is the first numbered item. */
  function ParseReplyAsWritten(reply: string, texts: seq<string>): (r: seq<string>)
    ensures |r| == |texts|
    ensures var segs := Segments(reply);
      forall i :: 0 <= i < |texts| && i + 1 < |segs| && Trim(segs[i + 1]) != "" ==>
        r[i] == Trim(segs[i + 1])
    ensures var segs := Segments(reply);
      forall i :: 0 <= i < |texts| && (i + 1 >= |segs| || Trim(segs[i + 1]) == "") ==>
        r[i] == texts[i]
  {
    PickSummaries(Segments(reply), texts)
  }

  /** Line 91 corrected: a newline is put in front of the reply, so that an item
      numbered at the very start of the reply is recognised like every later one. */
  function ParseReply(reply: string, texts: seq<string>): (r: seq<string>)
    ensures |r| == |texts|
    ensures var segs := Segments("\n" + reply);
      forall i :: 0 <= i < |texts| && i + 1 < |segs| && Trim(segs[i + 1]) != "" ==>
        r[i] == Trim(segs[i + 1])
    ensures var segs := Segments("\n" + reply);
      forall i :: 0 <= i < |texts| && (i + 1 >= |segs| || Trim(segs[i + 1]) == "") ==>
        r[i] == texts[i]
  {
    PickSummaries(Segments("\n" + reply), texts)
  }

  /** A reply with no numbered item leaves every text as its own summary. */
  lemma {:induction false} ParseUnnumberedReply(reply: string, texts: seq<string>)
    requires MarkerFree("\n" + reply)
    ensures ParseReply(reply, texts) == texts
  {
    var s := "\n" + reply;
    match FirstMarker(s, 0)
    case None =>
    case Some((q, e)) =>
      BeforeFirstMarker(s, q, e);
      assert false;
  }

  // ---------------------------------------------------------------------------------------
  // Numbered lists as the summarisation service is asked to write them.

  /** The decimal numeral of `n`. */
  function Decimal(n: nat): (r: string)
    ensures |r| >= 1 && forall k :: 0 <= k < |r| ==> IsDigit(r[k])
  {
    var d := ('0' as int + n % 10) as char;
    if n < 10 then [d] else Decimal(n / 10) + [d]
  }

  /** The newline and number that open the `k`-th line of a numbered list: `"\n<k>. "`. */
  function LineStart(k: nat): string
  {
    "\n" + Decimal(k) + ". "
  }

  /** `"\n<k>. " + items[0] + "\n<k+1>. " + items[1] + ...` */
  function ListBody(items: seq<string>, k: nat): string
  {
    if items == [] then "" else LineStart(k) + (items[0] + ListBody(items[1..], k + 1))
  }

  /** `"1. " + items[0] + "\n2. " + items[1] + ...`: a reply numbered as requested. */
  function NumberedList(items: seq<string>): string
    requires |items| >= 1
  {
    (Decimal(1) + ". " + items[0]) + ListBody(items[1..], 2)
  }

  /** A summary the service may write on one numbered line. */
  predicate IsSummaryLine(item: string)
  {
    item != "" && '\n' !in item && IsTrimmed(item)
  }

  /** A text without newlines is a single piece. */
  lemma SegmentsWithoutNewline(s: string)
    requires '\n' !in s
    ensures Segments(s) == [s]
  {
    FirstMarkerSkips(s, 0, |s|);
  }

  /** Splitting stops first at the leftmost match. */
  lemma SegmentsStep(s: string, q: nat, e: nat)
    requires FirstMarker(s, 0) == Some((q, e))
    ensures Segments(s) == [s[..q]] + Segments(s[e..])
  {
  }

  /** The opening of a numbered line is a match of the pattern. */
  lemma LineStartIsMarker(k: nat)
    ensures IsMarker(LineStart(k))
  {
    var d := Decimal(k);
    var m := LineStart(k);
    assert |m| == |d| + 3;
    forall j | 1 <= j < |m| - 2 ensures IsDigit(m[j]) {
      assert m[j] == d[j - 1];
    }
    assert m[|m| - 2] == '.' && m[|m| - 1] == ' ';
  }

  /** The search skips a stretch without newlines: no match can start there. */
  lemma {:induction false} FirstMarkerSkips(s: string, p: nat, q: nat)
    requires p <= q <= |s|
    requires forall j :: p <= j < q ==> s[j] != '\n'
    ensures FirstMarker(s, p) == FirstMarker(s, q)
    decreases q - p
  {
    if p < q {
      assert s[p..][0] == s[p];
      FirstMarkerSkips(s, p + 1, q);
    }
  }

  /** In a text without newlines followed by a marker, the first match is that marker. */
  lemma FirstMarkerAfter(pre: string, m: string, tail: string)
    requires '\n' !in pre && IsMarker(m)
    ensures FirstMarker(pre + (m + tail), 0) == Some((|pre|, |pre| + |m|))
  {
    var s := pre + (m + tail);
    var q := |pre|;
    assert forall j :: 0 <= j < q ==> s[j] != '\n' by {
      forall j | 0 <= j < q ensures s[j] != '\n' { assert s[j] == pre[j]; }
    }
    FirstMarkerSkips(s, 0, q);
    assert s[q..] == m + tail;
    MarkerAtStart(m, tail);
  }

  /** The pattern matches a marker at the start of a text, with the marker's length. */
  lemma MarkerAtStart(m: string, tail: string)
    requires IsMarker(m)
    ensures MarkerLen(m + tail) == Some(|m|)
  {
    assert (m + tail)[..|m|] == m;
  }

  /** Cutting off a text without newlines and the marker after it. */
  lemma SegmentsAfter(pre: string, m: string, tail: string)
    requires '\n' !in pre && IsMarker(m)
    ensures Segments(pre + (m + tail)) == [pre] + Segments(tail)
  {
    var s := pre + (m + tail);
    FirstMarkerAfter(pre, m, tail);
    SegmentsStep(s, |pre|, |pre| + |m|);
    assert s[..|pre|] == pre;
    assert s[|pre| + |m|..] == tail;
  }

  /** A text without newlines, followed by numbered lines, splits into that text and the lines. */
  lemma {:induction false} SegmentsOfList(pre: string, items: seq<string>, k: nat)
    requires '\n' !in pre
    requires forall i :: 0 <= i < |items| ==> '\n' !in items[i]
    ensures Segments(pre + ListBody(items, k)) == [pre] + items
    decreases |items|
  {
    if items == [] {
      assert pre + ListBody(items, k) == pre;
      SegmentsWithoutNewline(pre);
    } else {
      var rest := items[1..];
      var tail := items[0] + ListBody(rest, k + 1);
      assert '\n' !in items[0];
      assert forall i :: 0 <= i < |rest| ==> '\n' !in rest[i] by {
        forall i | 0 <= i < |rest| ensures '\n' !in rest[i] { assert rest[i] == items[i + 1]; }
      }
      SegmentsOfList(items[0], rest, k + 1);
      LineStartIsMarker(k);
      SegmentsAfter(pre, LineStart(k), tail);
      assert [items[0]] + rest == items;
    }
  }

  /** Round trip: a reply numbered as requested, one summary line per text, parses back into
      exactly those summaries, in order. */
  lemma ParseReplyRoundTrip(items: seq<string>, texts: seq<string>)
    requires |items| == |texts| >= 1
    requires forall i :: 0 <= i < |items| ==> IsSummaryLine(items[i])
    ensures ParseReply(NumberedList(items), texts) == items
  {
    ListAfterNewline(items);
    SegmentsOfList("", items, 1);
    PickEveryPiece([""] + items, texts);
  }

  /** A numbered list with a newline in front is the list body from item 1. */
  lemma ListAfterNewline(items: seq<string>)
    requires |items| >= 1
    ensures "\n" + NumberedList(items) == "" + ListBody(items, 1)
  {
    Regroup(Decimal(1), items[0], ListBody(items[1..], 2));
  }

  lemma Regroup(d: string, item: string, rest: string)
    ensures "\n" + ((d + ". " + item) + rest) == "" + (("\n" + d + ". ") + (item + rest))
  {
  }

  /** When every piece after the first is a summary line, each text gets its piece. */
  lemma PickEveryPiece(segs: seq<string>, texts: seq<string>)
    requires |segs| == |texts| + 1
    requires forall i :: 1 <= i < |segs| ==> IsSummaryLine(segs[i])
    ensures PickSummaries(segs, texts) == segs[1..]
  {
    var r := PickSummaries(segs, texts);
    forall i | 0 <= i < |texts| ensures r[i] == segs[1..][i] {
      assert IsSummaryLine(segs[i + 1]);
    }
  }

  /** As written, the same reply shifts every summary up by one place: text i receives the
      summary of text i + 1 and the last text receives no summary but itself. */
  lemma ParseReplyAsWrittenShifts(items: seq<string>, texts: seq<string>)
    requires |items| == |texts| >= 1
    requires forall i :: 0 <= i < |items| ==> IsSummaryLine(items[i])
    ensures ParseReplyAsWritten(NumberedList(items), texts) == items[1..] + [texts[|texts| - 1]]
  {
    var head := Decimal(1) + ". " + items[0];
    assert '\n' !in head by {
      assert head == Decimal(1) + (". " + items[0]);
    }
    SegmentsOfList(head, items[1..], 2);
    PickShiftedPieces([head] + items[1..], items, texts);
  }

  /** When the pieces after the first are all but the first summary line, each text gets
      the next text's line and the last keeps its own. */
  lemma PickShiftedPieces(segs: seq<string>, items: seq<string>, texts: seq<string>)
    requires |items| == |texts| >= 1 && |segs| == |items| && segs[1..] == items[1..]
    requires forall i :: 0 <= i < |items| ==> IsSummaryLine(items[i])
    ensures PickSummaries(segs, texts) == items[1..] + [texts[|texts| - 1]]
  {
    var r := PickSummaries(segs, texts);
    forall i | 0 <= i < |texts| ensures r[i] == (items[1..] + [texts[|texts| - 1]])[i] {
      if i + 1 < |segs| {
        assert segs[i + 1] == items[i + 1];
        assert IsSummaryLine(items[i + 1]);
      }
    }
  }

  // ---------------------------------------------------------------------------------------
  // batchSummarize

  /** `texts.map(t => t.split(". ").slice(0, 2).join(". "))`: every text's fallback summary,
      a prefix of that text, in order. */
  function FallbackAll(texts: seq<string>): (r: seq<string>)
    ensures |r| == |texts|
    ensures forall i :: 0 <= i < |texts| ==> r[i] <= texts[i]
  {
    seq(|texts|, i requires 0 <= i < |texts| => Fallback(texts[i]))
  }

  /** `batchSummarize(texts)`. With no summariser credential, or nothing to summarise, every
      text gets its fallback summary and no request is made; otherwise one request carries all
      texts and the reply is split on the pattern as line 91 writes it: text i gets piece
      i + 1, trimmed, unless that piece is absent or blank, when it keeps itself. A failed
      request again gives every text its fallback. In every branch the result has one summary
      per text, in the texts' order, and each is a prefix of its text or a non-blank trimmed
      piece of the reply. */
  function BatchSummarize(configured: bool, texts: seq<string>, reply: Reply<string>): (r: seq<string>)
    ensures |r| == |texts|
    ensures (!configured || |texts| == 0 || reply.Failed?) ==>
      forall i :: 0 <= i < |texts| ==> r[i] == Fallback(texts[i])
    ensures configured && reply.Received? ==>
      var segs := Segments(reply.value);
      forall i :: 0 <= i < |texts| && i + 1 < |segs| && Trim(segs[i + 1]) != "" ==>
        r[i] == Trim(segs[i + 1])
    ensures configured && reply.Received? ==>
      var segs := Segments(reply.value);
      forall i :: 0 <= i < |texts| && (i + 1 >= |segs| || Trim(segs[i + 1]) == "") ==>
        r[i] == texts[i]
    ensures forall i :: 0 <= i < |texts| ==> r[i] <= texts[i] || (r[i] != "" && IsTrimmed(r[i]))
  {
    if !configured || |texts| == 0 then FallbackAll(texts)
    else match reply
      case Received(content) => ParseReplyAsWritten(content, texts)
      case Failed => FallbackAll(texts)
  }

  /** A reply numbered as requested, one summary line per text, reaches the texts shifted by
      one place: text i gets the line written for text i + 1, and the last text keeps itself. */
  lemma BatchSummarizeNumberedReply(items: seq<string>, texts: seq<string>)
    requires |items| == |texts| >= 1
    requires forall i :: 0 <= i < |items| ==> IsSummaryLine(items[i])
    ensures BatchSummarize(true, texts, Received(NumberedList(items))) == items[1..] + [texts[|texts| - 1]]
  {
    ParseReplyAsWrittenShifts(items, texts);
  }

  /** Non-empty texts get non-empty summaries, whichever branch is taken. */
  lemma BatchSummariesNonEmpty(configured: bool, texts: seq<string>, reply: Reply<string>)
    requires forall i :: 0 <= i < |texts| ==> texts[i] != ""
    ensures forall i :: 0 <= i < |texts| ==> BatchSummarize(configured, texts, reply)[i] != ""
  {
    forall i | 0 <= i < |texts| ensures BatchSummarize(configured, texts, reply)[i] != "" {
      FallbackNonEmpty(texts[i]);
    }
  }
}
