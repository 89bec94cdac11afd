/** The link scan `[...content.matchAll(/!\[\[.*\]\]/g)]`, written out as an
    explicit left-to-right scan instead of a regular expression.

    At a position `i` the pattern matches iff the text there starts with
    `![[`; `.*` is greedy and `.` does not match a line terminator, so the
    match then runs to the LAST `]]` that still lies on the same line. When
    there is no match at `i` the engine retries at `i + 1`; after a match it
    resumes at the match's end, so matches never overlap. */
module LinkScan {
  import opened Optional
  import opened Text

  const Open: string := "![["
  const Close: string := "]]"

  /** The characters `.` refuses in a JavaScript regular expression. */
  predicate IsLineTerminator(c: char)
  {
    c == '\n' || c == '\r' || c == '\U{2028}' || c == '\U{2029}'
  }

  /** No line terminator in `s[lo..hi]`. */
  predicate OnOneLine(s: string, lo: nat, hi: nat)
    requires lo <= hi <= |s|
  {
    forall k :: lo <= k < hi ==> !IsLineTerminator(s[k])
  }

  /** Reference meaning of the pattern: `s[i..e]` is `![[`, then any
      characters other than line terminators, then `]]`. */
  ghost predicate IsLinkMatch(s: string, i: nat, e: nat)
  {
    && i + 5 <= e <= |s|
    && OccursAt(s, Open, i)
    && OccursAt(s, Close, e - 2)
    && OnOneLine(s, i + 3, e - 2)
  }

  /** What the greedy `.*` selects at `i`: the longest match starting there. */
  ghost predicate IsGreedyMatch(s: string, i: nat, e: nat)
  {
    && IsLinkMatch(s, i, e)
    && forall e': nat :: IsLinkMatch(s, i, e') ==> e' <= e
  }

  /** Index of the first line terminator at or after `i`, or `|s|`. */
  function LineEnd(s: string, i: nat): (k: nat)
    requires i <= |s|
    ensures i <= k <= |s|
    ensures OnOneLine(s, i, k)
    ensures k == |s| || IsLineTerminator(s[k])
    decreases |s| - i
  {
    if i == |s| || IsLineTerminator(s[i]) then i else LineEnd(s, i + 1)
  }

  /** The last `]]` lying wholly inside `s[lo..hi]`, found by backing off
      from `hi` as the regex engine does. */
  function LastClose(s: string, lo: nat, hi: nat): (r: Option<nat>)
    requires lo <= hi <= |s|
    ensures r.Some? ==> lo <= r.value && r.value + 2 <= hi && OccursAt(s, Close, r.value)
    ensures r.Some? ==> forall j: nat :: r.value < j && j + 2 <= hi ==> !OccursAt(s, Close, j)
    ensures r.None? ==> forall j: nat :: lo <= j && j + 2 <= hi ==> !OccursAt(s, Close, j)
    decreases hi
  {
    if hi < lo + 2 then None
    else if OccursAt(s, Close, hi - 2) then Some(hi - 2)
    else LastClose(s, lo, hi - 1)
  }

  /** The end of the match the pattern makes at `i`, if it makes one. */
  function LinkAt(s: string, i: nat): (r: Option<nat>)
    requires i <= |s|
    ensures r.Some? ==> IsGreedyMatch(s, i, r.value)
    ensures r.None? ==> forall e: nat :: !IsLinkMatch(s, i, e)
  {
    if !OccursAt(s, Open, i) then None
    else
      var le := LineEnd(s, i + 3);
      var close := LastClose(s, i + 3, le);
      forall e: nat | IsLinkMatch(s, i, e)
        ensures e <= le && close.Some? && e - 2 <= close.value
      {
        assert s[e - 2] == Close[0] && s[e - 1] == Close[1];
      }
      if close.None? then None else Some(close.value + 2)
  }

  /** One match: `s[start..stop]`. */
  datatype Span = Span(start: nat, stop: nat)

  /** `s[sp.start..sp.stop]`, the text `match[0]` holds. */
  function SpanText(s: string, sp: Span): string
    requires sp.start <= sp.stop <= |s|
  {
    s[sp.start..sp.stop]
  }

  /** The spans lie in `s`, are greedy matches, start at or after `from`, and
      are strictly increasing and pairwise disjoint. */
  ghost predicate WellFormedScan(s: string, from: nat, r: seq<Span>)
  {
    && (forall k :: 0 <= k < |r| ==> from <= r[k].start && IsGreedyMatch(s, r[k].start, r[k].stop))
    && (forall k1, k2 :: 0 <= k1 < k2 < |r| ==> r[k1].stop <= r[k2].start)
  }

  /** `i` lies inside one of the spans. */
  ghost predicate Covered(r: seq<Span>, i: nat)
  {
    exists k :: 0 <= k < |r| && r[k].start <= i < r[k].stop
  }

  /** A greedy match followed by a scan from its end is a scan from its
      start. */
  lemma {:induction false} PrependMatch(s: string, from: nat, e: nat, rest: seq<Span>)
    requires IsGreedyMatch(s, from, e) && WellFormedScan(s, e, rest)
    ensures WellFormedScan(s, from, [Span(from, e)] + rest)
  {
    var r := [Span(from, e)] + rest;
    assert forall k :: 0 < k < |r| ==> r[k] == rest[k - 1];
  }

  /** `matchAll` from index `from`: every match, left to right. */
  function ScanLinks(s: string, from: nat): (r: seq<Span>)
    requires from <= |s|
    ensures WellFormedScan(s, from, r)
    ensures |r| <= (|s| - from) / 5
    decreases |s| - from
  {
    if from == |s| then []
    else
      match LinkAt(s, from)
      case Some(e) =>
        var rest := ScanLinks(s, e);
        PrependMatch(s, from, e, rest);
        [Span(from, e)] + rest
      case None => ScanLinks(s, from + 1)
  }

  /** The scan misses nothing: every position at or after `from` where the
      pattern could start a match lies inside one of the scanned spans
      (either it starts one, or an earlier greedy match swallowed it). */
  lemma {:induction false} ScanCoversEveryLink(s: string, from: nat, i: nat, e: nat)
    requires from <= i && IsLinkMatch(s, i, e)
    ensures Covered(ScanLinks(s, from), i)
    decreases |s| - from
  {
    var r := ScanLinks(s, from);
    match LinkAt(s, from)
    case Some(stop) =>
      if i < stop {
        assert r[0].start <= i < r[0].stop;
      } else {
        ScanCoversEveryLink(s, stop, i, e);
        var rest := ScanLinks(s, stop);
        var k :| 0 <= k < |rest| && rest[k].start <= i < rest[k].stop;
        assert r[k + 1] == rest[k];
      }
    case None =>
      assert i != from;
      ScanCoversEveryLink(s, from + 1, i, e);
  }

  /** Texts of scanned matches begin with `![[`, end with `]]` and contain no
      line terminator. */
  ghost predicate IsLinkText(t: string)
  {
    && |t| >= 5
    && t[..3] == Open
    && t[|t| - 2..] == Close
    && forall k :: 0 <= k < |t| ==> !IsLineTerminator(t[k])
  }

  lemma {:induction false} MatchTextIsLink(s: string, i: nat, e: nat)
    requires IsLinkMatch(s, i, e)
    ensures IsLinkText(s[i..e])
  {
    var t := s[i..e];
    assert t[..3] == s[i..i + 3];
    assert t[|t| - 2..] == s[e - 2..e];
    forall k | 0 <= k < |t|
      ensures !IsLineTerminator(t[k])
    {
      if k < 3 {
        assert t[k] == Open[k];
      } else if k >= |t| - 2 {
        assert t[k] == Close[k - (|t| - 2)];
      } else {
        assert t[k] == s[i + k];
      }
    }
  }

  /** Greediness across links: if a second `![[...]]` starts later on the
      same line as a greedy match, it ends no later than that match, so two
      links sharing a line come back as one match. */
  lemma {:induction false} SameLineLinksMerge(s: string, i: nat, e: nat, p: nat, e2: nat)
    requires IsGreedyMatch(s, i, e)
    requires i < p && IsLinkMatch(s, p, e2)
    requires OnOneLine(s, i, p)
    ensures e2 <= e
  {
    forall k | i + 3 <= k < e2 - 2
      ensures !IsLineTerminator(s[k])
    {
      if p <= k < p + 3 {
        assert s[k] == Open[k - p];
      }
    }
    assert IsLinkMatch(s, i, e2);
  }

  /** A `]]` later on the same line closes a longer match from `i`. */
  lemma {:induction false} LaterCloseExtendsMatch(s: string, i: nat, e: nat, j: nat)
    requires IsLinkMatch(s, i, e)
    requires e - 2 < j && j + 2 <= LineEnd(s, i) && OccursAt(s, Close, j)
    ensures IsLinkMatch(s, i, j + 2)
  {
    assert OnOneLine(s, i + 3, j);
  }

  /** A greedy match ends at the last `]]` of its line: no `]]` begins after
      the match's closing `]]` before the line ends. */
  lemma {:induction false} GreedyMatchEndsAtLastClose(s: string, i: nat, e: nat, j: nat)
    requires IsGreedyMatch(s, i, e)
    requires e - 2 < j && j + 2 <= LineEnd(s, i)
    ensures !OccursAt(s, Close, j)
  {
    if OccursAt(s, Close, j) {
      LaterCloseExtendsMatch(s, i, e, j);
    }
  }

  /** Worked scan: two embeds on one line come back as ONE match spanning
      both. */
  lemma {:induction false} TwoLinksOneLineExample()
    ensures ScanLinks("![[a.png]] ![[b.png]]", 0) == [Span(0, 21)]
  {
    var s := "![[a.png]] ![[b.png]]";
    assert s[0..3] == Open;
    assert s[19..21] == Close;
    assert OnOneLine(s, 3, 19);
    assert IsLinkMatch(s, 0, 21);
    assert LinkAt(s, 0) == Some(21);
  }
}
