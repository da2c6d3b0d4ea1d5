/**
 * The archive-text classifier of the upload dialog: `numKyxEntries` and `numKyxTactics` count
 * the matches of the global regular expressions
 *   /(Theorem|Lemma|ArchiveEntry|Exercise)(\s*)"[^"]*"/g   and   /Tactic(\s*)"[^"]*"/g
 * in the uploaded text. The regex is modelled as the deterministic scan JavaScript's
 * `String.prototype.match` performs: at each position try the keywords in order; after a
 * keyword skip all whitespace, require a double quote, and close the label at the next
 * double quote. A match resumes the scan after its closing quote, a failure one character on.
 * Neither `\s*` nor `[^"]*` can backtrack usefully (whitespace is never a quote, and a shorter
 * label would end before a non-quote), so only the keyword alternation is tried in order.
 */
module ArchiveClassifier {
  import opened Wrappers
  import opened JsLib

  /** JavaScript's `\s`: the WhiteSpace and LineTerminator code points of ECMAScript. */
  predicate IsWs(c: char) {
    var n := c as int;
    n == 0x09 || n == 0x0A || n == 0x0B || n == 0x0C || n == 0x0D || n == 0x20 || n == 0xA0
    || n == 0x1680 || (0x2000 <= n <= 0x200A) || n == 0x2028 || n == 0x2029 || n == 0x202F
    || n == 0x205F || n == 0x3000 || n == 0xFEFF
  }

  predicate AllWs(w: string) {
    forall m :: 0 <= m < |w| ==> IsWs(w[m])
  }

  const Quote: char := '"'

  /** The alternatives of the entry regex, in the order the regex tries them. */
  const EntryKeywords: seq<string> := ["Theorem", "Lemma", "ArchiveEntry", "Exercise"]

  /** The keyword of the tactic regex. */
  const TacticKeywords: seq<string> := ["Tactic"]

  /** The greedy `\s*` from position i: the first position at or after i that is not whitespace. */
  function SkipWs(s: string, i: nat): (j: nat)
    requires i <= |s|
    ensures i <= j <= |s|
    ensures forall m :: i <= m < j ==> IsWs(s[m])
    ensures j == |s| || !IsWs(s[j])
    decreases |s| - i
  {
    if i == |s| || !IsWs(s[i]) then i else SkipWs(s, i + 1)
  }

  /** `[^"]*"` from position i: the first double quote at or after i. */
  function NextQuote(s: string, i: nat): (r: Option<nat>)
    requires i <= |s|
    ensures r.Some? ==> i <= r.value < |s| && s[r.value] == Quote
    ensures r.Some? ==> forall m :: i <= m < r.value ==> s[m] != Quote
    ensures r.None? ==> forall m :: i <= m < |s| ==> s[m] != Quote
    decreases |s| - i
  {
    if i == |s| then None
    else if s[i] == Quote then Some(i)
    else NextQuote(s, i + 1)
  }

  /** The end of the match of `kw\s*"[^"]*"` that starts at position i, if any. */
  function LabelAfter(s: string, i: nat, kw: string): (r: Option<nat>)
    ensures r.Some? ==> i + |kw| + 2 <= r.value <= |s| && s[r.value - 1] == Quote
  {
    if !OccursAt(s, kw, i) then None
    else
      var p := SkipWs(s, i + |kw|);
      if p < |s| && s[p] == Quote then
        match NextQuote(s, p + 1)
        case Some(q) => Some(q + 1)
        case None => None
      else None
  }

  /**
   * The end of the match that starts at position i: the alternation tries the keywords in
   * order and takes the first one for which the rest of the pattern matches.
   */
  function MatchAt(s: string, i: nat, kws: seq<string>): (r: Option<nat>)
    ensures r.Some? ==> i + 2 <= r.value <= |s| && s[r.value - 1] == Quote
  {
    if kws == [] then None
    else
      match LabelAfter(s, i, kws[0])
      case Some(j) => Some(j)
      case None => MatchAt(s, i, kws[1..])
  }

  /** A matched substring s[start..end]. */
  datatype Span = Span(start: nat, end: nat)

  /**
   * A matcher for a text of length n: for each position, the end of the match that starts
   * there, if any. A match is never empty and never runs past the text.
   */
  ghost predicate IsMatcher(n: nat, m: nat -> Option<nat>) {
    forall p: nat :: m(p).Some? ==> p < m(p).value <= n
  }

  /** The matcher of the regex with alternatives kws over the text s. */
  function Matcher(s: string, kws: seq<string>): (m: nat -> Option<nat>)
    ensures IsMatcher(|s|, m)
  {
    (p: nat) => MatchAt(s, p, kws)
  }

  /**
   * The driver of a global regex search (`String.prototype.match` with the g flag): the
   * matches found from position i on, left to right. After a match the search resumes at
   * its end; where nothing matches it moves on by one position.
   */
  function Scan(n: nat, i: nat, m: nat -> Option<nat>): seq<Span>
    requires IsMatcher(n, m)
    decreases n - i
  {
    if i >= n then []
    else
      match m(i)
      case Some(j) => [Span(i, j)] + Scan(n, j, m)
      case None => Scan(n, i + 1, m)
  }

  /** The length of the array `s.match(regex)` returns (an absent array counting as empty). */
  function CountMatches(s: string, kws: seq<string>): nat {
    |Scan(|s|, 0, Matcher(s, kws))|
  }

  /** `numKyxEntries`: the number of labelled archive entries in content. */
  function NumKyxEntries(content: Option<string>): (n: nat)
    ensures content.None? || content.value == "" ==> n == 0
    ensures content.Some? ==> n == CountMatches(content.value, EntryKeywords)
  {
    if content.None? || content.value == "" then 0 else CountMatches(content.value, EntryKeywords)
  }

  /** `numKyxTactics`: the number of labelled tactics in content. */
  function NumKyxTactics(content: Option<string>): (n: nat)
    ensures content.None? || content.value == "" ==> n == 0
    ensures content.Some? ==> n == CountMatches(content.value, TacticKeywords)
  {
    if content.None? || content.value == "" then 0 else CountMatches(content.value, TacticKeywords)
  }

  /** The matcher m finds a match at position p. */
  predicate HasMatchAt(m: nat -> Option<nat>, p: nat) {
    m(p).Some?
  }

  /** Every span starts at or after i and is a match of m. */
  ghost predicate SpansMatch(i: nat, m: nat -> Option<nat>, ms: seq<Span>) {
    forall k :: 0 <= k < |ms| ==> i <= ms[k].start && m(ms[k].start) == Some(ms[k].end)
  }

  /** The spans are listed left to right and do not overlap. */
  ghost predicate Ordered(ms: seq<Span>) {
    forall a, b :: 0 <= a < b < |ms| ==> ms[a].end <= ms[b].start
  }

  /** Every position at or after i where m matches lies inside one of the spans. */
  ghost predicate Covers(i: nat, m: nat -> Option<nat>, ms: seq<Span>) {
    forall p: nat :: i <= p && HasMatchAt(m, p) ==> exists k :: 0 <= k < |ms| && ms[k].start <= p < ms[k].end
  }

  /**
   * The independent description of a global search: ms lists, left to right and without
   * overlap, matches at or after i, and misses no position at or after i where m matches.
   */
  ghost predicate IsLeftmostScan(i: nat, m: nat -> Option<nat>, ms: seq<Span>) {
    SpansMatch(i, m, ms) && Ordered(ms) && Covers(i, m, ms)
  }

  /** Each span the search reports is a match at or after its starting position. */
  lemma {:induction false} ScanSpansMatch(n: nat, i: nat, m: nat -> Option<nat>)
    requires IsMatcher(n, m)
    ensures SpansMatch(i, m, Scan(n, i, m))
    decreases n - i
  {
    if i < n {
      match m(i)
      case Some(j) =>
        ScanSpansMatch(n, j, m);
        var rest := Scan(n, j, m);
        assert Scan(n, i, m) == [Span(i, j)] + rest;
      case None =>
        ScanSpansMatch(n, i + 1, m);
    }
  }

  /** The spans the search reports are ordered and disjoint. */
  lemma {:induction false} ScanOrdered(n: nat, i: nat, m: nat -> Option<nat>)
    requires IsMatcher(n, m)
    ensures Ordered(Scan(n, i, m))
    decreases n - i
  {
    if i < n {
      match m(i)
      case Some(j) =>
        ScanOrdered(n, j, m);
        ScanSpansMatch(n, j, m);
        var rest := Scan(n, j, m);
        var ms := [Span(i, j)] + rest;
        assert Scan(n, i, m) == ms;
        forall a, b | 0 <= a < b < |ms| ensures ms[a].end <= ms[b].start {
          assert ms[b] == rest[b - 1];
          if a > 0 {
            assert ms[a] == rest[a - 1];
          }
        }
      case None =>
        ScanOrdered(n, i + 1, m);
    }
  }

  /** The search misses no match: every matching position lies in a reported span. */
  lemma {:induction false} ScanCovers(n: nat, i: nat, m: nat -> Option<nat>)
    requires IsMatcher(n, m)
    ensures Covers(i, m, Scan(n, i, m))
    decreases n - i
  {
    if i < n {
      match m(i)
      case Some(j) =>
        ScanCovers(n, j, m);
        var rest := Scan(n, j, m);
        var ms := [Span(i, j)] + rest;
        assert Scan(n, i, m) == ms;
        forall p: nat | i <= p && HasMatchAt(m, p)
          ensures exists k :: 0 <= k < |ms| && ms[k].start <= p < ms[k].end
        {
          if p < j {
            assert ms[0].start <= p < ms[0].end;
          } else {
            var k' :| 0 <= k' < |rest| && rest[k'].start <= p < rest[k'].end;
            assert ms[k' + 1] == rest[k'];
          }
        }
      case None =>
        ScanCovers(n, i + 1, m);
        assert !HasMatchAt(m, i);
    } else {
      assert forall p: nat :: n <= p ==> !HasMatchAt(m, p);
    }
  }

  /** The search finds a leftmost, non-overlapping sequence of matches that misses no match. */
  lemma ScanIsLeftmost(n: nat, i: nat, m: nat -> Option<nat>)
    requires IsMatcher(n, m)
    ensures IsLeftmostScan(i, m, Scan(n, i, m))
  {
    ScanSpansMatch(n, i, m);
    ScanOrdered(n, i, m);
    ScanCovers(n, i, m);
  }

  /** When a match starts at i, a leftmost scan from i reports exactly that match first. */
  lemma LeftmostScanHead(n: nat, i: nat, m: nat -> Option<nat>, ms: seq<Span>, j: nat)
    requires IsMatcher(n, m)
    requires IsLeftmostScan(i, m, ms)
    requires m(i) == Some(j)
    ensures ms != [] && ms[0] == Span(i, j)
  {
    assert HasMatchAt(m, i);
    var k :| 0 <= k < |ms| && ms[k].start <= i < ms[k].end;
    assert ms[k].start == i;
    assert forall k' :: 0 < k' < |ms| ==> ms[0].end <= ms[k'].start;
    assert k == 0;
  }

  /** After a leftmost scan's first span, the rest is a leftmost scan from that span's end. */
  lemma LeftmostScanTail(n: nat, i: nat, m: nat -> Option<nat>, ms: seq<Span>)
    requires IsMatcher(n, m)
    requires IsLeftmostScan(i, m, ms)
    requires ms != [] && ms[0].start == i
    ensures IsLeftmostScan(ms[0].end, m, ms[1..])
  {
    var j := ms[0].end;
    var rest := ms[1..];
    assert SpansMatch(j, m, rest) by {
      forall k' | 0 <= k' < |rest| ensures j <= rest[k'].start && m(rest[k'].start) == Some(rest[k'].end) {
        assert rest[k'] == ms[k' + 1];
      }
    }
    assert Ordered(rest) by {
      forall a, b | 0 <= a < b < |rest| ensures rest[a].end <= rest[b].start {
        assert rest[a] == ms[a + 1] && rest[b] == ms[b + 1];
      }
    }
    forall p: nat | j <= p && HasMatchAt(m, p)
      ensures exists k' :: 0 <= k' < |rest| && rest[k'].start <= p < rest[k'].end
    {
      var k0 :| 0 <= k0 < |ms| && ms[k0].start <= p < ms[k0].end;
      assert k0 != 0;
      assert rest[k0 - 1] == ms[k0];
    }
  }

  /** A leftmost scan is unique: any sequence of spans meeting the description is the search's. */
  lemma {:induction false} LeftmostScanIsUnique(n: nat, i: nat, m: nat -> Option<nat>, ms: seq<Span>)
    requires IsMatcher(n, m)
    requires IsLeftmostScan(i, m, ms)
    ensures ms == Scan(n, i, m)
    decreases n - i
  {
    if ms == [] {
      if i < n {
        assert !HasMatchAt(m, i);
        LeftmostScanIsUnique(n, i + 1, m, ms);
      }
    } else {
      assert i <= ms[0].start < n;
      match m(i)
      case None =>
        assert forall k :: 0 <= k < |ms| ==> ms[k].start != i;
        LeftmostScanIsUnique(n, i + 1, m, ms);
      case Some(j) =>
        LeftmostScanHead(n, i, m, ms, j);
        LeftmostScanTail(n, i, m, ms);
        LeftmostScanIsUnique(n, j, m, ms[1..]);
        assert ms == [ms[0]] + ms[1..];
    }
  }

  /**
   * The count is the number of matches of a leftmost, non-overlapping, complete scan from the
   * start of s, and every sequence of spans with that description has exactly that many.
   */
  lemma CountIsLeftmostMatches(s: string, kws: seq<string>)
    ensures IsLeftmostScan(0, Matcher(s, kws), Scan(|s|, 0, Matcher(s, kws)))
    ensures forall ms :: IsLeftmostScan(0, Matcher(s, kws), ms) ==> |ms| == CountMatches(s, kws)
  {
    var m := Matcher(s, kws);
    ScanIsLeftmost(|s|, 0, m);
    forall ms | IsLeftmostScan(0, m, ms) ensures |ms| == CountMatches(s, kws) {
      LeftmostScanIsUnique(|s|, 0, m, ms);
    }
  }

  /** The search reports nothing exactly when m matches nowhere. */
  lemma ScanEmptyIffNoMatch(n: nat, m: nat -> Option<nat>)
    requires IsMatcher(n, m)
    ensures Scan(n, 0, m) == [] <==> forall p: nat :: !HasMatchAt(m, p)
  {
    ScanCovers(n, 0, m);
    if forall p: nat :: !HasMatchAt(m, p) {
      LeftmostScanIsUnique(n, 0, m, []);
    }
  }

  /** The count is zero exactly when the pattern matches at no position of s. */
  lemma CountZeroIffNoMatch(s: string, kws: seq<string>)
    ensures CountMatches(s, kws) == 0 <==> forall p: nat :: !HasMatchAt(Matcher(s, kws), p)
  {
    ScanEmptyIffNoMatch(|s|, Matcher(s, kws));
  }

  /** A match is a keyword, whitespace, and a double-quoted label that holds no double quote. */
  lemma LabelAfterSound(s: string, i: nat, kw: string) returns (w: string, l: string)
    requires LabelAfter(s, i, kw).Some?
    ensures AllWs(w) && Quote !in l
    ensures s[i..LabelAfter(s, i, kw).value] == kw + w + [Quote] + l + [Quote]
  {
    var p := SkipWs(s, i + |kw|);
    var q := NextQuote(s, p + 1).value;
    w := s[i + |kw|..p];
    l := s[p + 1..q];
    assert s[i..q + 1] == s[i..i + |kw|] + s[i + |kw|..p] + s[p..p + 1] + s[p + 1..q] + s[q..q + 1];
  }

  /** Conversely, every keyword, whitespace and quoted label at position i is matched, up to its closing quote. */
  lemma LabelAfterComplete(s: string, i: nat, kw: string, w: string, l: string)
    requires AllWs(w) && Quote !in l
    requires OccursAt(s, kw + w + [Quote] + l + [Quote], i)
    ensures LabelAfter(s, i, kw) == Some(i + |kw| + |w| + |l| + 2)
  {
    var t := kw + w + [Quote] + l + [Quote];
    var a := i + |kw|;
    var p := a + |w|;
    var q := p + 1 + |l|;
    assert forall m :: i <= m < i + |t| ==> s[m] == t[m - i];
    assert OccursAt(s, kw, i) by {
      assert s[i..i + |kw|] == t[..|kw|];
    }
    forall m | a <= m < p ensures IsWs(s[m]) {
      assert t[m - i] == w[m - a];
    }
    assert s[p] == Quote by { assert t[p - i] == Quote; }
    assert !IsWs(Quote);
    assert SkipWs(s, a) == p;
    forall m | p + 1 <= m < q ensures s[m] != Quote {
      assert t[m - i] == l[m - p - 1];
    }
    assert s[q] == Quote by { assert t[q - i] == Quote; }
    assert NextQuote(s, p + 1) == Some(q);
  }

  /** The alternation picks the first keyword, in order, whose label is complete. */
  lemma {:induction false} MatchAtSound(s: string, i: nat, kws: seq<string>) returns (k: nat)
    requires MatchAt(s, i, kws).Some?
    ensures k < |kws| && LabelAfter(s, i, kws[k]) == MatchAt(s, i, kws)
    ensures forall k' :: 0 <= k' < k ==> LabelAfter(s, i, kws[k']).None?
  {
    if LabelAfter(s, i, kws[0]).Some? {
      k := 0;
    } else {
      var k1 := MatchAtSound(s, i, kws[1..]);
      k := k1 + 1;
      assert forall k' :: 1 <= k' < k ==> kws[k'] == kws[1..][k' - 1];
    }
  }

  /** Conversely, when some alternative matches at i, the alternation matches there. */
  lemma {:induction false} MatchAtComplete(s: string, i: nat, kws: seq<string>, k: nat)
    requires k < |kws| && LabelAfter(s, i, kws[k]).Some?
    ensures MatchAt(s, i, kws).Some?
  {
    if k > 0 && LabelAfter(s, i, kws[0]).None? {
      assert kws[1..][k - 1] == kws[k];
      MatchAtComplete(s, i, kws[1..], k - 1);
    }
  }

  /** An empty or an absent text holds no entry and no tactic. */
  lemma NoContentNoEntries()
    ensures NumKyxEntries(None) == 0 && NumKyxEntries(Some("")) == 0
    ensures NumKyxTactics(None) == 0 && NumKyxTactics(Some("")) == 0
  {
  }

  /** A keyword whose first character differs from the text at i does not start a match there. */
  lemma FirstCharMismatch(s: string, i: nat, kw: string)
    requires |kw| > 0 && (i < |s| ==> s[i] != kw[0])
    ensures LabelAfter(s, i, kw).None?
  {
    if i + |kw| <= |s| {
      assert s[i..i + |kw|][0] == s[i];
    }
  }

  /** No match starts at a character that begins none of the keywords. */
  lemma {:induction false} NoKeywordAt(s: string, i: nat, kws: seq<string>)
    requires forall k :: 0 <= k < |kws| ==> |kws[k]| > 0 && (i < |s| ==> s[i] != kws[k][0])
    ensures MatchAt(s, i, kws).None?
  {
    if kws != [] {
      FirstCharMismatch(s, i, kws[0]);
      NoKeywordAt(s, i, kws[1..]);
    }
  }

  /**
   * The match at i uses keyword kws[k] when the earlier keywords do not begin there and
   * kws[k], whitespace w and a quoted label l do.
   */
  lemma {:induction false} KeywordMatch(s: string, i: nat, kws: seq<string>, k: nat, w: string, l: string)
    requires k < |kws| && AllWs(w) && Quote !in l
    requires forall k' :: 0 <= k' < k ==> |kws[k']| > 0 && (i < |s| ==> s[i] != kws[k'][0])
    requires OccursAt(s, kws[k] + w + [Quote] + l + [Quote], i)
    ensures MatchAt(s, i, kws) == Some(i + |kws[k]| + |w| + |l| + 2)
  {
    if k == 0 {
      LabelAfterComplete(s, i, kws[0], w, l);
    } else {
      FirstCharMismatch(s, i, kws[0]);
      assert forall k' :: 0 <= k' < k - 1 ==> kws[1..][k'] == kws[k' + 1];
      KeywordMatch(s, i, kws[1..], k - 1, w, l);
    }
  }

  /** No match starts at or after i when no double quote follows. */
  lemma NoQuoteNoMatch(s: string, i: nat, kws: seq<string>)
    requires forall q :: i <= q < |s| ==> s[q] != Quote
    ensures Scan(|s|, i, Matcher(s, kws)) == []
  {
    var m := Matcher(s, kws);
    forall p: nat | i <= p ensures !HasMatchAt(m, p) {
    }
    LeftmostScanIsUnique(|s|, i, m, []);
  }

  /** A text that contains the initial of none of the keywords has no match. */
  lemma NoInitialNoMatch(s: string, kws: seq<string>)
    requires forall k :: 0 <= k < |kws| ==> |kws[k]| > 0 && kws[k][0] !in s
    ensures forall p: nat :: !HasMatchAt(Matcher(s, kws), p)
    ensures CountMatches(s, kws) == 0
  {
    forall p: nat ensures !HasMatchAt(Matcher(s, kws), p) {
      NoKeywordAt(s, p, kws);
    }
    CountZeroIffNoMatch(s, kws);
  }

  /** Besides its closing quote, a match holds an opening quote before it. */
  lemma OpeningQuote(s: string, p: nat, kws: seq<string>) returns (o: nat)
    requires MatchAt(s, p, kws).Some?
    ensures p <= o && o + 1 < MatchAt(s, p, kws).value && s[o] == Quote
  {
    var e := MatchAt(s, p, kws).value;
    var k := MatchAtSound(s, p, kws);
    var w, l := LabelAfterSound(s, p, kws[k]);
    o := p + |kws[k]| + |w|;
    assert s[p..e][o - p] == (kws[k] + w + [Quote] + l + [Quote])[o - p];
  }

  /** A match needs an opening and a closing quote, so a text with at most one quote has none. */
  lemma OneQuoteNoMatch(s: string, kws: seq<string>, q: nat)
    requires forall p :: 0 <= p < |s| && p != q ==> s[p] != Quote
    ensures CountMatches(s, kws) == 0
  {
    forall p: nat ensures !HasMatchAt(Matcher(s, kws), p) {
      if MatchAt(s, p, kws).Some? {
        var o := OpeningQuote(s, p, kws);
        assert false;
      }
    }
    CountZeroIffNoMatch(s, kws);
  }

  /** Scanning past a match at i continues at the match's end. */
  lemma ScanMatchStep(n: nat, i: nat, m: nat -> Option<nat>, j: nat)
    requires IsMatcher(n, m) && i < n && m(i) == Some(j)
    ensures Scan(n, i, m) == [Span(i, j)] + Scan(n, j, m)
  {
  }

  /** Scanning past a position with no match continues at the next position. */
  lemma ScanSkipStep(n: nat, i: nat, m: nat -> Option<nat>)
    requires IsMatcher(n, m) && i < n && m(i).None?
    ensures Scan(n, i, m) == Scan(n, i + 1, m)
  {
  }

  /** The text `kw "l"` of a keyword and its label, separated by one space. */
  function Entry(kw: string, l: string): (e: string)
    ensures |e| == |kw| + |l| + 3
  {
    kw + " " + [Quote] + l + [Quote]
  }

  /** A keyword and its label after any prefix match when no earlier keyword begins with the same letter. */
  lemma KeywordMatchIn(pre: string, kws: seq<string>, k: nat, l: string, post: string)
    requires k < |kws| && |kws[k]| > 0 && Quote !in l
    requires forall k' :: 0 <= k' < k ==> |kws[k']| > 0 && kws[k'][0] != kws[k][0]
    ensures MatchAt(pre + Entry(kws[k], l) + post, |pre|, kws) == Some(|pre| + |Entry(kws[k], l)|)
  {
    var s := pre + Entry(kws[k], l) + post;
    OccursAtJoin(pre, Entry(kws[k], l), post);
    assert s[|pre|] == kws[k][0];
    assert AllWs(" ");
    KeywordMatch(s, |pre|, kws, k, " ", l);
  }

  /** No entry keyword matches at a character that is not the initial of one of them. */
  lemma NoEntryKeywordAt(s: string, i: nat)
    requires i < |s| && s[i] !in "TLAE"
    ensures MatchAt(s, i, EntryKeywords).None?
  {
    NoKeywordAt(s, i, EntryKeywords);
  }

  const FirstEntry := Entry("ArchiveEntry", "A")
  const SecondEntry := Entry("ArchiveEntry", "B")
  const TwoEntriesText := FirstEntry + ".\n" + SecondEntry + "."

  lemma TwoEntriesFirst()
    ensures MatchAt(TwoEntriesText, 0, EntryKeywords) == Some(16)
  {
    assert TwoEntriesText == [] + FirstEntry + (".\n" + SecondEntry + ".");
    KeywordMatchIn([], EntryKeywords, 2, "A", ".\n" + SecondEntry + ".");
  }

  lemma TwoEntriesSecond()
    ensures MatchAt(TwoEntriesText, 18, EntryKeywords) == Some(34)
  {
    KeywordMatchIn(FirstEntry + ".\n", EntryKeywords, 2, "B", ".");
  }

  lemma TwoEntriesGaps()
    ensures MatchAt(TwoEntriesText, 16, EntryKeywords).None?
    ensures MatchAt(TwoEntriesText, 17, EntryKeywords).None?
    ensures Scan(35, 34, Matcher(TwoEntriesText, EntryKeywords)) == []
  {
    assert TwoEntriesText[16] == '.' && TwoEntriesText[17] == '\n';
    NoEntryKeywordAt(TwoEntriesText, 16);
    NoEntryKeywordAt(TwoEntriesText, 17);
    NoQuoteNoMatch(TwoEntriesText, 34, EntryKeywords);
  }

  /** Two archive entries separated by a line break are both counted. */
  lemma TwoEntriesExample()
    ensures NumKyxEntries(Some(TwoEntriesText)) == 2
  {
    var m := Matcher(TwoEntriesText, EntryKeywords);
    TwoEntriesFirst();
    TwoEntriesSecond();
    TwoEntriesGaps();
    ScanMatchStep(35, 18, m, 34);
    ScanSkipStep(35, 17, m);
    ScanSkipStep(35, 16, m);
    ScanMatchStep(35, 0, m, 16);
  }

  const NoBoundaryText := "My" + Entry("Theorem", "x")

  lemma NoBoundaryPrefix()
    ensures MatchAt(NoBoundaryText, 0, EntryKeywords).None?
    ensures MatchAt(NoBoundaryText, 1, EntryKeywords).None?
  {
    assert NoBoundaryText[0] == 'M' && NoBoundaryText[1] == 'y';
    NoEntryKeywordAt(NoBoundaryText, 0);
    NoEntryKeywordAt(NoBoundaryText, 1);
  }

  lemma NoBoundaryMatch()
    ensures MatchAt(NoBoundaryText, 2, EntryKeywords) == Some(13)
  {
    assert NoBoundaryText == "My" + Entry("Theorem", "x") + [];
    KeywordMatchIn("My", EntryKeywords, 0, "x", []);
  }

  /** The regex has no word boundary: a keyword at the end of a longer word still counts. */
  lemma NoWordBoundaryExample()
    ensures NumKyxEntries(Some(NoBoundaryText)) == 1
  {
    var m := Matcher(NoBoundaryText, EntryKeywords);
    NoBoundaryPrefix();
    NoBoundaryMatch();
    ScanMatchStep(13, 2, m, 13);
    ScanSkipStep(13, 1, m);
    ScanSkipStep(13, 0, m);
  }

  /** A keyword inside a matched label is swallowed by that label. */
  lemma SwallowedKeywordExample()
    ensures NumKyxEntries(Some(Entry("Theorem", "Lemma"))) == 1
  {
    var s := Entry("Theorem", "Lemma");
    var m := Matcher(s, EntryKeywords);
    assert s == [] + s + [];
    KeywordMatchIn([], EntryKeywords, 0, "Lemma", []);
    ScanMatchStep(15, 0, m, 15);
  }

  /** A label may span lines. */
  lemma MultiLineLabelExample()
    ensures NumKyxEntries(Some(Entry("Lemma", "a\nb"))) == 1
  {
    var s := Entry("Lemma", "a\nb");
    var m := Matcher(s, EntryKeywords);
    assert s == [] + s + [];
    KeywordMatchIn([], EntryKeywords, 1, "a\nb", []);
    ScanMatchStep(11, 0, m, 11);
  }

  /** A labelled tactic is counted. */
  lemma TacticExample()
    ensures NumKyxTactics(Some(Entry("Tactic", "t1"))) == 1
  {
    var s := Entry("Tactic", "t1");
    var m := Matcher(s, TacticKeywords);
    assert s == [] + s + [];
    KeywordMatchIn([], TacticKeywords, 0, "t1", []);
    ScanMatchStep(11, 0, m, 11);
  }

  /** A label without its closing quote is not counted. */
  lemma UnclosedQuoteExample()
    ensures NumKyxEntries(Some("Theorem " + [Quote] + "x")) == 0
  {
    var s := "Theorem " + [Quote] + "x";
    assert s[9] == 'x';
    forall p | 0 <= p < |s| && p != 8 ensures s[p] != Quote {
    }
    OneQuoteNoMatch(s, EntryKeywords, 8);
  }
}
