/**
 * The stdout scraper of `Tsd.execTsdCommand`: every `data` chunk is searched
 * for the pattern `- ([^\n]+/[^\n]+\.d\.ts)` (flags i, g, m) and each capture
 * is passed on, left to right. The pattern is specified directly (MatchAt)
 * and matched by a hand-written scanner (MatchEnd, NextMatch); the `exec`
 * loop over `lastIndex` is the method ScrapeChunk.
 */
module StdoutScraper {
  import opened Wrappers

  /** `.d.ts` ends just before index e; with the `i` flag the letters d, t, s match either case. */
  predicate DtsEndsAt(s: string, e: int) {
    5 <= e <= |s| &&
    s[e - 5] == '.' && (s[e - 4] == 'd' || s[e - 4] == 'D') && s[e - 3] == '.' &&
    (s[e - 2] == 't' || s[e - 2] == 'T') && (s[e - 1] == 's' || s[e - 1] == 'S')
  }

  /** No line break in s[lo..hi]: what `[^\n]+` may cover. */
  ghost predicate NoNewline(s: string, lo: int, hi: int)
    requires 0 <= lo && hi <= |s|
  {
    forall k :: lo <= k < hi ==> s[k] != '\n'
  }

  /**
   * The whole pattern matches s[i..e] with its literal `/` at index k:
   * `- ` at i, at least one character (i+2..k), the slash, at least one
   * character (k+1..e-5), then `.d.ts`, all on one line.
   */
  ghost predicate MatchWithSlash(s: string, i: int, e: int, k: int) {
    0 <= i && i + 3 <= k && k + 2 <= e - 5 && e <= |s| &&
    s[i] == '-' && s[i + 1] == ' ' && s[k] == '/' &&
    NoNewline(s, i + 2, e) && DtsEndsAt(s, e)
  }

  /** Some match of the pattern starts at i and ends at e. */
  ghost predicate MatchAt(s: string, i: int, e: int) {
    exists k :: MatchWithSlash(s, i, e, k)
  }

  /** Index of the first line break at or after j, or |s|. */
  function LineEnd(s: string, j: nat): (r: nat)
    requires j <= |s|
    ensures j <= r <= |s| && NoNewline(s, j, r)
    ensures r < |s| ==> s[r] == '\n'
    decreases |s| - j
  {
    if j == |s| || s[j] == '\n' then j else LineEnd(s, j + 1)
  }

  /** The leftmost `/` in s[lo..hi]. */
  function FirstSlash(s: string, lo: nat, hi: nat): (r: Option<nat>)
    requires hi <= |s|
    ensures r.Some? ==> lo <= r.value < hi && s[r.value] == '/'
    decreases hi - lo
  {
    if hi <= lo then None
    else if s[lo] == '/' then Some(lo)
    else FirstSlash(s, lo + 1, hi)
  }

  /** FirstSlash misses no slash: none lies before the one it returns, and none at all in s[lo..hi] when it returns None. */
  lemma {:induction false} FirstSlashSpec(s: string, lo: nat, hi: nat)
    requires hi <= |s|
    ensures var r := FirstSlash(s, lo, hi);
      (r.Some? ==> forall m :: lo <= m < r.value ==> s[m] != '/') &&
      (r.None? ==> forall m :: lo <= m < hi ==> s[m] != '/')
    decreases hi - lo
  {
    if lo < hi && s[lo] != '/' {
      FirstSlashSpec(s, lo + 1, hi);
    }
  }

  /** The largest e <= hi such that `.d.ts` ends at e and starts at or after lo. */
  function LastDtsEnd(s: string, lo: nat, hi: nat): (r: Option<nat>)
    requires hi <= |s|
    ensures r.Some? ==> lo + 5 <= r.value <= hi && DtsEndsAt(s, r.value)
    decreases hi
  {
    if hi < lo + 5 then None
    else if DtsEndsAt(s, hi) then Some(hi)
    else LastDtsEnd(s, lo, hi - 1)
  }

  /** LastDtsEnd misses no `.d.ts`: none ends after the one it returns, and none in range when it returns None. */
  lemma {:induction false} LastDtsEndSpec(s: string, lo: nat, hi: nat)
    requires hi <= |s|
    ensures var r := LastDtsEnd(s, lo, hi);
      (r.Some? ==> forall e :: r.value < e <= hi ==> !DtsEndsAt(s, e)) &&
      (r.None? ==> forall e :: lo + 5 <= e <= hi ==> !DtsEndsAt(s, e))
    decreases hi
  {
    if lo + 5 <= hi && !DtsEndsAt(s, hi) {
      LastDtsEndSpec(s, lo, hi - 1);
    }
  }

  /**
   * Where the greedy match starting at i ends, if one starts there. Both
   * `[^\n]+` are greedy, so of all matches starting at i the engine returns
   * the longest one: the one ending at the last `.d.ts` of the line.
   */
  function MatchEnd(s: string, i: nat): (r: Option<nat>)
    requires i <= |s|
    ensures r.Some? ==> i + 10 <= r.value <= |s|
  {
    if i + 2 > |s| || s[i] != '-' || s[i + 1] != ' ' then None
    else
      var le := LineEnd(s, i + 2);
      match FirstSlash(s, i + 3, le)
      case None => None
      case Some(k) => LastDtsEnd(s, k + 2, le)
  }

  /** MatchEnd meets the pattern: it finds a match exactly when one starts at i, and the longest one. */
  lemma MatchEndSpec(s: string, i: nat)
    requires i <= |s|
    ensures var r := MatchEnd(s, i);
      r.Some? ==> MatchAt(s, i, r.value) && forall e :: MatchAt(s, i, e) ==> e <= r.value
    ensures MatchEnd(s, i).None? ==> forall e :: !MatchAt(s, i, e)
  {
    if i + 2 <= |s| && s[i] == '-' && s[i + 1] == ' ' {
      var le := LineEnd(s, i + 2);
      MatchEndCorrect(s, i, le, MatchEnd(s, i));
    }
  }

  lemma MatchEndCorrect(s: string, i: nat, le: nat, r: Option<nat>)
    requires i + 2 <= |s| && s[i] == '-' && s[i + 1] == ' '
    requires le == LineEnd(s, i + 2)
    requires r == match FirstSlash(s, i + 3, le)
                  case None => None
                  case Some(k) => LastDtsEnd(s, k + 2, le)
    ensures r.Some? ==> i + 10 <= r.value <= |s| && MatchAt(s, i, r.value)
    ensures r.Some? ==> forall e :: MatchAt(s, i, e) ==> e <= r.value
    ensures r.None? ==> forall e :: !MatchAt(s, i, e)
  {
    var slash := FirstSlash(s, i + 3, le);
    FirstSlashSpec(s, i + 3, le);
    if slash.Some? {
      LastDtsEndSpec(s, slash.value + 2, le);
    }
    forall e, k | MatchWithSlash(s, i, e, k)
      ensures e <= le && slash.Some? && slash.value <= k
      ensures r.Some? && e <= r.value
    {
      assert slash.Some? && slash.value <= k;
      assert DtsEndsAt(s, e);
    }
    if r.Some? {
      var k := slash.value;
      assert MatchWithSlash(s, i, r.value, k);
    }
  }

  /** What one `regex.exec` call returns when `lastIndex` is from: the leftmost match at or after from. */
  function NextMatch(s: string, from: nat): (r: Option<(nat, nat)>)
    requires from <= |s|
    ensures r.Some? ==> from <= r.value.0 && r.value.0 + 10 <= r.value.1 <= |s|
    ensures r.Some? ==> MatchEnd(s, r.value.0) == Some(r.value.1)
    decreases |s| - from
  {
    match MatchEnd(s, from)
    case Some(e) => Some((from, e))
    case None => if from == |s| then None else NextMatch(s, from + 1)
  }

  /** NextMatch skips no match: no match starts between from and the one it returns. */
  lemma {:induction false} NextMatchLeftmost(s: string, from: nat)
    requires from <= |s|
    ensures var r := NextMatch(s, from);
      r.Some? ==> forall i :: from <= i < r.value.0 ==> MatchEnd(s, i).None?
    ensures NextMatch(s, from).None? ==> forall i :: from <= i <= |s| ==> MatchEnd(s, i).None?
    decreases |s| - from
  {
    if MatchEnd(s, from).None? && from < |s| {
      NextMatchLeftmost(s, from + 1);
    }
  }

  /** The (start, end) of every match the `exec` loop finds from lastIndex = from on. */
  function Matches(s: string, from: nat): seq<(nat, nat)>
    requires from <= |s|
    decreases |s| - from
  {
    match NextMatch(s, from)
    case None => []
    case Some((i, e)) => [(i, e)] + Matches(s, e)
  }

  /** The captured paths (group 1) of those matches, in order: what the handler passes to `out`. */
  function ItemsFrom(s: string, from: nat): seq<string>
    requires from <= |s|
    decreases |s| - from
  {
    match NextMatch(s, from)
    case None => []
    case Some((i, e)) => [s[i + 2..e]] + ItemsFrom(s, e)
  }

  /** One step of the `exec` loop: the capture of the match found, then the items from its end on. */
  lemma {:induction false} ItemsFromAt(s: string, from: nat, i: nat, e: nat)
    requires from <= |s| && NextMatch(s, from) == Some((i, e))
    ensures from < e <= |s| && i + 2 <= e
    ensures ItemsFrom(s, from) == [s[i + 2..e]] + ItemsFrom(s, e)
  {
  }

  /** When `exec` returns null the loop is done. */
  lemma ItemsFromDone(s: string, from: nat)
    requires from <= |s| && NextMatch(s, from).None?
    ensures ItemsFrom(s, from) == []
  {
  }

  /** The items of one chunk; each chunk gets a fresh regex, so nothing carries over. */
  function Items(chunk: string): seq<string> {
    ItemsFrom(chunk, 0)
  }

  /** One turn of the exec loop keeps "items so far, then the rest" equal to all items. */
  lemma ScrapeStep(data: string, from: nat, i: nat, e: nat, items: seq<string>)
    requires from <= |data| && NextMatch(data, from) == Some((i, e))
    requires items + ItemsFrom(data, from) == ItemsFrom(data, 0)
    ensures from < e <= |data| && i + 2 <= e
    ensures (items + [data[i + 2..e]]) + ItemsFrom(data, e) == ItemsFrom(data, 0)
  {
    ItemsFromAt(data, from, i, e);
    Regroup(items, ItemsFrom(data, 0), ItemsFrom(data, from), data[i + 2..e], ItemsFrom(data, e));
  }

  lemma Regroup<T>(done: seq<T>, all: seq<T>, todo: seq<T>, x: T, rest: seq<T>)
    requires done + todo == all && todo == [x] + rest
    ensures (done + [x]) + rest == all
  {
    assert (done + [x]) + rest == done + ([x] + rest);
  }

  /** The `data` handler: the `match` guard, then `exec` until it returns null. */
  method ScrapeChunk(data: string) returns (items: seq<string>)
    ensures items == Items(data)
  {
    items := [];
    if NextMatch(data, 0).Some? {
      var lastIndex := 0;
      var m := NextMatch(data, lastIndex);
      while m.Some?
        invariant lastIndex <= |data|
        invariant m == NextMatch(data, lastIndex)
        invariant items + ItemsFrom(data, lastIndex) == ItemsFrom(data, 0)
        decreases |data| - lastIndex
      {
        var i, e := m.value.0, m.value.1;
        assert m == Some((i, e));
        ScrapeStep(data, lastIndex, i, e, items);
        items := items + [data[i + 2..e]];
        lastIndex := e;
        m := NextMatch(data, lastIndex);
      }
      ItemsFromDone(data, lastIndex);
    } else {
      ItemsFromDone(data, 0);
    }
  }

  /** A captured path: within one line, a `/` with at least one character before it and one before the final `.d.ts`. */
  ghost predicate ItemShaped(c: string) {
    (forall m :: 0 <= m < |c| ==> c[m] != '\n') &&
    DtsEndsAt(c, |c|) &&
    exists k :: 1 <= k && k + 2 <= |c| - 5 && c[k] == '/'
  }

  /** No `.d.ts` ends after e on the line that e is on. */
  ghost predicate LastDtsOnLine(s: string, e: int)
    requires 0 <= e <= |s|
  {
    forall e' :: e < e' <= |s| && NoNewline(s, e, e') ==> !DtsEndsAt(s, e')
  }

  /** s[i..e] is a match of the pattern that runs to the last `.d.ts` of its line. */
  ghost predicate GreedySpan(s: string, i: int, e: int) {
    0 <= i && i + 10 <= e <= |s| && MatchAt(s, i, e) && LastDtsOnLine(s, e)
  }

  /** A `.d.ts` later on the same line would give a longer match from the same start. */
  lemma ExtendMatch(s: string, i: int, e: int, k: int, e': int)
    requires MatchWithSlash(s, i, e, k)
    requires e < e' <= |s| && NoNewline(s, e, e') && DtsEndsAt(s, e')
    ensures MatchWithSlash(s, i, e', k)
  {
  }

  /** The match that `exec` returns is greedy. */
  lemma NextMatchIsGreedy(s: string, from: nat)
    requires from <= |s| && NextMatch(s, from).Some?
    ensures var (i, e) := NextMatch(s, from).value;
      from <= i && from < e && GreedySpan(s, i, e)
  {
    var (i, e) := NextMatch(s, from).value;
    MatchEndSpec(s, i);
    var k :| MatchWithSlash(s, i, e, k);
    forall e' | e < e' <= |s| && NoNewline(s, e, e')
      ensures !DtsEndsAt(s, e')
    {
      if DtsEndsAt(s, e') {
        ExtendMatch(s, i, e, k, e');
        assert MatchAt(s, i, e');
      }
    }
  }

  /** One step of the `exec` loop, in spans: the match found, then those from its end on. */
  lemma MatchesAt(s: string, from: nat, i: nat, e: nat)
    requires from <= |s| && NextMatch(s, from) == Some((i, e))
    ensures from < e <= |s| && Matches(s, from) == [(i, e)] + Matches(s, e)
  {
  }

  /** Every span in ms is a greedy match starting at or after from. */
  ghost predicate GreedyFrom(s: string, from: int, ms: seq<(nat, nat)>) {
    forall j :: 0 <= j < |ms| ==> from <= ms[j].0 && GreedySpan(s, ms[j].0, ms[j].1)
  }

  /**
   * Every span the loop visits is a match of the pattern that starts at or
   * after from and ends at the last `.d.ts` of its line.
   */
  lemma {:induction false} MatchesAreGreedy(s: string, from: nat)
    requires from <= |s|
    ensures GreedyFrom(s, from, Matches(s, from))
    decreases |s| - from
  {
    if NextMatch(s, from).Some? {
      var (i, e) := NextMatch(s, from).value;
      NextMatchIsGreedy(s, from);
      MatchesAt(s, from, i, e);
      MatchesAreGreedy(s, e);
    }
  }

  /** items[j] is the capture group of the span ms[j]. */
  ghost predicate CapturesOf(s: string, ms: seq<(nat, nat)>, items: seq<string>) {
    |items| == |ms| &&
    forall j :: 0 <= j < |ms| ==> ms[j].0 + 2 <= ms[j].1 <= |s| && items[j] == s[ms[j].0 + 2..ms[j].1]
  }

  lemma PrependCapture(s: string, i: nat, e: nat, ms: seq<(nat, nat)>, items: seq<string>)
    requires i + 2 <= e <= |s| && CapturesOf(s, ms, items)
    ensures CapturesOf(s, [(i, e)] + ms, [s[i + 2..e]] + items)
  {
    var ms', items' := [(i, e)] + ms, [s[i + 2..e]] + items;
    forall j | 0 < j < |ms'|
      ensures ms'[j].0 + 2 <= ms'[j].1 <= |s| && items'[j] == s[ms'[j].0 + 2..ms'[j].1]
    {
      assert ms'[j] == ms[j - 1] && items'[j] == items[j - 1];
    }
  }

  /** The item at position j is the capture group of the j-th span. */
  lemma {:induction false} ItemsAreCaptures(s: string, from: nat)
    requires from <= |s|
    ensures CapturesOf(s, Matches(s, from), ItemsFrom(s, from))
    decreases |s| - from
  {
    if NextMatch(s, from).Some? {
      var (i, e) := NextMatch(s, from).value;
      MatchesAt(s, from, i, e);
      ItemsFromAt(s, from, i, e);
      ItemsAreCaptures(s, e);
      PrependCapture(s, i, e, Matches(s, e), ItemsFrom(s, e));
    }
  }

  /** Some line break in s[lo..hi]. */
  ghost predicate LineBreakIn(s: string, lo: int, hi: int) {
    exists n :: lo <= n < hi && 0 <= n < |s| && s[n] == '\n'
  }

  /** Two greedy matches, one after the other, cannot share a line. */
  lemma LineBreakBetween(s: string, i: int, e: int, i2: int, e2: int)
    requires GreedySpan(s, i, e) && GreedySpan(s, i2, e2) && e <= i2
    ensures LineBreakIn(s, e, i2)
  {
    if !LineBreakIn(s, e, i2) {
      var k2 :| MatchWithSlash(s, i2, e2, k2);
      assert NoNewline(s, e, e2);
      assert false;
    }
  }

  /** Spans come left to right with a line break between the end of one and the start of any later one. */
  ghost predicate Separated(s: string, ms: seq<(nat, nat)>) {
    forall j, j' :: 0 <= j < j' < |ms| ==> ms[j].1 <= ms[j'].0 && LineBreakIn(s, ms[j].1, ms[j'].0)
  }

  lemma PrependSeparated(s: string, i: int, e: int, rest: seq<(nat, nat)>)
    requires GreedySpan(s, i, e) && 0 <= i
    requires GreedyFrom(s, e, rest)
    requires Separated(s, rest)
    ensures Separated(s, [(i as nat, e as nat)] + rest)
  {
    var ms := [(i as nat, e as nat)] + rest;
    if |rest| > 0 {
      LineBreakBetween(s, i, e, rest[0].0, rest[0].1);
    }
    forall j, j' | 0 <= j < j' < |ms|
      ensures ms[j].1 <= ms[j'].0 && LineBreakIn(s, ms[j].1, ms[j'].0)
    {
      if j == 0 {
        assert ms[j'] == rest[j' - 1];
        if j' > 1 {
          assert rest[0].1 <= rest[j' - 1].0;
        }
      } else {
        assert ms[j] == rest[j - 1] && ms[j'] == rest[j' - 1];
      }
    }
  }

  /** Each line yields at most one item: see Separated. */
  lemma {:induction false} OneItemPerLine(s: string, from: nat)
    requires from <= |s|
    ensures Separated(s, Matches(s, from))
    decreases |s| - from
  {
    if NextMatch(s, from).Some? {
      var (i, e) := NextMatch(s, from).value;
      MatchesAt(s, from, i, e);
      OneItemPerLine(s, e);
      NextMatchIsGreedy(s, from);
      MatchesAreGreedy(s, e);
      PrependSeparated(s, i, e, Matches(s, e));
    }
  }

  /** Nothing is skipped: every match of the pattern starts inside one of the visited spans. */
  lemma {:induction false} MatchesComplete(s: string, from: nat, i: int, e: int)
    requires from <= |s| && from <= i && MatchAt(s, i, e)
    ensures var ms := Matches(s, from);
      exists j :: 0 <= j < |ms| && ms[j].0 <= i < ms[j].1
    decreases |s| - from
  {
    MatchEndSpec(s, i);
    NextMatchLeftmost(s, from);
    var (i1, e1) := NextMatch(s, from).value;
    MatchesAt(s, from, i1, e1);
    if e1 <= i {
      MatchesComplete(s, e1, i, e);
      CoveredAfterFirst(s, from, i1, e1, i);
    } else {
      assert Matches(s, from)[0] == (i1, e1);
    }
  }

  /** A position covered by a span visited after the first match is covered by a span visited from `from`. */
  lemma CoveredAfterFirst(s: string, from: nat, i1: nat, e1: nat, i: int)
    requires from <= |s| && NextMatch(s, from) == Some((i1, e1))
    requires var rest := Matches(s, e1);
      exists j :: 0 <= j < |rest| && rest[j].0 <= i < rest[j].1
    ensures var ms := Matches(s, from);
      exists j :: 0 <= j < |ms| && ms[j].0 <= i < ms[j].1
  {
    MatchesAt(s, from, i1, e1);
    var rest := Matches(s, e1);
    var j :| 0 <= j < |rest| && rest[j].0 <= i < rest[j].1;
    assert Matches(s, from)[j + 1] == rest[j];
  }

  /** A chunk yields no item exactly when no match of the pattern occurs in it. */
  lemma NoItemsIffNoMatch(s: string)
    ensures Items(s) == [] <==> forall i, e :: !MatchAt(s, i, e)
  {
    ItemsAreCaptures(s, 0);
    MatchesAreGreedy(s, 0);
    if Items(s) == [] {
      forall i, e | 0 <= i && MatchAt(s, i, e) ensures false {
        MatchesComplete(s, 0, i, e);
      }
    } else {
      assert GreedySpan(s, Matches(s, 0)[0].0, Matches(s, 0)[0].1);
    }
  }

  /** The capture of a greedy match has the shape of an item. */
  lemma CaptureIsShaped(s: string, i: int, e: int)
    requires GreedySpan(s, i, e)
    ensures ItemShaped(s[i + 2..e])
  {
    var c := s[i + 2..e];
    var k :| MatchWithSlash(s, i, e, k);
    assert c[k - i - 2] == '/';
    assert DtsEndsAt(c, |c|);
    forall m | 0 <= m < |c| ensures c[m] != '\n' {
      assert c[m] == s[i + 2 + m];
    }
  }

  /** Every item is a one-line path with a `/` that ends in `.d.ts`. */
  lemma ItemsAreShaped(s: string)
    ensures forall j :: 0 <= j < |Items(s)| ==> ItemShaped(Items(s)[j])
  {
    ItemsAreCaptures(s, 0);
    MatchesAreGreedy(s, 0);
    CapturesAreShaped(s, Matches(s, 0), Items(s));
  }

  lemma CapturesAreShaped(s: string, ms: seq<(nat, nat)>, items: seq<string>)
    requires CapturesOf(s, ms, items) && GreedyFrom(s, 0, ms)
    ensures forall j :: 0 <= j < |items| ==> ItemShaped(items[j])
  {
    forall j | 0 <= j < |items| ensures ItemShaped(items[j]) {
      CaptureIsShaped(s, ms[j].0, ms[j].1);
    }
  }

  // Chunks made of whole lines

  function ShiftEnd(r: Option<nat>, n: nat): Option<nat> {
    match r
    case None => None
    case Some(e) => Some(e + n)
  }

  /** Shifting a window of s2 by |s1| gives the same window of s1 + s2. */
  lemma WindowSuffix(s1: string, s2: string, i: int, e: int, k: int)
    requires |s1| <= i && e <= |s1| + |s2|
    ensures MatchWithSlash(s1 + s2, i, e, k) <==> MatchWithSlash(s2, i - |s1|, e - |s1|, k - |s1|)
  {
    var t, n := s1 + s2, |s1|;
    if 0 <= i && i + 3 <= k && k + 2 <= e - 5 && e <= |t| {
      assert t[i] == s2[i - n] && t[i + 1] == s2[i - n + 1] && t[k] == s2[k - n];
      assert forall m | e - 5 <= m < e :: t[m] == s2[m - n];
      assert NoNewline(t, i + 2, e) <==> NoNewline(s2, i - n + 2, e - n) by {
        forall m | i - n + 2 <= m < e - n ensures s2[m] == t[m + n] { }
      }
    }
  }

  /** The same window, when s1 ends with a line break after it. */
  lemma WindowPrefix(s1: string, s2: string, i: int, e: int, k: int)
    requires 0 <= i && e <= |s1|
    ensures MatchWithSlash(s1 + s2, i, e, k) <==> MatchWithSlash(s1, i, e, k)
  {
    var t := s1 + s2;
    if 0 <= i && i + 3 <= k && k + 2 <= e - 5 && e <= |t| {
      assert forall m | 0 <= m < e :: t[m] == s1[m];
    }
  }

  /** A match in s1 + s2 that starts in s1, when s1 ends with a line break, lies inside s1. */
  lemma MatchAtPrefix(s1: string, s2: string, i: int, e: int)
    requires |s1| > 0 && s1[|s1| - 1] == '\n' && 0 <= i < |s1|
    ensures MatchAt(s1 + s2, i, e) <==> MatchAt(s1, i, e)
  {
    var t := s1 + s2;
    if MatchAt(t, i, e) {
      var k :| MatchWithSlash(t, i, e, k);
      assert t[|s1| - 1] == '\n';
      assert e <= |s1| - 1;
      WindowPrefix(s1, s2, i, e, k);
    }
    if MatchAt(s1, i, e) {
      var k :| MatchWithSlash(s1, i, e, k);
      WindowPrefix(s1, s2, i, e, k);
    }
  }

  /** A match in s1 + s2 that starts in s2 is a match of s2, shifted. */
  lemma MatchAtSuffix(s1: string, s2: string, i: int, e: int)
    requires |s1| <= i
    ensures MatchAt(s1 + s2, i, e) <==> MatchAt(s2, i - |s1|, e - |s1|)
  {
    var t, n := s1 + s2, |s1|;
    if MatchAt(t, i, e) {
      var k :| MatchWithSlash(t, i, e, k);
      WindowSuffix(s1, s2, i, e, k);
    }
    if MatchAt(s2, i - n, e - n) {
      var k :| MatchWithSlash(s2, i - n, e - n, k);
      WindowSuffix(s1, s2, i, e, k + n);
    }
  }

  lemma MatchEndPrefix(s1: string, s2: string, i: nat)
    requires |s1| > 0 && s1[|s1| - 1] == '\n' && i < |s1|
    ensures MatchEnd(s1 + s2, i) == MatchEnd(s1, i)
  {
    var t := s1 + s2;
    MatchEndSpec(t, i);
    MatchEndSpec(s1, i);
    forall e ensures MatchAt(t, i, e) <==> MatchAt(s1, i, e) {
      MatchAtPrefix(s1, s2, i, e);
    }
  }

  lemma MatchEndSuffix(s1: string, s2: string, i: nat, k: nat)
    requires i == k + |s1| && k <= |s2|
    ensures MatchEnd(s1 + s2, i) == ShiftEnd(MatchEnd(s2, k), |s1|)
  {
    var t, n := s1 + s2, |s1|;
    MatchEndSpec(t, i);
    MatchEndSpec(s2, k);
    forall e ensures MatchAt(t, i, e) <==> MatchAt(s2, k, e - n) {
      MatchAtSuffix(s1, s2, i, e);
    }
    var r := MatchEnd(s2, k);
    if r.Some? {
      assert MatchAt(t, i, r.value + n);
    }
  }

  /** NextMatch is fully determined by its contract. */
  lemma NextMatchUnique(s: string, from: nat, r: Option<(nat, nat)>)
    requires from <= |s|
    requires r.Some? ==> from <= r.value.0 <= |s| && MatchEnd(s, r.value.0) == Some(r.value.1)
    requires r.Some? ==> forall i :: from <= i < r.value.0 ==> MatchEnd(s, i).None?
    requires r.None? ==> forall i :: from <= i <= |s| ==> MatchEnd(s, i).None?
    ensures NextMatch(s, from) == r
  {
    var q := NextMatch(s, from);
    NextMatchLeftmost(s, from);
    if q.Some? { assert MatchEnd(s, q.value.0).Some?; }
    if r.Some? { assert MatchEnd(s, r.value.0).Some?; }
  }

  lemma NextMatchSuffixSome(s1: string, s2: string, from: nat, k: nat, i: nat, e: nat, i': nat, e': nat)
    requires from == k + |s1| && k <= |s2| && i' == i + |s1| && e' == e + |s1|
    requires NextMatch(s2, k) == Some((i, e))
    ensures NextMatch(s1 + s2, from) == Some((i', e'))
  {
    var t := s1 + s2;
    NextMatchLeftmost(s2, k);
    assert MatchEnd(s2, i) == Some(e);
    MatchEndSuffix(s1, s2, i', i);
    forall x | from <= x < i' ensures MatchEnd(t, x).None? {
      MatchEndSuffix(s1, s2, x, x - |s1|);
    }
    NextMatchUnique(t, from, Some((i', e')));
  }

  lemma NextMatchSuffixNone(s1: string, s2: string, from: nat, k: nat)
    requires from == k + |s1| && k <= |s2|
    requires NextMatch(s2, k).None?
    ensures NextMatch(s1 + s2, from).None?
  {
    var t := s1 + s2;
    NextMatchLeftmost(s2, k);
    forall x | from <= x <= |t| ensures MatchEnd(t, x).None? {
      MatchEndSuffix(s1, s2, x, x - |s1|);
    }
    NextMatchUnique(t, from, None);
  }

  /** A match the loop finds in s1 is the one it finds at the same place in s1 + s2. */
  lemma NextMatchPrefixSome(s1: string, s2: string, from: nat, i: nat, e: nat)
    requires |s1| > 0 && s1[|s1| - 1] == '\n' && from <= |s1|
    requires NextMatch(s1, from) == Some((i, e))
    ensures NextMatch(s1 + s2, from) == Some((i, e))
  {
    var t := s1 + s2;
    NextMatchLeftmost(s1, from);
    MatchEndPrefix(s1, s2, i);
    forall x | from <= x < i ensures MatchEnd(t, x).None? {
      MatchEndPrefix(s1, s2, x);
    }
    NextMatchUnique(t, from, Some((i, e)));
  }

  /** With no match left in s1, the search in s1 + s2 goes on from the end of s1. */
  lemma NextMatchPrefixNone(s1: string, s2: string, from: nat)
    requires |s1| > 0 && s1[|s1| - 1] == '\n' && from <= |s1|
    requires NextMatch(s1, from).None?
    ensures NextMatch(s1 + s2, from) == NextMatch(s1 + s2, |s1|)
  {
    var t := s1 + s2;
    NextMatchLeftmost(s1, from);
    NextMatchLeftmost(t, |s1|);
    forall x | from <= x < |s1| ensures MatchEnd(t, x).None? {
      MatchEndPrefix(s1, s2, x);
    }
    NextMatchUnique(t, from, NextMatch(t, |s1|));
  }


  lemma SliceOfSuffix(t: string, s2: string, n: nat, a: nat, b: nat, a': nat, b': nat)
    requires n <= |t| && t[n..] == s2 && a <= b <= |s2| && a' == a + n && b' == b + n
    ensures t[a'..b'] == s2[a..b]
  {
    forall j | 0 <= j < b - a ensures t[a'..b'][j] == s2[a..b][j] {
      assert t[a'..b'][j] == t[n..][a + j];
    }
  }

  /** ms2 is ms with every span moved n characters to the right. */
  ghost predicate ShiftedSpans(ms2: seq<(nat, nat)>, ms: seq<(nat, nat)>, n: nat) {
    |ms2| == |ms| && forall j :: 0 <= j < |ms| ==> ms2[j].0 == ms[j].0 + n && ms2[j].1 == ms[j].1 + n
  }

  lemma PrependShifted(ms2: seq<(nat, nat)>, ms: seq<(nat, nat)>, rest2: seq<(nat, nat)>, rest: seq<(nat, nat)>,
                       n: nat, i: nat, e: nat, i': nat, e': nat)
    requires ShiftedSpans(rest2, rest, n) && i' == i + n && e' == e + n
    requires ms2 == [(i', e')] + rest2 && ms == [(i, e)] + rest
    ensures ShiftedSpans(ms2, ms, n)
  {
    forall j | 0 < j < |ms| ensures ms2[j].0 == ms[j].0 + n && ms2[j].1 == ms[j].1 + n {
      assert ms2[j] == rest2[j - 1] && ms[j] == rest[j - 1];
    }
  }

  /** One exec step over s1 + s2 at k' = k + |s1| is the step over s2 at k, shifted by |s1|. */
  lemma ShiftedStep(s1: string, s2: string, k: nat, k': nat, i: nat, e: nat, i': nat, e': nat)
    requires k <= |s2| && k' == k + |s1| && i' == i + |s1| && e' == e + |s1|
    requires NextMatch(s2, k) == Some((i, e))
    ensures k < e <= |s2|
    ensures Matches(s2, k) == [(i, e)] + Matches(s2, e)
    ensures Matches(s1 + s2, k') == [(i', e')] + Matches(s1 + s2, e')
  {
    NextMatchSuffixSome(s1, s2, k', k, i, e, i', e');
    MatchesAt(s2, k, i, e);
    MatchesAt(s1 + s2, k', i', e');
  }

  /** The exec loop over s1 + s2 from k' = k + |s1| finds nothing when the one over s2 from k does not. */
  lemma ShiftedDone(s1: string, s2: string, k: nat, k': nat)
    requires k <= |s2| && k' == k + |s1|
    requires NextMatch(s2, k).None?
    ensures Matches(s2, k) == [] && Matches(s1 + s2, k') == []
  {
    NextMatchSuffixNone(s1, s2, k', k);
  }

  /** The spans the loop finds in s1 + s2 from k + |s1| on are those it finds in s2 from k, shifted by |s1|. */
  lemma {:induction false} MatchesShifted(s1: string, s2: string, k: nat, k': nat)
    requires k <= |s2| && k' == k + |s1|
    ensures ShiftedSpans(Matches(s1 + s2, k'), Matches(s2, k), |s1|)
    decreases |s2| - k
  {
    var t, n := s1 + s2, |s1|;
    var m := NextMatch(s2, k);
    if m.Some? {
      var i, e := m.value.0, m.value.1;
      assert m == Some((i, e));
      var i', e' := i + n, e + n;
      ShiftedStep(s1, s2, k, k', i, e, i', e');
      MatchesShifted(s1, s2, e, e');
      var rest2, rest := Matches(t, e'), Matches(s2, e);
      assert ShiftedSpans(rest2, rest, n);
      PrependShifted(Matches(t, k'), Matches(s2, k), rest2, rest, n, i, e, i', e');
    } else {
      ShiftedDone(s1, s2, k, k');
    }
  }

  /** Captures of shifted spans over t, whose tail from n is s2, are the captures over s2. */
  lemma CapturesShift(t: string, s2: string, n: nat, ms2: seq<(nat, nat)>, ms: seq<(nat, nat)>,
                      items2: seq<string>, items: seq<string>)
    requires n <= |t| && t[n..] == s2
    requires CapturesOf(t, ms2, items2) && CapturesOf(s2, ms, items) && ShiftedSpans(ms2, ms, n)
    ensures items2 == items
  {
    forall j | 0 <= j < |items| ensures items2[j] == items[j] {
      SliceOfSuffix(t, s2, n, ms[j].0 + 2, ms[j].1, ms2[j].0 + 2, ms2[j].1);
    }
  }

  /** Shifted spans over a string whose tail from n is s2 capture the same items. */
  lemma ItemsOfShiftedSpans(t: string, s2: string, n: nat, k: nat, k': nat)
    requires n <= |t| && t[n..] == s2 && k <= |s2| && k' <= |t|
    requires ShiftedSpans(Matches(t, k'), Matches(s2, k), n)
    ensures ItemsFrom(t, k') == ItemsFrom(s2, k)
  {
    ItemsAreCaptures(t, k');
    ItemsAreCaptures(s2, k);
    CapturesShift(t, s2, n, Matches(t, k'), Matches(s2, k), ItemsFrom(t, k'), ItemsFrom(s2, k));
  }

  lemma DropPrefix(s1: string, s2: string)
    ensures (s1 + s2)[|s1|..] == s2
  {
  }

  /** Past the end of s1, the items of s1 + s2 are those of s2. */
  lemma ItemsFromSuffix(s1: string, s2: string, from: nat)
    requires |s1| <= from <= |s1| + |s2|
    ensures ItemsFrom(s1 + s2, from) == ItemsFrom(s2, from - |s1|)
  {
    var t, n, k := s1 + s2, |s1|, from - |s1|;
    assert ShiftedSpans(Matches(t, from), Matches(s2, k), n) by {
      MatchesShifted(s1, s2, k, from);
    }
    assert t[n..] == s2 by {
      DropPrefix(s1, s2);
    }
    ItemsOfShiftedSpans(t, s2, n, k, from);
  }


  /** One exec step over s1 + s2 from inside s1 is the step over s1, when it finds a match there. */
  lemma PrefixStep(s1: string, s2: string, from: nat, i: nat, e: nat)
    requires |s1| > 0 && s1[|s1| - 1] == '\n' && from <= |s1|
    requires NextMatch(s1, from) == Some((i, e)) && e <= |s1|
    requires Matches(s1 + s2, e) == Matches(s1, e) + Matches(s1 + s2, |s1|)
    ensures Matches(s1 + s2, from) == Matches(s1, from) + Matches(s1 + s2, |s1|)
  {
    var t := s1 + s2;
    NextMatchPrefixSome(s1, s2, from, i, e);
    MatchesAt(s1, from, i, e);
    MatchesAt(t, from, i, e);
    PrependAppend(Matches(t, from), Matches(t, e), Matches(s1, from), Matches(s1, e), Matches(t, |s1|), (i, e));
  }

  /** With no match left in s1, the loop over s1 + s2 goes on as if it restarted at the end of s1. */
  lemma PrefixDone(s1: string, s2: string, from: nat)
    requires |s1| > 0 && s1[|s1| - 1] == '\n' && from <= |s1|
    requires NextMatch(s1, from).None?
    ensures Matches(s1, from) == []
    ensures Matches(s1 + s2, from) == Matches(s1 + s2, |s1|)
  {
    NextMatchPrefixNone(s1, s2, from);
  }

  /** The spans found in s1 + s2 from inside s1 are those found in s1, then those found from |s1| on. */
  lemma {:induction false} MatchesPrefix(s1: string, s2: string, from: nat)
    requires |s1| > 0 && s1[|s1| - 1] == '\n' && from <= |s1|
    ensures Matches(s1 + s2, from) == Matches(s1, from) + Matches(s1 + s2, |s1|)
    decreases |s1| - from
  {
    var m := NextMatch(s1, from);
    if m.Some? {
      var i, e := m.value.0, m.value.1;
      assert m == Some((i, e));
      MatchesPrefix(s1, s2, e);
      PrefixStep(s1, s2, from, i, e);
    } else {
      PrefixDone(s1, s2, from);
    }
  }

  lemma PrependAppend<T>(a: seq<T>, b: seq<T>, a1: seq<T>, c: seq<T>, d: seq<T>, x: T)
    requires a == [x] + b && b == c + d && a1 == [x] + c
    ensures a == a1 + d
  {
  }

  /** Spans that end inside s1 capture the same items in s1 + s2 as in s1. */
  lemma CapturesPrefix(s1: string, s2: string, ms: seq<(nat, nat)>, items1: seq<string>, items: seq<string>)
    requires CapturesOf(s1, ms, items1) && CapturesOf(s1 + s2, ms, items)
    ensures items == items1
  {
    var t := s1 + s2;
    forall j | 0 <= j < |ms| ensures items[j] == items1[j] {
      var a, b := ms[j].0 + 2, ms[j].1;
      assert forall x | a <= x < b :: t[x] == s1[x];
      assert t[a..b] == s1[a..b];
    }
  }

  /** Captures of ms1 + ms2 split into the captures of ms1 and of ms2. */
  lemma CapturesAppend(s: string, ms1: seq<(nat, nat)>, ms2: seq<(nat, nat)>, items: seq<string>)
    requires CapturesOf(s, ms1 + ms2, items)
    ensures CapturesOf(s, ms1, items[..|ms1|]) && CapturesOf(s, ms2, items[|ms1|..])
  {
    var ms := ms1 + ms2;
    forall j | 0 <= j < |ms2| ensures ms2[j] == ms[j + |ms1|] && items[|ms1|..][j] == items[j + |ms1|] { }
    forall j | 0 <= j < |ms1| ensures ms1[j] == ms[j] && items[..|ms1|][j] == items[j] { }
  }

  /** Captures in s1 + s2 of spans inside s1 followed by other spans split accordingly. */
  lemma CapturesSplit(s1: string, s2: string, ms1: seq<(nat, nat)>, ms2: seq<(nat, nat)>,
                      items: seq<string>, items1: seq<string>, items2: seq<string>)
    requires CapturesOf(s1 + s2, ms1 + ms2, items)
    requires CapturesOf(s1, ms1, items1) && CapturesOf(s1 + s2, ms2, items2)
    ensures items == items1 + items2
  {
    CapturesAppend(s1 + s2, ms1, ms2, items);
    CapturesPrefix(s1, s2, ms1, items1, items[..|ms1|]);
    CapturesUnique(s1 + s2, ms2, items[|ms1|..], items2);
    assert items == items[..|ms1|] + items[|ms1|..];
  }

  /** Inside s1, which ends with a line break, the items of s1 + s2 are those of s1, then those from |s1| on. */
  lemma ItemsFromPrefix(s1: string, s2: string, from: nat)
    requires |s1| > 0 && s1[|s1| - 1] == '\n' && from <= |s1|
    ensures ItemsFrom(s1 + s2, from) == ItemsFrom(s1, from) + ItemsFrom(s1 + s2, |s1|)
  {
    var t := s1 + s2;
    MatchesPrefix(s1, s2, from);
    ItemsAreCaptures(t, from);
    ItemsAreCaptures(s1, from);
    ItemsAreCaptures(t, |s1|);
    CapturesSplit(s1, s2, Matches(s1, from), Matches(t, |s1|), ItemsFrom(t, from), ItemsFrom(s1, from), ItemsFrom(t, |s1|));
  }

  /** Only one item list captures a given span list. */
  lemma CapturesUnique(s: string, ms: seq<(nat, nat)>, items1: seq<string>, items2: seq<string>)
    requires CapturesOf(s, ms, items1) && CapturesOf(s, ms, items2)
    ensures items1 == items2
  {
  }

  /** Chunks are scraped line by line: splitting after a line break splits the items. */
  lemma ItemsSplitAtLineBreak(s1: string, s2: string)
    requires |s1| > 0 && s1[|s1| - 1] == '\n'
    ensures Items(s1 + s2) == Items(s1) + Items(s2)
  {
    ItemsFromPrefix(s1, s2, 0);
    ItemsFromSuffix(s1, s2, |s1|);
  }

  /** The line `- <p>` followed by a line break yields exactly p, for every item-shaped p. */
  lemma ItemOfLine(p: string)
    requires ItemShaped(p)
    ensures Items("- " + p + "\n") == [p]
  {
    var s := "- " + p + "\n";
    var n := |p| + 2;
    var k :| 1 <= k && k + 2 <= |p| - 5 && p[k] == '/';
    assert MatchWithSlash(s, 0, n, k + 2);
    assert MatchEnd(s, 0) == Some(n) by {
      assert MatchAt(s, 0, n);
      MatchEndSpec(s, 0);
      forall e | MatchAt(s, 0, e) ensures e <= n {
        var k' :| MatchWithSlash(s, 0, e, k');
        assert s[n] == '\n';
      }
    }
    assert MatchEnd(s, n).None?;
    assert MatchEnd(s, n + 1).None?;
    NextMatchUnique(s, 0, Some((0, n)));
    NextMatchUnique(s, n, None);
    ItemsFromAt(s, 0, 0, n);
    ItemsFromDone(s, n);
  }

  /** The chunk that lists the paths ps, one `- <path>` line each. */
  function Listing(ps: seq<string>): string {
    if ps == [] then "" else "- " + ps[0] + "\n" + Listing(ps[1..])
  }

  /**
   * A chunk of N lines `- <path>` with item-shaped paths yields exactly
   * those N paths, in order.
   */
  lemma {:induction false} ListingRoundTrip(ps: seq<string>)
    requires forall j :: 0 <= j < |ps| ==> ItemShaped(ps[j])
    ensures Items(Listing(ps)) == ps
    decreases |ps|
  {
    if ps == [] {
      ItemsFromDone("", 0);
    } else {
      var line := "- " + ps[0] + "\n";
      ItemOfLine(ps[0]);
      ListingRoundTrip(ps[1..]);
      ItemsSplitAtLineBreak(line, Listing(ps[1..]));
      assert Listing(ps) == line + Listing(ps[1..]);
      assert ps == [ps[0]] + ps[1..];
    }
  }
}
