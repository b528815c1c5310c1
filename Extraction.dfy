/** The retrieve-and-query endpoint: the guard on the HTTP method, the default
    for `topK`, and the scan of the model's reply with the global regular
    expression

        /Name:\s*([^\.]+)\.\s*Description:\s*([^\.]+)\.\s*Personality:\s*([^\.]+)\./g

    that turns free text into character records.

    The regular expression is modelled on suffixes of the reply (`MatchPrefix`
    is the pattern anchored at the start of a string); the search that `exec`
    performs from `lastIndex` works on positions of the whole reply (`Exec`).
    The functions carry only the bounds their callers need to be well
    defined; what they compute is stated by the lemma that follows each. */
module Extraction {
  import opened Wrappers
  import opened Sequences

  /** A character record as the endpoint returns it (no id). */
  datatype Character = Character(name: string, description: string, personality: string)

  // ---------------------------------------------------------------- white space

  /** JavaScript's WhiteSpace and LineTerminator characters, as inclusive
      ranges of code points. This one set is both what `\s` matches and what
      `String.prototype.trim` removes. */
  const WsRanges: seq<(char, char)> := [
    ('\t', '\r'), (' ', ' '), ('\U{A0}', '\U{A0}'), ('\U{1680}', '\U{1680}'),
    ('\U{2000}', '\U{200A}'), ('\U{2028}', '\U{2029}'), ('\U{202F}', '\U{202F}'),
    ('\U{205F}', '\U{205F}'), ('\U{3000}', '\U{3000}'), ('\U{FEFF}', '\U{FEFF}')]

  /** `c` lies in one of the ranges from the `i`-th on. */
  predicate InRangesFrom(c: char, rs: seq<(char, char)>, i: nat)
    decreases |rs| - i
  {
    i < |rs| && ((rs[i].0 <= c <= rs[i].1) || InRangesFrom(c, rs, i + 1))
  }

  predicate IsWs(c: char) {
    InRangesFrom(c, WsRanges, 0)
  }

  lemma {:induction false} OutsideRanges(c: char, rs: seq<(char, char)>, i: nat)
    requires forall k :: i <= k < |rs| ==> c < rs[k].0 || rs[k].1 < c
    decreases |rs| - i
    ensures !InRangesFrom(c, rs, i)
  {
    if i < |rs| {
      OutsideRanges(c, rs, i + 1);
    }
  }

  /** No printable ASCII character other than the space is white space. */
  lemma {:induction false} VisibleNotWs(c: char)
    requires ' ' < c <= '~'
    ensures !IsWs(c)
  {
    OutsideRanges(c, WsRanges, 0);
  }

  predicate AllWs(s: string) {
    forall k :: 0 <= k < |s| ==> IsWs(s[k])
  }

  /** Neither starts nor ends with white space. */
  predicate IsTrimmed(s: string) {
    s == [] || (!IsWs(s[0]) && !IsWs(s[|s| - 1]))
  }

  /** The end of the run of white space that starts at `i`. */
  function WsEnd(s: string, i: nat): (r: nat)
    requires i <= |s|
    decreases |s| - i
    ensures i <= r <= |s|
  {
    if i == |s| || !IsWs(s[i]) then i else WsEnd(s, i + 1)
  }

  lemma {:induction false} WsEndSpec(s: string, i: nat)
    requires i <= |s|
    decreases |s| - i
    ensures forall k :: i <= k < WsEnd(s, i) ==> IsWs(s[k])
    ensures WsEnd(s, i) == |s| || !IsWs(s[WsEnd(s, i)])
  {
    if i < |s| && IsWs(s[i]) {
      WsEndSpec(s, i + 1);
    }
  }

  lemma {:induction false} WsEndUnique(s: string, i: nat, n: nat)
    requires i <= n <= |s|
    requires forall k :: i <= k < n ==> IsWs(s[k])
    requires n == |s| || !IsWs(s[n])
    decreases n - i
    ensures WsEnd(s, i) == n
  {
    if i < n {
      WsEndUnique(s, i + 1, n);
    }
  }

  /** The number of white-space characters `s` starts with. */
  function LeadingWs(s: string): (n: nat)
    ensures n <= |s|
  {
    WsEnd(s, 0)
  }

  /** `LeadingWs` counts the longest all-white-space prefix. */
  lemma {:induction false} LeadingWsSpec(s: string)
    ensures forall k :: 0 <= k < LeadingWs(s) ==> IsWs(s[k])
    ensures AllWs(s[..LeadingWs(s)])
    ensures LeadingWs(s) == |s| || !IsWs(s[LeadingWs(s)])
  {
    WsEndSpec(s, 0);
    var n := LeadingWs(s);
    forall k | 0 <= k < n ensures IsWs(s[..n][k]) {
      assert s[..n][k] == s[k];
    }
  }

  /** The start of the run of white space that ends at `j`. */
  function WsStart(s: string, j: nat): (r: nat)
    requires j <= |s|
    ensures r <= j
  {
    if j == 0 || !IsWs(s[j - 1]) then j else WsStart(s, j - 1)
  }

  lemma {:induction false} WsStartSpec(s: string, j: nat)
    requires j <= |s|
    ensures forall k :: WsStart(s, j) <= k < j ==> IsWs(s[k])
    ensures WsStart(s, j) == 0 || !IsWs(s[WsStart(s, j) - 1])
  {
    if j > 0 && IsWs(s[j - 1]) {
      WsStartSpec(s, j - 1);
    }
  }

  lemma {:induction false} WsStartUnique(s: string, j: nat, m: nat)
    requires m <= j <= |s|
    requires forall k :: m <= k < j ==> IsWs(s[k])
    requires m == 0 || !IsWs(s[m - 1])
    decreases j - m
    ensures WsStart(s, j) == m
  {
    if m < j {
      WsStartUnique(s, j - 1, m);
    }
  }

  /** The number of white-space characters `s` ends with. */
  function TrailingWs(s: string): (n: nat)
    ensures n <= |s|
  {
    |s| - WsStart(s, |s|)
  }

  /** `TrailingWs` counts the longest all-white-space suffix. */
  lemma {:induction false} TrailingWsSpec(s: string)
    ensures forall k :: |s| - TrailingWs(s) <= k < |s| ==> IsWs(s[k])
    ensures AllWs(s[|s| - TrailingWs(s)..])
    ensures TrailingWs(s) == |s| || !IsWs(s[|s| - TrailingWs(s) - 1])
  {
    WsStartSpec(s, |s|);
    var m := |s| - TrailingWs(s);
    forall k | 0 <= k < |s| - m ensures IsWs(s[m..][k]) {
      assert s[m..][k] == s[m + k];
    }
  }

  /** `s.trim()`: `s` without its leading and trailing white space. */
  function Trim(s: string): (r: string)
    ensures |r| <= |s|
  {
    var t := s[LeadingWs(s)..];
    t[..|t| - TrailingWs(t)]
  }

  /** What `trim` promises: the result has no white space at either end,
      every character of it comes from `s`, a trimmed string is left as it is,
      and a string of white space only becomes empty. */
  lemma {:induction false} TrimSpec(s: string)
    ensures IsTrimmed(Trim(s))
    ensures forall c :: c in Trim(s) ==> c in s
    ensures IsTrimmed(s) ==> Trim(s) == s
    ensures AllWs(s) ==> Trim(s) == []
  {
    TrimEnds(s);
    TrimChars(s);
    if IsTrimmed(s) {
      TrimOfTrimmed(s);
    }
    if AllWs(s) {
      TrimOfAllWs(s);
    }
  }

  lemma {:induction false} TrimEnds(s: string)
    ensures IsTrimmed(Trim(s))
  {
    var n := LeadingWs(s);
    var t := s[n..];
    var m := TrailingWs(t);
    var r := t[..|t| - m];
    assert r == Trim(s);
    if r != [] {
      LeadingWsSpec(s);
      TrailingWsSpec(t);
      assert r[0] == s[n];
      assert r[|r| - 1] == t[|t| - m - 1];
    }
  }

  lemma {:induction false} TrimChars(s: string)
    ensures forall c :: c in Trim(s) ==> c in s
  {
    var n := LeadingWs(s);
    var r := Trim(s);
    forall c | c in r ensures c in s {
      var j :| 0 <= j < |r| && r[j] == c;
      assert s[n + j] == c;
    }
  }

  lemma {:induction false} TrimOfTrimmed(s: string)
    requires IsTrimmed(s)
    ensures Trim(s) == s
  {
    if s != [] {
      LeadingWsOfTrimmed(s);
      assert s[0..] == s;
      TrailingWsOfTrimmed(s);
      assert s[..|s|] == s;
    }
  }

  lemma {:induction false} TrimOfAllWs(s: string)
    requires AllWs(s)
    ensures Trim(s) == []
  {
    WsEndUnique(s, 0, |s|);
  }

  /** White space around a trimmed string is exactly what `trim` removes. */
  lemma {:induction false} TrimPadded(a: string, x: string, b: string)
    requires AllWs(a) && AllWs(b) && IsTrimmed(x)
    ensures Trim(a + x + b) == x
  {
    if x == [] {
      AllWsConcat(a, b);
      assert a + x + b == a + b;
      TrimSpec(a + b);
    } else {
      TrimPaddedNonEmpty(a, x, b);
    }
  }

  lemma {:induction false} AllWsConcat(a: string, b: string)
    requires AllWs(a) && AllWs(b)
    ensures AllWs(a + b)
  {
    var s := a + b;
    forall k | 0 <= k < |s| ensures IsWs(s[k]) {
      if k < |a| { assert s[k] == a[k]; } else { assert s[k] == b[k - |a|]; }
    }
  }

  lemma {:induction false} TrimPaddedNonEmpty(a: string, x: string, b: string)
    requires AllWs(a) && AllWs(b) && IsTrimmed(x) && x != []
    ensures Trim(a + x + b) == x
  {
    var s := a + x + b;
    LeadingWsPrefix(a, x + b);
    assert a + (x + b) == s;
    LeadingWsOfTrimmed(x + b);
    var t := s[|a|..];
    assert t == x + b;
    TrailingWsSuffix(x, b);
    TrailingWsOfTrimmed(x);
    assert t[..|t| - |b|] == x;
  }

  lemma {:induction false} LeadingWsPrefix(a: string, y: string)
    requires AllWs(a)
    ensures LeadingWs(a + y) == |a| + LeadingWs(y)
  {
    var s := a + y;
    var n := |a| + LeadingWs(y);
    WsEndSpec(y, 0);
    forall k | 0 <= k < n ensures IsWs(s[k]) {
      if k < |a| { assert s[k] == a[k]; } else { assert s[k] == y[k - |a|]; }
    }
    if n < |s| {
      assert s[n] == y[LeadingWs(y)];
    }
    WsEndUnique(s, 0, n);
  }

  lemma {:induction false} LeadingWsOfTrimmed(y: string)
    requires y != [] && !IsWs(y[0])
    ensures LeadingWs(y) == 0
  {
  }

  lemma {:induction false} TrailingWsSuffix(x: string, b: string)
    requires AllWs(b)
    ensures TrailingWs(x + b) == TrailingWs(x) + |b|
  {
    var s := x + b;
    var m := WsStart(x, |x|);
    WsStartSpec(x, |x|);
    forall k | m <= k < |s| ensures IsWs(s[k]) {
      if k < |x| { assert s[k] == x[k]; } else { assert s[k] == b[k - |x|]; }
    }
    if m > 0 {
      assert s[m - 1] == x[m - 1];
    }
    WsStartUnique(s, |s|, m);
  }

  lemma {:induction false} TrailingWsOfTrimmed(x: string)
    requires x != [] && !IsWs(x[|x| - 1])
    ensures TrailingWs(x) == 0
  {
  }

  // ---------------------------------------------------------------- pieces of the pattern

  /** The number of periods in `s`. */
  function PeriodCount(s: string): nat {
    multiset(s)['.']
  }

  /** `r` is what is left of `t` after some prefix of it has been consumed. */
  predicate IsSuffix(r: string, t: string) {
    |r| <= |t| && t[|t| - |r|..] == r
  }

  lemma {:induction false} SuffixTransitive(a: string, b: string, c: string)
    requires IsSuffix(a, b) && IsSuffix(b, c)
    ensures IsSuffix(a, c)
  {
    assert c[|c| - |a|..] == c[|c| - |b|..][|b| - |a|..];
  }

  /** The periods of `t` are those of the consumed prefix and those of `r`. */
  lemma {:induction false} SuffixCount(r: string, t: string)
    requires IsSuffix(r, t)
    ensures PeriodCount(t) == PeriodCount(t[..|t| - |r|]) + PeriodCount(r)
  {
    assert t == t[..|t| - |r|] + r;
  }

  /** The index of the first period of `t`, or `|t|` when there is none. */
  function PeriodIndex(t: string): (k: nat)
    ensures k <= |t|
  {
    PeriodFrom(t, 0)
  }

  /** The first period at or after `i`, or `|t|`. */
  function PeriodFrom(t: string, i: nat): (k: nat)
    requires i <= |t|
    decreases |t| - i
    ensures i <= k <= |t|
  {
    if i == |t| || t[i] == '.' then i else PeriodFrom(t, i + 1)
  }

  lemma {:induction false} PeriodFromSpec(t: string, i: nat)
    requires i <= |t|
    decreases |t| - i
    ensures forall j :: i <= j < PeriodFrom(t, i) ==> t[j] != '.'
    ensures PeriodFrom(t, i) < |t| ==> t[PeriodFrom(t, i)] == '.'
  {
    if i < |t| && t[i] != '.' {
      PeriodFromSpec(t, i + 1);
    }
  }

  lemma {:induction false} PeriodIndexSpec(t: string)
    ensures forall j :: 0 <= j < PeriodIndex(t) ==> t[j] != '.'
    ensures PeriodIndex(t) < |t| ==> t[PeriodIndex(t)] == '.'
  {
    PeriodFromSpec(t, 0);
  }

  /** A captured group and the text after the period that closes it. */
  datatype Captured = Captured(text: string, rest: string)

  /** `\s*([^\.]+)\.` at the start of `t`. The group ends just before the first
      period, since `[^\.]+` cannot cross one; it starts after the white space
      that the greedy `\s*` takes, except that `\s*` gives one character back
      when the run before the period is all white space, because `[^\.]+`
      needs at least one character. */
  function Group(t: string): (g: Option<Captured>)
    ensures g.Some? ==> |g.value.rest| < |t|
  {
    var k := PeriodIndex(t);
    if k == 0 || k == |t| then None
    else Some(Captured(GroupOfRun(t[..k]), t[k + 1..]))
  }

  /** What the group takes of the non-empty run before the period: the run
      after its leading white space, or its last character when it is all
      white space. */
  function GroupOfRun(run: string): (text: string)
    requires run != []
    ensures |text| <= |run|
  {
    var lead := LeadingWs(run);
    run[if lead == |run| then |run| - 1 else lead..]
  }

  /** The group matches exactly when `t` has a period that is not its first
      character; the group is non-empty and has no period, it is the run
      before the first period with its leading white space removed (so it
      trims to what that run trims to), and matching resumes right after
      that period. */
  lemma {:induction false} GroupSpec(t: string)
    ensures Group(t).Some? <==> |t| > 0 && t[0] != '.' && '.' in t
    ensures Group(t).Some? ==> Group(t).value.text != [] && '.' !in Group(t).value.text
    ensures Group(t).Some? ==> Trim(Group(t).value.text) == Trim(t[..PeriodIndex(t)])
    ensures Group(t).Some? ==> Group(t).value.rest == t[PeriodIndex(t) + 1..]
  {
    PeriodIndexInside(t);
    if Group(t).Some? {
      GroupText(t);
    }
  }

  /** The first period is neither the first character nor missing exactly
      when `t` has a period that is not its first character. */
  lemma {:induction false} PeriodIndexInside(t: string)
    ensures 0 < PeriodIndex(t) < |t| <==> |t| > 0 && t[0] != '.' && '.' in t
  {
    var k := PeriodIndex(t);
    PeriodIndexSpec(t);
    if '.' in t {
      var j :| 0 <= j < |t| && t[j] == '.';
      assert k <= j;
    }
    if k < |t| {
      assert t[k] in t;
    }
  }

  lemma {:induction false} GroupText(t: string)
    requires Group(t).Some?
    ensures Group(t).value.text != [] && '.' !in Group(t).value.text
    ensures Trim(Group(t).value.text) == Trim(t[..PeriodIndex(t)])
    ensures Group(t).value.rest == t[PeriodIndex(t) + 1..]
  {
    GroupTextNoPeriod(t);
    RunTextTrim(t[..PeriodIndex(t)]);
  }

  lemma {:induction false} GroupTextNoPeriod(t: string)
    requires Group(t).Some?
    ensures Group(t).value.text != [] && '.' !in Group(t).value.text
  {
    NoPeriodBefore(t);
    RunTextNoPeriod(t[..PeriodIndex(t)]);
  }

  /** The run before the first period has no period. */
  lemma {:induction false} NoPeriodBefore(t: string)
    ensures '.' !in t[..PeriodIndex(t)]
  {
    PeriodIndexSpec(t);
    var k := PeriodIndex(t);
    forall j | 0 <= j < k ensures t[..k][j] != '.' {
      assert t[..k][j] == t[j];
    }
  }

  /** The text `Group` captures from a non-empty run: after the leading white
      space, or the last character when the run is all white space. */
  lemma {:induction false} RunTextNoPeriod(run: string)
    requires run != []
    ensures GroupOfRun(run) != []
    ensures '.' !in run ==> '.' !in GroupOfRun(run)
  {
    var lead := LeadingWs(run);
    NotInSuffix('.', run, if lead == |run| then |run| - 1 else lead);
  }

  lemma {:induction false} RunTextTrim(run: string)
    requires run != []
    ensures Trim(GroupOfRun(run)) == Trim(run)
  {
    if LeadingWs(run) == |run| {
      RunTextTrimAllWs(run);
    } else {
      RunTextTrimAfterLead(run);
    }
  }

  lemma {:induction false} RunTextTrimAllWs(run: string)
    requires run != [] && LeadingWs(run) == |run|
    ensures Trim(GroupOfRun(run)) == Trim(run)
  {
    LeadingWsSpec(run);
    assert run[..|run|] == run;
    RunTextAllWs(run);
  }

  lemma {:induction false} RunTextTrimAfterLead(run: string)
    requires LeadingWs(run) < |run|
    ensures Trim(GroupOfRun(run)) == Trim(run)
  {
    var lead := LeadingWs(run);
    assert GroupOfRun(run) == run[lead..];
    LeadingWsSpec(run);
    var x := run[lead..];
    assert x[0] == run[lead];
    assert LeadingWs(x) == 0;
    assert x[0..] == x;
  }

  lemma {:induction false} RunTextAllWs(run: string)
    requires run != [] && AllWs(run)
    ensures Trim(run[|run| - 1..]) == Trim(run)
  {
    var text := run[|run| - 1..];
    assert AllWs(text) by {
      assert text == [run[|run| - 1]];
    }
    TrimSpec(text);
    TrimSpec(run);
  }

  lemma {:induction false} NotInSuffix(c: char, s: string, i: nat)
    requires i <= |s|
    ensures c !in s ==> c !in s[i..]
  {
    if c !in s {
      forall j | 0 <= j < |s| - i ensures s[i..][j] != c {
        assert s[i..][j] == s[i + j];
      }
    }
  }

  /** Removing leading white space does not change what a string trims to. */
  lemma {:induction false} TrimTail(a: string, x: string)
    requires AllWs(a) && x != [] && !IsWs(x[0])
    ensures Trim(a + x) == Trim(x)
  {
    LeadingWsPrefix(a, x);
    LeadingWsOfTrimmed(x);
    assert (a + x)[|a|..] == x;
    assert x[LeadingWs(x)..] == x;
  }

  /** The group consumes one period. */
  lemma {:induction false} GroupCount(t: string)
    requires Group(t).Some?
    ensures IsSuffix(Group(t).value.rest, t)
    ensures PeriodCount(t) == PeriodCount(Group(t).value.rest) + 1
  {
    PeriodIndexSpec(t);
    var k := PeriodIndex(t);
    assert Group(t).value.rest == t[k + 1..];
    var run := t[..k];
    assert t == run + [t[k]] + t[k + 1..];
    assert '.' !in run by {
      forall j | 0 <= j < k ensures run[j] != '.' {
        assert run[j] == t[j];
      }
    }
  }

  /** What is left of `t` once `\s*` in front of a label has consumed its
      white space. Every label starts with a letter, so the greedy `\s*` never
      needs to give any back. */
  function SkipWs(t: string): (r: string)
    ensures |r| <= |t|
  {
    t[LeadingWs(t)..]
  }

  /** `SkipWs` removes white space only, and all of it up to the first other
      character; no period is consumed. */
  lemma {:induction false} SkipWsSpec(t: string)
    ensures IsSuffix(SkipWs(t), t)
    ensures AllWs(t[..|t| - |SkipWs(t)|])
    ensures SkipWs(t) == [] || !IsWs(SkipWs(t)[0])
    ensures PeriodCount(SkipWs(t)) == PeriodCount(t)
  {
    var n := LeadingWs(t);
    LeadingWsSpec(t);
    assert t == t[..n] + t[n..];
    assert '.' !in t[..n] by {
      forall j | 0 <= j < n ensures t[..n][j] != '.' {
        assert IsWs(t[..n][j]);
      }
    }
  }

  const NameLabel: string := "Name:"
  const DescriptionLabel: string := "Description:"
  const PersonalityLabel: string := "Personality:"

  /** One element of the pattern. */
  datatype Element =
    | Literal(key: string)  // the text `key` itself
    | Spaces                // `\s*` in front of a literal
    | Capture               // `\s*([^\.]+)\.`

  /** The elements of the pattern, in order. */
  const Pattern: seq<Element> := [
    Literal(NameLabel), Capture,
    Spaces, Literal(DescriptionLabel), Capture,
    Spaces, Literal(PersonalityLabel), Capture
  ]

  /** The number of capture elements in `p`. */
  function Captures(p: seq<Element>): nat {
    if p == [] then 0 else (if p[0] == Capture then 1 else 0) + Captures(p[1..])
  }

  lemma {:induction false} PatternCaptures()
    ensures Captures(Pattern) == 3
  {
    var p := Pattern;
    assert p[8..] == [];
    assert Captures(p[7..]) == 1 + Captures(p[8..]);
    assert Captures(p[6..]) == Captures(p[7..]);
    assert Captures(p[5..]) == Captures(p[6..]);
    assert Captures(p[4..]) == 1 + Captures(p[5..]);
    assert Captures(p[3..]) == Captures(p[4..]);
    assert Captures(p[2..]) == Captures(p[3..]);
    assert Captures(p[1..]) == 1 + Captures(p[2..]);
    assert Captures(p) == Captures(p[1..]);
  }

  /** The groups captured so far, and the text not yet matched. */
  datatype Progress = Progress(groups: seq<string>, rest: string)

  /** The elements `p`, matched one after the other from the start of `t`.
      No element can match in more than one way that lets the rest go on
      (see `Group` and `SkipWs`), so the regex engine's backtracking never
      finds a second way and this one pass is the whole search. */
  function Run(p: seq<Element>, t: string): (r: Option<Progress>)
    ensures r.Some? ==> |r.value.rest| <= |t|
    ensures r.Some? && r.value.groups != [] ==> |r.value.rest| < |t|
  {
    if p == [] then Some(Progress([], t))
    else match p[0]
      case Literal(key) =>
        if key <= t then Run(p[1..], t[|key|..]) else None
      case Spaces =>
        Run(p[1..], SkipWs(t))
      case Capture =>
        match Group(t)
        case None => None
        case Some(g) =>
          match Run(p[1..], g.rest)
          case None => None
          case Some(r) => Some(Progress([g.text] + r.groups, r.rest))
  }

  /** What a successful run of `p` on `t` ending in `r` satisfies: one group
      per capture element, each non-empty and free of periods; `r.rest` is
      what is left of `t`; at least one period used up per group. */
  predicate Consistent(p: seq<Element>, t: string, r: Progress) {
    && |r.groups| == Captures(p)
    && (forall k :: 0 <= k < |r.groups| ==> r.groups[k] != [] && '.' !in r.groups[k])
    && IsSuffix(r.rest, t)
    && PeriodCount(t) >= PeriodCount(r.rest) + |r.groups|
  }

  /** Every successful run is consistent with its pattern and its input. */
  lemma {:induction false} RunSpec(p: seq<Element>, t: string)
    requires Run(p, t).Some?
    ensures Consistent(p, t, Run(p, t).value)
  {
    if p != [] {
      match p[0]
      case Literal(key) =>
        RunSpec(p[1..], t[|key|..]);
        LiteralStep(p, key, t, Run(p, t).value);
      case Spaces =>
        RunSpec(p[1..], SkipWs(t));
        SpacesStep(p, t, Run(p, t).value);
      case Capture =>
        var g := Group(t).value;
        RunSpec(p[1..], g.rest);
        CaptureStep(p, t, g, Run(p[1..], g.rest).value);
    }
  }

  lemma {:induction false} LiteralStep(p: seq<Element>, key: string, t: string, r: Progress)
    requires p != [] && p[0] == Literal(key) && key <= t
    requires Consistent(p[1..], t[|key|..], r)
    ensures Consistent(p, t, r)
  {
    var u := t[|key|..];
    assert t == key + u;
    SuffixTransitive(r.rest, u, t);
    SuffixCount(u, t);
  }

  lemma {:induction false} SpacesStep(p: seq<Element>, t: string, r: Progress)
    requires p != [] && p[0] == Spaces
    requires Consistent(p[1..], SkipWs(t), r)
    ensures Consistent(p, t, r)
  {
    SkipWsSpec(t);
    SuffixTransitive(r.rest, SkipWs(t), t);
  }

  lemma {:induction false} CaptureStep(p: seq<Element>, t: string, g: Captured, r: Progress)
    requires p != [] && p[0] == Capture && Group(t) == Some(g)
    requires Consistent(p[1..], g.rest, r)
    ensures Consistent(p, t, Progress([g.text] + r.groups, r.rest))
  {
    GroupTextNoPeriod(t);
    GroupCount(t);
    SuffixTransitive(r.rest, g.rest, t);
    assert Captures(p) == 1 + Captures(p[1..]);
    var gs := [g.text] + r.groups;
    forall k | 0 <= k < |gs| ensures gs[k] != [] && '.' !in gs[k] {
      if k > 0 {
        assert gs[k] == r.groups[k - 1];
      }
    }
  }

  /** The three raw groups of one match, and the text after the match. */
  datatype Groups = Groups(name: string, description: string, personality: string, rest: string)

  /** The whole pattern, anchored at the start of `t`. */
  function MatchPrefix(t: string): (m: Option<Groups>)
    ensures m.Some? ==> |m.value.rest| < |t|
  {
    match Run(Pattern, t)
    case None => None
    case Some(r) =>
      // the pattern has three captures, so `r.groups` always has three
      // elements (see `MatchPrefixSpec`); the test keeps the indexing below
      // well defined
      if |r.groups| == 3 then Some(Groups(r.groups[0], r.groups[1], r.groups[2], r.rest)) else None
  }

  /** A match starts with `Name:`, its three groups are non-empty and free of
      periods, it consumes a prefix of `t`, and it uses up at least three
      periods. It succeeds exactly when the elements of the pattern do. */
  lemma {:induction false} MatchPrefixSpec(t: string)
    ensures MatchPrefix(t).Some? <==> Run(Pattern, t).Some?
    ensures MatchPrefix(t).Some? ==> NameLabel <= t
    ensures MatchPrefix(t).Some? ==>
      var g := MatchPrefix(t).value;
      && g.name != [] && g.description != [] && g.personality != []
      && '.' !in g.name && '.' !in g.description && '.' !in g.personality
      && IsSuffix(g.rest, t)
      && PeriodCount(t) >= PeriodCount(g.rest) + 3
  {
    if Run(Pattern, t).Some? {
      RunSpec(Pattern, t);
      var r := Run(Pattern, t).value;
      PatternCaptures();
      assert r.groups[0] != [] && '.' !in r.groups[0];
      assert r.groups[1] != [] && '.' !in r.groups[1];
      assert r.groups[2] != [] && '.' !in r.groups[2];
      assert Pattern[0] == Literal(NameLabel);
    }
  }

  // ---------------------------------------------------------------- exec and the scan

  /** What `characterRegex.exec(s)` returns: where the match starts (`index`),
      where the next search starts (the new `lastIndex`), and the three raw
      groups. */
  datatype RegexMatch = RegexMatch(index: nat, lastIndex: nat, name: string, description: string, personality: string)

  /** `m` is a match of the pattern in `s` that starts at `m.index` and ends
      at `m.lastIndex`. */
  predicate MatchesAt(s: string, m: RegexMatch) {
    m.index < m.lastIndex <= |s|
    && MatchPrefix(s[m.index..]) == Some(Groups(m.name, m.description, m.personality, s[m.lastIndex..]))
  }

  /** No match of the pattern starts at a position in `[lo, hi)`. */
  predicate NoMatchBetween(s: string, lo: nat, hi: nat) {
    forall i {:trigger MatchPrefix(s[i..])} :: lo <= i < hi && i <= |s| ==> MatchPrefix(s[i..]).None?
  }

  /** `exec` with the regex's `lastIndex` at `lastIndex`: try the pattern at
      each position from there on, and return the first match. */
  function Exec(s: string, lastIndex: nat): (r: Option<RegexMatch>)
    requires lastIndex <= |s|
    decreases |s| - lastIndex
    ensures r.Some? ==> lastIndex <= r.value.index < r.value.lastIndex <= |s|
  {
    match MatchPrefix(s[lastIndex..])
    case Some(g) => Some(RegexMatch(lastIndex, |s| - |g.rest|, g.name, g.description, g.personality))
    case None => if lastIndex == |s| then None else Exec(s, lastIndex + 1)
  }

  /** `exec` returns the leftmost match that starts at or after `lastIndex`,
      and returns none only when no match starts there or later. */
  lemma {:induction false} ExecIsLeftmost(s: string, lastIndex: nat)
    requires lastIndex <= |s|
    decreases |s| - lastIndex
    ensures var r := Exec(s, lastIndex);
      && (r.Some? ==> MatchesAt(s, r.value) && NoMatchBetween(s, lastIndex, r.value.index))
      && (r.None? ==> NoMatchBetween(s, lastIndex, |s| + 1))
  {
    if MatchPrefix(s[lastIndex..]).Some? {
      ExecHit(s, lastIndex);
    } else if lastIndex < |s| {
      ExecIsLeftmost(s, lastIndex + 1);
      assert Exec(s, lastIndex) == Exec(s, lastIndex + 1);
    }
  }

  /** When the pattern matches at `lastIndex`, that is the match `exec`
      returns. */
  lemma {:induction false} ExecHit(s: string, lastIndex: nat)
    requires lastIndex <= |s| && MatchPrefix(s[lastIndex..]).Some?
    ensures Exec(s, lastIndex).Some? && Exec(s, lastIndex).value.index == lastIndex
    ensures MatchesAt(s, Exec(s, lastIndex).value)
  {
    var g := MatchPrefix(s[lastIndex..]).value;
    MatchPrefixRest(s[lastIndex..]);
    SuffixOfDrop(s, lastIndex, g.rest);
    ExecFound(s, lastIndex, g);
  }

  lemma {:induction false} ExecFound(s: string, lastIndex: nat, g: Groups)
    requires lastIndex <= |s| && MatchPrefix(s[lastIndex..]) == Some(g)
    ensures Exec(s, lastIndex) == Some(RegexMatch(lastIndex, |s| - |g.rest|, g.name, g.description, g.personality))
  {
  }

  lemma {:induction false} SuffixOfDrop(s: string, i: nat, r: string)
    requires i <= |s| && IsSuffix(r, s[i..])
    ensures IsSuffix(r, s)
  {
    assert s[|s| - |r|..] == s[i..][|s[i..]| - |r|..];
  }

  lemma {:induction false} MatchPrefixRest(t: string)
    requires MatchPrefix(t).Some?
    ensures IsSuffix(MatchPrefix(t).value.rest, t)
  {
    MatchPrefixSpec(t);
  }

  /** The matches the `while` loop visits, starting with `lastIndex` at `from`. */
  function Matches(s: string, from: nat): seq<RegexMatch>
    requires from <= |s|
    decreases |s| - from
  {
    match Exec(s, from)
    case None => []
    case Some(m) => [m] + Matches(s, m.lastIndex)
  }

  /** The record the loop body pushes for one match: the groups, trimmed. */
  function Record(m: RegexMatch): Character {
    Character(Trim(m.name), Trim(m.description), Trim(m.personality))
  }

  /** The records of a sequence of matches, in the same order. */
  function Records(ms: seq<RegexMatch>): (cs: seq<Character>)
    ensures |cs| == |ms|
  {
    if ms == [] then [] else [Record(ms[0])] + Records(ms[1..])
  }

  lemma {:induction false} RecordsPointwise(ms: seq<RegexMatch>)
    ensures forall k :: 0 <= k < |ms| ==> Records(ms)[k] == Record(ms[k])
  {
    if ms != [] {
      RecordsPointwise(ms[1..]);
      forall k | 0 < k < |ms| ensures Records(ms)[k] == Record(ms[k]) {
        assert Records(ms)[k] == Records(ms[1..])[k - 1];
      }
    }
  }

  /** One turn of the loop: the record of the next match, then the rest. */
  lemma {:induction false} ScanStep(s: string, from: nat)
    requires from <= |s| && Exec(s, from).Some?
    ensures Records(Matches(s, from))
         == [Record(Exec(s, from).value)] + Records(Matches(s, Exec(s, from).value.lastIndex))
  {
    var m := Exec(s, from).value;
    assert Matches(s, from) == [m] + Matches(s, m.lastIndex);
    RecordsCons(m, Matches(s, m.lastIndex));
  }

  /** `ScanStep` for a match that is already named. */
  lemma {:induction false} ScanStepAt(s: string, from: nat, m: RegexMatch)
    requires from <= |s| && Exec(s, from) == Some(m)
    ensures m.lastIndex <= |s|
    ensures Records(Matches(s, from)) == [Record(m)] + Records(Matches(s, m.lastIndex))
  {
    ScanStep(s, from);
  }

  lemma {:induction false} RecordsCons(m: RegexMatch, ms: seq<RegexMatch>)
    ensures Records([m] + ms) == [Record(m)] + Records(ms)
  {
    assert ([m] + ms)[1..] == ms;
  }

  /** The records extracted from the model's reply `s`. */
  function Extract(s: string): seq<Character> {
    Records(Matches(s, 0))
  }

  /** The loop of the handler: `exec` until it returns `null`, pushing one
      trimmed record per match. */
  method ExtractCharacters(responseText: string) returns (characters: seq<Character>)
    ensures characters == Extract(responseText)
  {
    characters := [];
    var lastIndex := 0;
    var found := Exec(responseText, lastIndex);
    while found.Some?
      invariant lastIndex <= |responseText|
      invariant found == Exec(responseText, lastIndex)
      invariant characters + Records(Matches(responseText, lastIndex)) == Extract(responseText)
      decreases |responseText| - lastIndex
    {
      var m := found.value;
      ScanStep(responseText, lastIndex);
      ConcatAssoc(characters, [Record(m)], Records(Matches(responseText, m.lastIndex)));
      characters := characters + [Record(m)];
      lastIndex := m.lastIndex;
      found := Exec(responseText, lastIndex);
    }
  }

  // ---------------------------------------------------------------- properties of the scan

  /** The matches the loop visits are the leftmost, non-overlapping matches,
      from left to right: each one is a match of the pattern, each starts at
      or after the end of the one before it, no match starts in a gap between
      two of them (or before the first), and none starts after the last. */
  lemma {:induction false} MatchesAreLeftmost(s: string, from: nat)
    requires from <= |s|
    decreases |s| - from
    ensures Leftmost(s, from, Matches(s, from))
  {
    ExecIsLeftmost(s, from);
    match Exec(s, from)
    case None =>
    case Some(m) =>
      MatchesAreLeftmost(s, m.lastIndex);
      assert Matches(s, from) == [m] + Matches(s, m.lastIndex);
      LeftmostCons(s, from, m, Matches(s, m.lastIndex));
  }

  /** `ms` are the leftmost, non-overlapping matches of `s` from `from` on. */
  predicate Leftmost(s: string, from: nat, ms: seq<RegexMatch>) {
    && (forall k :: 0 <= k < |ms| ==> MatchesAt(s, ms[k]))
    && (|ms| > 0 ==> from <= ms[0].index && NoMatchBetween(s, from, ms[0].index))
    && (forall k :: 0 < k < |ms| ==>
          ms[k - 1].lastIndex <= ms[k].index && NoMatchBetween(s, ms[k - 1].lastIndex, ms[k].index))
    && NoMatchBetween(s, if ms == [] then from else ms[|ms| - 1].lastIndex, |s| + 1)
  }

  /** A leftmost match followed by the leftmost matches after it. */
  lemma {:induction false} LeftmostCons(s: string, from: nat, m: RegexMatch, rest: seq<RegexMatch>)
    requires MatchesAt(s, m) && from <= m.index && NoMatchBetween(s, from, m.index)
    requires Leftmost(s, m.lastIndex, rest)
    ensures Leftmost(s, from, [m] + rest)
  {
    var ms := [m] + rest;
    forall k | 0 < k < |ms|
      ensures ms[k - 1].lastIndex <= ms[k].index && NoMatchBetween(s, ms[k - 1].lastIndex, ms[k].index)
    {
      assert ms[k] == rest[k - 1];
      if k > 1 {
        assert ms[k - 1] == rest[k - 2];
      }
    }
  }

  /** A field as the endpoint promises it: no period and no white space at
      either end. */
  predicate WellFormedField(x: string) {
    '.' !in x && IsTrimmed(x)
  }

  predicate WellFormed(c: Character) {
    WellFormedField(c.name) && WellFormedField(c.description) && WellFormedField(c.personality)
  }

  lemma {:induction false} TrimmedGroupWellFormed(g: string)
    requires '.' !in g
    ensures WellFormedField(Trim(g))
  {
    TrimSpec(g);
  }

  lemma {:induction false} RecordOfMatchWellFormed(s: string, m: RegexMatch)
    requires MatchesAt(s, m)
    ensures WellFormed(Record(m))
  {
    MatchPrefixSpec(s[m.index..]);
    TrimmedGroupWellFormed(m.name);
    TrimmedGroupWellFormed(m.description);
    TrimmedGroupWellFormed(m.personality);
  }

  /** No extracted field contains a period, and none starts or ends with
      white space. */
  lemma {:induction false} ExtractedFieldsWellFormed(s: string)
    ensures forall k :: 0 <= k < |Extract(s)| ==>
      '.' !in Extract(s)[k].name && '.' !in Extract(s)[k].description && '.' !in Extract(s)[k].personality
    ensures forall k :: 0 <= k < |Extract(s)| ==>
      IsTrimmed(Extract(s)[k].name) && IsTrimmed(Extract(s)[k].description) && IsTrimmed(Extract(s)[k].personality)
  {
    MatchesAreLeftmost(s, 0);
    var ms := Matches(s, 0);
    RecordsPointwise(ms);
    forall k | 0 <= k < |ms| ensures WellFormed(Extract(s)[k]) {
      RecordOfMatchWellFormed(s, ms[k]);
    }
  }

  /** Each match uses up three periods, so there are at most a third as many
      matches as periods from `from` on. */
  lemma {:induction false} MatchCountBound(s: string, from: nat)
    requires from <= |s|
    decreases |s| - from
    ensures 3 * |Matches(s, from)| <= PeriodCount(s[from..])
  {
    ExecIsLeftmost(s, from);
    match Exec(s, from)
    case None =>
    case Some(m) =>
      MatchCountBound(s, m.lastIndex);
      assert Matches(s, from) == [m] + Matches(s, m.lastIndex);
      assert s[from..] == s[from..m.index] + s[m.index..];
      MatchPrefixSpec(s[m.index..]);
      assert PeriodCount(s[m.index..]) >= PeriodCount(s[m.lastIndex..]) + 3;
  }

  /** At most one record per three periods of the reply. */
  lemma {:induction false} RecordCountBound(s: string)
    ensures 3 * |Extract(s)| <= PeriodCount(s)
  {
    MatchCountBound(s, 0);
    assert s[0..] == s;
  }

  /** The list is empty exactly when the pattern matches nowhere in the reply. */
  lemma {:induction false} NoMatchNoRecords(s: string)
    ensures Extract(s) == [] <==> NoMatchBetween(s, 0, |s| + 1)
  {
    ExecIsLeftmost(s, 0);
    if Exec(s, 0).Some? {
      var m := Exec(s, 0).value;
      assert Matches(s, 0) == [m] + Matches(s, m.lastIndex);
      assert MatchPrefix(s[m.index..]).Some?;
    }
  }

  // ---------------------------------------------------------------- rendering and the round trip

  /** ` x.` followed by `tail`. */
  function Field(x: string, tail: string): string {
    " " + (x + ("." + tail))
  }

  /** One record in the format the query asks the model for,
      `Name: A. Description: B. Personality: C.`, followed by `tail`. */
  function Emit(c: Character, tail: string): string {
    NameLabel + Field(c.name, " " + (DescriptionLabel + Field(c.description,
      " " + (PersonalityLabel + Field(c.personality, tail)))))
  }

  /** The records in that format, joined with the white space `sep`. */
  function Render(cs: seq<Character>, sep: string): string {
    if cs == [] then ""
    else if |cs| == 1 then Emit(cs[0], "")
    else Emit(cs[0], sep + Render(cs[1..], sep))
  }

  lemma {:induction false} GroupOfField(x: string, tail: string)
    requires WellFormedField(x)
    ensures Group(Field(x, tail)).Some?
    ensures Group(Field(x, tail)).value.rest == tail
    ensures Trim(Group(Field(x, tail)).value.text) == x
  {
    var t := Field(x, tail);
    PeriodIndexOfField(x, tail);
    GroupSpec(t);
    FieldSlices(x, tail);
    TrimPadded([' '], x, []);
  }

  /** The period that closes a field is the first one in it. */
  lemma {:induction false} PeriodIndexOfField(x: string, tail: string)
    requires '.' !in x
    ensures PeriodIndex(Field(x, tail)) == 1 + |x|
  {
    var t := Field(x, tail);
    PeriodIndexSpec(t);
    assert t[1 + |x|] == '.';
    forall j | 0 <= j < 1 + |x| ensures t[j] != '.' {
      if j > 0 {
        assert t[j] == x[j - 1];
      }
    }
  }

  lemma {:induction false} FieldSlices(x: string, tail: string)
    ensures Field(x, tail)[..1 + |x|] == [' '] + x + []
    ensures Field(x, tail)[1 + |x| + 1..] == tail
  {
  }

  lemma {:induction false} SkipWsBeforeLabel(key: string, u: string)
    requires key != [] && !IsWs(key[0])
    ensures SkipWs(" " + (key + u)) == key + u
  {
    var t := " " + (key + u);
    assert [' '] + (key + u) == t;
    LeadingWsPrefix([' '], key + u);
    assert (key + u)[0] == key[0];
    LeadingWsOfTrimmed(key + u);
    assert t[1..] == key + u;
  }

  /** A literal element consumes exactly its text. */
  lemma {:induction false} RunLiteral(p: seq<Element>, key: string, u: string)
    requires p != [] && p[0] == Literal(key)
    ensures Run(p, key + u) == Run(p[1..], u)
  {
    assert key <= key + u;
    assert (key + u)[|key|..] == u;
  }

  /** A capture element takes a well-formed field and its closing period. */
  lemma {:induction false} RunCapture(p: seq<Element>, x: string, tail: string, r: Progress) returns (g: string)
    requires p != [] && p[0] == Capture && WellFormedField(x)
    requires Run(p[1..], tail) == Some(r)
    ensures Trim(g) == x
    ensures Run(p, Field(x, tail)) == Some(Progress([g] + r.groups, r.rest))
  {
    GroupOfField(x, tail);
    g := Group(Field(x, tail)).value.text;
  }

  /** One blank and a label, then a capture of a well-formed field. */
  lemma {:induction false} RunLabelledField(p: seq<Element>, key: string, x: string, tail: string, r: Progress) returns (g: string)
    requires |p| >= 3 && p[0] == Spaces && p[1] == Literal(key) && p[2] == Capture
    requires key != [] && !IsWs(key[0]) && WellFormedField(x)
    requires Run(p[3..], tail) == Some(r)
    ensures Trim(g) == x
    ensures Run(p, " " + (key + Field(x, tail))) == Some(Progress([g] + r.groups, r.rest))
  {
    var q := p[2..];
    assert q[1..] == p[3..];
    g := RunCapture(q, x, tail, r);
    SkipWsBeforeLabel(key, Field(x, tail));
    assert Run(p, " " + (key + Field(x, tail))) == Run(p[1..], key + Field(x, tail));
    RunLiteral(p[1..], key, Field(x, tail));
    assert p[1..][1..] == q;
  }

  /** The elements of the pattern one by one. */
  lemma {:induction false} PatternShape()
    ensures |Pattern| == 8
    ensures Pattern[0] == Literal(NameLabel) && Pattern[1] == Capture
    ensures Pattern[2] == Spaces && Pattern[3] == Literal(DescriptionLabel) && Pattern[4] == Capture
    ensures Pattern[5] == Spaces && Pattern[6] == Literal(PersonalityLabel) && Pattern[7] == Capture
    ensures DescriptionLabel != [] && !IsWs(DescriptionLabel[0])
    ensures PersonalityLabel != [] && !IsWs(PersonalityLabel[0])
  {
    VisibleNotWs('D');
    VisibleNotWs('P');
  }

  /** The text a record renders to, with the labels `k1`, `k2`, `k3`. */
  function Layout(k1: string, k2: string, k3: string, c: Character, tail: string): string {
    k1 + Field(c.name, " " + (k2 + Field(c.description, " " + (k3 + Field(c.personality, tail)))))
  }

  /** A pattern shaped like `Pattern`, with any labels that start with a
      non-blank, matches the layout of a well-formed record and captures
      groups that trim back to its fields. */
  lemma {:induction false} RunLayout(p: seq<Element>, k1: string, k2: string, k3: string, c: Character, tail: string)
    requires |p| == 8 && p[0] == Literal(k1) && p[1] == Capture
    requires p[2] == Spaces && p[3] == Literal(k2) && p[4] == Capture
    requires p[5] == Spaces && p[6] == Literal(k3) && p[7] == Capture
    requires k2 != [] && !IsWs(k2[0]) && k3 != [] && !IsWs(k3[0])
    requires WellFormed(c)
    ensures Run(p, Layout(k1, k2, k3, c, tail)).Some?
    ensures var r := Run(p, Layout(k1, k2, k3, c, tail)).value;
      && |r.groups| == 3 && r.rest == tail
      && Trim(r.groups[0]) == c.name && Trim(r.groups[1]) == c.description && Trim(r.groups[2]) == c.personality
  {
    var u3 := " " + (k3 + Field(c.personality, tail));
    var u2 := " " + (k2 + Field(c.description, u3));
    var r3 := RunThird(p[5..], k3, c.personality, tail);
    var r2 := RunSecond(p[2..], k2, c.description, u3, r3);
    assert p[1..][1..] == p[2..];
    var g1 := RunCapture(p[1..], c.name, u2, r2);
    RunLiteral(p, k1, Field(c.name, u2));
    assert Layout(k1, k2, k3, c, tail) == k1 + Field(c.name, u2);
    var gs := [g1] + r2.groups;
    assert gs[1] == r2.groups[0] && gs[2] == r2.groups[1] == r3.groups[0];
  }

  /** The last labelled field, ending the pattern. */
  lemma {:induction false} RunThird(q: seq<Element>, key: string, z: string, tail: string) returns (r: Progress)
    requires |q| == 3 && q[0] == Spaces && q[1] == Literal(key) && q[2] == Capture
    requires key != [] && !IsWs(key[0]) && WellFormedField(z)
    ensures |r.groups| == 1 && Trim(r.groups[0]) == z && r.rest == tail
    ensures Run(q, " " + (key + Field(z, tail))) == Some(r)
  {
    assert q[3..] == [];
    var g := RunLabelledField(q, key, z, tail, Progress([], tail));
    r := Progress([g], tail);
    assert [g] + [] == r.groups;
  }

  /** The middle labelled field, followed by the rest of the pattern. */
  lemma {:induction false} RunSecond(q: seq<Element>, key: string, y: string, u: string, r3: Progress) returns (r: Progress)
    requires |q| >= 3 && q[0] == Spaces && q[1] == Literal(key) && q[2] == Capture
    requires key != [] && !IsWs(key[0]) && WellFormedField(y)
    requires Run(q[3..], u) == Some(r3)
    ensures |r.groups| == 1 + |r3.groups| && Trim(r.groups[0]) == y && r.groups[1..] == r3.groups
    ensures r.rest == r3.rest
    ensures Run(q, " " + (key + Field(y, u))) == Some(r)
  {
    var g := RunLabelledField(q, key, y, u, r3);
    r := Progress([g] + r3.groups, r3.rest);
  }

  /** The pattern matches a rendered record and captures its three fields. */
  lemma {:induction false} MatchOfEmit(c: Character, tail: string)
    requires WellFormed(c)
    ensures MatchPrefix(Emit(c, tail)).Some?
    ensures MatchPrefix(Emit(c, tail)).value.rest == tail
    ensures Trim(MatchPrefix(Emit(c, tail)).value.name) == c.name
    ensures Trim(MatchPrefix(Emit(c, tail)).value.description) == c.description
    ensures Trim(MatchPrefix(Emit(c, tail)).value.personality) == c.personality
  {
    PatternShape();
    RunLayout(Pattern, NameLabel, DescriptionLabel, PersonalityLabel, c, tail);
    assert Emit(c, tail) == Layout(NameLabel, DescriptionLabel, PersonalityLabel, c, tail);
  }

  /** `m` moved `d` characters to the right. */
  function Shifted(m: RegexMatch, d: nat): RegexMatch {
    m.(index := m.index + d, lastIndex := m.lastIndex + d)
  }

  /** Searching `t` from inside its suffix `s = t[d..]` finds what searching
      `s` finds, moved by `d`: the text before the search position plays no
      part. */
  lemma {:induction false} ExecShift(t: string, d: nat, s: string, i: nat)
    requires d <= |t| && t[d..] == s && i <= |s|
    decreases |s| - i
    ensures Exec(t, d + i) == if Exec(s, i).Some? then Some(Shifted(Exec(s, i).value, d)) else None
  {
    assert t[d + i..] == s[i..];
    if MatchPrefix(s[i..]).None? && i < |s| {
      ExecShift(t, d, s, i + 1);
    }
  }

  /** Every match of `ms` moved `d` characters to the right. */
  function ShiftAll(ms: seq<RegexMatch>, d: nat): (r: seq<RegexMatch>)
    ensures |r| == |ms|
  {
    if ms == [] then [] else [Shifted(ms[0], d)] + ShiftAll(ms[1..], d)
  }

  /** Moving matches changes none of their groups, so none of their records. */
  lemma {:induction false} RecordsShiftAll(ms: seq<RegexMatch>, d: nat)
    ensures Records(ShiftAll(ms, d)) == Records(ms)
  {
    if ms != [] {
      RecordsShiftAll(ms[1..], d);
      RecordsCons(Shifted(ms[0], d), ShiftAll(ms[1..], d));
      assert Record(Shifted(ms[0], d)) == Record(ms[0]);
    }
  }

  /** The same for the whole scan: the matches of `t` from inside `s` are
      those of `s`, moved by `d`. */
  lemma {:induction false} MatchesShift(t: string, d: nat, s: string, i: nat)
    requires d <= |t| && t[d..] == s && i <= |s|
    decreases |s| - i
    ensures Matches(t, d + i) == ShiftAll(Matches(s, i), d)
  {
    var e := ShiftedScanStep(t, d, s, i);
    if e.Some? {
      var m := e.value;
      MatchesShift(t, d, s, m.lastIndex);
      ShiftAllCons(m, Matches(s, m.lastIndex), d);
    }
  }

  /** One step of both scans: no match in either, or the match of `s` and
      the same match moved by `d` in `t`. */
  lemma {:induction false} ShiftedScanStep(t: string, d: nat, s: string, i: nat) returns (e: Option<RegexMatch>)
    requires d <= |t| && t[d..] == s && i <= |s|
    ensures e.None? ==> Matches(t, d + i) == [] && Matches(s, i) == []
    ensures e.Some? ==> i <= e.value.lastIndex <= |s|
    ensures e.Some? ==> Matches(s, i) == [e.value] + Matches(s, e.value.lastIndex)
    ensures e.Some? ==> Matches(t, d + i) == [Shifted(e.value, d)] + Matches(t, d + e.value.lastIndex)
  {
    e := Exec(s, i);
    if e.None? {
      ShiftedScanNone(t, d, s, i);
    } else {
      ShiftedScanSome(t, d, s, i, e.value);
    }
  }

  lemma {:induction false} ShiftedScanNone(t: string, d: nat, s: string, i: nat)
    requires d <= |t| && t[d..] == s && i <= |s| && Exec(s, i).None?
    ensures Matches(t, d + i) == [] && Matches(s, i) == []
  {
    ExecShift(t, d, s, i);
    NoExecNoMatches(t, d + i);
    NoExecNoMatches(s, i);
  }

  lemma {:induction false} ShiftedScanSome(t: string, d: nat, s: string, i: nat, m: RegexMatch)
    requires d <= |t| && t[d..] == s && i <= |s| && Exec(s, i) == Some(m)
    ensures i <= m.lastIndex <= |s|
    ensures Matches(s, i) == [m] + Matches(s, m.lastIndex)
    ensures Matches(t, d + i) == [Shifted(m, d)] + Matches(t, d + m.lastIndex)
  {
    ExecShift(t, d, s, i);
    var n := Shifted(m, d);
    assert Exec(t, d + i) == Some(n);
    MatchesCons(t, d + i, n);
    MatchesCons(s, i, m);
    assert n.lastIndex == d + m.lastIndex;
  }

  lemma {:induction false} NoExecNoMatches(s: string, i: nat)
    requires i <= |s| && Exec(s, i).None?
    ensures Matches(s, i) == []
  {
  }

  lemma {:induction false} MatchesCons(s: string, i: nat, m: RegexMatch)
    requires i <= |s| && Exec(s, i) == Some(m)
    ensures m.lastIndex <= |s|
    ensures Matches(s, i) == [m] + Matches(s, m.lastIndex)
  {
  }

  lemma {:induction false} ShiftAllCons(m: RegexMatch, ms: seq<RegexMatch>, d: nat)
    ensures ShiftAll([m] + ms, d) == [Shifted(m, d)] + ShiftAll(ms, d)
  {
    assert ([m] + ms)[1..] == ms;
  }

  /** So the records of the scan of `t` from inside `s` are those of `s`. */
  lemma {:induction false} RecordsShift(t: string, d: nat, s: string)
    requires d <= |t| && t[d..] == s
    ensures Records(Matches(t, d)) == Extract(s)
  {
    MatchesShift(t, d, s, 0);
    RecordsShiftAll(Matches(s, 0), d);
  }

  /** Searching from `i` finds what searching from `j` finds when no match
      starts in between. */
  lemma {:induction false} ExecSkips(s: string, i: nat, j: nat)
    requires i <= j <= |s| && NoMatchBetween(s, i, j)
    decreases j - i
    ensures Exec(s, i) == Exec(s, j)
  {
    if i < j {
      assert MatchPrefix(s[i..]).None?;
      ExecSkips(s, i + 1, j);
    }
  }

  /** No match starts on white space, since every match starts with `Name:`. */
  lemma {:induction false} NoMatchInWs(sep: string, r: string)
    requires AllWs(sep)
    ensures NoMatchBetween(sep + r, 0, |sep|)
  {
    forall i | 0 <= i < |sep| ensures MatchPrefix((sep + r)[i..]).None? {
      MatchPrefixSpec((sep + r)[i..]);
      VisibleNotWs('N');
      assert (sep + r)[i..][0] == sep[i];
    }
  }

  /** A match at the very start of `s`: its record comes first, then what
      the text after it yields by itself. */
  lemma {:induction false} ExtractMatchAtStart(s: string, g: Groups)
    requires MatchPrefix(s) == Some(g)
    ensures Extract(s) == [Character(Trim(g.name), Trim(g.description), Trim(g.personality))]
                          + Records(Matches(g.rest, 0))
  {
    var m := ExecAtStart(s, g);
    ScanStepAt(s, 0, m);
    RecordsShift(s, m.lastIndex, g.rest);
  }

  /** `exec` from 0 returns the match the pattern makes at the very start. */
  lemma {:induction false} ExecAtStart(s: string, g: Groups) returns (m: RegexMatch)
    requires MatchPrefix(s) == Some(g)
    ensures Exec(s, 0) == Some(m)
    ensures m.lastIndex <= |s| && s[m.lastIndex..] == g.rest
    ensures Record(m) == Character(Trim(g.name), Trim(g.description), Trim(g.personality))
  {
    assert s[0..] == s;
    MatchPrefixSpec(s);
    m := Exec(s, 0).value;
  }

  /** A rendered record followed by any text: its record comes first, then
      what the text by itself yields. */
  lemma {:induction false} ExtractEmit(c: Character, tail: string)
    requires WellFormed(c)
    ensures Extract(Emit(c, tail)) == [c] + Records(Matches(tail, 0))
  {
    MatchOfEmit(c, tail);
    ExtractMatchAtStart(Emit(c, tail), MatchPrefix(Emit(c, tail)).value);
  }

  /** White space in front of a text changes nothing that is extracted. */
  lemma {:induction false} ExtractAfterWs(sep: string, r: string)
    requires AllWs(sep)
    ensures Records(Matches(sep + r, 0)) == Extract(r)
  {
    NoMatchInWs(sep, r);
    ExecSkips(sep + r, 0, |sep|);
    assert Matches(sep + r, 0) == Matches(sep + r, |sep|);
    assert (sep + r)[|sep|..] == r;
    RecordsShift(sep + r, |sep|, r);
  }

  /** Round trip: records with period-free, trimmed fields, rendered in the
      requested format and joined with white space, are extracted back
      exactly, in the same order. */
  lemma {:induction false} RoundTrip(cs: seq<Character>, sep: string)
    requires forall k :: 0 <= k < |cs| ==> WellFormed(cs[k])
    requires AllWs(sep)
    ensures Extract(Render(cs, sep)) == cs
  {
    if cs == [] {
      NoRecordsInEmpty();
    } else if |cs| == 1 {
      ExtractEmit(cs[0], "");
      NoRecordsInEmpty();
      assert [cs[0]] + [] == cs;
    } else {
      RoundTrip(cs[1..], sep);
      RoundTripStep(cs[0], cs[1..], sep);
      assert [cs[0]] + cs[1..] == cs;
    }
  }

  lemma {:induction false} NoRecordsInEmpty()
    ensures Extract("") == []
  {
    assert Exec("", 0).None?;
  }

  /** One record in front of records that already round-trip. */
  lemma {:induction false} RoundTripStep(c: Character, rest: seq<Character>, sep: string)
    requires WellFormed(c) && AllWs(sep) && rest != []
    requires Extract(Render(rest, sep)) == rest
    ensures Extract(Render([c] + rest, sep)) == [c] + rest
  {
    var r := Render(rest, sep);
    assert ([c] + rest)[1..] == rest;
    assert Render([c] + rest, sep) == Emit(c, sep + r);
    ExtractEmit(c, sep + r);
    ExtractAfterWs(sep, r);
  }

  // ---------------------------------------------------------------- the request handler

  datatype Request = Request(httpMethod: string, query: string, topK: Option<int>)
  datatype Payload = Payload(response: string, characters: seq<Character>)
  datatype Output = Output(error: Option<string>, payload: Option<Payload>)
  datatype Response = Response(status: int, body: Output)

  const DefaultTopK: int := 2

  /** The endpoint. `queryEngine` stands for rebuilding the index from the
      request's nodes, the retriever and the chat model: given the query and
      the number of chunks to retrieve, it yields the model's reply, or
      `None` when one of those library calls throws. Nothing in the handler
      catches that, so its promise rejects and it sends no reply (`None`). */
  method Handler(req: Request, queryEngine: (string, int) -> Option<string>) returns (res: Option<Response>)
    ensures req.httpMethod != "POST" ==> res == Some(Response(405, Output(Some("Method not allowed"), None)))
    ensures req.httpMethod == "POST" ==>
              var reply := queryEngine(req.query, if req.topK.Some? then req.topK.value else DefaultTopK);
              && (reply.None? ==> res.None?)
              && (reply.Some? ==> res == Some(Response(200, Output(None, Some(Payload(reply.value, Extract(reply.value)))))))
  {
    if req.httpMethod != "POST" {
      return Some(Response(405, Output(Some("Method not allowed"), None)));
    }
    var similarityTopK := if req.topK.Some? then req.topK.value else DefaultTopK;
    var reply := queryEngine(req.query, similarityTopK);
    if reply.None? {
      return None;
    }
    var responseText := reply.value;
    var characters := ExtractCharacters(responseText);
    res := Some(Response(200, Output(None, Some(Payload(responseText, characters)))));
  }
}
