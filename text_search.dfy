/**
 * The regular expressions of the admin actions, each written out as a scan.
 *
 * Every capturing pattern there has the shape  before (prefix run) close  where
 * `run` is one or more characters of a class, repeated greedily, and `close` is
 * empty or starts with a character outside that class (`CloseOutsideClass`).
 * For such a pattern the greedy repetition can only succeed with the maximal
 * run, so a match at a position is decided by the run length alone; the scan
 * agrees with the text's own description of a match (`Occurs`) in both
 * directions. `String.prototype.match` without the `g` flag returns the
 * leftmost match, trying the alternatives of an alternation in order at each
 * position.
 */
module TextSearch {
  import opened Wrappers

  /** The three character classes the patterns use. */
  datatype CharClass =
    | ChannelIdChar   // [a-zA-Z0-9_-]
    | NotLessThan     // [^<]
    | NotAmpOrSpace   // [^&\s]

  /** The characters `\s` matches. */
  predicate IsRegexSpace(c: char) {
    c == ' ' || c == '\t' || c == '\n' || c == '\r' || c == '\U{000B}' || c == '\U{000C}'
    || c == '\U{00A0}' || c == '\U{1680}' || ('\U{2000}' <= c <= '\U{200A}')
    || c == '\U{2028}' || c == '\U{2029}' || c == '\U{202F}' || c == '\U{205F}'
    || c == '\U{3000}' || c == '\U{FEFF}'
  }

  predicate InClass(c: char, cls: CharClass) {
    match cls
    case ChannelIdChar => ('a' <= c <= 'z') || ('A' <= c <= 'Z') || ('0' <= c <= '9') || c == '_' || c == '-'
    case NotLessThan => c != '<'
    case NotAmpOrSpace => c != '&' && !IsRegexSpace(c)
  }

  /**
   * `before(prefix[class]+)close`: `prefix` is matched literally and belongs to
   * the captured group.
   */
  datatype Pattern = Pattern(before: string, prefix: string, cls: CharClass, close: string)

  predicate StartsAt(s: string, p: int, lit: string) {
    0 <= p && p + |lit| <= |s| && s[p..p + |lit|] == lit
  }

  /** The length of the run of class characters starting at `from`. */
  function RunLength(s: string, from: nat, cls: CharClass): (n: nat)
    requires from <= |s|
    ensures from + n <= |s|
    decreases |s| - from
  {
    if from == |s| || !InClass(s[from], cls) then 0 else 1 + RunLength(s, from + 1, cls)
  }

  /** The run is made of class characters and is as long as possible. */
  lemma {:induction false} RunLengthIsMaximal(s: string, from: nat, cls: CharClass)
    requires from <= |s|
    ensures forall i :: from <= i < from + RunLength(s, from, cls) ==> InClass(s[i], cls)
    ensures from + RunLength(s, from, cls) == |s| || !InClass(s[from + RunLength(s, from, cls)], cls)
    decreases |s| - from
  {
    if from < |s| && InClass(s[from], cls) {
      RunLengthIsMaximal(s, from + 1, cls);
    }
  }

  /** `g` has the shape of a group `pat` captures: its prefix, then one or more class characters. */
  predicate Captures(pat: Pattern, g: string) {
    && |g| > |pat.prefix| && g[..|pat.prefix|] == pat.prefix
    && forall i :: |pat.prefix| <= i < |g| ==> InClass(g[i], pat.cls)
  }

  /** The group a pattern captures when it matches at position `p`. */
  function MatchAt(s: string, p: nat, pat: Pattern): (r: Option<string>)
    ensures r.Some? ==> |r.value| > |pat.prefix|
  {
    var lead := pat.before + pat.prefix;
    if !StartsAt(s, p, lead) then None
    else
      var start := p + |lead|;
      var n := RunLength(s, start, pat.cls);
      if n == 0 || !StartsAt(s, start + n, pat.close) then None
      else Some(pat.prefix + s[start..start + n])
  }

  /** A match captures the pattern's prefix followed by class characters only. */
  lemma MatchCaptures(s: string, p: nat, pat: Pattern)
    requires MatchAt(s, p, pat).Some?
    ensures Captures(pat, MatchAt(s, p, pat).value)
  {
    RunLengthIsMaximal(s, p + |pat.before + pat.prefix|, pat.cls);
  }

  /** A match is a real occurrence: the pattern's text, the group and the closing text stand at `p`. */
  lemma MatchOccurs(s: string, p: nat, pat: Pattern)
    requires MatchAt(s, p, pat).Some?
    ensures StartsAt(s, p, pat.before + MatchAt(s, p, pat).value + pat.close)
  {
    var lead := pat.before + pat.prefix;
    var start := p + |lead|;
    var n := RunLength(s, start, pat.cls);
    var g := MatchAt(s, p, pat).value;
    assert g == pat.prefix + s[start..start + n];
    assert s[p..start] == pat.before + pat.prefix;
    assert s[p..p + |pat.before + g + pat.close|]
      == s[p..start] + s[start..start + n] + s[start + n..start + n + |pat.close|];
  }

  /** A match takes the whole run: the group cannot be extended by another class character. */
  lemma MatchIsMaximal(s: string, p: nat, pat: Pattern)
    requires MatchAt(s, p, pat).Some?
    ensures var end := p + |pat.before| + |MatchAt(s, p, pat).value|;
      end <= |s| && (end == |s| || !InClass(s[end], pat.cls))
  {
    RunLengthIsMaximal(s, p + |pat.before + pat.prefix|, pat.cls);
  }

  /** The closing text cannot be taken into the run: it is empty or starts outside the class. */
  predicate CloseOutsideClass(pat: Pattern) {
    pat.close == [] || !InClass(pat.close[0], pat.cls)
  }

  /**
   * The text shows a match of `pat` at `p` capturing `g`: `before`, then `g` (the
   * prefix and class characters), then `close`; a pattern without closing text
   * repeats greedily, so its group ends at the end of the text or before a
   * character outside the class.
   */
  predicate Occurs(s: string, p: nat, pat: Pattern, g: string) {
    && Captures(pat, g)
    && StartsAt(s, p, pat.before + g + pat.close)
    && (pat.close == [] ==>
          var end := p + |pat.before| + |g|;
          end == |s| || !InClass(s[end], pat.cls))
  }

  /** A literal stands at `p` exactly when it fits and agrees character by character. */
  lemma StartsAtChars(s: string, p: nat, lit: string)
    ensures StartsAt(s, p, lit) <==> p + |lit| <= |s| && forall j :: 0 <= j < |lit| ==> s[p + j] == lit[j]
  {
    if p + |lit| <= |s| && forall j :: 0 <= j < |lit| ==> s[p + j] == lit[j] {
      assert forall j :: 0 <= j < |lit| ==> s[p..p + |lit|][j] == lit[j];
    }
  }

  /** Two texts standing one after the other at `p` each stand at their place. */
  lemma StartsAtSplit(s: string, p: nat, a: string, b: string)
    requires StartsAt(s, p, a + b)
    ensures StartsAt(s, p, a) && StartsAt(s, p + |a|, b)
  {
    var t := s[p..p + |a + b|];
    assert s[p..p + |a|] == t[..|a|] && (a + b)[..|a|] == a;
    assert s[p + |a|..p + |a + b|] == t[|a|..] && (a + b)[|a|..] == b;
  }

  /** Three texts standing one after the other at `p` each stand at their place. */
  lemma StartsAtParts(s: string, p: nat, a: string, b: string, c: string)
    requires StartsAt(s, p, a + b + c)
    ensures StartsAt(s, p, a) && StartsAt(s, p + |a|, b) && StartsAt(s, p + |a| + |b|, c)
  {
    StartsAtSplit(s, p, a + b, c);
    StartsAtSplit(s, p, a, b);
  }

  /** A run of `m` class characters that cannot be extended has run length `m`. */
  lemma {:induction false} RunLengthOfRun(s: string, from: nat, cls: CharClass, m: nat)
    requires from + m <= |s|
    requires forall i :: from <= i < from + m ==> InClass(s[i], cls)
    requires from + m == |s| || !InClass(s[from + m], cls)
    ensures RunLength(s, from, cls) == m
    decreases m
  {
    if m > 0 {
      RunLengthOfRun(s, from + 1, cls, m - 1);
    }
  }

  /** A text of class characters standing at `start` is a run of them in `s`. */
  lemma RunStandsAt(s: string, start: nat, run: string, cls: CharClass)
    requires StartsAt(s, start, run)
    requires forall k :: 0 <= k < |run| ==> InClass(run[k], cls)
    ensures forall i :: start <= i < start + |run| ==> InClass(s[i], cls)
  {
    StartsAtChars(s, start, run);
    forall i | start <= i < start + |run|
      ensures InClass(s[i], cls)
    {
      assert s[start + (i - start)] == run[i - start];
    }
  }

  /** The scan at `p` captures the prefix and the whole run when the lead, a non-empty run and the closing text stand there. */
  lemma MatchAtOfRun(s: string, p: nat, pat: Pattern, n: nat)
    requires StartsAt(s, p, pat.before + pat.prefix)
    requires p + |pat.before + pat.prefix| <= |s|
    requires RunLength(s, p + |pat.before + pat.prefix|, pat.cls) == n && n > 0
    requires StartsAt(s, p + |pat.before + pat.prefix| + n, pat.close)
    ensures MatchAt(s, p, pat) == Some(pat.prefix + s[p + |pat.before + pat.prefix|..p + |pat.before + pat.prefix| + n])
  {
  }

  /** An occurrence is the lead, then the run of the group after its prefix, then the closing text. */
  lemma OccursParts(s: string, p: nat, pat: Pattern, g: string)
    requires Occurs(s, p, pat, g)
    ensures var lead := pat.before + pat.prefix; var run := g[|pat.prefix|..];
      && StartsAt(s, p, lead)
      && StartsAt(s, p + |lead|, run)
      && StartsAt(s, p + |lead| + |run|, pat.close)
      && g == pat.prefix + run && |run| > 0
      && (forall k :: 0 <= k < |run| ==> InClass(run[k], pat.cls))
      && (pat.close == [] ==> p + |lead| + |run| == |s| || !InClass(s[p + |lead| + |run|], pat.cls))
  {
    var lead := pat.before + pat.prefix;
    var run := g[|pat.prefix|..];
    assert g == pat.prefix + run;
    assert pat.before + g + pat.close == lead + run + pat.close;
    assert forall k :: 0 <= k < |run| ==> run[k] == g[|pat.prefix| + k];
    StartsAtParts(s, p, lead, run, pat.close);
  }

  /**
   * An occurrence, read as the scan reads it: the lead, then a run of class
   * characters that cannot be extended, then the closing text; the group is the
   * prefix and that run.
   */
  lemma OccursIsRun(s: string, p: nat, pat: Pattern, g: string)
    requires CloseOutsideClass(pat) && Occurs(s, p, pat, g)
    ensures var start := p + |pat.before + pat.prefix|; var end := start + |g| - |pat.prefix|;
      && StartsAt(s, p, pat.before + pat.prefix)
      && start < end <= |s|
      && (forall i :: start <= i < end ==> InClass(s[i], pat.cls))
      && (end == |s| || !InClass(s[end], pat.cls))
      && StartsAt(s, end, pat.close)
      && g == pat.prefix + s[start..end]
  {
    OccursParts(s, p, pat, g);
    var run := g[|pat.prefix|..];
    var start := p + |pat.before + pat.prefix|;
    RunStandsAt(s, start, run, pat.cls);
    if pat.close != [] {
      StartsAtChars(s, start + |run|, pat.close);
      assert s[start + |run| + 0] == pat.close[0];
    }
  }

  /** When the pattern stands in the text at `p`, the scan at `p` finds it, with that group. */
  lemma MatchAtComplete(s: string, p: nat, pat: Pattern, g: string)
    requires CloseOutsideClass(pat) && Occurs(s, p, pat, g)
    ensures MatchAt(s, p, pat) == Some(g)
  {
    OccursIsRun(s, p, pat, g);
    var start := p + |pat.before + pat.prefix|;
    var n := |g| - |pat.prefix|;
    RunLengthOfRun(s, start, pat.cls, n);
    MatchAtOfRun(s, p, pat, n);
  }

  /**
   * Without closing text, the scan matches at `p` exactly when the lead stands
   * there and is followed by a class character.
   */
  lemma OpenMatchAtIff(s: string, p: nat, pat: Pattern)
    requires pat.close == []
    ensures var lead := pat.before + pat.prefix;
      MatchAt(s, p, pat).Some? <==> StartsAt(s, p, lead) && p + |lead| < |s| && InClass(s[p + |lead|], pat.cls)
  {
    var lead := pat.before + pat.prefix;
    if StartsAt(s, p, lead) {
      var start := p + |lead|;
      var n := RunLength(s, start, pat.cls);
      assert s[start + n..start + n] == pat.close;
    }
  }

  /** For such patterns the scan at `p` captures `g` exactly when the text shows that match. */
  lemma MatchAtIffOccurs(s: string, p: nat, pat: Pattern, g: string)
    requires CloseOutsideClass(pat)
    ensures MatchAt(s, p, pat) == Some(g) <==> Occurs(s, p, pat, g)
  {
    if MatchAt(s, p, pat) == Some(g) {
      MatchCaptures(s, p, pat);
      MatchOccurs(s, p, pat);
      MatchIsMaximal(s, p, pat);
    }
    if Occurs(s, p, pat, g) {
      MatchAtComplete(s, p, pat, g);
    }
  }

  /** The first alternative that matches at `p`, its capture. */
  function AltAt(s: string, p: nat, alts: seq<Pattern>): (r: Option<string>)
    ensures alts == [] ==> r.None?
    ensures alts != [] && MatchAt(s, p, alts[0]).Some? ==> r == MatchAt(s, p, alts[0])
  {
    if alts == [] then None
    else if MatchAt(s, p, alts[0]).Some? then MatchAt(s, p, alts[0])
    else AltAt(s, p, alts[1..])
  }

  /** No alternative matching means no capture; a capture comes from one of the alternatives. */
  lemma {:induction false} AltAtIsSomeAlternative(s: string, p: nat, alts: seq<Pattern>)
    ensures AltAt(s, p, alts).None? <==> forall i :: 0 <= i < |alts| ==> MatchAt(s, p, alts[i]).None?
    ensures AltAt(s, p, alts).Some? ==> exists i :: 0 <= i < |alts| && MatchAt(s, p, alts[i]) == AltAt(s, p, alts)
  {
    if alts != [] && MatchAt(s, p, alts[0]).None? {
      AltAtIsSomeAlternative(s, p, alts[1..]);
      assert forall i :: 1 <= i < |alts| ==> alts[i] == alts[1..][i - 1];
      if AltAt(s, p, alts).Some? {
        var i :| 0 <= i < |alts[1..]| && MatchAt(s, p, alts[1..][i]) == AltAt(s, p, alts);
        assert MatchAt(s, p, alts[i + 1]) == AltAt(s, p, alts);
      }
    }
  }

  datatype Match = Match(pos: nat, group: string)

  /** The leftmost match at or after `from`. */
  function SearchFrom(s: string, alts: seq<Pattern>, from: nat): (r: Option<Match>)
    ensures r.Some? ==> from <= r.value.pos <= |s| && AltAt(s, r.value.pos, alts) == Some(r.value.group)
    decreases |s| + 1 - from
  {
    if from > |s| then None
    else if AltAt(s, from, alts).Some? then Some(Match(from, AltAt(s, from, alts).value))
    else SearchFrom(s, alts, from + 1)
  }

  /** The match found is the leftmost one, and no match means no alternative matches anywhere after `from`. */
  lemma {:induction false} SearchFromIsLeftmost(s: string, alts: seq<Pattern>, from: nat)
    ensures SearchFrom(s, alts, from).Some? ==>
      forall q :: from <= q < SearchFrom(s, alts, from).value.pos ==> AltAt(s, q, alts).None?
    ensures SearchFrom(s, alts, from).None? ==> forall q :: from <= q <= |s| ==> AltAt(s, q, alts).None?
    decreases |s| + 1 - from
  {
    if from <= |s| && AltAt(s, from, alts).None? {
      SearchFromIsLeftmost(s, alts, from + 1);
    }
  }

  /** `s.match(regex)?.[1]`: the group of the leftmost match, if any. */
  function Search(s: string, alts: seq<Pattern>): (r: Option<string>)
    ensures r.Some? <==> SearchFrom(s, alts, 0).Some?
    ensures r.Some? ==> r.value == SearchFrom(s, alts, 0).value.group
  {
    var found := SearchFrom(s, alts, 0);
    if found.None? then None else Some(found.value.group)
  }

  /** A search fails exactly when no alternative matches at any position. */
  lemma SearchFailsIff(s: string, alts: seq<Pattern>)
    ensures Search(s, alts).None? <==> forall q :: 0 <= q <= |s| ==> AltAt(s, q, alts).None?
  {
    SearchFromIsLeftmost(s, alts, 0);
    if Search(s, alts).Some? {
      assert AltAt(s, SearchFrom(s, alts, 0).value.pos, alts).Some?;
    }
  }

  /** A search result is a group one of the alternatives captured. */
  lemma SearchCapture(s: string, alts: seq<Pattern>)
    requires Search(s, alts).Some?
    ensures exists i :: 0 <= i < |alts| && Captures(alts[i], Search(s, alts).value)
  {
    var m := SearchFrom(s, alts, 0).value;
    AltAtIsSomeAlternative(s, m.pos, alts);
    var i :| 0 <= i < |alts| && MatchAt(s, m.pos, alts[i]) == Some(m.group);
    MatchCaptures(s, m.pos, alts[i]);
  }

  /** Every alternative's closing text starts outside its class. */
  predicate AllCloseOutsideClass(alts: seq<Pattern>) {
    forall k :: 0 <= k < |alts| ==> CloseOutsideClass(alts[k])
  }

  /** A search fails exactly when no alternative stands anywhere in the text. */
  lemma SearchFailsIffAbsent(s: string, alts: seq<Pattern>)
    requires AllCloseOutsideClass(alts)
    ensures Search(s, alts).None? <==> forall p: nat, k, g :: 0 <= k < |alts| ==> !Occurs(s, p, alts[k], g)
  {
    if Search(s, alts).None? {
      SearchFailsIff(s, alts);
      forall p: nat, k, g | 0 <= k < |alts|
        ensures !Occurs(s, p, alts[k], g)
      {
        if Occurs(s, p, alts[k], g) {
          MatchAtComplete(s, p, alts[k], g);
          AltAtIsSomeAlternative(s, p, alts);
        }
      }
    } else {
      var m := SearchFrom(s, alts, 0).value;
      AltAtIsSomeAlternative(s, m.pos, alts);
      var k :| 0 <= k < |alts| && MatchAt(s, m.pos, alts[k]) == AltAt(s, m.pos, alts);
      MatchAtIffOccurs(s, m.pos, alts[k], m.group);
    }
  }

  /** At a position where alternative `i` is the first to match, the alternation takes its capture. */
  lemma {:induction false} AltAtFirst(s: string, p: nat, alts: seq<Pattern>, i: nat)
    requires i < |alts| && MatchAt(s, p, alts[i]).Some?
    requires forall j :: 0 <= j < i ==> MatchAt(s, p, alts[j]).None?
    ensures AltAt(s, p, alts) == MatchAt(s, p, alts[i])
    decreases i
  {
    if i > 0 {
      assert forall j :: 0 <= j < |alts| - 1 ==> alts[1..][j] == alts[j + 1];
      AltAtFirst(s, p, alts[1..], i - 1);
    }
  }

  /** Where alternative `i` stands at `p` and no earlier one does, the alternation captures its group. */
  lemma AltAtOccurs(s: string, p: nat, alts: seq<Pattern>, i: nat, g: string)
    requires AllCloseOutsideClass(alts)
    requires i < |alts| && Occurs(s, p, alts[i], g)
    requires forall j, h :: 0 <= j < i ==> !Occurs(s, p, alts[j], h)
    ensures AltAt(s, p, alts) == Some(g)
  {
    MatchAtComplete(s, p, alts[i], g);
    forall j | 0 <= j < i
      ensures MatchAt(s, p, alts[j]).None?
    {
      if MatchAt(s, p, alts[j]).Some? {
        MatchAtIffOccurs(s, p, alts[j], MatchAt(s, p, alts[j]).value);
      }
    }
    AltAtFirst(s, p, alts, i);
  }

  /** Where no alternative stands, the alternation captures nothing. */
  lemma AltAtAbsent(s: string, q: nat, alts: seq<Pattern>)
    requires AllCloseOutsideClass(alts)
    requires forall k, h :: 0 <= k < |alts| ==> !Occurs(s, q, alts[k], h)
    ensures AltAt(s, q, alts).None?
  {
    if AltAt(s, q, alts).Some? {
      AltAtIsSomeAlternative(s, q, alts);
      var k :| 0 <= k < |alts| && MatchAt(s, q, alts[k]) == AltAt(s, q, alts);
      MatchAtIffOccurs(s, q, alts[k], AltAt(s, q, alts).value);
    }
  }

  /** The search from `from` stops at the first position where the alternation captures. */
  lemma {:induction false} SearchAtFirstCapture(s: string, alts: seq<Pattern>, from: nat, p: nat)
    requires from <= p <= |s| && AltAt(s, p, alts).Some?
    requires forall q :: from <= q < p ==> AltAt(s, q, alts).None?
    ensures SearchFrom(s, alts, from) == Some(Match(p, AltAt(s, p, alts).value))
    decreases p - from
  {
    if from < p {
      SearchAtFirstCapture(s, alts, from + 1, p);
    }
  }

  /**
   * The search finds the leftmost place where some alternative stands in the
   * text, with the group of the first alternative standing there.
   */
  lemma SearchFindsLeftmost(s: string, alts: seq<Pattern>, p: nat, i: nat, g: string)
    requires AllCloseOutsideClass(alts)
    requires i < |alts| && Occurs(s, p, alts[i], g)
    requires forall j, h :: 0 <= j < i ==> !Occurs(s, p, alts[j], h)
    requires forall q: nat, k, h :: q < p && 0 <= k < |alts| ==> !Occurs(s, q, alts[k], h)
    ensures Search(s, alts) == Some(g)
  {
    AltAtOccurs(s, p, alts, i, g);
    forall q: nat | q < p
      ensures AltAt(s, q, alts).None?
    {
      AltAtAbsent(s, q, alts);
    }
    SearchAtFirstCapture(s, alts, 0, p);
  }

  /** A one-pattern search fails exactly when the pattern stands nowhere in the text. */
  lemma SearchOneFailsIffAbsent(s: string, pat: Pattern)
    requires CloseOutsideClass(pat)
    ensures Search(s, [pat]).None? <==> forall p: nat, g :: !Occurs(s, p, pat, g)
  {
    assert [pat][0] == pat;
    SearchFailsIffAbsent(s, [pat]);
  }

  /** A one-pattern search finds the leftmost place where the pattern stands, with its group. */
  lemma SearchOneFindsLeftmost(s: string, pat: Pattern, p: nat, g: string)
    requires CloseOutsideClass(pat) && Occurs(s, p, pat, g)
    requires forall q: nat, h :: q < p ==> !Occurs(s, q, pat, h)
    ensures Search(s, [pat]) == Some(g)
  {
    assert [pat][0] == pat;
    SearchFindsLeftmost(s, [pat], p, 0, g);
  }

  /** `s.indexOf(lit, from)`, or -1. */
  function IndexOf(s: string, lit: string, from: nat): (k: int)
    requires lit != []
    ensures k == -1 || from <= k
    ensures k >= 0 ==> StartsAt(s, k, lit)
    ensures k >= 0 ==> forall q :: from <= q < k ==> !StartsAt(s, q, lit)
    ensures k == -1 ==> forall q :: from <= q ==> !StartsAt(s, q, lit)
    decreases |s| + 1 - from
  {
    if from + |lit| > |s| then -1
    else if s[from..from + |lit|] == lit then from
    else IndexOf(s, lit, from + 1)
  }

  /** `[start, end)` opens with `open`, closes with `close`, and holds no other `close` in between. */
  predicate Delimited(s: string, open: string, close: string, start: nat, end: nat) {
    && start + |open| + |close| <= end <= |s|
    && StartsAt(s, start, open)
    && StartsAt(s, end - |close|, close)
    && (forall q :: start + |open| <= q < end - |close| ==> !StartsAt(s, q, close))
  }

  /** The next `open` at `start`, up to the first `close` after it at `last`, is a delimited span. */
  lemma FirstSpanIsDelimited(s: string, open: string, close: string, from: nat, start: int, last: int)
    requires open != [] && close != []
    requires start == IndexOf(s, open, from) && start >= 0
    requires last == IndexOf(s, close, start + |open|) && last >= 0
    ensures from <= start && Delimited(s, open, close, start, last + |close|)
  {
  }

  /** The spans at or after `from`, in order and without overlap. */
  predicate SpansFrom(s: string, open: string, close: string, from: nat, spans: seq<(nat, nat)>) {
    && (forall i :: 0 <= i < |spans| ==> from <= spans[i].0 && Delimited(s, open, close, spans[i].0, spans[i].1))
    && (forall i :: 0 <= i < |spans| - 1 ==> spans[i].1 <= spans[i + 1].0)
  }

  /** A delimited span followed by the spans after its end is again a list of spans. */
  lemma ConsSpan(s: string, open: string, close: string, from: nat, start: nat, end: nat, rest: seq<(nat, nat)>)
    requires from <= start && Delimited(s, open, close, start, end)
    requires SpansFrom(s, open, close, end, rest)
    ensures SpansFrom(s, open, close, from, [(start, end)] + rest)
  {
    var spans := [(start, end)] + rest;
    assert forall i :: 1 <= i < |spans| ==> spans[i] == rest[i - 1];
  }

  /**
   * The match the lazy pattern `open[\s\S]*?close` makes at or after `from`: the
   * next `open`, up to the end of the first `close` after it; none when there is
   * no `open`, or no `close` after it.
   */
  function NextMatch(s: string, open: string, close: string, from: nat): (r: Option<(nat, nat)>)
    requires open != [] && close != []
    ensures r.Some? ==> from <= r.value.0 && Delimited(s, open, close, r.value.0, r.value.1)
  {
    var start := IndexOf(s, open, from);
    if start < 0 then None
    else
      var last := IndexOf(s, close, start + |open|);
      if last < 0 then None
      else
        FirstSpanIsDelimited(s, open, close, from, start, last);
        Some((start, last + |close|))
  }

  /**
   * `spans` are every match of the global lazy pattern from `from` on, none
   * skipped: the first is the match at or after `from`, each next one the match
   * after the previous one's end, and after the last there is none; no match at
   * all gives no span.
   */
  predicate FindsAllMatches(s: string, open: string, close: string, from: nat, spans: seq<(nat, nat)>)
    requires open != [] && close != []
  {
    && (spans == [] <==> NextMatch(s, open, close, from).None?)
    && (spans != [] ==> NextMatch(s, open, close, from) == Some(spans[0]))
    && (forall i :: 0 <= i < |spans| - 1 ==> NextMatch(s, open, close, spans[i].1) == Some(spans[i + 1]))
    && (spans != [] ==> NextMatch(s, open, close, spans[|spans| - 1].1).None?)
  }

  /** A match followed by all the matches after its end is all the matches. */
  lemma ConsMatch(s: string, open: string, close: string, from: nat, span: (nat, nat), rest: seq<(nat, nat)>)
    requires open != [] && close != []
    requires NextMatch(s, open, close, from) == Some(span)
    requires FindsAllMatches(s, open, close, span.1, rest)
    ensures FindsAllMatches(s, open, close, from, [span] + rest)
  {
    var spans := [span] + rest;
    assert forall i :: 1 <= i < |spans| ==> spans[i] == rest[i - 1];
    if rest != [] {
      assert spans[|spans| - 1] == rest[|rest| - 1];
    }
  }

  /**
   * The spans of the global lazy match `/open[\s\S]*?close/g` at or after `from`:
   * each match, then the search resumes after its `close`.
   */
  function LazySpans(s: string, open: string, close: string, from: nat): (spans: seq<(nat, nat)>)
    requires open != [] && close != []
    ensures FindsAllMatches(s, open, close, from, spans)
    decreases |s| + 1 - from
  {
    var next := NextMatch(s, open, close, from);
    if next.None? then []
    else
      var rest := LazySpans(s, open, close, next.value.1);
      ConsMatch(s, open, close, from, next.value, rest);
      [next.value] + rest
  }

  /**
   * All the matches, in terms of `indexOf`: none exactly when there is no `open`,
   * or no `close` after the first one; the first starts at the first `open` after
   * `from`, and each next one at the first `open` after the previous one's end.
   */
  lemma AllMatchesStartAtNextOpen(s: string, open: string, close: string, from: nat, spans: seq<(nat, nat)>)
    requires open != [] && close != []
    requires FindsAllMatches(s, open, close, from, spans)
    ensures spans == [] <==>
      IndexOf(s, open, from) < 0 || IndexOf(s, close, IndexOf(s, open, from) + |open|) < 0
    ensures spans != [] ==> spans[0].0 == IndexOf(s, open, from)
    ensures forall i :: 0 <= i < |spans| - 1 ==> spans[i + 1].0 == IndexOf(s, open, spans[i].1)
  {
    forall i | 0 <= i < |spans| - 1
      ensures spans[i + 1].0 == IndexOf(s, open, spans[i].1)
    {
      assert NextMatch(s, open, close, spans[i].1) == Some(spans[i + 1]);
    }
  }

  /** The matches after the first one are all the matches after its end. */
  lemma TailMatches(s: string, open: string, close: string, from: nat, spans: seq<(nat, nat)>)
    requires open != [] && close != []
    requires FindsAllMatches(s, open, close, from, spans) && spans != []
    ensures FindsAllMatches(s, open, close, spans[0].1, spans[1..])
  {
    var rest := spans[1..];
    assert forall i :: 0 <= i < |rest| ==> rest[i] == spans[i + 1];
    if rest != [] {
      assert NextMatch(s, open, close, spans[0].1) == Some(spans[1]);
      assert rest[|rest| - 1] == spans[|spans| - 1];
    }
  }

  /** All the matches are delimited spans, in order and without overlap. */
  lemma {:induction false} MatchesAreSpans(s: string, open: string, close: string, from: nat, spans: seq<(nat, nat)>)
    requires open != [] && close != []
    requires FindsAllMatches(s, open, close, from, spans)
    ensures SpansFrom(s, open, close, from, spans)
    decreases |spans|
  {
    if spans != [] {
      TailMatches(s, open, close, from, spans);
      MatchesAreSpans(s, open, close, spans[0].1, spans[1..]);
      ConsSpan(s, open, close, from, spans[0].0, spans[0].1, spans[1..]);
      assert [spans[0]] + spans[1..] == spans;
    }
  }

  /** `e` is one block: `open`, then text without `close`, then `close`. */
  predicate Block(e: string, open: string, close: string) {
    && |e| >= |open| + |close|
    && e[..|open|] == open
    && e[|e| - |close|..] == close
    && forall q :: |open| <= q < |e| - |close| ==> !StartsAt(e, q, close)
  }

  /** Cutting a delimited span out of the text gives a block. */
  lemma DelimitedIsBlock(s: string, open: string, close: string, start: nat, end: nat)
    requires Delimited(s, open, close, start, end)
    ensures Block(s[start..end], open, close)
  {
    var e := s[start..end];
    forall q | |open| <= q < |e| - |close|
      ensures !StartsAt(e, q, close)
    {
      if StartsAt(e, q, close) {
        var inS, inE := s[start + q..start + q + |close|], e[q..q + |close|];
        assert forall j :: 0 <= j < |close| ==> inS[j] == inE[j];
        assert StartsAt(s, start + q, close);
      }
    }
  }
}
