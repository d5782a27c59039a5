/**
 * The regular expressions of the alternatives parser, as one rule table shared by the
 * structured and the flat strategy, together with the three ways the parser applies
 * them: `String.prototype.match` (the first match), `RegExp.prototype.exec` in a loop
 * with the global flag (every match, each search resuming where the previous match
 * ended) and `String.prototype.split` with a capture group.
 *
 * Each rule is matched by a scanner (MatchAt) that picks, at a given position, the match
 * a backtracking engine picks. IsMatch states declaratively which matches the regular
 * expression admits at a position and Prefers states the engine's priority among them;
 * MatchAtIsRegexChoice proves that the scanner returns exactly the preferred one.
 */
module Patterns {
  import opened Wrappers
  import opened Text

  /** The parser's regular expressions. The label literals of Link, Price and Source
      are matched ignoring ASCII case. */
  datatype Rule =
    | Delimiter  // newline, optional spaces, a '*' bullet, one or more spaces, then a bold span (the split separator)
    | Bold       // "**", a non-empty run without '*' (captured), "**"
    | Link       // "Link:" or "URL:", optional spaces, then "http://" or "https://" and a non-empty run without spaces or '*' (captured from the scheme on)
    | Price      // "Price:", optional spaces, then a non-empty run without newline or '*' (captured)
    | Source     // "Source:", then the same as Price

  /** One match: where it starts and ends, and where its (single) capture group lies. */
  datatype Match = Match(start: nat, capStart: nat, capEnd: nat, end: nat)

  /** The positions of a match starting at q are ordered and lie within s. */
  predicate WellPlaced(s: string, q: nat, m: Match) {
    m.start == q && q <= m.capStart < m.capEnd <= m.end <= |s|
  }

  /** The text of the capture group, `m[1]`. */
  function CaptureOf(s: string, m: Match): string
    requires m.capStart <= m.capEnd <= |s|
  {
    s[m.capStart..m.capEnd]
  }

  predicate StarsAt(s: string, i: nat) {
    i + 1 < |s| && s[i] == '*' && s[i + 1] == '*'
  }

  // ---------------------------------------------------------------------------------
  // Scanners: the match the engine picks when it tries the pattern at position q.
  // ---------------------------------------------------------------------------------

  function BoldAt(s: string, q: nat): (r: Option<Match>)
    ensures r.Some? ==> WellPlaced(s, q, r.value) && r.value.end == r.value.capEnd + 2
  {
    if StarsAt(s, q) then
      var c := Span(NotStar, s, q + 2);
      if q + 2 < c && StarsAt(s, c) then Some(Match(q, q + 2, c, c + 2)) else None
    else None
  }

  function DelimiterAt(s: string, q: nat): (r: Option<Match>)
    ensures r.Some? ==> WellPlaced(s, q, r.value)
  {
    if q < |s| && s[q] == '\n' then
      var a := Span(Space, s, q + 1);
      if a < |s| && s[a] == '*' then
        var b := Span(Space, s, a + 1);
        if a + 1 < b then
          match BoldAt(s, b)
          case Some(m) => Some(m.(start := q))
          case None => None
        else None
      else None
    else None
  }

  /** The address after a label that ends at l: optional spaces, the scheme, the rest. */
  function UrlAfterLabel(s: string, q: nat, l: nat): (r: Option<Match>)
    requires q < l <= |s|
    ensures r.Some? ==> WellPlaced(s, q, r.value)
  {
    var a := Span(Space, s, l);
    if LiteralAtCI(s, a, "https://") then AddressFrom(s, q, a, a + 8)
    else if LiteralAtCI(s, a, "http://") then AddressFrom(s, q, a, a + 7)
    else None
  }

  function AddressFrom(s: string, q: nat, a: nat, p: nat): (r: Option<Match>)
    requires q <= a < p <= |s|
    ensures r.Some? ==> WellPlaced(s, q, r.value)
  {
    var c := Span(NotSpaceOrStar, s, p);
    if p < c then Some(Match(q, a, c, c)) else None
  }

  function LinkAt(s: string, q: nat): (r: Option<Match>)
    ensures r.Some? ==> WellPlaced(s, q, r.value)
  {
    if LiteralAtCI(s, q, "link:") then UrlAfterLabel(s, q, q + 5)
    else if LiteralAtCI(s, q, "url:") then UrlAfterLabel(s, q, q + 4)
    else None
  }

  /** The last position in [lo, hi) that does not hold a newline. */
  function LastNotNewline(s: string, lo: nat, hi: nat): (r: Option<nat>)
    requires lo <= hi <= |s|
    ensures r.Some? ==> lo <= r.value < hi && s[r.value] != '\n'
    ensures forall k :: (if r.Some? then r.value + 1 else lo) <= k < hi ==> s[k] == '\n'
    decreases hi - lo
  {
    if hi == lo then None
    else if s[hi - 1] != '\n' then Some(hi - 1)
    else LastNotNewline(s, lo, hi - 1)
  }

  /** A label, optional spaces, then a non-empty run without newline or '*'. When the
      spaces are followed by '*', by the end or by nothing the run may start with, the
      engine gives spaces back to the run: the run is then the last space that is not a
      newline. */
  function LabelledAt(s: string, q: nat, lit: string): (r: Option<Match>)
    requires |lit| > 0
    ensures r.Some? ==> WellPlaced(s, q, r.value)
  {
    if LiteralAtCI(s, q, lit) then
      var w := Span(Space, s, q + |lit|);
      if w < |s| && s[w] != '*' then
        var c := Span(NotNewlineOrStar, s, w);
        Some(Match(q, w, c, c))
      else
        match LastNotNewline(s, q + |lit|, w)
        case Some(j) => Some(Match(q, j, j + 1, j + 1))
        case None => None
    else None
  }

  /** The match of the rule that the engine finds when it tries position q. */
  function MatchAt(rule: Rule, s: string, q: nat): (r: Option<Match>)
    ensures r.Some? ==> WellPlaced(s, q, r.value)
  {
    match rule
    case Delimiter => DelimiterAt(s, q)
    case Bold => BoldAt(s, q)
    case Link => LinkAt(s, q)
    case Price => LabelledAt(s, q, "price:")
    case Source => LabelledAt(s, q, "source:")
  }

  // ---------------------------------------------------------------------------------
  // The reference: which matches each regular expression admits, and which one a
  // backtracking engine prefers.
  // ---------------------------------------------------------------------------------

  ghost predicate BoldShape(s: string, b: nat, m: Match) {
    && StarsAt(s, b)
    && m.capStart == b + 2
    && m.capStart < m.capEnd
    && AllIn(NotStar, s, m.capStart, m.capEnd)
    && StarsAt(s, m.capEnd)
    && m.end == m.capEnd + 2
  }

  /** Optional spaces from i, a '*', then at least one space up to b. */
  ghost predicate BulletBetween(s: string, i: nat, b: nat) {
    exists a: nat :: AllIn(Space, s, i, a) && a < |s| && s[a] == '*' && a + 1 < b && AllIn(Space, s, a + 1, b)
  }

  ghost predicate UrlShape(s: string, l: nat, m: Match) {
    && AllIn(Space, s, l, m.capStart)
    && m.end == m.capEnd
    && (|| (LiteralAtCI(s, m.capStart, "https://") && m.capStart + 8 < m.capEnd
            && AllIn(NotSpaceOrStar, s, m.capStart + 8, m.capEnd))
        || (LiteralAtCI(s, m.capStart, "http://") && m.capStart + 7 < m.capEnd
            && AllIn(NotSpaceOrStar, s, m.capStart + 7, m.capEnd)))
  }

  ghost predicate LabelShape(s: string, q: nat, lit: string, m: Match) {
    && LiteralAtCI(s, q, lit)
    && AllIn(Space, s, q + |lit|, m.capStart)
    && m.capStart < m.capEnd
    && AllIn(NotNewlineOrStar, s, m.capStart, m.capEnd)
    && m.end == m.capEnd
  }

  /** m is a match of the rule's regular expression that starts at q. */
  ghost predicate IsMatch(rule: Rule, s: string, q: nat, m: Match) {
    && m.start == q
    && match rule
       case Delimiter =>
         q < |s| && s[q] == '\n' && 2 <= m.capStart
         && BulletBetween(s, q + 1, m.capStart - 2) && BoldShape(s, m.capStart - 2, m)
       case Bold => BoldShape(s, q, m)
       case Link =>
         || (LiteralAtCI(s, q, "link:") && UrlShape(s, q + 5, m))
         || (LiteralAtCI(s, q, "url:") && UrlShape(s, q + 4, m))
       case Price => LabelShape(s, q, "price:", m)
       case Source => LabelShape(s, q, "source:", m)
  }

  /** The engine's priority among matches at one position. Every choice point of these
      expressions is a greedy quantifier (the alternations "Link"/"URL" and "http"/"https"
      never both succeed), and the first quantifier fixes where the capture starts and
      the second where it ends: the more characters each takes, the earlier the engine
      tries that choice. */
  predicate Prefers(m: Match, other: Match) {
    other.capStart < m.capStart || (other.capStart == m.capStart && other.capEnd <= m.capEnd)
  }

  // ---------------------------------------------------------------------------------
  // The scanners pick the preferred match.
  // ---------------------------------------------------------------------------------

  lemma LiteralAtCIChar(s: string, i: nat, lit: string, k: nat)
    requires LiteralAtCI(s, i, lit) && k < |lit|
    ensures Lower(s[i + k]) == lit[k]
  {
  }

  lemma LowerNotSpace(c: char, l: char)
    requires 'a' <= l <= 'z' && Lower(c) == l
    ensures !IsSpace(c) && c != '*' && c != '\n'
  {
  }

  lemma BoldAtIsRegexChoice(s: string, q: nat)
    ensures BoldAt(s, q).Some? ==> BoldShape(s, q, BoldAt(s, q).value)
    ensures forall m :: BoldShape(s, q, m) && m.start == q ==> BoldAt(s, q) == Some(m)
  {
    forall m | BoldShape(s, q, m) && m.start == q
      ensures BoldAt(s, q) == Some(m)
    {
      SpanAt(NotStar, s, q + 2, m.capEnd);
    }
  }

  /** A separator match admitted by the expression is the one DelimiterAt finds. */
  lemma DelimiterAtFinds(s: string, q: nat, m: Match)
    requires IsMatch(Delimiter, s, q, m)
    ensures DelimiterAt(s, q) == Some(m)
  {
    var b := m.capStart - 2;
    var a: nat :| AllIn(Space, s, q + 1, a) && a < |s| && s[a] == '*' && a + 1 < b && AllIn(Space, s, a + 1, b);
    SpanAt(Space, s, q + 1, a);
    SpanAt(Space, s, a + 1, b);
    BoldAtIsRegexChoice(s, b);
    assert BoldAt(s, b) == Some(m.(start := b));
  }

  lemma DelimiterAtIsRegexChoice(s: string, q: nat)
    ensures DelimiterAt(s, q).Some? ==> IsMatch(Delimiter, s, q, DelimiterAt(s, q).value)
    ensures forall m :: IsMatch(Delimiter, s, q, m) ==> DelimiterAt(s, q) == Some(m)
  {
    if DelimiterAt(s, q).Some? {
      var a := Span(Space, s, q + 1);
      var b := Span(Space, s, a + 1);
      BoldAtIsRegexChoice(s, b);
      assert BulletBetween(s, q + 1, b);
    }
    forall m | IsMatch(Delimiter, s, q, m)
      ensures DelimiterAt(s, q) == Some(m)
    {
      DelimiterAtFinds(s, q, m);
    }
  }

  lemma UrlAfterLabelIsRegexChoice(s: string, q: nat, l: nat)
    requires q < l <= |s|
    ensures UrlAfterLabel(s, q, l).Some? ==> UrlShape(s, l, UrlAfterLabel(s, q, l).value)
    ensures forall m :: UrlShape(s, l, m) && m.start == q ==>
              UrlAfterLabel(s, q, l).Some? && UrlAfterLabel(s, q, l).value.capStart == m.capStart
              && m.capEnd <= UrlAfterLabel(s, q, l).value.capEnd
  {
    var a := Span(Space, s, l);
    forall m | UrlShape(s, l, m) && m.start == q
      ensures UrlAfterLabel(s, q, l).Some? && UrlAfterLabel(s, q, l).value.capStart == m.capStart
              && m.capEnd <= UrlAfterLabel(s, q, l).value.capEnd
    {
      if LiteralAtCI(s, m.capStart, "https://") {
        LiteralAtCIChar(s, m.capStart, "https://", 0);
      } else {
        LiteralAtCIChar(s, m.capStart, "http://", 0);
      }
      LowerNotSpace(s[m.capStart], 'h');
      SpanAt(Space, s, l, m.capStart);
      if LiteralAtCI(s, a, "https://") {
        LiteralAtCIChar(s, a, "https://", 4);
        if LiteralAtCI(s, a, "http://") {
          LiteralAtCIChar(s, a, "http://", 4);
        }
        SpanIsLongest(NotSpaceOrStar, s, a + 8, m.capEnd);
      } else {
        SpanIsLongest(NotSpaceOrStar, s, a + 7, m.capEnd);
      }
    }
  }

  lemma LinkAtIsRegexChoice(s: string, q: nat)
    ensures LinkAt(s, q).Some? ==> IsMatch(Link, s, q, LinkAt(s, q).value)
    ensures forall m :: IsMatch(Link, s, q, m) ==> LinkAt(s, q).Some? && Prefers(LinkAt(s, q).value, m)
  {
    if LiteralAtCI(s, q, "link:") {
      UrlAfterLabelIsRegexChoice(s, q, q + 5);
      if LiteralAtCI(s, q, "url:") {
        LiteralAtCIChar(s, q, "link:", 0);
        LiteralAtCIChar(s, q, "url:", 0);
      }
    } else if LiteralAtCI(s, q, "url:") {
      UrlAfterLabelIsRegexChoice(s, q, q + 4);
    }
  }

  /** Every match of a label expression at q is one LabelledAt prefers to. */
  lemma LabelledAtBeats(s: string, q: nat, lit: string, m: Match)
    requires |lit| > 0 && LabelShape(s, q, lit, m) && m.start == q
    ensures LabelledAt(s, q, lit).Some? && Prefers(LabelledAt(s, q, lit).value, m)
  {
    var l := q + |lit|;
    var w := Span(Space, s, l);
    SpanIsLongest(Space, s, l, m.capStart);
    if w < |s| && s[w] != '*' {
      if m.capStart == w {
        SpanIsLongest(NotNewlineOrStar, s, w, m.capEnd);
      }
    } else {
      assert InClass(NotNewlineOrStar, s[m.capStart]);
      var j := LastNotNewline(s, l, w);
      assert j.Some? && m.capStart <= j.value;
      if m.capStart == j.value && m.capEnd > j.value + 1 {
        assert InClass(NotNewlineOrStar, s[j.value + 1]);
      }
    }
  }

  lemma LabelledAtIsRegexChoice(s: string, q: nat, lit: string)
    requires |lit| > 0
    ensures LabelledAt(s, q, lit).Some? ==> LabelShape(s, q, lit, LabelledAt(s, q, lit).value)
    ensures forall m :: LabelShape(s, q, lit, m) && m.start == q ==>
              LabelledAt(s, q, lit).Some? && Prefers(LabelledAt(s, q, lit).value, m)
  {
    if LiteralAtCI(s, q, lit) {
      var l := q + |lit|;
      var w := Span(Space, s, l);
      if !(w < |s| && s[w] != '*') {
        var j := LastNotNewline(s, l, w);
        if j.Some? {
          assert IsSpace(s[j.value]);
        }
      }
    }
    forall m | LabelShape(s, q, lit, m) && m.start == q
      ensures LabelledAt(s, q, lit).Some? && Prefers(LabelledAt(s, q, lit).value, m)
    {
      LabelledAtBeats(s, q, lit, m);
    }
  }

  /** The scanner returns a match of the regular expression at q exactly when there is
      one, and then the one the engine prefers over every other: the match the engine
      reports. */
  lemma MatchAtIsRegexChoice(rule: Rule, s: string, q: nat)
    ensures MatchAt(rule, s, q).Some? ==> IsMatch(rule, s, q, MatchAt(rule, s, q).value)
    ensures forall m :: IsMatch(rule, s, q, m) ==>
              MatchAt(rule, s, q).Some? && Prefers(MatchAt(rule, s, q).value, m)
    ensures forall m :: IsMatch(rule, s, q, m) && Prefers(m, MatchAt(rule, s, q).value) ==>
              m == MatchAt(rule, s, q).value
  {
    match rule
    case Delimiter => DelimiterAtIsRegexChoice(s, q);
    case Bold => BoldAtIsRegexChoice(s, q);
    case Link => LinkAtIsRegexChoice(s, q);
    case Price => LabelledAtIsRegexChoice(s, q, "price:");
    case Source => LabelledAtIsRegexChoice(s, q, "source:");
  }

  // ---------------------------------------------------------------------------------
  // Searching: `match`, `exec` with the global flag, and `split`.
  // ---------------------------------------------------------------------------------

  /** The search of `exec` from lastIndex `from` (and of `match`, from 0): the engine tries
      every position from `from` to the end of s in turn and reports the first match. */
  function FirstMatch(rule: Rule, s: string, from: nat): (r: Option<Match>)
    ensures r.Some? ==> from <= r.value.start && MatchAt(rule, s, r.value.start) == r
    ensures forall q :: from <= q <= |s| && (r.None? || q < r.value.start) ==> MatchAt(rule, s, q).None?
    decreases |s| + 1 - from
  {
    if from > |s| then None
    else
      match MatchAt(rule, s, from)
      case Some(m) => Some(m)
      case None => FirstMatch(rule, s, from + 1)
  }

  /** The search reports the leftmost match at or after `from`, and at its position the
      match the engine prefers: no match of the regular expression starts earlier. */
  lemma FirstMatchIsLeftmost(rule: Rule, s: string, from: nat)
    ensures FirstMatch(rule, s, from).Some? ==>
              var m := FirstMatch(rule, s, from).value;
              IsMatch(rule, s, m.start, m) && forall m' :: IsMatch(rule, s, m.start, m') ==> Prefers(m, m')
    ensures forall q, m' :: from <= q && IsMatch(rule, s, q, m') ==>
              FirstMatch(rule, s, from).Some? && FirstMatch(rule, s, from).value.start <= q
  {
    if FirstMatch(rule, s, from).Some? {
      MatchAtIsRegexChoice(rule, s, FirstMatch(rule, s, from).value.start);
    }
    forall q, m' | from <= q && IsMatch(rule, s, q, m')
      ensures FirstMatch(rule, s, from).Some? && FirstMatch(rule, s, from).value.start <= q
    {
      MatchAtIsRegexChoice(rule, s, q);
    }
  }

  /** The matches a global `exec` loop reports, starting with lastIndex `from`: each
      search resumes at the end of the previous match, so the matches are in text order
      and do not overlap. */
  function AllMatches(rule: Rule, s: string, from: nat): (r: seq<Match>)
    ensures forall k :: 0 <= k < |r| ==> from <= r[k].start && WellPlaced(s, r[k].start, r[k])
    ensures forall i, j :: 0 <= i && j == i + 1 && j < |r| ==> r[i].end <= r[j].start
    decreases |s| + 1 - from
  {
    match FirstMatch(rule, s, from)
    case None => []
    case Some(m) => [m] + AllMatches(rule, s, m.end)
  }

  /** The first reported match is the first match from `from`, and each further one is
      the first match from where the previous one ended: no match of the regular
      expression is skipped. */
  lemma {:induction false} AllMatchesResume(rule: Rule, s: string, from: nat)
    ensures var ms := AllMatches(rule, s, from);
            && FirstMatch(rule, s, from) == (if ms == [] then None else Some(ms[0]))
            && forall i, j :: 0 <= i && j == i + 1 && j < |ms| ==> FirstMatch(rule, s, ms[i].end) == Some(ms[j])
    decreases |s| + 1 - from
  {
    var ms := AllMatches(rule, s, from);
    if FirstMatch(rule, s, from).Some? {
      var m := FirstMatch(rule, s, from).value;
      var rest := AllMatches(rule, s, m.end);
      assert ms == [m] + rest;
      AllMatchesResume(rule, s, m.end);
      forall i, j | 0 <= i && j == i + 1 && j < |ms|
        ensures FirstMatch(rule, s, ms[i].end) == Some(ms[j])
      {
        assert ms[j] == rest[j - 1];
        if i > 0 {
          assert ms[i] == rest[i - 1];
        }
      }
    }
  }

  /** After the last reported match the search finds nothing: the loop stops only when
      no match is left. */
  lemma {:induction false} AllMatchesExhaust(rule: Rule, s: string, from: nat)
    ensures var ms := AllMatches(rule, s, from);
            FirstMatch(rule, s, if ms == [] then from else ms[|ms| - 1].end).None?
    decreases |s| + 1 - from
  {
    var ms := AllMatches(rule, s, from);
    if FirstMatch(rule, s, from).Some? {
      var m := FirstMatch(rule, s, from).value;
      var rest := AllMatches(rule, s, m.end);
      assert ms == [m] + rest;
      AllMatchesExhaust(rule, s, m.end);
      if rest != [] {
        assert ms[|ms| - 1] == rest[|rest| - 1];
      }
    }
  }

  /** m is a match of the regular expression at its start, and the one the engine
      prefers there. */
  ghost predicate ChosenMatch(rule: Rule, s: string, m: Match) {
    IsMatch(rule, s, m.start, m) && forall m' :: IsMatch(rule, s, m.start, m') ==> Prefers(m, m')
  }

  /** Every match the loop reports is a match of the regular expression at its start,
      and the one the engine prefers there. */
  lemma {:induction false} AllMatchesAreMatches(rule: Rule, s: string, from: nat)
    ensures forall k :: 0 <= k < |AllMatches(rule, s, from)| ==> ChosenMatch(rule, s, AllMatches(rule, s, from)[k])
    decreases |s| + 1 - from
  {
    match FirstMatch(rule, s, from)
    case None =>
    case Some(m) =>
      FirstMatchIsLeftmost(rule, s, from);
      assert ChosenMatch(rule, s, m);
      AllMatchesAreMatches(rule, s, m.end);
      var ms, ms' := AllMatches(rule, s, from), AllMatches(rule, s, m.end);
      assert ms == [m] + ms';
      forall k | 0 < k < |ms| ensures ChosenMatch(rule, s, ms[k]) {
        assert ms[k] == ms'[k - 1];
      }
  }

  /** The trimmed captures `m[1].trim()` of every match of a global `exec` loop. */
  function Captures(rule: Rule, s: string, from: nat): (r: seq<string>)
    decreases |s| + 1 - from
  {
    match FirstMatch(rule, s, from)
    case None => []
    case Some(m) => [Trim(CaptureOf(s, m))] + Captures(rule, s, m.end)
  }

  /** One step of the global `exec` loop: the captures from `from` are the first
      match's capture followed by the captures from its end. */
  lemma CapturesStep(rule: Rule, s: string, from: nat)
    ensures FirstMatch(rule, s, from).None? ==> Captures(rule, s, from) == []
    ensures FirstMatch(rule, s, from).Some? ==>
              var m := FirstMatch(rule, s, from).value;
              m.capEnd <= |s| && from < m.end <= |s| &&
              Captures(rule, s, from) == [Trim(CaptureOf(s, m))] + Captures(rule, s, m.end)
  {
  }

  lemma {:induction false} CapturesOfMatches(rule: Rule, s: string, from: nat)
    ensures |Captures(rule, s, from)| == |AllMatches(rule, s, from)|
    ensures forall k :: 0 <= k < |AllMatches(rule, s, from)| ==>
              Captures(rule, s, from)[k] == Trim(CaptureOf(s, AllMatches(rule, s, from)[k]))
    decreases |s| + 1 - from
  {
    match FirstMatch(rule, s, from)
    case None =>
    case Some(m) =>
      CapturesOfMatches(rule, s, m.end);
      var cs, ms := Captures(rule, s, from), AllMatches(rule, s, from);
      var cs', ms' := Captures(rule, s, m.end), AllMatches(rule, s, m.end);
      assert cs == [Trim(CaptureOf(s, m))] + cs';
      assert ms == [m] + ms';
      forall k | 0 <= k < |ms|
        ensures cs[k] == Trim(CaptureOf(s, ms[k]))
      {
        if k > 0 {
          assert cs[k] == cs'[k - 1] && ms[k] == ms'[k - 1];
        }
      }
  }

  /** `String.prototype.split` with the delimiter rule: the text before each delimiter
      match followed by its captured title, and finally the text after the last match.
      The scan tries every position from q; p is where the current piece began. */
  function SplitFrom(s: string, p: nat, q: nat): (r: seq<string>)
    requires p <= q <= |s|
    ensures |r| % 2 == 1
    ensures forall k :: 0 <= k < |r| && k % 2 == 1 ==> r[k] != [] && '*' !in r[k]
    decreases |s| - q
  {
    if q == |s| then [s[p..]]
    else
      match MatchAt(Delimiter, s, q)
      case Some(m) =>
        MatchAtIsRegexChoice(Delimiter, s, q);
        assert forall k :: m.capStart <= k < m.capEnd ==> s[k] != '*';
        [s[p..q], CaptureOf(s, m)] + SplitFrom(s, m.end, m.end)
      case None => SplitFrom(s, p, q + 1)
  }

  /** The split, read as a search: the next piece runs up to the leftmost delimiter
      match, which contributes its title; with no match left the rest is the last
      piece. */
  lemma {:induction false} SplitFromSearch(s: string, p: nat, q: nat)
    requires p <= q <= |s|
    ensures FirstMatch(Delimiter, s, q).None? ==> SplitFrom(s, p, q) == [s[p..]]
    ensures FirstMatch(Delimiter, s, q).Some? ==>
              var m := FirstMatch(Delimiter, s, q).value;
              && p <= m.start <= m.capStart <= m.capEnd <= m.end <= |s|
              && SplitFrom(s, p, q) == [s[p..m.start], CaptureOf(s, m)] + SplitFrom(s, m.end, m.end)
    decreases |s| - q
  {
    if q == |s| {
      assert MatchAt(Delimiter, s, q).None?;
      assert FirstMatch(Delimiter, s, q + 1).None?;
    } else if MatchAt(Delimiter, s, q).None? {
      SplitFromSearch(s, p, q + 1);
    }
  }

  function Split(s: string): (r: seq<string>)
    ensures |r| % 2 == 1
  {
    SplitFrom(s, 0, 0)
  }

  /** `filter(Boolean)` on an array of strings: drop the empty ones. */
  function FilterNonEmpty(xs: seq<string>): (r: seq<string>)
    ensures |r| <= |xs|
    ensures forall x :: x in r <==> x in xs && x != []
  {
    if xs == [] then [] else (if xs[0] == [] then [] else [xs[0]]) + FilterNonEmpty(xs[1..])
  }

  /** Filtering keeps the order: it distributes over concatenation. */
  lemma {:induction false} FilterNonEmptyAppend(xs: seq<string>, ys: seq<string>)
    ensures FilterNonEmpty(xs + ys) == FilterNonEmpty(xs) + FilterNonEmpty(ys)
  {
    if xs != [] {
      FilterNonEmptyAppend(xs[1..], ys);
      assert (xs + ys)[0] == xs[0];
      assert (xs + ys)[1..] == xs[1..] + ys;
    } else {
      assert xs + ys == ys;
    }
  }
}
