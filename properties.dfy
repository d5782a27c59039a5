/**
 * What the parser promises about the records it returns, proved about the reference
 * functions that its methods are proved to compute.
 */
module AlternativesProperties {
  import opened Wrappers
  import opened Text
  import opened Patterns
  import opened ParseAlternatives

  // ---------------------------------------------------------------------------------
  // The shape of the fields.
  // ---------------------------------------------------------------------------------

  /** t neither starts nor ends with a space: what `trim` leaves. */
  predicate NoOuterSpace(t: string) {
    t == [] || (!IsSpace(t[0]) && !IsSpace(t[|t| - 1]))
  }

  /** An address as the Link/URL expression captures it: "http://" or "https://" in any
      ASCII case, at least one more character, and no space or '*' anywhere. */
  predicate WellFormedUrl(u: string) {
    && ((LiteralAtCI(u, 0, "https://") && 8 < |u|) || (LiteralAtCI(u, 0, "http://") && 7 < |u|))
    && forall k :: 0 <= k < |u| ==> !IsSpace(u[k]) && u[k] != '*'
  }

  /** A trimmed capture of the Price or Source expression: no newline, no '*'. */
  predicate CleanField(t: string) {
    NoOuterSpace(t) && '\n' !in t && '*' !in t
  }

  predicate CleanOptional(o: Option<string>) {
    o.Some? ==> CleanField(o.value)
  }

  /** A record of the structured strategy. */
  predicate WellFormedRecord(a: ProductAlternative) {
    && a.title != [] && NoOuterSpace(a.title)
    && WellFormedUrl(a.url)
    && CleanOptional(a.price) && CleanOptional(a.source)
  }

  /** Trimming leaves no space at either end and keeps only characters of s. */
  lemma TrimmedIsClean(s: string)
    ensures NoOuterSpace(Trim(s))
    ensures forall c :: c in Trim(s) ==> c in s
  {
    TrimSpec(s);
  }

  /** A character whose lower-case form is a character of the scheme literals is not a
      space and not '*'. */
  lemma SchemeCharNotSpace(c: char, l: char)
    requires Lower(c) == l && l in "https://"
    ensures !IsSpace(c) && c != '*'
  {
    if 'a' <= l <= 'z' {
      LowerNotSpace(c, l);
    }
  }

  /** The capture of a Link/URL match is a well-formed address, and trimming leaves it
      as it is. */
  lemma LinkCaptureWellFormed(s: string, q: nat, m: Match)
    requires IsMatch(Link, s, q, m) && m.capEnd <= |s|
    ensures WellFormedUrl(CaptureOf(s, m))
    ensures Trim(CaptureOf(s, m)) == CaptureOf(s, m)
  {
    var u := CaptureOf(s, m);
    var a := m.capStart;
    var scheme := if LiteralAtCI(s, a, "https://") && a + 8 < m.capEnd then "https://" else "http://";
    assert LiteralAtCI(s, a, scheme) && a + |scheme| < m.capEnd && AllIn(NotSpaceOrStar, s, a + |scheme|, m.capEnd);
    forall k | 0 <= k < |u|
      ensures !IsSpace(u[k]) && u[k] != '*'
    {
      assert u[k] == s[a + k];
      if k < |scheme| {
        LiteralAtCIChar(s, a, scheme, k);
        SchemeCharNotSpace(s[a + k], scheme[k]);
      }
    }
    assert LiteralAtCI(u, 0, scheme) by {
      forall k | 0 <= k < |scheme| ensures Lower(u[k]) == scheme[k] {
        assert u[k] == s[a + k];
        LiteralAtCIChar(s, a, scheme, k);
      }
    }
    TrimNoSpace(u);
  }

  /** The capture of a Price or Source match holds no newline and no '*'. */
  lemma LabelCaptureClean(s: string, q: nat, lit: string, m: Match)
    requires LabelShape(s, q, lit, m) && m.capEnd <= |s|
    ensures CleanField(Trim(CaptureOf(s, m)))
  {
    var u := CaptureOf(s, m);
    forall k | 0 <= k < |u| ensures u[k] != '\n' && u[k] != '*' {
      assert u[k] == s[m.capStart + k];
    }
    TrimmedIsClean(u);
  }

  // ---------------------------------------------------------------------------------
  // `text.match(re)?.[1]?.trim()`.
  // ---------------------------------------------------------------------------------

  /** m is the match `text.match(re)` reports: no match of the regular expression starts
      before it, and it is the one the engine prefers at its position. */
  ghost predicate Leftmost(rule: Rule, text: string, m: Match) {
    ChosenMatch(rule, text, m) && forall q, m' :: IsMatch(rule, text, q, m') ==> m.start <= q
  }

  /** Only the first match counts: the capture is that of the leftmost match, whatever
      matches follow it. */
  lemma FirstCaptureIsLeftmost(rule: Rule, text: string, m: Match)
    requires Leftmost(rule, text, m)
    ensures m.capStart <= m.capEnd <= |text|
    ensures FirstCapture(rule, text) == Some(Trim(CaptureOf(text, m)))
  {
    FirstMatchIsLeftmost(rule, text, 0);
    var m0 := FirstMatch(rule, text, 0).value;
    assert m0.start <= m.start;
    assert m.start <= m0.start;
    MatchAtIsRegexChoice(rule, text, m0.start);
    assert Prefers(m, m0) && Prefers(m0, m);
  }

  /** There is an address exactly when the Link/URL expression matches somewhere, and
      the address is well formed. */
  lemma LinkFirstCapture(text: string)
    ensures FirstCapture(Link, text).Some? <==> exists q, m :: IsMatch(Link, text, q, m)
    ensures FirstCapture(Link, text).Some? ==> WellFormedUrl(FirstCapture(Link, text).value)
  {
    FirstMatchIsLeftmost(Link, text, 0);
    if FirstMatch(Link, text, 0).Some? {
      var m := FirstMatch(Link, text, 0).value;
      LinkCaptureWellFormed(text, m.start, m);
    }
  }

  /** A price or retailer is present exactly when its expression matches somewhere, and
      it is then a clean trimmed capture. */
  lemma LabelFirstCapture(rule: Rule, text: string)
    requires rule == Price || rule == Source
    ensures FirstCapture(rule, text).Some? <==> exists q, m :: IsMatch(rule, text, q, m)
    ensures CleanOptional(FirstCapture(rule, text))
  {
    FirstMatchIsLeftmost(rule, text, 0);
    if FirstMatch(rule, text, 0).Some? {
      var m := FirstMatch(rule, text, 0).value;
      LabelCaptureClean(text, m.start, if rule == Price then "price:" else "source:", m);
    }
  }

  // ---------------------------------------------------------------------------------
  // The structured strategy.
  // ---------------------------------------------------------------------------------

  /** A pair yields a record exactly when its trimmed title is not empty and its body
      holds a Link/URL match. */
  lemma BlockRecordPresence(blocks: seq<string>, i: nat)
    requires i < |blocks|
    ensures BlockRecord(blocks, i).Some? <==>
              Trim(blocks[i]) != [] && exists q, m :: IsMatch(Link, BlockBody(blocks, i), q, m)
  {
    LinkFirstCapture(BlockBody(blocks, i));
  }

  /** A record of the structured strategy has a non-empty trimmed title, a well-formed
      address and clean optional fields, all read from its own pair. */
  lemma BlockRecordWellFormed(blocks: seq<string>, i: nat)
    requires i < |blocks| && BlockRecord(blocks, i).Some?
    ensures WellFormedRecord(BlockRecord(blocks, i).value)
    ensures BlockRecord(blocks, i).value.title == Trim(blocks[i])
  {
    var body := BlockBody(blocks, i);
    TrimmedIsClean(blocks[i]);
    LinkFirstCapture(body);
    LabelFirstCapture(Price, body);
    LabelFirstCapture(Source, body);
  }

  /** The indices i, i + 2, i + 4, ... below |xs| that hold a value. */
  ghost function PresentFrom<T>(xs: seq<Option<T>>, i: nat): seq<nat>
    decreases |xs| - i
  {
    if i >= |xs| then [] else (if xs[i].Some? then [i] else []) + PresentFrom(xs, i + 2)
  }

  /** The indices lie in [i, |xs|), hold values and are i, i + 2, i + 4, ... */
  lemma {:induction false} PresentFromInRange<T>(xs: seq<Option<T>>, i: nat)
    ensures forall k :: k in PresentFrom(xs, i) ==> i <= k < |xs| && k % 2 == i % 2 && xs[k].Some?
    decreases |xs| - i
  {
    if i < |xs| {
      PresentFromInRange(xs, i + 2);
    }
  }

  /** Every index i, i + 2, ... that holds a value is listed. */
  lemma {:induction false} PresentFromComplete<T>(xs: seq<Option<T>>, i: nat, k: nat)
    requires i <= k < |xs| && k % 2 == i % 2 && xs[k].Some?
    ensures k in PresentFrom(xs, i)
    decreases |xs| - i
  {
    if k > i {
      PresentFromComplete(xs, i + 2, k);
    }
  }

  /** The indices are listed in increasing order. */
  lemma {:induction false} PresentFromIncreasing<T>(xs: seq<Option<T>>, i: nat)
    ensures forall j, j' :: 0 <= j < j' < |PresentFrom(xs, i)| ==> PresentFrom(xs, i)[j] < PresentFrom(xs, i)[j']
    decreases |xs| - i
  {
    if i < |xs| {
      PresentFromIncreasing(xs, i + 2);
      PresentFromInRange(xs, i + 2);
      var idx, idx' := PresentFrom(xs, i), PresentFrom(xs, i + 2);
      if xs[i].Some? {
        forall j, j' | 0 <= j < j' < |idx| ensures idx[j] < idx[j'] {
          assert idx[j'] == idx'[j' - 1] && idx'[j' - 1] in idx';
          if j > 0 {
            assert idx[j] == idx'[j - 1];
          }
        }
      }
    }
  }

  /** EveryOther keeps the values at the listed indices, one for one. */
  lemma {:induction false} EveryOtherAtIndices<T>(xs: seq<Option<T>>, i: nat)
    ensures |PresentFrom(xs, i)| == |EveryOther(xs, i)|
    ensures forall j :: 0 <= j < |PresentFrom(xs, i)| ==>
              PresentFrom(xs, i)[j] < |xs| && xs[PresentFrom(xs, i)[j]] == Some(EveryOther(xs, i)[j])
    decreases |xs| - i
  {
    if i < |xs| {
      EveryOtherAtIndices(xs, i + 2);
      var idx', ys' := PresentFrom(xs, i + 2), EveryOther(xs, i + 2);
      var idx, ys := PresentFrom(xs, i), EveryOther(xs, i);
      if xs[i].Some? {
        assert idx == [i] + idx' && ys == [xs[i].value] + ys';
        forall j | 0 < j < |idx|
          ensures idx[j] < |xs| && xs[idx[j]] == Some(ys[j])
        {
          assert idx[j] == idx'[j - 1] && ys[j] == ys'[j - 1];
        }
      } else {
        assert idx == idx' && ys == ys';
      }
    }
  }

  /** EveryOther from i looks only at the entries from i on. */
  lemma {:induction false} EveryOtherAgree<T>(xs: seq<Option<T>>, ys: seq<Option<T>>, i: nat)
    requires |xs| == |ys| && forall k :: i <= k < |xs| ==> xs[k] == ys[k]
    ensures EveryOther(xs, i) == EveryOther(ys, i)
    decreases |xs| - i
  {
    if i < |xs| {
      EveryOtherAgree(xs, ys, i + 2);
    }
  }

  /** EveryOther is empty exactly when none of the indices i, i + 2, ... holds a value. */
  lemma EveryOtherEmpty<T>(xs: seq<Option<T>>, i: nat)
    ensures EveryOther(xs, i) == [] <==> forall k :: i <= k < |xs| && k % 2 == i % 2 ==> xs[k].None?
  {
    EveryOtherAtIndices(xs, i);
    PresentFromInRange(xs, i);
    var idx := PresentFrom(xs, i);
    if idx != [] {
      assert idx[0] in idx;
    }
    forall k | i <= k < |xs| && k % 2 == i % 2 && xs[k].Some? ensures k in idx {
      PresentFromComplete(xs, i, k);
    }
  }

  /** No pair of the structured strategy yields a record: each title is blank or its
      body has no Link/URL match. */
  ghost predicate NoPairYields(blocks: seq<string>) {
    forall k :: 1 <= k < |blocks| && k % 2 == 1 ==>
      Trim(blocks[k]) == [] || !exists q, m :: IsMatch(Link, BlockBody(blocks, k), q, m)
  }

  /** The structured records are those of the pairs at odd indices that yield one, all
      of them and in the order of the pairs; with fewer than two pieces there are none. */
  lemma StructuredRecords(content: string)
    ensures var blocks := Blocks(content);
            |blocks| < 2 ==> Structured(content) == []
    ensures var blocks := Blocks(content);
            var idx := PresentFrom(BlockRecords(blocks), 1);
            |blocks| >= 2 ==>
              && |idx| == |Structured(content)|
              && (forall j :: 0 <= j < |idx| ==>
                    idx[j] < |blocks| && idx[j] % 2 == 1 && BlockRecord(blocks, idx[j]) == Some(Structured(content)[j]))
              && (forall j, j' :: 0 <= j < j' < |idx| ==> idx[j] < idx[j'])
              && (forall k :: 1 <= k < |blocks| && k % 2 == 1 && BlockRecord(blocks, k).Some? ==> k in idx)
  {
    var blocks := Blocks(content);
    if |blocks| >= 2 {
      var xs := BlockRecords(blocks);
      EveryOtherAtIndices(xs, 1);
      PresentFromInRange(xs, 1);
      PresentFromIncreasing(xs, 1);
      var idx := PresentFrom(xs, 1);
      forall j | 0 <= j < |idx|
        ensures idx[j] < |blocks| && idx[j] % 2 == 1 && BlockRecord(blocks, idx[j]) == Some(Structured(content)[j])
      {
        assert idx[j] in idx;
        assert xs[idx[j]] == BlockRecord(blocks, idx[j]);
      }
      forall k | 1 <= k < |blocks| && k % 2 == 1 && BlockRecord(blocks, k).Some? ensures k in idx {
        assert xs[k] == BlockRecord(blocks, k);
        PresentFromComplete(xs, 1, k);
      }
    }
  }

  /** Every structured record is well formed. */
  lemma StructuredWellFormed(content: string)
    ensures forall a :: a in Structured(content) ==> WellFormedRecord(a)
  {
    var blocks := Blocks(content);
    if |blocks| >= 2 {
      StructuredRecords(content);
      var idx := PresentFrom(BlockRecords(blocks), 1);
      forall a | a in Structured(content) ensures WellFormedRecord(a) {
        var j :| 0 <= j < |Structured(content)| && Structured(content)[j] == a;
        BlockRecordWellFormed(blocks, idx[j]);
      }
    }
  }

  /** The structured strategy comes up empty exactly when there are fewer than two
      pieces or no pair yields a record. */
  lemma StructuredEmpty(content: string)
    ensures Structured(content) == [] <==> |Blocks(content)| < 2 || NoPairYields(Blocks(content))
  {
    var blocks := Blocks(content);
    if |blocks| >= 2 {
      var xs := BlockRecords(blocks);
      EveryOtherEmpty(xs, 1);
      forall k | 1 <= k < |blocks|
        ensures (k % 2 == 1 % 2 ==> xs[k].None?) <==>
                (k % 2 == 1 ==> Trim(blocks[k]) == [] || !exists q, m :: IsMatch(Link, BlockBody(blocks, k), q, m))
      {
        BlockRecordPresence(blocks, k);
      }
    }
  }

  /** The first piece is never read, neither as a title nor as a body: pieces that
      differ only there give the same structured records. A reply that opens with a
      bullet has no newline before it, so its first item stays in that piece and is
      lost to the structured strategy. */
  lemma FirstPieceUnread(blocks: seq<string>, blocks': seq<string>)
    requires |blocks| == |blocks'| >= 1 && blocks[1..] == blocks'[1..]
    ensures EveryOther(BlockRecords(blocks), 1) == EveryOther(BlockRecords(blocks'), 1)
  {
    var xs, ys := BlockRecords(blocks), BlockRecords(blocks');
    forall k | 1 <= k < |xs| ensures xs[k] == ys[k] {
      assert blocks[k] == blocks[1..][k - 1] == blocks'[k];
      if k + 1 < |blocks| {
        assert blocks[k + 1] == blocks[1..][k] == blocks'[k + 1];
      }
      assert BlockBody(blocks, k) == BlockBody(blocks', k);
    }
    EveryOtherAgree(xs, ys, 1);
  }

  /** The parser returns the structured records when there are any; it falls back to
      the flat strategy exactly when there are fewer than two pieces or no pair yields a
      record. */
  lemma ParseChoosesStrategy(content: string)
    requires content != []
    ensures |Blocks(content)| < 2 || NoPairYields(Blocks(content)) ==> Parse(Some(content)) == Fallback(content)
    ensures !(|Blocks(content)| < 2 || NoPairYields(Blocks(content))) ==>
              Parse(Some(content)) == Structured(content) && Parse(Some(content)) != []
  {
    StructuredEmpty(content);
  }

  // ---------------------------------------------------------------------------------
  // The flat fallback.
  // ---------------------------------------------------------------------------------

  /** Capture k of the global loop is the trimmed capture of the loop's k-th match, a
      match the regular expression admits and prefers at its start. */
  lemma CaptureAt(rule: Rule, s: string, k: nat)
    requires k < |AllMatches(rule, s, 0)|
    ensures k < |Captures(rule, s, 0)|
    ensures Captures(rule, s, 0)[k] == Trim(CaptureOf(s, AllMatches(rule, s, 0)[k]))
    ensures ChosenMatch(rule, s, AllMatches(rule, s, 0)[k]) && AllMatches(rule, s, 0)[k].capEnd <= |s|
  {
    CapturesOfMatches(rule, s, 0);
    AllMatchesAreMatches(rule, s, 0);
  }

  /** Record i of a zip, field by field. */
  lemma ZipAt(titles: seq<string>, urls: seq<string>, prices: seq<string>, sources: seq<string>, i: nat)
    requires i < |urls|
    ensures var zip, start := Zip(titles, urls, prices, sources), if SkipFirstTitle(titles, urls) then 1 else 0;
            && |zip| == |urls|
            && zip[i].title == (if start + i < |titles| then titles[start + i] else PlaceholderTitle(i))
            && zip[i].url == urls[i]
            && zip[i].price == (if i < |prices| then Some(prices[i]) else None)
            && zip[i].source == (if i < |sources| then Some(sources[i]) else None)
  {
    var start := if SkipFirstTitle(titles, urls) then 1 else 0;
    assert Zip(titles, urls, prices, sources)[i] == Zipped(titles, urls, prices, sources, start, i);
  }

  /** Record i of the fallback has the capture of the i-th Link/URL match as its
      address. */
  lemma FallbackAddressAt(content: string, i: nat)
    requires i < |AllMatches(Link, content, 0)|
    ensures i < |Fallback(content)|
    ensures Fallback(content)[i].url == CaptureOf(content, AllMatches(Link, content, 0)[i])
    ensures WellFormedUrl(Fallback(content)[i].url)
  {
    var m := AllMatches(Link, content, 0)[i];
    CaptureAt(Link, content, i);
    LinkCaptureWellFormed(content, m.start, m);
    ZipAt(Captures(Bold, content, 0), Captures(Link, content, 0), Captures(Price, content, 0), Captures(Source, content, 0), i);
  }

  /** The fallback makes one record per Link/URL match, in the order of the matches,
      and its address is that match's capture: a well-formed address. */
  lemma FallbackAddresses(content: string)
    ensures |Fallback(content)| == |AllMatches(Link, content, 0)|
    ensures forall i :: 0 <= i < |Fallback(content)| ==>
              && Fallback(content)[i].url == CaptureOf(content, AllMatches(Link, content, 0)[i])
              && WellFormedUrl(Fallback(content)[i].url)
  {
    CapturesOfMatches(Link, content, 0);
    forall i | 0 <= i < |Fallback(content)|
      ensures Fallback(content)[i].url == CaptureOf(content, AllMatches(Link, content, 0)[i])
      ensures WellFormedUrl(Fallback(content)[i].url)
    {
      FallbackAddressAt(content, i);
    }
  }

  /** Capture k of the Price or Source loop is a clean trimmed capture of the k-th match. */
  lemma LabelCaptureAt(rule: Rule, s: string, k: nat)
    requires rule == Price || rule == Source
    requires k < |AllMatches(rule, s, 0)|
    ensures k < |Captures(rule, s, 0)|
    ensures Captures(rule, s, 0)[k] == Trim(CaptureOf(s, AllMatches(rule, s, 0)[k]))
    ensures CleanField(Captures(rule, s, 0)[k])
  {
    CaptureAt(rule, s, k);
    var m := AllMatches(rule, s, 0)[k];
    LabelCaptureClean(s, m.start, if rule == Price then "price:" else "source:", m);
  }

  /** The i-th of the captures of a rule, if there are that many. */
  function CaptureOrNone(captures: seq<string>, i: nat): Option<string> {
    if i < |captures| then Some(captures[i]) else None
  }

  /** Record i of the fallback takes the i-th Price and Source captures, when there are
      that many. */
  lemma FallbackLabelsAt(content: string, i: nat)
    requires i < |Fallback(content)|
    ensures Fallback(content)[i].price == CaptureOrNone(Captures(Price, content, 0), i)
    ensures Fallback(content)[i].source == CaptureOrNone(Captures(Source, content, 0), i)
  {
    ZipAt(Captures(Bold, content, 0), Captures(Link, content, 0), Captures(Price, content, 0), Captures(Source, content, 0), i);
  }

  /** Capture i of a Price or Source loop, if any, is the trimmed capture of match i,
      and clean; there is none past the last match. */
  lemma LabelCaptureOrNone(rule: Rule, content: string, i: nat)
    requires rule == Price || rule == Source
    ensures var ms := AllMatches(rule, content, 0);
            && CaptureOrNone(Captures(rule, content, 0), i) ==
                 (if i < |ms| then Some(Trim(CaptureOf(content, ms[i]))) else None)
            && CleanOptional(CaptureOrNone(Captures(rule, content, 0), i))
  {
    CapturesOfMatches(rule, content, 0);
    if i < |AllMatches(rule, content, 0)| {
      LabelCaptureAt(rule, content, i);
    }
  }

  /** Record i of the fallback has the trimmed capture of the i-th Price match as its
      price, and none when there are no more than i of them; likewise its retailer. */
  lemma FallbackPricesAndSources(content: string)
    ensures forall i :: 0 <= i < |Fallback(content)| ==>
              var prices := AllMatches(Price, content, 0);
              && Fallback(content)[i].price == (if i < |prices| then Some(Trim(CaptureOf(content, prices[i]))) else None)
              && CleanOptional(Fallback(content)[i].price)
    ensures forall i :: 0 <= i < |Fallback(content)| ==>
              var sources := AllMatches(Source, content, 0);
              && Fallback(content)[i].source == (if i < |sources| then Some(Trim(CaptureOf(content, sources[i]))) else None)
              && CleanOptional(Fallback(content)[i].source)
  {
    forall i | 0 <= i < |Fallback(content)|
      ensures var prices := AllMatches(Price, content, 0);
              && Fallback(content)[i].price == (if i < |prices| then Some(Trim(CaptureOf(content, prices[i]))) else None)
              && CleanOptional(Fallback(content)[i].price)
      ensures var sources := AllMatches(Source, content, 0);
              && Fallback(content)[i].source == (if i < |sources| then Some(Trim(CaptureOf(content, sources[i]))) else None)
              && CleanOptional(Fallback(content)[i].source)
    {
      FallbackLabelsAt(content, i);
      LabelCaptureOrNone(Price, content, i);
      LabelCaptureOrNone(Source, content, i);
    }
  }

  /** The capture of a Bold match has no '*'. */
  lemma BoldCaptureAt(s: string, k: nat)
    requires k < |AllMatches(Bold, s, 0)|
    ensures k < |Captures(Bold, s, 0)|
    ensures Captures(Bold, s, 0)[k] == Trim(CaptureOf(s, AllMatches(Bold, s, 0)[k]))
    ensures NoOuterSpace(Captures(Bold, s, 0)[k]) && '*' !in Captures(Bold, s, 0)[k]
  {
    CaptureAt(Bold, s, k);
    var m := AllMatches(Bold, s, 0)[k];
    var u := CaptureOf(s, m);
    forall j | 0 <= j < |u| ensures u[j] != '*' {
      assert u[j] == s[m.capStart + j];
    }
    TrimmedIsClean(u);
  }

  /** The placeholder title has no outer space and no '*'. */
  lemma PlaceholderTitleClean(i: nat)
    ensures NoOuterSpace(PlaceholderTitle(i)) && '*' !in PlaceholderTitle(i)
  {
    var t, d := PlaceholderTitle(i), NatToString(i + 1);
    assert t[|t| - 1] == d[|d| - 1];
    forall k | 0 <= k < |t| ensures t[k] != '*' {
      if k >= 8 {
        assert t[k] == d[k - 8];
      }
    }
  }

  /** Distinct records get distinct placeholder titles. */
  lemma PlaceholderTitlesDistinct(i: nat, j: nat)
    ensures PlaceholderTitle(i) == PlaceholderTitle(j) <==> i == j
  {
    if PlaceholderTitle(i) == PlaceholderTitle(j) {
      assert PlaceholderTitle(i)[8..] == NatToString(i + 1);
      assert PlaceholderTitle(j)[8..] == NatToString(j + 1);
      NatToStringInjective(i + 1, j + 1);
    }
  }

  /** The fallback skips the first bold span exactly when there are more bold spans
      than Link/URL matches and the first span, trimmed, is shorter than 40 UTF-16 code
      units. */
  lemma FallbackSkip(content: string)
    ensures var bolds, links := AllMatches(Bold, content, 0), AllMatches(Link, content, 0);
            SkipFirstTitle(Captures(Bold, content, 0), Captures(Link, content, 0)) <==>
              |bolds| > |links| && Utf16Length(Trim(CaptureOf(content, bolds[0]))) < 40
  {
    CapturesOfMatches(Bold, content, 0);
    CapturesOfMatches(Link, content, 0);
    if |AllMatches(Bold, content, 0)| > |AllMatches(Link, content, 0)| {
      CaptureAt(Bold, content, 0);
    }
  }

  /** Title i of the fallback is bold span start + i, or the placeholder past the last
      span; either way without outer space or '*'. */
  lemma FallbackTitleAt(content: string, i: nat)
    requires i < |Fallback(content)|
    ensures var bolds, links := AllMatches(Bold, content, 0), AllMatches(Link, content, 0);
            var skip := |bolds| > |links| && Utf16Length(Trim(CaptureOf(content, bolds[0]))) < 40;
            var start := if skip then 1 else 0;
            Fallback(content)[i].title ==
              (if start + i < |bolds| then Trim(CaptureOf(content, bolds[start + i])) else PlaceholderTitle(i))
    ensures NoOuterSpace(Fallback(content)[i].title) && '*' !in Fallback(content)[i].title
  {
    FallbackSkip(content);
    var start := if SkipFirstTitle(Captures(Bold, content, 0), Captures(Link, content, 0)) then 1 else 0;
    CapturesOfMatches(Bold, content, 0);
    ZipAt(Captures(Bold, content, 0), Captures(Link, content, 0), Captures(Price, content, 0), Captures(Source, content, 0), i);
    if start + i < |AllMatches(Bold, content, 0)| {
      BoldCaptureAt(content, start + i);
    } else {
      PlaceholderTitleClean(i);
    }
  }

  /** Record i of the fallback takes bold span i, or span i + 1 when the first is
      skipped, or the placeholder "Product <i + 1>" past the last span; either way a
      title without outer space or '*' (possibly empty). */
  lemma FallbackTitles(content: string)
    ensures var bolds, links := AllMatches(Bold, content, 0), AllMatches(Link, content, 0);
            var skip := |bolds| > |links| && Utf16Length(Trim(CaptureOf(content, bolds[0]))) < 40;
            var start := if skip then 1 else 0;
            forall i :: 0 <= i < |Fallback(content)| ==>
              Fallback(content)[i].title ==
                (if start + i < |bolds| then Trim(CaptureOf(content, bolds[start + i])) else PlaceholderTitle(i))
    ensures forall i :: 0 <= i < |Fallback(content)| ==>
              NoOuterSpace(Fallback(content)[i].title) && '*' !in Fallback(content)[i].title
  {
    forall i | 0 <= i < |Fallback(content)|
      ensures var bolds, links := AllMatches(Bold, content, 0), AllMatches(Link, content, 0);
              var skip := |bolds| > |links| && Utf16Length(Trim(CaptureOf(content, bolds[0]))) < 40;
              var start := if skip then 1 else 0;
              Fallback(content)[i].title ==
                (if start + i < |bolds| then Trim(CaptureOf(content, bolds[start + i])) else PlaceholderTitle(i))
      ensures NoOuterSpace(Fallback(content)[i].title) && '*' !in Fallback(content)[i].title
    {
      FallbackTitleAt(content, i);
    }
  }

  /** Whichever strategy answers, every record has a well-formed address, a title
      without outer space and clean optional fields. */
  lemma ParseFieldsClean(content: Option<string>)
    ensures forall a :: a in Parse(content) ==>
              && NoOuterSpace(a.title) && WellFormedUrl(a.url)
              && CleanOptional(a.price) && CleanOptional(a.source)
  {
    if content.Some? && content.value != [] {
      var text := content.value;
      if Structured(text) != [] {
        StructuredWellFormed(text);
      } else {
        FallbackAddresses(text);
        FallbackPricesAndSources(text);
        FallbackTitles(text);
        forall a | a in Fallback(text)
          ensures NoOuterSpace(a.title) && WellFormedUrl(a.url) && CleanOptional(a.price) && CleanOptional(a.source)
        {
          var i :| 0 <= i < |Fallback(text)| && Fallback(text)[i] == a;
        }
      }
    }
  }

  // ---------------------------------------------------------------------------------
  // How `filter(Boolean)` aligns the pairs.
  // ---------------------------------------------------------------------------------

  /** Filtering a list without empty strings leaves it as it is. */
  lemma {:induction false} FilterNonEmptyKeepsAll(xs: seq<string>)
    requires forall k :: 0 <= k < |xs| ==> xs[k] != []
    ensures FilterNonEmpty(xs) == xs
  {
    if xs != [] {
      FilterNonEmptyKeepsAll(xs[1..]);
    }
  }

  /** When no piece of the split is empty, the pairs are the intended ones: the pieces
      at odd indices, the ones read as titles, are the delimiter's captured titles. */
  lemma AlignedPairing(content: string)
    requires forall k :: 0 <= k < |Split(content)| ==> Split(content)[k] != []
    ensures Blocks(content) == Split(content)
    ensures forall k :: 0 <= k < |Blocks(content)| && k % 2 == 1 ==> '*' !in Blocks(content)[k]
  {
    FilterNonEmptyKeepsAll(Split(content));
  }

  /** The split leaves the reply whole exactly when the delimiter expression matches
      nowhere in it. */
  lemma SplitWhole(content: string)
    ensures Split(content) == [content] <==> forall q, m :: !IsMatch(Delimiter, content, q, m)
  {
    SplitFromSearch(content, 0, 0);
    FirstMatchIsLeftmost(Delimiter, content, 0);
  }

  /** A non-empty reply without any delimiter match goes to the fallback. */
  lemma NoDelimiterFallsBack(content: string)
    requires content != []
    requires forall q, m :: !IsMatch(Delimiter, content, q, m)
    ensures Parse(Some(content)) == Fallback(content)
  {
    SplitWhole(content);
    assert Blocks(content) == [content];
  }

  /** An empty piece anywhere is dropped and every later piece moves down one place.
      A title directly followed by the next delimiter has an empty body, so the next
      title becomes that title's body and its own body is read as a title. */
  lemma EmptyPieceShiftsPairing(content: string, k: nat)
    requires k < |Split(content)| && Split(content)[k] == []
    requires forall j :: 0 <= j < |Split(content)| && j != k ==> Split(content)[j] != []
    ensures Blocks(content) == Split(content)[..k] + Split(content)[k + 1..]
  {
    var pieces := Split(content);
    assert pieces == pieces[..k] + ([pieces[k]] + pieces[k + 1..]);
    FilterNonEmptyAppend(pieces[..k], [pieces[k]] + pieces[k + 1..]);
    FilterNonEmptyAppend([pieces[k]], pieces[k + 1..]);
    FilterNonEmptyKeepsAll(pieces[..k]);
    FilterNonEmptyKeepsAll(pieces[k + 1..]);
  }

  /** When the reply starts with a delimiter, the empty text before it is dropped and
      every later piece moves down one place: the loop then reads the text after each
      title as a title, and the next title as its body. */
  lemma EmptyPreambleShiftsPairing(content: string)
    requires Split(content)[0] == []
    requires forall k :: 1 <= k < |Split(content)| ==> Split(content)[k] != []
    ensures Blocks(content) == Split(content)[1..]
  {
    var pieces := Split(content);
    assert pieces == [pieces[0]] + pieces[1..];
    FilterNonEmptyAppend([pieces[0]], pieces[1..]);
    FilterNonEmptyKeepsAll(pieces[1..]);
  }
}
