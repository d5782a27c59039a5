/**
 * `parseAlternativesFromContent`: turns the markdown reply of the deal-finding agent
 * into an ordered list of product alternatives.
 *
 * Two strategies are tried in turn. The structured one splits the reply on bulleted
 * bold titles and reads one record from each title and the body that follows it. When
 * that yields nothing, the flat fallback collects every bold span, every Link/URL, every
 * Price and every Source of the whole reply and zips them by index, the addresses
 * deciding how many records there are.
 *
 * The reference functions (BlockRecord, BlockRecords, EveryOther, Structured, Zip, Fallback,
 * Parse) say what the parser computes; the methods are the parser's own loops, proved
 * to compute it.
 */
module ParseAlternatives {
  import opened Wrappers
  import opened Text
  import opened Patterns

  /** `ProductAlternative`: a title, an address and an optional price and retailer. */
  datatype ProductAlternative = ProductAlternative(
    title: string,
    url: string,
    price: Option<string>,
    source: Option<string>)

  /** The trimmed capture of the first match of the rule, if there is one: what
      `text.match(re)?.[1]?.trim()` gives. */
  function FirstCapture(rule: Rule, text: string): Option<string> {
    match FirstMatch(rule, text, 0)
    case None => None
    case Some(m) => Some(Trim(CaptureOf(text, m)))
  }

  /** The pieces the structured strategy walks: the split of the reply with the empty
      pieces dropped. */
  function Blocks(content: string): seq<string> {
    FilterNonEmpty(Split(content))
  }

  /** The body read with the title blocks[i]: the next piece, or "" past the end. */
  function BlockBody(blocks: seq<string>, i: nat): string {
    if i + 1 < |blocks| then blocks[i + 1] else ""
  }

  /** What the pair at index i yields: blocks[i] is read as the title and blocks[i + 1]
      (or "" past the end) as its body. A pair without a title or an address yields
      nothing. */
  function BlockRecord(blocks: seq<string>, i: nat): Option<ProductAlternative>
    requires i < |blocks|
  {
    var title := Trim(blocks[i]);
    var body := BlockBody(blocks, i);
    var url := FirstCapture(Link, body);
    if title == [] || url.None? || url.value == [] then None
    else Some(ProductAlternative(title, url.value, FirstCapture(Price, body), FirstCapture(Source, body)))
  }

  /** What every pair yields, pair k being blocks[k] and blocks[k + 1]. */
  function BlockRecords(blocks: seq<string>): seq<Option<ProductAlternative>> {
    seq(|blocks|, k requires 0 <= k < |blocks| => BlockRecord(blocks, k))
  }

  /** An optional value as a list of at most one element. */
  function Kept<T>(o: Option<T>): seq<T> {
    match o
    case Some(x) => [x]
    case None => []
  }

  /** The values present among xs[i], xs[i + 2], xs[i + 4], ... in that order. */
  function EveryOther<T>(xs: seq<Option<T>>, i: nat): seq<T>
    decreases |xs| - i
  {
    if i >= |xs| then [] else Kept(xs[i]) + EveryOther(xs, i + 2)
  }

  /** The structured strategy: the records of the pairs at indices 1, 3, 5, ...; it
      needs at least two pieces. */
  function Structured(content: string): seq<ProductAlternative> {
    var blocks := Blocks(content);
    if |blocks| >= 2 then EveryOther(BlockRecords(blocks), 1) else []
  }

  /** The fallback skips the first bold span when there are more spans than addresses
      and the first is shorter than 40 UTF-16 code units (a heading such as
      "Alternatives:"). */
  predicate SkipFirstTitle(titles: seq<string>, urls: seq<string>) {
    |titles| > |urls| && (if titles == [] then 0 else Utf16Length(titles[0])) < 40
  }

  /** The placeholder title of the record at 0-based index i. */
  function PlaceholderTitle(i: nat): string {
    "Product " + NatToString(i + 1)
  }

  /** Record i of the zip: title start + i (or a placeholder), address i, price i and
      source i (each absent past the end of its list). */
  function Zipped(titles: seq<string>, urls: seq<string>, prices: seq<string>, sources: seq<string>,
                  start: nat, i: nat): ProductAlternative
    requires i < |urls|
  {
    ProductAlternative(
      if start + i < |titles| then titles[start + i] else PlaceholderTitle(i),
      urls[i],
      if i < |prices| then Some(prices[i]) else None,
      if i < |sources| then Some(sources[i]) else None)
  }

  /** The zip of the fallback: one record per address. */
  function Zip(titles: seq<string>, urls: seq<string>, prices: seq<string>, sources: seq<string>): seq<ProductAlternative> {
    var start := if SkipFirstTitle(titles, urls) then 1 else 0;
    seq(|urls|, i requires 0 <= i < |urls| => Zipped(titles, urls, prices, sources, start, i))
  }

  /** The flat fallback over the whole reply. */
  function Fallback(content: string): seq<ProductAlternative> {
    Zip(Captures(Bold, content, 0), Captures(Link, content, 0), Captures(Price, content, 0), Captures(Source, content, 0))
  }

  /** What the parser returns: nothing for an absent or empty reply, the structured
      records when there are any, the fallback otherwise. */
  function Parse(content: Option<string>): seq<ProductAlternative> {
    if content.None? || content.value == [] then []
    else if Structured(content.value) != [] then Structured(content.value)
    else Fallback(content.value)
  }

  /** The state of a global `exec` loop: the search resumes at lastIndex, m is what
      it returns there, and the captures collected so far followed by the ones still to
      come are all the captures. */
  ghost predicate ExecState(rule: Rule, content: string, lastIndex: nat, m: Option<Match>, found: seq<string>) {
    && lastIndex <= |content|
    && m == FirstMatch(rule, content, lastIndex)
    && found + Captures(rule, content, lastIndex) == Captures(rule, content, 0)
  }

  /** One turn of the loop keeps the state. */
  lemma ExecAdvance(rule: Rule, content: string, lastIndex: nat, m: Option<Match>, found: seq<string>)
    requires ExecState(rule, content, lastIndex, m, found) && m.Some?
    ensures m.value.capStart <= m.value.capEnd <= |content| && lastIndex < m.value.end
    ensures ExecState(rule, content, m.value.end, FirstMatch(rule, content, m.value.end),
                      found + [Trim(CaptureOf(content, m.value))])
  {
    CapturesStep(rule, content, lastIndex);
    AccumulateStep(found, [Trim(CaptureOf(content, m.value))], Captures(rule, content, m.value.end),
                   Captures(rule, content, lastIndex), Captures(rule, content, 0));
  }

  /** When the search fails, every capture has been collected. */
  lemma ExecDone(rule: Rule, content: string, lastIndex: nat, m: Option<Match>, found: seq<string>)
    requires ExecState(rule, content, lastIndex, m, found) && m.None?
    ensures found == Captures(rule, content, 0)
  {
    CapturesStep(rule, content, lastIndex);
  }

  /** One of the `while ((m = re.exec(content)) !== null)` loops: every match of the
      global expression in turn, each search starting at the previous match's end,
      collecting the trimmed captures. */
  method CollectCaptures(rule: Rule, content: string) returns (found: seq<string>)
    ensures found == Captures(rule, content, 0)
  {
    found := [];
    var lastIndex: nat := 0;
    var m := FirstMatch(rule, content, lastIndex);
    while m.Some?
      invariant ExecState(rule, content, lastIndex, m, found)
      decreases |content| - lastIndex
    {
      ExecAdvance(rule, content, lastIndex, m, found);
      found := found + [Trim(CaptureOf(content, m.value))];
      lastIndex := m.value.end;
      m := FirstMatch(rule, content, lastIndex);
    }
    ExecDone(rule, content, lastIndex, m, found);
  }

  /** Moving the head of the remaining records onto the accumulated ones keeps their
      concatenation. */
  lemma AccumulateStep<T>(acc: seq<T>, head: seq<T>, rest: seq<T>, remaining: seq<T>, total: seq<T>)
    requires acc + remaining == total && remaining == head + rest
    ensures (acc + head) + rest == total
  {
  }

  /** The state of the structured loop at index i: the values kept so far followed by
      those from i on are all the values from 1 on. */
  ghost predicate EveryOtherState<T>(xs: seq<Option<T>>, i: nat, acc: seq<T>) {
    1 <= i <= |xs| + 1 && acc + EveryOther(xs, i) == EveryOther(xs, 1)
  }

  /** One turn of the structured loop keeps its state. */
  lemma EveryOtherStep<T>(xs: seq<Option<T>>, i: nat, acc: seq<T>)
    requires EveryOtherState(xs, i, acc) && i < |xs|
    ensures EveryOtherState(xs, i + 2, acc + Kept(xs[i]))
  {
    AccumulateStep(acc, Kept(xs[i]), EveryOther(xs, i + 2), EveryOther(xs, i), EveryOther(xs, 1));
  }

  /** The `for` loop of the structured strategy: the pairs at indices 1, 3, 5, ... of
      the pieces, the records of those with a title and an address, in order. */
  method ExtractBlocks(blocks: seq<string>) returns (alternatives: seq<ProductAlternative>)
    ensures alternatives == EveryOther(BlockRecords(blocks), 1)
  {
    ghost var records := BlockRecords(blocks);
    alternatives := [];
    var i := 1;
    while i < |blocks|
      invariant |records| == |blocks| && EveryOtherState(records, i, alternatives)
    {
      EveryOtherStep(records, i, alternatives);
      assert records[i] == BlockRecord(blocks, i);
      var title := Trim(blocks[i]);
      var blockContent := if i + 1 < |blocks| then blocks[i + 1] else "";
      var url := FirstCapture(Link, blockContent);
      if title == [] || url.None? || url.value == [] {
        assert alternatives + Kept(records[i]) == alternatives;
        i := i + 2;
        continue;
      }
      var price := FirstCapture(Price, blockContent);
      var source := FirstCapture(Source, blockContent);
      alternatives := alternatives + [ProductAlternative(title, url.value, price, source)];
      i := i + 2;
    }
  }

  /** The final `for` loop of the fallback: record i takes title start + i (or a
      placeholder), address i, and price i and retailer i when there are that many. */
  method ZipFields(titles: seq<string>, urls: seq<string>, prices: seq<string>, sources: seq<string>)
    returns (alternatives: seq<ProductAlternative>)
    ensures alternatives == Zip(titles, urls, prices, sources)
  {
    var start := if SkipFirstTitle(titles, urls) then 1 else 0;
    ghost var zip := Zip(titles, urls, prices, sources);
    alternatives := [];
    var i := 0;
    while i < |urls|
      invariant 0 <= i <= |urls| == |zip|
      invariant alternatives == zip[..i]
    {
      var title := if start + i < |titles| then titles[start + i] else PlaceholderTitle(i);
      alternatives := alternatives + [ProductAlternative(
        title,
        urls[i],
        if i < |prices| then Some(prices[i]) else None,
        if i < |sources| then Some(sources[i]) else None)];
      assert zip[i] == Zipped(titles, urls, prices, sources, start, i);
      assert zip[..i + 1] == zip[..i] + [zip[i]];
      i := i + 1;
    }
    assert zip[..|urls|] == zip;
  }

  /** The parser: nothing for an absent or empty reply, the structured records when
      there are any, the flat fallback otherwise. */
  method ParseAlternativesFromContent(content: Option<string>) returns (alternatives: seq<ProductAlternative>)
    ensures alternatives == Parse(content)
    ensures content.None? || content == Some("") ==> alternatives == []
  {
    if content.None? || content.value == [] {
      return [];
    }
    var text := content.value;

    // Strategy 1: bulleted bold titles, each followed by its body.
    var blocks := FilterNonEmpty(Split(text));
    if |blocks| >= 2 {
      alternatives := ExtractBlocks(blocks);
      if |alternatives| > 0 {
        return;
      }
    }

    // Strategy 2: every bold span, address, price and retailer of the whole reply.
    var titles := CollectCaptures(Bold, text);
    var urls := CollectCaptures(Link, text);
    var prices := CollectCaptures(Price, text);
    var sources := CollectCaptures(Source, text);
    alternatives := ZipFields(titles, urls, prices, sources);
  }
}
