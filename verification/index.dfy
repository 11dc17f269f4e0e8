/**
  The public surface of `src/index.ts`: ranges given as character pairs or
  code-point pairs, their conversion to code ranges, the predefined tables
  and their reversed twins, and the `ReverseCharID` instance whose
  `toValue` hands out successive identifiers.

  The instance is a value here: `ToValue` returns the next state along
  with the identifier it hands out, which is what the JavaScript's private
  `#lastID` assignment amounts to.
 */
module Index {
  import opened Wrappers
  import opened CodeRanges
  import opened Id
  import opened Numeral
  import opened Steps
  import opened Titles

  /** `Range`: a `CharRange` (two strings) or a `CodeRange` (two numbers). */
  datatype Range = Chars(firstChar: string, secondChar: string) | Codes(firstCode: int, secondCode: int)

  /** Both strings of a character pair have a first character to read. */
  predicate HasCodes(r: Range) {
    r.Chars? ==> |r.firstChar| > 0 && |r.secondChar| > 0
  }

  /** The code points of a string, one per character. */
  function CodePoints(s: string): (cs: seq<int>)
    ensures |cs| == |s|
    ensures forall k :: 0 <= k < |s| ==> cs[k] == s[k] as int
  {
    seq(|s|, k requires 0 <= k < |s| => s[k] as int)
  }

  /**
    `rangeToCodeRange`: a code-point pair is kept as it is; a character pair
    becomes the code points of the two strings' first characters. The
    conversion keeps the direction: the code range counts down exactly when
    the second character comes before the first, and it covers exactly the
    characters lying between the two.
   */
  function RangeToCodeRange(r: Range): (c: CodeRange)
    requires HasCodes(r)
    ensures r.Codes? ==> c == CodeRange(r.firstCode, r.secondCode)
    ensures r.Chars? ==> (IsReverse(c) <==> r.secondChar[0] < r.firstChar[0])
    ensures r.Chars? ==> c.first == r.firstChar[0] as int && c.second == r.secondChar[0] as int
  {
    match r
    case Codes(a, b) => CodeRange(a, b)
    case Chars(a, b) => CodeRange(CodePoints(a)[0], CodePoints(b)[0])
  }

  /** `[...range].reverse()`: the two ends of a range exchanged. */
  function SwapRange(r: Range): Range {
    match r
    case Chars(a, b) => Chars(b, a)
    case Codes(a, b) => Codes(b, a)
  }

  /** Exchanging the ends commutes with the conversion, and doing it twice changes nothing. */
  lemma SwapRangeProperties(r: Range)
    requires HasCodes(r)
    ensures HasCodes(SwapRange(r))
    ensures RangeToCodeRange(SwapRange(r)) == Swap(RangeToCodeRange(r))
    ensures SwapRange(SwapRange(r)) == r
  {
  }

  /** One titled entry of a predefined table, in declaration order. */
  datatype Entry = Entry(title: string, range: Range)

  /** `PREDEFINED_RANGES`: seven ascending character ranges. */
  const PredefinedRanges: seq<Entry> := [
    Entry("0 to 9", Chars("0", "9")),
    Entry("a to z", Chars("a", "z")),
    Entry("A to Z", Chars("A", "Z")),
    Entry("! to /", Chars("!", "/")),
    Entry(": to @", Chars(":", "@")),
    Entry("[ to `", Chars("[", "`")),
    Entry("{ to ~", Chars("{", "~"))
  ]

  /** The reversed twin of an entry: its title's words and its range's ends swapped. */
  function ReverseEntry(e: Entry): Entry {
    Entry(ReverseWords(e.title), SwapRange(e.range))
  }

  /** `Object.entries(…).map(…)` followed by `Object.fromEntries`. */
  function ReverseEntries(es: seq<Entry>): (rs: seq<Entry>)
    ensures |rs| == |es|
    ensures forall k :: 0 <= k < |es| ==> rs[k] == ReverseEntry(es[k])
  {
    if |es| == 0 then [] else [ReverseEntry(es[0])] + ReverseEntries(es[1..])
  }

  /** `REVERSED_PREDEFINED_RANGES`. */
  function ReversedPredefinedRanges(): seq<Entry> {
    ReverseEntries(PredefinedRanges)
  }

  /**
    A property read on a predefined table: the range of an entry carrying
    `title`. Both predefined tables have distinct titles (see
    `PredefinedTitlesDistinct` and `ReversedTitlesDistinct`), so which entry
    is found never matters.
   */
  function Lookup(es: seq<Entry>, title: string): (r: Option<Range>)
    ensures r.None? <==> forall k :: 0 <= k < |es| ==> es[k].title != title
    ensures r.Some? ==> exists k :: 0 <= k < |es| && es[k].title == title && es[k].range == r.value
  {
    if |es| == 0 then None
    else if es[0].title == title then Some(es[0].range)
    else Lookup(es[1..], title)
  }

  /**
    An entry titled `"a to b"` over the one-character strings `a` and `b`,
    neither of them a space.
   */
  predicate Titled(e: Entry) {
    e.range.Chars? && |e.range.firstChar| == 1 && |e.range.secondChar| == 1 &&
    e.range.firstChar[0] != ' ' && e.range.secondChar[0] != ' ' &&
    e.title == e.range.firstChar + " to " + e.range.secondChar
  }

  /** Reversing a titled entry gives the titled entry over the swapped pair. */
  lemma ReverseTitled(e: Entry)
    requires Titled(e)
    ensures Titled(ReverseEntry(e)) && ReverseEntry(e).range == SwapRange(e.range)
  {
    ReverseTitle(e.range.firstChar[0], e.range.secondChar[0]);
    assert [e.range.firstChar[0]] == e.range.firstChar;
    assert [e.range.secondChar[0]] == e.range.secondChar;
  }

  /**
    Every predefined entry is titled after its pair, and every pair is
    ascending, so it converts to a code range that counts up.
   */
  lemma PredefinedAscending()
    ensures forall k :: 0 <= k < |PredefinedRanges| ==>
              Titled(PredefinedRanges[k]) &&
              PredefinedRanges[k].range.firstChar[0] < PredefinedRanges[k].range.secondChar[0] &&
              !IsReverse(RangeToCodeRange(PredefinedRanges[k].range))
  {
  }

  /**
    `REVERSED_PREDEFINED_RANGES` entry by entry: the swap of the predefined
    entry at the same position, titled after the swapped pair, converting to
    a code range that counts down.
   */
  lemma ReversedShape()
    ensures |ReversedPredefinedRanges()| == |PredefinedRanges|
    ensures forall k :: 0 <= k < |PredefinedRanges| ==>
              Titled(ReversedPredefinedRanges()[k]) &&
              ReversedPredefinedRanges()[k].range == SwapRange(PredefinedRanges[k].range) &&
              IsReverse(RangeToCodeRange(ReversedPredefinedRanges()[k].range))
  {
    PredefinedAscending();
    ReversedCountDown(PredefinedRanges);
  }

  /**
    Reversing a table of titled, ascending entries gives titled entries
    over the swapped pairs, each converting to a code range that counts down.
   */
  lemma ReversedCountDown(es: seq<Entry>)
    requires forall k :: 0 <= k < |es| ==>
               Titled(es[k]) && es[k].range.firstChar[0] < es[k].range.secondChar[0]
    ensures forall k :: 0 <= k < |es| ==>
              Titled(ReverseEntries(es)[k]) &&
              ReverseEntries(es)[k].range == SwapRange(es[k].range) &&
              IsReverse(RangeToCodeRange(ReverseEntries(es)[k].range))
  {
    forall k | 0 <= k < |es|
      ensures Titled(ReverseEntries(es)[k]) && ReverseEntries(es)[k].range == SwapRange(es[k].range)
    {
      ReverseTitled(es[k]);
    }
  }

  /**
    The property the source's own test checks: reading a reversed entry's
    title backwards names the predefined entry whose range, swapped, is the
    reversed entry's range.
   */
  lemma ReversedMirrorsPredefined()
    ensures forall k :: 0 <= k < |ReversedPredefinedRanges()| ==>
              Lookup(PredefinedRanges, ReverseWords(ReversedPredefinedRanges()[k].title)) ==
              Some(SwapRange(ReversedPredefinedRanges()[k].range))
  {
    PredefinedAscending();
    PredefinedTitlesDistinct();
    ReversedMirrors(PredefinedRanges);
  }

  /**
    For any table of titled entries with distinct titles, the reversed
    table mirrors it: an entry's title read backwards finds the original
    entry, whose range is the reversed entry's range swapped back.
   */
  lemma ReversedMirrors(es: seq<Entry>)
    requires forall k :: 0 <= k < |es| ==> Titled(es[k])
    requires forall i, j :: 0 <= i < j < |es| ==> es[i].title != es[j].title
    ensures forall k :: 0 <= k < |ReverseEntries(es)| ==>
              Lookup(es, ReverseWords(ReverseEntries(es)[k].title)) == Some(SwapRange(ReverseEntries(es)[k].range))
  {
    forall k | 0 <= k < |ReverseEntries(es)|
      ensures Lookup(es, ReverseWords(ReverseEntries(es)[k].title)) == Some(SwapRange(ReverseEntries(es)[k].range))
    {
      ReverseTitled(es[k]);
      ReverseWordsInvolution(es[k].title);
      SwapRangeProperties(es[k].range);
      LookupDistinct(es, k);
    }
  }

  /** No two predefined entries share a title: their first characters already differ. */
  lemma PredefinedTitlesDistinct()
    ensures forall i, j :: 0 <= i < j < |PredefinedRanges| ==> PredefinedRanges[i].title != PredefinedRanges[j].title
  {
  }

  /**
    Reversing the words of a title is its own inverse, so reversing a table
    with distinct titles gives a table with distinct titles: the reversed
    object keeps one key per entry.
   */
  lemma ReverseEntriesDistinct(es: seq<Entry>)
    requires forall i, j :: 0 <= i < j < |es| ==> es[i].title != es[j].title
    ensures forall i, j :: 0 <= i < j < |es| ==> ReverseEntries(es)[i].title != ReverseEntries(es)[j].title
  {
    forall i, j | 0 <= i < j < |es|
      ensures ReverseEntries(es)[i].title != ReverseEntries(es)[j].title
    {
      ReverseWordsInvolution(es[i].title);
      ReverseWordsInvolution(es[j].title);
    }
  }

  /** `REVERSED_PREDEFINED_RANGES` has seven distinct titles, one per predefined entry. */
  lemma ReversedTitlesDistinct()
    ensures |ReversedPredefinedRanges()| == |PredefinedRanges|
    ensures forall i, j :: 0 <= i < j < |ReversedPredefinedRanges()| ==>
              ReversedPredefinedRanges()[i].title != ReversedPredefinedRanges()[j].title
  {
    PredefinedTitlesDistinct();
    ReverseEntriesDistinct(PredefinedRanges);
  }

  /** In a table with distinct titles, an entry's title finds that entry. */
  lemma LookupDistinct(es: seq<Entry>, k: nat)
    requires k < |es|
    requires forall i, j :: 0 <= i < j < |es| ==> es[i].title != es[j].title
    ensures Lookup(es, es[k].title) == Some(es[k].range)
  {
  }

  /** The state of a `ReverseCharID` instance. */
  datatype Generator = Generator(codeRanges: Table, lastId: seq<int>)

  /** Every range in an option list can be converted. */
  predicate Convertible(ranges: Option<seq<Range>>) {
    ranges.Some? ==> forall k :: 0 <= k < |ranges.value| ==> HasCodes(ranges.value[k])
  }

  /**
    The constructor: without ranges the table is `0 to 9`, that is the
    single range from 48 to 57; without a last identifier it starts from
    the empty one. Given ranges are converted one by one, in order.
   */
  function NewGenerator(ranges: Option<seq<Range>>, lastId: Option<string>): (g: Generator)
    requires Convertible(ranges)
    ensures ranges.None? ==> g.codeRanges == [CodeRange(48, 57)]
    ensures ranges.Some? ==> |g.codeRanges| == |ranges.value| &&
                             forall k :: 0 <= k < |ranges.value| ==> g.codeRanges[k] == RangeToCodeRange(ranges.value[k])
    ensures lastId.None? ==> g.lastId == []
    ensures lastId.Some? ==> g.lastId == CodePoints(lastId.value)
  {
    var table := match ranges
      case None => [RangeToCodeRange(PredefinedRanges[0].range)]
      case Some(rs) => seq(|rs|, k requires 0 <= k < |rs| => RangeToCodeRange(rs[k]));
    var id := match lastId
      case None => []
      case Some(s) => CodePoints(s);
    Generator(table, id)
  }

  /**
    `toValue`: the next identifier, which also becomes the instance's last
    identifier; the table never changes. A step that fails leaves no new
    state behind.
   */
  function ToValue(g: Generator): (r: Result<(Generator, seq<int>), IdError>)
    ensures r.Success? ==> r.value.0 == Generator(g.codeRanges, r.value.1)
    ensures r.Success? <==> NextId(g.codeRanges, g.lastId).Success?
    ensures r.Success? ==> r.value.1 == NextId(g.codeRanges, g.lastId).value
  {
    match NextId(g.codeRanges, g.lastId)
    case Failure(e) => Failure(e)
    case Success(id) => Success((Generator(g.codeRanges, id), id))
  }

  /** The instance after `n` successive `toValue` calls. */
  function After(g: Generator, n: nat): Result<Generator, IdError>
    decreases n
  {
    if n == 0 then Success(g)
    else
      match After(g, n - 1)
      case Failure(e) => Failure(e)
      case Success(h) =>
        match ToValue(h)
        case Failure(e) => Failure(e)
        case Success(q) => Success(q.0)
  }

  /** The `n`-th call continues from the state the first `n - 1` calls left. */
  lemma AfterStep(g: Generator, n: nat)
    requires n > 0 && After(g, n - 1).Success? && Iterate(g.codeRanges, g.lastId, n - 1).Success?
    requires After(g, n - 1).value == Generator(g.codeRanges, Iterate(g.codeRanges, g.lastId, n - 1).value)
    ensures After(g, n).Success? <==> Iterate(g.codeRanges, g.lastId, n).Success?
    ensures After(g, n).Success? ==> After(g, n).value == Generator(g.codeRanges, Iterate(g.codeRanges, g.lastId, n).value)
  {
  }

  /**
    After `n` calls the instance holds the result of `n` steps from its
    starting identifier, over the same table; the calls fail exactly when
    the steps do.
   */
  lemma {:induction false} AfterIterates(g: Generator, n: nat)
    ensures After(g, n).Success? <==> Iterate(g.codeRanges, g.lastId, n).Success?
    ensures After(g, n).Success? ==> After(g, n).value == Generator(g.codeRanges, Iterate(g.codeRanges, g.lastId, n).value)
    decreases n
  {
    if n > 0 {
      AfterIterates(g, n - 1);
      if After(g, n - 1).Success? {
        AfterStep(g, n);
      }
    }
  }

  /**
    Over a table of disjoint ranges, an instance whose starting identifier
    lies in the table never fails and never holds the same identifier twice:
    every call hands out an identifier no earlier call handed out, nor the
    starting one.
   */
  lemma NoIdRepeats(g: Generator, i: nat, j: nat)
    requires |g.codeRanges| > 0 && PairwiseDisjoint(g.codeRanges) && AllInTable(g.codeRanges, g.lastId)
    requires i < j
    ensures After(g, i).Success? && After(g, j).Success?
    ensures After(g, i).value.lastId != After(g, j).value.lastId
  {
    AfterIterates(g, i);
    AfterIterates(g, j);
    NeverRepeats(g.codeRanges, g.lastId, i, j);
  }
}
