/**
  Worked examples from the documentation comments of `src/id.ts` and
  `src/index.ts`, stated over the model. Characters are written as their
  code points.
 */
module Scenarios {
  import opened Wrappers
  import opened CodeRanges
  import opened Id
  import opened IdLemmas
  import opened Index

  /** The digits table followed by the lower-case letters counted down. */
  const DigitsThenZToA: Table := [CodeRange(48, 57), CodeRange(122, 97)]

  /** `getNextCodeRangesChar`: `'4'` to `'5'`, `'9'` to `'z'`, `'m'` to `'l'`. */
  lemma NextCharExamples()
    ensures NextChar('4' as int, DigitsThenZToA) == Success('5' as int)
    ensures NextChar('9' as int, DigitsThenZToA) == Success('z' as int)
    ensures NextChar('m' as int, DigitsThenZToA) == Success('l' as int)
    ensures NextChar('z' as int, DigitsThenZToA) == Success('y' as int)
  {
  }

  /** `generateNextID` from `''` and from `'9'`: `'0'` and `'z'`. */
  lemma NextIdExamplesShort()
    ensures NextId(DigitsThenZToA, []) == Success(['0' as int])
    ensures NextId(DigitsThenZToA, ['9' as int]) == Success(['z' as int])
  {
    var t := DigitsThenZToA;
    NextCharExamples();
    var id := ['9' as int];
    NextIdFrame(t, id, 0);
    assert id[..0] + ['z' as int] + Repeat(FirstChar(t), 0) == ['z' as int];
  }

  /** `generateNextID` from `'0z'`: `'0y'`. */
  lemma NextIdExampleCarryFree()
    ensures NextId(DigitsThenZToA, ['0' as int, 'z' as int]) == Success(['0' as int, 'y' as int])
  {
    var t := DigitsThenZToA;
    var id := [48, 122];
    NextCharSteps(122, t, 1);
    assert RightmostNonLast(t, id, 1);
    NextIdFrame(t, id, 1);
    assert id[..1] + [121] + Repeat(FirstChar(t), 0) == [48, 121];
  }

  /** `generateNextID` from `'a'` and from `'aa'`: `'00'` and `'000'`. */
  lemma NextIdExamplesGrow()
    ensures NextId(DigitsThenZToA, ['a' as int]) == Success(['0' as int, '0' as int])
    ensures NextId(DigitsThenZToA, ['a' as int, 'a' as int]) == Success(['0' as int, '0' as int, '0' as int])
  {
    var t := DigitsThenZToA;
    NextIdAllLast(t, ['a' as int]);
    NextIdAllLast(t, ['a' as int, 'a' as int]);
    assert Repeat(48, 2) == [48, 48];
    assert Repeat(48, 3) == [48, 48, 48];
  }

  /** `getCharCodeRange`, the first and last characters, and the direction test. */
  lemma LookupExamples()
    ensures GetCharCodeRange('4' as int, DigitsThenZToA) == Some(CodeRange(48, 57))
    ensures GetCharCodeRange('m' as int, DigitsThenZToA) == Some(CodeRange(122, 97))
    ensures GetCharCodeRange('A' as int, DigitsThenZToA) == None
    ensures FirstChar([CodeRange(97, 122)]) == 'a' as int && LastChar([CodeRange(97, 122)]) == 'z' as int
    ensures !IsReverse(CodeRange(97, 122)) && IsReverse(CodeRange(122, 97))
  {
  }

  /** One call on an instance whose identifier advances in place at its only position. */
  lemma ToValueSingle(g: Generator, c: int, n: int)
    requires |g.codeRanges| > 0 && g.lastId == [c] && c != LastChar(g.codeRanges)
    requires NextChar(c, g.codeRanges) == Success(n)
    ensures ToValue(g) == Success((Generator(g.codeRanges, [n]), [n]))
  {
    NextIdFrame(g.codeRanges, [c], 0);
    assert [c][..0] + [n] + Repeat(FirstChar(g.codeRanges), 0) == [n];
  }

  /** The default instance hands out `0`, `1`, `2`, `3`. */
  lemma DefaultInstance()
    ensures NewGenerator(None, None) == Generator([CodeRange(48, 57)], [])
    ensures After(NewGenerator(None, None), 1) == Success(Generator([CodeRange(48, 57)], ['0' as int]))
    ensures After(NewGenerator(None, None), 2) == Success(Generator([CodeRange(48, 57)], ['1' as int]))
    ensures After(NewGenerator(None, None), 3) == Success(Generator([CodeRange(48, 57)], ['2' as int]))
    ensures After(NewGenerator(None, None), 4) == Success(Generator([CodeRange(48, 57)], ['3' as int]))
  {
    var t := [CodeRange(48, 57)];
    var g := NewGenerator(None, None);
    assert After(g, 1) == Success(Generator(t, [48]));
    NextCharSteps(48, t, 0);
    ToValueSingle(Generator(t, [48]), 48, 49);
    assert After(g, 2) == Success(Generator(t, [49]));
    NextCharSteps(49, t, 0);
    ToValueSingle(Generator(t, [49]), 49, 50);
    assert After(g, 3) == Success(Generator(t, [50]));
    NextCharSteps(50, t, 0);
    ToValueSingle(Generator(t, [50]), 50, 51);
  }

  /**
    The second entry of a reversed table whose first two entries are titled
    after different first characters: the swapped pair, titled after it,
    and found under that title.
   */
  lemma ReversedSecond(es: seq<Entry>)
    requires |es| > 1 && Titled(es[0]) && Titled(es[1])
    requires es[0].range.secondChar != es[1].range.secondChar
    ensures |ReverseEntries(es)| == |es|
    ensures ReverseEntries(es)[1] ==
              Entry(es[1].range.secondChar + " to " + es[1].range.firstChar, SwapRange(es[1].range))
    ensures Lookup(ReverseEntries(es), es[1].range.secondChar + " to " + es[1].range.firstChar) ==
              Some(SwapRange(es[1].range))
  {
    var rs := ReverseEntries(es);
    assert rs[0] == ReverseEntry(es[0]) && rs[1] == ReverseEntry(es[1]);
    ReverseTitled(es[0]);
    ReverseTitled(es[1]);
    var title := es[1].range.secondChar + " to " + es[1].range.firstChar;
    assert rs[0].title[0] == es[0].range.secondChar[0];
    assert title[0] == es[1].range.secondChar[0];
    assert rs[0].title != title;
    assert Lookup(rs, title) == Lookup(rs[1..], title);
    assert rs[1..][0] == rs[1];
  }

  /**
    The entry titled `z to a` of `REVERSED_PREDEFINED_RANGES`: the second
    predefined entry with its title words and its pair swapped.
   */
  lemma ReversedZToA()
    ensures |ReversedPredefinedRanges()| > 1
    ensures ReversedPredefinedRanges()[1] == Entry("z to a", Chars("z", "a"))
    ensures Lookup(ReversedPredefinedRanges(), "z to a") == Some(Chars("z", "a"))
  {
    PredefinedAscending();
    ReversedSecond(PredefinedRanges);
    assert PredefinedRanges[1].range == Chars("a", "z");
    TitleOfPair('z', 'a');
  }

  /** The title of a pair of single characters, spelled out. */
  lemma TitleOfPair(a: char, b: char)
    ensures [a] + " to " + [b] == [a, ' ', 't', 'o', ' ', b]
  {
  }

  /**
    An instance over the reversed table's `z to a` pair (see `ReversedZToA`)
    starting from `m` hands out `l`, `k`, `j`, `i`.
   */
  lemma ReversedInstance()
    ensures NewGenerator(Some([Chars("z", "a")]), Some("m")) == Generator([CodeRange(122, 97)], ['m' as int])
    ensures After(NewGenerator(Some([Chars("z", "a")]), Some("m")), 1) == Success(Generator([CodeRange(122, 97)], ['l' as int]))
    ensures After(NewGenerator(Some([Chars("z", "a")]), Some("m")), 2) == Success(Generator([CodeRange(122, 97)], ['k' as int]))
    ensures After(NewGenerator(Some([Chars("z", "a")]), Some("m")), 3) == Success(Generator([CodeRange(122, 97)], ['j' as int]))
    ensures After(NewGenerator(Some([Chars("z", "a")]), Some("m")), 4) == Success(Generator([CodeRange(122, 97)], ['i' as int]))
  {
    var t := [CodeRange(122, 97)];
    var g := NewGenerator(Some([Chars("z", "a")]), Some("m"));
    assert g == Generator(t, [109]);
    NextCharSteps(109, t, 0);
    ToValueSingle(g, 109, 108);
    assert After(g, 1) == Success(Generator(t, [108]));
    NextCharSteps(108, t, 0);
    ToValueSingle(Generator(t, [108]), 108, 107);
    assert After(g, 2) == Success(Generator(t, [107]));
    NextCharSteps(107, t, 0);
    ToValueSingle(Generator(t, [107]), 107, 106);
    assert After(g, 3) == Success(Generator(t, [106]));
    NextCharSteps(106, t, 0);
    ToValueSingle(Generator(t, [106]), 106, 105);
  }
}
