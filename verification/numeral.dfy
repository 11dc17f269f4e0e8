/**
  Identifiers read as numbers. Concatenating the table's ranges, each walked
  from its first to its second endpoint, gives an alphabet of `Base(t)`
  symbols; when the ranges share no code, every character has one position
  in it. An identifier is then a bijective numeral over that alphabet (the
  empty identifier is zero, the first symbol is the digit one), and a step
  of the odometer adds exactly one.
 */
module Numeral {
  import opened Wrappers
  import opened CodeRanges
  import opened Id
  import opened IdLemmas

  /** No two ranges of the table share a code. */
  predicate PairwiseDisjoint(t: Table) {
    forall i, j :: 0 <= i < j < |t| ==> Disjoint(t[i], t[j])
  }

  /** Number of alphabet symbols before range `i`. */
  function Offset(t: Table, i: nat): nat
    requires i <= |t|
  {
    if i == 0 then 0 else Offset(t, i - 1) + Size(t[i - 1])
  }

  /** Size of the whole alphabet. */
  function Base(t: Table): nat {
    Offset(t, |t|)
  }

  /** Later ranges start later in the alphabet. */
  lemma {:induction false} OffsetMonotone(t: Table, i: nat, j: nat)
    requires i <= j <= |t|
    ensures Offset(t, i) <= Offset(t, j)
    ensures i < j ==> Offset(t, i) + Size(t[i]) <= Offset(t, j)
    decreases j - i
  {
    if i < j {
      OffsetMonotone(t, i + 1, j);
    }
  }

  /**
    Position of code `c` in the alphabet, counted from zero, taken in the
    first range that holds it; always below the alphabet size. A code
    outside the table has no position and reads as zero.
   */
  function Digit(t: Table, c: int): (d: nat)
    ensures InTable(t, c) ==> d < Base(t)
  {
    match RangeIndex(c, t)
    case None => 0
    case Some(i) =>
      OffsetMonotone(t, i + 1, |t|);
      Offset(t, i) + Distance(t[i], c)
  }

  /** In a table of disjoint ranges, the only range holding a code is its owner. */
  lemma UniqueOwner(t: Table, c: int, i: nat)
    requires PairwiseDisjoint(t) && i < |t| && Contains(t[i], c)
    ensures RangeIndex(c, t) == Some(i)
  {
  }

  /** Over disjoint ranges, distinct characters of the table have distinct digits. */
  lemma DigitInjective(t: Table, c1: int, c2: int)
    requires PairwiseDisjoint(t) && InTable(t, c1) && InTable(t, c2)
    requires Digit(t, c1) == Digit(t, c2)
    ensures c1 == c2
  {
    var i1, i2 := RangeIndex(c1, t).value, RangeIndex(c2, t).value;
    if i1 < i2 {
      OffsetMonotone(t, i1, i2);
      assert false;
    } else if i2 < i1 {
      OffsetMonotone(t, i2, i1);
      assert false;
    }
  }

  /** The table's first character is the digit zero. */
  lemma DigitOfFirst(t: Table)
    requires |t| > 0
    ensures InTable(t, FirstChar(t)) && Digit(t, FirstChar(t)) == 0
  {
  }

  /** Over disjoint ranges, the table's last character is the largest digit. */
  lemma DigitOfLast(t: Table)
    requires |t| > 0 && PairwiseDisjoint(t)
    ensures InTable(t, LastChar(t)) && Digit(t, LastChar(t)) == Base(t) - 1
  {
  }

  /** Over disjoint ranges, the successor character is the next digit. */
  lemma DigitOfNextChar(t: Table, c: int)
    requires |t| > 0 && PairwiseDisjoint(t) && InTable(t, c) && c != LastChar(t)
    ensures NextChar(c, t).Success?
    ensures InTable(t, NextChar(c, t).value)
    ensures Digit(t, NextChar(c, t).value) == Digit(t, c) + 1
  {
    var i := RangeIndex(c, t).value;
    NextCharSteps(c, t, i);
    NextCharInBounds(c, t);
    var n := NextChar(c, t).value;
    if c != t[i].second {
      UniqueOwner(t, n, i);
    } else {
      assert Contains(t[i + 1], n);
      UniqueOwner(t, n, i + 1);
    }
  }

  /**
    `v` times `b`, written as repeated addition so that proofs about values
    stay in linear arithmetic.
   */
  function Times(v: nat, b: nat): nat {
    if v == 0 then 0 else Times(v - 1, b) + b
  }

  /** The number an identifier denotes, most significant character first. */
  function Value(t: Table, id: seq<int>): nat {
    if |id| == 0 then 0
    else Times(Value(t, id[..|id| - 1]), Base(t)) + Digit(t, id[|id| - 1]) + 1
  }

  /** Reading a value after appending one character. */
  lemma ValueSnoc(t: Table, p: seq<int>, c: int)
    ensures Value(t, p + [c]) == Times(Value(t, p), Base(t)) + Digit(t, c) + 1
  {
  }

  /**
    A carry in value terms: if `q` is worth one more than `p`, then `q`
    followed by the first character is worth one more than `p` followed by
    the last character.
   */
  lemma ValueOfCarry(t: Table, p: seq<int>, q: seq<int>)
    requires |t| > 0 && Digit(t, LastChar(t)) == Base(t) - 1
    requires Value(t, q) == Value(t, p) + 1
    ensures Value(t, q + [FirstChar(t)]) == Value(t, p + [LastChar(t)]) + 1
  {
  }

  /** The step on an identifier whose last character advances in place. */
  lemma ValueOfNextIdNonLast(t: Table, p: seq<int>, c: int)
    requires |t| > 0 && PairwiseDisjoint(t) && AllInTable(t, p) && InTable(t, c) && c != LastChar(t)
    ensures AllInTable(t, p + [c])
    ensures NextId(t, p + [c]).Success?
    ensures AllInTable(t, NextId(t, p + [c]).value)
    ensures Value(t, NextId(t, p + [c]).value) == Value(t, p + [c]) + 1
  {
    var id := p + [c];
    ValueSnoc(t, p, c);
    NextIdClosure(t, id);
    assert RightmostNonLast(t, id, |p|);
    NextIdFrame(t, id, |p|);
    DigitOfNextChar(t, c);
    var n := NextChar(c, t).value;
    assert id[..|p|] == p;
    assert NextId(t, id).value == p + [n];
    ValueSnoc(t, p, n);
  }

  /**
    Over a table of disjoint ranges, the step adds exactly one to the value
    of any identifier whose characters lie in the table.
   */
  lemma {:induction false} ValueOfNextId(t: Table, id: seq<int>)
    requires |t| > 0 && PairwiseDisjoint(t) && AllInTable(t, id)
    ensures NextId(t, id).Success?
    ensures AllInTable(t, NextId(t, id).value)
    ensures Value(t, NextId(t, id).value) == Value(t, id) + 1
    decreases |id|
  {
    if |id| == 0 {
      DigitOfFirst(t);
      assert NextId(t, id).value == [] + [FirstChar(t)];
      ValueSnoc(t, [], FirstChar(t));
    } else {
      var p := id[..|id| - 1];
      var c := id[|id| - 1];
      assert id == p + [c];
      assert AllInTable(t, p) by {
        assert forall k :: 0 <= k < |p| ==> p[k] == id[k];
      }
      if c == LastChar(t) {
        ValueOfNextId(t, p);
        DigitOfLast(t);
        NextIdSnocLast(t, p);
        ValueOfCarry(t, p, NextId(t, p).value);
        NextIdClosure(t, id);
      } else {
        ValueOfNextIdNonLast(t, p, c);
      }
    }
  }
}
