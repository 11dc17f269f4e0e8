/**
  Properties of the odometer step: the successor character, the frame of a
  step (what is copied, advanced and reset), length growth, closure of the
  alphabet and the agreement of appending with prepending on growth.
 */
module IdLemmas {
  import opened Wrappers
  import opened CodeRanges
  import opened Id

  /** Code `c` first occurs in range `i`. */
  predicate FirstOwner(t: Table, c: int, i: int) {
    0 <= i < |t| && Contains(t[i], c) && forall j :: 0 <= j < i ==> !Contains(t[j], c)
  }

  /**
    `indexOf` of the range `getCharCodeRange` found is the index of the
    first range containing the code: equal ranges earlier in the table would
    have matched first.
   */
  lemma IndexOfFoundRange(c: int, t: Table, i: nat)
    requires FirstOwner(t, c, i)
    ensures GetCharCodeRange(c, t) == Some(t[i])
    ensures IndexOf(t, t[i]) == i
  {
  }

  /**
    The successor character, read through the index of the owning range:
    inside the range it moves one code toward the stop endpoint and stays in
    the range; at the stop endpoint it is the next range's first endpoint,
    and only the last range has no next range.
   */
  lemma NextCharSteps(c: int, t: Table, i: nat)
    requires FirstOwner(t, c, i)
    ensures c != t[i].second ==>
              NextChar(c, t) == Success(if IsReverse(t[i]) then c - 1 else c + 1) &&
              Contains(t[i], NextChar(c, t).value)
    ensures c == t[i].second && i + 1 < |t| ==> NextChar(c, t) == Success(t[i + 1].first)
    ensures c == t[i].second && i + 1 == |t| ==> NextChar(c, t) == Failure(NoNextRange(c))
  {
  }

  /**
    A step from a character that is not the table's last character never
    needs the range after the last one: the look-up past the table's end
    cannot happen inside `generateNextID`.
   */
  lemma NextCharInBounds(c: int, t: Table)
    requires |t| > 0 && InTable(t, c) && c != LastChar(t)
    ensures NextChar(c, t).Success?
  {
  }

  /** Where a step changes an identifier once `k` is its rightmost non-last position. */
  predicate RightmostNonLast(t: Table, id: seq<int>, k: int)
    requires |t| > 0
  {
    0 <= k < |id| && id[k] != LastChar(t) &&
    forall j :: k < j < |id| ==> id[j] == LastChar(t)
  }

  /** Finds the rightmost position that does not hold the last character. */
  lemma {:induction false} FindRightmostNonLast(t: Table, id: seq<int>) returns (k: nat)
    requires |t| > 0
    requires exists j :: 0 <= j < |id| && id[j] != LastChar(t)
    ensures RightmostNonLast(t, id, k)
    decreases |id|
  {
    if id[|id| - 1] != LastChar(t) {
      k := |id| - 1;
    } else {
      var p := id[..|id| - 1];
      var j :| 0 <= j < |id| && id[j] != LastChar(t);
      assert j < |id| - 1 && p[j] == id[j];
      k := FindRightmostNonLast(t, p);
      assert forall m :: k < m < |p| ==> p[m] == id[m];
    }
  }

  /** The carry walk up to and including the rightmost non-last position. */
  lemma {:induction false} CarryFrame(t: Table, id: seq<int>, k: nat)
    requires |t| > 0 && RightmostNonLast(t, id, k)
    ensures Carry(t, id) ==
              match NextChar(id[k], t)
              case Failure(e) => Failure(e)
              case Success(n) => Success((id[..k] + [n] + Repeat(FirstChar(t), |id| - k - 1), false))
    decreases |id|
  {
    if k < |id| - 1 {
      var p := id[..|id| - 1];
      assert RightmostNonLast(t, p, k) by {
        assert forall j :: k < j < |p| ==> p[j] == id[j];
      }
      CarryFrame(t, p, k);
      assert p[..k] == id[..k] && p[k] == id[k];
      match NextChar(id[k], t)
      case Failure(e) =>
      case Success(n) =>
        var f := FirstChar(t);
        assert Repeat(f, |p| - k - 1) + [f] == Repeat(f, |id| - k - 1);
        assert (id[..k] + [n] + Repeat(f, |p| - k - 1)) + [f] == id[..k] + [n] + Repeat(f, |id| - k - 1);
    } else {
      assert id[|id| - 1] == id[k] && id[..|id| - 1] == id[..k];
      match NextChar(id[k], t)
      case Failure(e) =>
      case Success(n) =>
        assert id[..k] + [n] + Repeat(FirstChar(t), 0) == id[..k] + [n];
    }
  }

  /**
    Frame of one step: left of the rightmost non-last position `k`
    everything is copied, position `k` becomes its successor character and
    every position to the right becomes the first character. The step fails
    exactly when position `k` lies in no range.
   */
  lemma NextIdFrame(t: Table, id: seq<int>, k: nat)
    requires |t| > 0 && RightmostNonLast(t, id, k)
    ensures NextId(t, id) ==
              match NextChar(id[k], t)
              case Failure(e) => Failure(e)
              case Success(n) => Success(id[..k] + [n] + Repeat(FirstChar(t), |id| - k - 1))
    ensures NextId(t, id).Failure? <==> !InTable(t, id[k])
  {
    CarryFrame(t, id, k);
    if InTable(t, id[k]) {
      NextCharInBounds(id[k], t);
    }
  }

  /** When every position holds the last character, every position resets and the carry stays pending. */
  lemma {:induction false} CarryAllLast(t: Table, id: seq<int>)
    requires |t| > 0
    requires forall j :: 0 <= j < |id| ==> id[j] == LastChar(t)
    ensures Carry(t, id) == Success((Repeat(FirstChar(t), |id|), true))
    decreases |id|
  {
    if |id| > 0 {
      var p := id[..|id| - 1];
      assert forall j :: 0 <= j < |p| ==> p[j] == id[j];
      CarryAllLast(t, p);
      assert Repeat(FirstChar(t), |p|) + [FirstChar(t)] == Repeat(FirstChar(t), |id|);
    }
  }

  /**
    Length growth: an identifier made only of the last character becomes
    the first character repeated one more time. The JavaScript appends the
    extra character; since every rewritten position already holds the first
    character, prepending it gives the same identifier.
   */
  lemma NextIdAllLast(t: Table, id: seq<int>)
    requires |t| > 0
    requires forall j :: 0 <= j < |id| ==> id[j] == LastChar(t)
    ensures NextId(t, id) == Success(Repeat(FirstChar(t), |id| + 1))
    ensures |id| > 0 ==> Carry(t, id).Success? && Carry(t, id).value.1 &&
                          Carry(t, id).value.0 + [FirstChar(t)] == [FirstChar(t)] + Carry(t, id).value.0
  {
    CarryAllLast(t, id);
    assert Repeat(FirstChar(t), 1) == [FirstChar(t)];
    assert Repeat(FirstChar(t), |id|) + [FirstChar(t)] == Repeat(FirstChar(t), |id| + 1);
    assert [FirstChar(t)] + Repeat(FirstChar(t), |id|) == Repeat(FirstChar(t), |id| + 1);
  }

  /**
    The identifier grows by one character exactly when every input
    character is the table's last character; otherwise its length is kept.
   */
  lemma NextIdLength(t: Table, id: seq<int>)
    requires NextId(t, id).Success?
    ensures |t| > 0
    ensures |NextId(t, id).value| == |id| + 1 <==> forall j :: 0 <= j < |id| ==> id[j] == LastChar(t)
    ensures |NextId(t, id).value| != |id| + 1 ==> |NextId(t, id).value| == |id|
  {
    if exists j :: 0 <= j < |id| && id[j] != LastChar(t) {
      var k := FindRightmostNonLast(t, id);
      NextIdFrame(t, id, k);
    } else {
      NextIdAllLast(t, id);
    }
  }

  /**
    Closure: when every character of the identifier lies in the table, the
    step succeeds and every character it produces lies in the table too.
   */
  lemma NextIdClosure(t: Table, id: seq<int>)
    requires |t| > 0 && AllInTable(t, id)
    ensures NextId(t, id).Success?
    ensures AllInTable(t, NextId(t, id).value)
  {
    assert InTable(t, FirstChar(t));
    if exists j :: 0 <= j < |id| && id[j] != LastChar(t) {
      var k := FindRightmostNonLast(t, id);
      NextIdFrame(t, id, k);
      assert InTable(t, id[k]);
      var n := NextChar(id[k], t).value;
      var r := NextId(t, id).value;
      assert r == id[..k] + [n] + Repeat(FirstChar(t), |id| - k - 1);
      forall m | 0 <= m < |r|
        ensures InTable(t, r[m])
      {
        if m < k {
          assert r[m] == id[m];
        } else if m == k {
          assert r[m] == n;
        } else {
          assert r[m] == FirstChar(t);
        }
      }
    } else {
      NextIdAllLast(t, id);
    }
  }

  /**
    Appending the last character to an identifier appends a first
    character to its successor: the new rightmost position resets and
    carries into the old identifier.
   */
  lemma NextIdSnocLast(t: Table, p: seq<int>)
    requires |t| > 0
    ensures NextId(t, p + [LastChar(t)]) ==
              match NextId(t, p)
              case Failure(e) => Failure(e)
              case Success(q) => Success(q + [FirstChar(t)])
  {
    var id := p + [LastChar(t)];
    assert id[..|id| - 1] == p;
    if |p| == 0 {
      assert id == [LastChar(t)] && id[..0] == [];
      assert Carry(t, id[..0]) == Success(([], true));
      var e: seq<int> := [];
      assert e + [FirstChar(t)] == [FirstChar(t)];
      assert Carry(t, id) == Success(([FirstChar(t)], true));
    }
  }
}
