/**
  Runs of successive steps, as a holder of the last identifier produces
  them: over a table of disjoint ranges the values climb by one per step,
  so no identifier is produced twice.
 */
module Steps {
  import opened Wrappers
  import opened CodeRanges
  import opened Id
  import opened IdLemmas
  import opened Numeral

  /** `n` successive steps from `id`. */
  function Iterate(t: Table, id: seq<int>, n: nat): Result<seq<int>, IdError>
    decreases n
  {
    if n == 0 then Success(id)
    else
      match Iterate(t, id, n - 1)
      case Failure(e) => Failure(e)
      case Success(prev) => NextId(t, prev)
  }

  /**
    One more step over a table of disjoint ranges: it starts where the
    first `n - 1` steps ended, stays in the table and adds one to the value.
   */
  lemma IterateStep(t: Table, id: seq<int>, n: nat)
    requires |t| > 0 && PairwiseDisjoint(t) && n > 0
    requires Iterate(t, id, n - 1).Success? && AllInTable(t, Iterate(t, id, n - 1).value)
    ensures Iterate(t, id, n) == NextId(t, Iterate(t, id, n - 1).value)
    ensures Iterate(t, id, n).Success? && AllInTable(t, Iterate(t, id, n).value)
    ensures Value(t, Iterate(t, id, n).value) == Value(t, Iterate(t, id, n - 1).value) + 1
  {
    ValueOfNextId(t, Iterate(t, id, n - 1).value);
  }

  /** After `n` steps the value has grown by exactly `n`. */
  lemma {:induction false} ValueOfIterate(t: Table, id: seq<int>, n: nat)
    requires |t| > 0 && PairwiseDisjoint(t) && AllInTable(t, id)
    ensures Iterate(t, id, n).Success? && AllInTable(t, Iterate(t, id, n).value)
    ensures Value(t, Iterate(t, id, n).value) == Value(t, id) + n
    decreases n
  {
    if n > 0 {
      ValueOfIterate(t, id, n - 1);
      IterateStep(t, id, n);
    }
  }

  /**
    Over a table of disjoint ranges, repeated steps never produce the same
    identifier twice.
   */
  lemma NeverRepeats(t: Table, id: seq<int>, m: nat, n: nat)
    requires |t| > 0 && PairwiseDisjoint(t) && AllInTable(t, id) && m < n
    ensures Iterate(t, id, m).Success? && Iterate(t, id, n).Success?
    ensures Iterate(t, id, m).value != Iterate(t, id, n).value
  {
    ValueOfIterate(t, id, m);
    ValueOfIterate(t, id, n);
  }
}
