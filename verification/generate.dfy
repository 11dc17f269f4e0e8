/**
  The loop of `generateNextID` as written: characters are visited right to
  left, each new character is prepended to the identifier under
  construction, two flags track whether a carry is pending, and a pending
  carry at the end appends one more first character.
 */
module Generate {
  import opened Wrappers
  import opened CodeRanges
  import opened Id
  import opened IdLemmas

  /** The imperative walk computes exactly the step `NextId` describes. */
  method GenerateNextId(t: Table, lastId: seq<int>) returns (r: Result<seq<int>, IdError>)
    ensures r == NextId(t, lastId)
  {
    // `getFirstCodeRangesChar` and `getLastCodeRangesChar` both read a range
    // the empty table does not have.
    if |t| == 0 {
      return Failure(EmptyTable);
    }
    if |lastId| == 0 {
      return Success([FirstChar(t)]);
    }
    var newId: seq<int> := [];
    var mustAddNewChar := true;
    var newIdIsReady := false;
    ghost var k: int := -1;
    var i := |lastId|;
    while i > 0
      invariant 0 <= i <= |lastId|
      invariant newIdIsReady == !mustAddNewChar
      invariant !newIdIsReady ==>
                  (forall j :: i <= j < |lastId| ==> lastId[j] == LastChar(t)) &&
                  newId == Repeat(FirstChar(t), |lastId| - i)
      invariant newIdIsReady ==>
                  i <= k && RightmostNonLast(t, lastId, k) && NextChar(lastId[k], t).Success? &&
                  newId == lastId[i..k] + [NextChar(lastId[k], t).value] + Repeat(FirstChar(t), |lastId| - k - 1)
      decreases i
    {
      i := i - 1;
      var c := lastId[i];
      var newChar := c;
      if !newIdIsReady {
        if c == LastChar(t) {
          newChar := FirstChar(t);
        } else {
          var next := NextChar(c, t);
          if next.Failure? {
            // the JavaScript throws here; no partial identifier escapes
            NextIdFrame(t, lastId, i);
            return Failure(next.error);
          }
          newChar := next.value;
          mustAddNewChar := false;
          newIdIsReady := true;
          k := i;
        }
      }
      newId := [newChar] + newId;
    }
    if mustAddNewChar {
      NextIdAllLast(t, lastId);
      newId := newId + [FirstChar(t)];
      assert newId == Repeat(FirstChar(t), |lastId| + 1);
    } else {
      NextIdFrame(t, lastId, k);
    }
    return Success(newId);
  }
}
