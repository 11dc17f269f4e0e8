/**
  The identifier odometer of `src/id.ts`. An identifier is a sequence of code
  points, most significant first. Each step rewrites it right to left: a
  position holding the table's last character resets to the table's first
  character and carries; the first position that does not carry advances to
  its successor character and everything to its left is copied.

  The JavaScript throws a TypeError in three situations; here each is a
  `Failure`:
  - `UnmatchedChar`: the character to advance lies in no range, so
    `getCharCodeRange` gives `undefined`;
  - `NoNextRange`: a range's stop endpoint has no following range, so
    `indexOf(codeRange) + 1` indexes past the table;
  - `EmptyTable`: the table has no first range to read.
 */
module Id {
  import opened Wrappers
  import opened CodeRanges

  datatype IdError = UnmatchedChar(code: int) | NoNextRange(code: int) | EmptyTable

  /** Some range of the table holds code `c`. */
  predicate InTable(t: Table, c: int) {
    exists i :: 0 <= i < |t| && Contains(t[i], c)
  }

  /** Every character of `id` lies in some range of the table. */
  predicate AllInTable(t: Table, id: seq<int>) {
    forall k :: 0 <= k < |id| ==> InTable(t, id[k])
  }

  /** `n` copies of code `c`. */
  function Repeat(c: int, n: nat): (s: seq<int>)
    ensures |s| == n
    ensures forall k :: 0 <= k < n ==> s[k] == c
  {
    seq(n, _ => c)
  }

  /**
    `getFirstCodeRangesChar`: the first endpoint of the first range. It is
    where that range starts counting whatever its direction: its smallest
    code when it counts up, its largest when it counts down.
   */
  function FirstChar(t: Table): (c: int)
    requires |t| > 0
    ensures Contains(t[0], c)
    ensures !IsReverse(t[0]) ==> c == Lo(t[0])
    ensures IsReverse(t[0]) ==> c == Hi(t[0])
  {
    t[0].first
  }

  /**
    `getLastCodeRangesChar`: the second endpoint of the last range, where the
    last range stops counting whatever its direction.
   */
  function LastChar(t: Table): (c: int)
    requires |t| > 0
    ensures Contains(t[|t| - 1], c)
    ensures !IsReverse(t[|t| - 1]) ==> c == Hi(t[|t| - 1])
    ensures IsReverse(t[|t| - 1]) ==> c == Lo(t[|t| - 1])
  {
    t[|t| - 1].second
  }

  /** Index of the first range at or after `from` that contains `c`. */
  function RangeIndexFrom(c: int, t: Table, from: nat): (r: Option<nat>)
    requires from <= |t|
    ensures r.Some? ==> from <= r.value < |t| && Contains(t[r.value], c)
    ensures r.Some? ==> forall j :: from <= j < r.value ==> !Contains(t[j], c)
    ensures r.None? <==> forall j :: from <= j < |t| ==> !Contains(t[j], c)
    decreases |t| - from
  {
    if from == |t| then None
    else if Contains(t[from], c) then Some(from)
    else RangeIndexFrom(c, t, from + 1)
  }

  /** Index of the first range in table order that contains `c`. */
  function RangeIndex(c: int, t: Table): Option<nat> {
    RangeIndexFrom(c, t, 0)
  }


  /**
    `getCharCodeRange`: the first range, in table order, containing `c`;
    `None` exactly when no range does.
   */
  function GetCharCodeRange(c: int, t: Table): (r: Option<CodeRange>)
    ensures r.None? <==> !InTable(t, c)
    ensures r.Some? ==> exists i :: 0 <= i < |t| && t[i] == r.value && Contains(t[i], c) &&
                                     forall j :: 0 <= j < i ==> !Contains(t[j], c)
  {
    match RangeIndex(c, t)
    case None => None
    case Some(i) => Some(t[i])
  }

  /** `Array.prototype.indexOf` on values: position of the first range equal to `x`. */
  function IndexOf(t: Table, x: CodeRange): (i: nat)
    requires x in t
    ensures i < |t| && t[i] == x
    ensures forall j :: 0 <= j < i ==> t[j] != x
  {
    if t[0] == x then 0 else 1 + IndexOf(t[1..], x)
  }

  /**
    `getNextCodeRangesChar`: one step toward the owning range's stop endpoint,
    or, at that endpoint, the first endpoint of the following range. The only
    way past the last range is the table's last character itself.
   */
  function NextChar(c: int, t: Table): (r: Result<int, IdError>)
    ensures r == Failure(UnmatchedChar(c)) <==> !InTable(t, c)
    ensures r.Failure? ==> r.error == UnmatchedChar(c) || r.error == NoNextRange(c)
    ensures r == Failure(NoNextRange(c)) ==> |t| > 0 && c == LastChar(t)
    ensures r.Success? ==> InTable(t, r.value)
  {
    match GetCharCodeRange(c, t)
    case None => Failure(UnmatchedChar(c))
    case Some(range) =>
      if c == range.second then
        var i := IndexOf(t, range);
        if i + 1 < |t| then
          assert Contains(t[i + 1], t[i + 1].first);
          Success(t[i + 1].first)
        else Failure(NoNextRange(c))
      else if !IsReverse(range) then
        assert Contains(range, c + 1);
        Success(c + 1)
      else
        assert Contains(range, c - 1);
        Success(c - 1)
  }

  /**
    The right-to-left walk of `generateNextID` over `id`: the rewritten
    characters, and whether a carry is still pending past the leftmost one.
    A pending carry means every character was the table's last character and
    every rewritten one is the first character.
   */
  function Carry(t: Table, id: seq<int>): (r: Result<(seq<int>, bool), IdError>)
    requires |t| > 0
    ensures r.Success? ==> |r.value.0| == |id|
    ensures r.Success? && r.value.1 ==>
              forall k :: 0 <= k < |id| ==> id[k] == LastChar(t) && r.value.0[k] == FirstChar(t)
    ensures r.Failure? ==> r.error.UnmatchedChar?
    decreases |id|
  {
    if |id| == 0 then Success(([], true))
    else
      var c := id[|id| - 1];
      if c == LastChar(t) then
        match Carry(t, id[..|id| - 1])
        case Failure(e) => Failure(e)
        case Success(p) => Success((p.0 + [FirstChar(t)], p.1))
      else
        match NextChar(c, t)
        case Failure(e) => Failure(e)
        case Success(n) => Success((id[..|id| - 1] + [n], false))
  }

  /**
    `generateNextID`: the identifier after `lastId`. The empty identifier
    becomes the first character; a pending carry appends one more first
    character. A failure is only ever an unmatched character or an empty
    table: the step past the last range is never taken.
   */
  function NextId(t: Table, lastId: seq<int>): (r: Result<seq<int>, IdError>)
    ensures |t| == 0 <==> r == Failure(EmptyTable)
    ensures |t| > 0 && lastId == [] ==> r == Success([FirstChar(t)])
    ensures r.Success? ==> |r.value| == |lastId| || |r.value| == |lastId| + 1
    ensures r.Failure? ==> r.error.UnmatchedChar? || r.error.EmptyTable?
  {
    if |t| == 0 then Failure(EmptyTable)
    else if |lastId| == 0 then Success([FirstChar(t)])
    else
      match Carry(t, lastId)
      case Failure(e) => Failure(e)
      case Success(p) =>
        if p.1 then Success(p.0 + [FirstChar(t)]) else Success(p.0)
  }
}
