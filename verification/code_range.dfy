/**
  Code ranges: a pair of code points whose direction is implied by the order
  of its endpoints. A range runs from `first` toward `second`; it is reversed
  when `second` is numerically below `first`.
 */
module CodeRanges {

  datatype CodeRange = CodeRange(first: int, second: int)

  /** An ordered table of ranges; order decides lookup precedence and rollover. */
  type Table = seq<CodeRange>

  /** `codeRangeIsReverse`: the range counts downward. */
  predicate IsReverse(r: CodeRange) {
    r.second < r.first
  }

  /** Smaller and larger endpoint, whatever the direction. */
  function Lo(r: CodeRange): int {
    if IsReverse(r) then r.second else r.first
  }

  function Hi(r: CodeRange): int {
    if IsReverse(r) then r.first else r.second
  }

  /**
    The membership test of `getCharCodeRange`: forward ranges compare against
    `[first, second]`, reversed ranges against `[second, first]`. Read
    without direction, a code belongs to a range exactly when it lies between
    the two endpoints, in whichever order they come.
   */
  predicate Contains(r: CodeRange, c: int)
    ensures Contains(r, c) <==> (r.first <= c <= r.second || r.second <= c <= r.first)
    ensures Contains(r, c) <==> Lo(r) <= c <= Hi(r)
  {
    (!IsReverse(r) && c >= r.first && c <= r.second) ||
    (IsReverse(r) && c >= r.second && c <= r.first)
  }

  /** Number of code points a range covers. */
  function Size(r: CodeRange): (n: nat)
    ensures n >= 1
    ensures Lo(r) + n - 1 == Hi(r)
  {
    Hi(r) - Lo(r) + 1
  }

  /**
    How many steps the range walks from `first` before it reaches `c`:
    upward for a forward range, downward for a reversed one.
   */
  function Distance(r: CodeRange, c: int): (d: nat)
    requires Contains(r, c)
    ensures d < Size(r)
    ensures c == r.first <==> d == 0
    ensures c == r.second <==> d == Size(r) - 1
  {
    if IsReverse(r) then r.first - c else c - r.first
  }

  /** The same two endpoints in the opposite order. */
  function Swap(r: CodeRange): CodeRange {
    CodeRange(r.second, r.first)
  }

  /** Swapping keeps the covered codes, flips a proper direction and undoes itself. */
  lemma SwapProperties(r: CodeRange, c: int)
    ensures Swap(Swap(r)) == r
    ensures Contains(Swap(r), c) <==> Contains(r, c)
    ensures r.first != r.second ==> (IsReverse(Swap(r)) <==> !IsReverse(r))
  {
  }

  /** Two ranges that share no code point. */
  predicate Disjoint(a: CodeRange, b: CodeRange) {
    Hi(a) < Lo(b) || Hi(b) < Lo(a)
  }

  /** `Disjoint` holds exactly when no code lies in both ranges. */
  lemma DisjointMeansNoSharedCode(a: CodeRange, b: CodeRange)
    ensures Disjoint(a, b) <==> forall c :: !(Contains(a, c) && Contains(b, c))
  {
    if !Disjoint(a, b) {
      var c := if Lo(a) < Lo(b) then Lo(b) else Lo(a);
      assert Contains(a, c) && Contains(b, c);
    }
  }
}
