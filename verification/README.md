# reverse-char-id in Dafny

A model of the identifier generator `reverse-char-id`. The generator works
over an ordered table of code ranges. Each range is a pair of code points;
the pair counts up when its second endpoint is the larger, and down when
the second endpoint is the smaller. An identifier is a string of
characters from the table. Each call to `toValue` rewrites the last
identifier like an odometer, right to left:

- a character equal to the table's last character (the second endpoint of
  the last range) resets to the table's first character (the first endpoint
  of the first range) and carries;
- the first character that does not carry moves one step toward its range's
  second endpoint, or, when it sits on that endpoint, hops to the first
  endpoint of the next range;
- everything to its left is copied;
- when every character carries, one more first character is appended.

Modules, one concept each:

- `CodeRanges` (`code_range.dfy`): code ranges, their direction, membership
  and the swap of the two ends.
- `Id` (`id.dfy`): the functions of `src/id.ts` (first and last character,
  range lookup, successor character, the step), with the JavaScript
  TypeErrors as `Failure` values.
- `IdLemmas` (`id_lemmas.dfy`): frame, length growth, closure and in-bounds
  safety of the step.
- `Generate` (`generate.dfy`): the loop of `generateNextID` as written, with
  flags and prepending, proved equal to the recursive step.
- `Numeral` (`numeral.dfy`): identifiers read as bijective numerals over the
  concatenated ranges; a step adds exactly one.
- `Steps` (`steps.dfy`): repeated steps never produce an identifier twice.
- `Titles` (`titles.dfy`): `split(' ')`, `reverse()` and `join(' ')` on range
  titles.
- `Index` (`index.dfy`): ranges as character or code-point pairs, the
  predefined and reversed tables, and the `ReverseCharID` instance.
- `Scenarios` (`scenarios.dfy`): the worked examples of the documentation
  comments.
- `Wrappers` (`wrappers.dfy`): `Option` and `Result`.

Characters are code points (`int`). An identifier is a `seq<int>`. A string
given by a caller enters through `Index.CodePoints`.

The JavaScript throws a TypeError in three places. Here each one is a
`Failure`:

- `UnmatchedChar`: a character lies in no range (`src/id.ts:102-106`).
- `NoNextRange`: the hop past the last range (`src/id.ts:107`). The step
  never takes it; see `IdLemmas.NextCharInBounds`.
- `EmptyTable`: the table has no first or last range (`src/id.ts:16`,
  `src/id.ts:30`).

The `ReverseCharID` instance is a value `Generator(codeRanges, lastId)`.
`ToValue` returns the next state together with the identifier it hands
out. This is what the assignment to the private `#lastID` field amounts to.

## Model

| member | source | states |
|---|---|---|
| CodeRanges.Contains | src/id.ts:69-78 | a code is in a range exactly when it lies between the two endpoints in whichever order they come, i.e. between the smaller and the larger endpoint |
| CodeRanges.IsReverse | src/id.ts:45-47 | a range counts down exactly when its second endpoint lies below its first; characterised by `CodeRanges.SwapProperties` (swapping a range with distinct ends flips its direction) and `Scenarios.LookupExamples` (`z to a` counts down, `a to z` up) |
| CodeRanges.SwapProperties | src/index.ts:102 | swapping the two ends is undone by swapping again, keeps the covered codes, and flips the direction of a range with distinct ends |
| Id.FirstChar | src/id.ts:15-17 | the first character lies in the first range and is where that range starts counting: its smallest code going up, its largest going down |
| Id.LastChar | src/id.ts:29-31 | the last character lies in the last range and is where that range stops counting, whatever its direction |
| Id.GetCharCodeRange | src/id.ts:63-80 | the result is the first range in table order containing the code, and nothing is returned exactly when no range contains it |
| Id.IndexOf | src/id.ts:107 | the index of the first range equal to the given one |
| Id.NextChar | src/id.ts:97-114 | the step fails as unmatched exactly when the code is in no range; the only other failure is the hop past the last range, which happens only at the table's last character; a successor lies in the table |
| Id.Carry | src/id.ts:150-168 | the right-to-left walk keeps the length; a carry left pending means every input character was the last character and every output character is the first |
| Id.NextId | src/id.ts:138-174 | an empty table always fails; the empty identifier becomes the first character; the length is kept or grows by one; the step never fails by running past the last range |
| IdLemmas.IndexOfFoundRange | src/id.ts:102-107 | the value-based index of the range the lookup found is the index of the first range holding the code, so it agrees with the reference-based `indexOf` |
| IdLemmas.NextCharSteps | src/id.ts:101-113 | inside its range a code moves one up (forward) or one down (reverse) and stays in the range; at the range's second endpoint it hops to the next range's first endpoint; only at the last range is there nothing to hop to |
| IdLemmas.NextCharInBounds | src/id.ts:106-107 | a character of the table other than the table's last character always has a successor: the hop never reads past the table |
| IdLemmas.FindRightmostNonLast | src/id.ts:153-165 | when some character is not the last character, there is a rightmost such position |
| IdLemmas.CarryFrame | src/id.ts:153-168 | the walk copies what lies left of the rightmost non-last position, advances that position, and resets everything right of it |
| IdLemmas.NextIdFrame | src/id.ts:150-170 | the step copies the prefix, advances the rightmost non-last position and resets the suffix to the first character; it fails exactly when that position lies in no range |
| IdLemmas.CarryAllLast | src/id.ts:153-168 | an identifier made only of the last character resets at every position and leaves the carry pending |
| IdLemmas.NextIdAllLast | src/id.ts:157-158 | such an identifier becomes the first character repeated one more time, and appending the extra first character gives the same identifier as prepending it |
| IdLemmas.NextIdLength | src/id.ts:150-170 | the identifier grows by one exactly when every input character is the last character, and keeps its length otherwise |
| IdLemmas.NextIdClosure | src/id.ts:138-174 | when every character lies in the table, the step succeeds and every output character lies in the table |
| IdLemmas.NextIdSnocLast | src/id.ts:153-170 | appending the last character to an identifier appends a first character to its successor |
| Generate.GenerateNextId | src/id.ts:138-174 | the loop with its two flags, prepending each new character and appending on a pending carry, computes exactly the recursive step, failures included |
| Numeral.Digit | src/id.ts:63-80 | a character of the table has a position below the alphabet's size, taken in the first range holding it |
| Numeral.UniqueOwner | src/id.ts:69-79 | over disjoint ranges, the range the lookup finds is the only range holding the code |
| Numeral.DigitInjective | src/id.ts:63-80 | over disjoint ranges, distinct characters of the table have distinct positions |
| Numeral.DigitOfFirst | src/id.ts:15-17 | the first character is the digit zero |
| Numeral.DigitOfLast | src/id.ts:29-31 | over disjoint ranges, the last character is the largest digit |
| Numeral.DigitOfNextChar | src/id.ts:101-113 | over disjoint ranges, the successor character is the next digit |
| Numeral.ValueOfCarry | src/id.ts:157-158 | if `q` is worth one more than `p`, then `q` followed by the first character is worth one more than `p` followed by the last character |
| Numeral.ValueOfNextIdNonLast | src/id.ts:159-164 | advancing the final character in place adds one to the value |
| Numeral.ValueOfNextId | src/id.ts:138-174 | over disjoint ranges, the step on an identifier of the table succeeds, stays in the table, and adds exactly one to the value |
| Steps.IterateStep | src/index.ts:175-182 | the `n`-th step starts where `n - 1` steps ended, stays in the table, and adds one to the value |
| Steps.ValueOfIterate | src/index.ts:175-182 | after `n` steps from an identifier of the table, the value has grown by exactly `n` |
| Steps.NeverRepeats | src/index.ts:175-182 | over disjoint ranges, two different numbers of steps never give the same identifier |
| Titles.Split | src/index.ts:101 | `split(' ')` always gives at least one piece, one more than the number of spaces, and no piece holds a space |
| Titles.Reverse | src/index.ts:101 | `reverse()` keeps the length and puts element `k` at position `length - 1 - k` |
| Titles.JoinSplit | src/index.ts:101 | joining the pieces of a split gives the title back |
| Titles.SplitWord | src/index.ts:101 | a space-free word followed by a space is the first piece of the split |
| Titles.SplitJoin | src/index.ts:101 | splitting space-free pieces joined by single spaces gives the pieces back |
| Titles.ReverseWordsInvolution | src/index.ts:101 | reversing the words of any title twice gives the title back |
| Titles.ReverseTitle | src/index.ts:101 | the title `"a to b"` reads `"b to a"` with its words reversed |
| Index.RangeToCodeRange | src/index.ts:109-126 | a numeric pair is kept; a character pair becomes the code points of the two first characters in the same order, so it counts down exactly when the second character comes before the first |
| Index.SwapRangeProperties | src/index.ts:100-103 | swapping a pair's ends commutes with the conversion to a code range, and swapping twice restores the pair |
| Index.SwapRange | src/index.ts:102 | `[...charRange].reverse()` exchanges the two ends of a pair; `Index.SwapRangeProperties` shows it commutes with the conversion to a code range and is its own inverse |
| Index.ReverseEntries | src/index.ts:95-106 | the reversed table has one entry per predefined entry, the reversal of the entry at the same position |
| Index.ReversedPredefinedRanges | src/index.ts:95-106 | the reversed table, characterised by `Index.ReversedShape` (entry by entry the swapped pair, titled after it, counting down), `Index.ReversedMirrorsPredefined` (each reversed title read backwards finds the original entry) and `Index.ReversedTitlesDistinct` (seven distinct keys) |
| Index.Lookup | src/index.ts:95-106 | reading a title finds nothing exactly when no entry carries it, and otherwise the range of an entry carrying it |
| Index.ReverseTitled | src/index.ts:100-103 | an entry titled after its pair `a`, `b` reverses to the entry titled after `b`, `a` over the swapped pair |
| Index.PredefinedAscending | src/index.ts:64-72 | every predefined entry is titled after its pair of single characters, the pair ascends, and it converts to a code range counting up |
| Index.ReversedShape | src/index.ts:95-106 | each reversed entry is the swap of the predefined entry at the same position, titled after the swapped pair, and converts to a code range counting down |
| Index.ReversedCountDown | src/index.ts:95-106 | reversing any table of titled ascending entries gives titled entries over the swapped pairs, each counting down |
| Index.ReversedMirrorsPredefined | src/tests/index.test.ts:27-44 | each reversed entry's title, read backwards, names the predefined entry whose range, swapped, is the reversed entry's range |
| Index.ReversedMirrors | src/index.ts:95-106 | the same mirror property for any table of titled entries with distinct titles |
| Index.PredefinedTitlesDistinct | src/index.ts:64-72 | no two predefined entries share a title |
| Index.LookupDistinct | src/index.ts:95-106 | in a table with distinct titles, an entry's title finds that entry's range |
| Index.ReverseEntriesDistinct | src/index.ts:95-106 | reversing the title words of a table with distinct titles keeps the titles distinct, so `Object.fromEntries` keeps one key per entry |
| Index.ReversedTitlesDistinct | src/index.ts:95-106 | `REVERSED_PREDEFINED_RANGES` has as many entries as `PREDEFINED_RANGES`, with pairwise distinct titles |
| Index.NewGenerator | src/index.ts:164-172 | without ranges the table is the single range from 48 to 57; without a last identifier the instance starts from the empty one; given ranges are converted one by one in order |
| Index.ToValue | src/index.ts:175-182 | the identifier handed out is exactly the step's successor of the last identifier, it becomes the new last identifier, the table is kept, and the call fails exactly when the step does |
| Index.AfterStep | src/index.ts:175-182 | the `n`-th call continues from the state the first `n - 1` calls left |
| Index.AfterIterates | src/index.ts:175-182 | after `n` calls the instance holds the result of `n` steps over the unchanged table, and the calls fail exactly when the steps do |
| Index.NoIdRepeats | src/index.ts:175-182 | over disjoint ranges, an instance starting in the table never fails and never holds the same identifier after two different numbers of calls |
| Scenarios.NextCharExamples | src/id.ts:86-95 | over `0 to 9` then `z to a`: `4` to `5`, `9` to `z`, `m` to `l`, and `z` to `y` |
| Scenarios.NextIdExamplesShort | src/id.ts:129-131 | over the same table: the empty identifier to `0`, and `9` to `z` |
| Scenarios.NextIdExampleCarryFree | src/id.ts:132 | `0z` to `0y` |
| Scenarios.NextIdExamplesGrow | src/id.ts:134-135 | `a` to `00` and `aa` to `000` |
| Scenarios.LookupExamples | src/id.ts:5-62 | `4` lies in `0 to 9`, `m` in `z to a`, `A` in neither; `a` and `z` are the first and last characters of `a to z`; `z to a` counts down and `a to z` up |
| Scenarios.ToValueSingle | src/index.ts:175-182 | a call on a one-character identifier that advances in place hands out the successor character |
| Scenarios.ReversedSecond | src/index.ts:95-106 | in a reversed table whose first two entries are titled after different characters, the second entry is the swapped pair titled after it, and that title finds it |
| Scenarios.ReversedZToA | src/index.ts:88-106 | `REVERSED_PREDEFINED_RANGES['z to a']` is the pair `z`, `a`, the reversal of the `a to z` entry |
| Scenarios.DefaultInstance | src/index.ts:139-147 | a default instance has the table `[48, 57]` and the empty identifier, and hands out `0`, `1`, `2`, `3` |
| Scenarios.ReversedInstance | src/index.ts:150-161 | an instance over the pair `z`, `a` (the `z to a` entry of the reversed table, by `Scenarios.ReversedZToA`) starting from `m` hands out `l`, `k`, `j`, `i` |

## Left out

- UTF-16: `split('')` cuts a string into UTF-16 code units, and `codePointAt` and `String.fromCodePoint` work on code points. The model treats every character as one code point, so surrogate pairs and astral characters are not modelled.
- `String.fromCodePoint` throws a RangeError on a code that is not a valid code point. Code ranges here hold any integers, and that error is not modelled.
- Index.RangeToCodeRange: requires both strings of a character pair to be non-empty. For an empty string `codePointAt(0)` gives `undefined` and `Number` turns it into NaN, which an integer model cannot hold.
- Index.NewGenerator: requires the same of every given range, for the same reason.
- Numbers in a code-point pair are JavaScript doubles. The model takes them as integers; fractional or NaN endpoints are not modelled.
- The run-time type tests of the constructor (`instanceof Array`, `typeof … === 'string'`) become `Option` parameters. An option that is present but of another type is not modelled.
- `[Symbol.toPrimitive]` and `toString` are references to `toValue`, so `Index.ToValue` models them; template-literal and `String()` coercion are not modelled.
- Reference identity is not modelled. This covers `indexOf` comparing ranges by reference and `rangeToCodeRange` returning a fresh array. Ranges are values, and `Id.IndexOf` finds the first equal range; `IdLemmas.IndexOfFoundRange` shows this is the range the lookup found.
- The object tables `PREDEFINED_RANGES` and `REVERSED_PREDEFINED_RANGES` are sequences of titled entries in declaration order, and a property read is `Index.Lookup`.
- The entries of `PREDEFINED_RANGES` are mutable arrays, and the default constructor reads `PREDEFINED_RANGES['0 to 9']` on every construction (src/index.ts:165). Code that reverses such an entry in place, as `src/tests/index.test.ts:37-39` does with `.reverse()`, changes what later default instances count through. The model treats both tables as constants.
- The numeral properties (`Numeral`, `Steps`, `Index.NoIdRepeats`) assume the ranges are pairwise disjoint. With overlapping ranges the step is still modelled, but its values are not characterised.
- `scripts/test-script.js` (spawning and watching processes) and `typedoc.config.js` (documentation build) hold no logic of the generator.
