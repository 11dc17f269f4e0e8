/**
  Range titles such as `"0 to 9"` and the word reversal that names the
  reversed table: `title.split(' ').reverse().join(' ')`.
 */
module Titles {

  /**
    `split(' ')`: the pieces between single spaces, in order. There is always
    at least one piece, pieces hold no space, and consecutive or edge spaces
    give empty pieces.
   */
  function Split(s: string): (ws: seq<string>)
    ensures |ws| >= 1
    ensures forall k :: 0 <= k < |ws| ==> ' ' !in ws[k]
    ensures |ws| == Spaces(s) + 1
    decreases |s|
  {
    if |s| == 0 then [""]
    else
      var rest := Split(s[1..]);
      if s[0] == ' ' then [""] + rest
      else [[s[0]] + rest[0]] + rest[1..]
  }

  /** Number of spaces in a string. */
  function Spaces(s: string): nat {
    if |s| == 0 then 0 else (if s[0] == ' ' then 1 else 0) + Spaces(s[1..])
  }

  /** `join(' ')`: the pieces with one space between neighbours. */
  function Join(ws: seq<string>): string
    requires |ws| >= 1
  {
    if |ws| == 1 then ws[0] else ws[0] + " " + Join(ws[1..])
  }

  /** `reverse()` on an array of pieces. */
  function Reverse<T>(ws: seq<T>): (r: seq<T>)
    ensures |r| == |ws|
    ensures forall k :: 0 <= k < |ws| ==> r[k] == ws[|ws| - 1 - k]
  {
    if |ws| == 0 then [] else Reverse(ws[1..]) + [ws[0]]
  }

  /** A title with its words in the opposite order. */
  function ReverseWords(s: string): string {
    Join(Reverse(Split(s)))
  }

  /** Joining what a split produced gives the string back. */
  lemma {:induction false} JoinSplit(s: string)
    ensures Join(Split(s)) == s
    decreases |s|
  {
    if |s| > 0 {
      var rest := Split(s[1..]);
      JoinSplit(s[1..]);
      if s[0] == ' ' {
        assert Split(s) == [""] + rest;
        assert ([""] + rest)[1..] == rest;
        assert Join(Split(s)) == "" + " " + s[1..];
      } else {
        var ws := Split(s);
        assert ws == [[s[0]] + rest[0]] + rest[1..];
        if |rest| == 1 {
          assert Join(ws) == [s[0]] + rest[0];
        } else {
          assert ws[1..] == rest[1..];
          assert Join(rest) == rest[0] + " " + Join(rest[1..]);
          assert Join(ws) == [s[0]] + rest[0] + " " + Join(rest[1..]);
        }
        assert s == [s[0]] + s[1..];
      }
    }
  }

  /** A piece without spaces followed by a space starts the split. */
  lemma {:induction false} SplitWord(w: string, rest: string)
    requires ' ' !in w
    ensures Split(w + " " + rest) == [w] + Split(rest)
    ensures Split(w) == [w]
    decreases |w|
  {
    if |w| == 0 {
      assert w + " " + rest == [' '] + rest;
      assert ([' '] + rest)[1..] == rest;
    } else {
      var s := w + " " + rest;
      assert s[1..] == w[1..] + " " + rest;
      assert ' ' !in w[1..] by {
        assert forall k :: 0 <= k < |w[1..]| ==> w[1..][k] == w[k + 1];
      }
      SplitWord(w[1..], rest);
      assert [w[0]] + w[1..] == w;
      assert w[1..] == w[..|w|][1..];
      assert Split(w)[0] == w by {
        assert Split(w[1..]) == [w[1..]];
      }
    }
  }

  /** Splitting pieces joined by single spaces gives the pieces back. */
  lemma {:induction false} SplitJoin(ws: seq<string>)
    requires |ws| >= 1
    requires forall k :: 0 <= k < |ws| ==> ' ' !in ws[k]
    ensures Split(Join(ws)) == ws
    decreases |ws|
  {
    if |ws| == 1 {
      SplitWord(ws[0], "");
    } else {
      SplitJoin(ws[1..]);
      SplitWord(ws[0], Join(ws[1..]));
      assert [ws[0]] + ws[1..] == ws;
    }
  }

  /** Reversing the words of a title twice gives the title back. */
  lemma ReverseWordsInvolution(s: string)
    ensures ReverseWords(ReverseWords(s)) == s
  {
    var ws := Split(s);
    var rs := Reverse(ws);
    assert forall k :: 0 <= k < |rs| ==> ' ' !in rs[k] by {
      assert forall k :: 0 <= k < |rs| ==> rs[k] == ws[|ws| - 1 - k];
    }
    SplitJoin(rs);
    assert Reverse(rs) == ws;
    JoinSplit(s);
  }

  /** The title `"a to b"` reads `"b to a"` once its words are reversed. */
  lemma ReverseTitle(a: char, b: char)
    requires a != ' ' && b != ' '
    ensures ReverseWords([a] + " to " + [b]) == [b] + " to " + [a]
  {
    var ws := [[a], "to", [b]];
    assert Join(ws[2..]) == [b];
    assert Join(ws[1..]) == "to" + " " + [b];
    assert Join(ws) == [a] + " to " + [b];
    SplitJoin(ws);
    var rs := Reverse(ws);
    assert rs == [[b], "to", [a]];
    assert Join(rs[2..]) == [a];
    assert Join(rs[1..]) == "to" + " " + [a];
  }
}
