/**
 * Splitting a text on the two-unit separator CR LF, keeping empty pieces, as
 * `String.Split(new[] { "\r\n" }, StringSplitOptions.None)` does, and joining
 * pieces back with that separator.
 */
module Lines {

  /** A UTF-16 code unit, the element of a .NET string. */
  type Unit = c: int | 0 <= c < 0x1_0000

  type Text = seq<Unit>

  const CR: Unit := 13
  const LF: Unit := 10

  /** The text holds no CR LF pair. */
  ghost predicate NoBreak(s: Text)
  {
    forall i :: 0 <= i < |s| - 1 ==> !(s[i] == CR && s[i + 1] == LF)
  }

  /** The pieces between separators, scanning left to right; there is always at least one. */
  function SplitLines(s: Text): (r: seq<Text>)
    ensures |r| >= 1
    decreases |s|
  {
    if |s| == 0 then [[]]
    else if |s| >= 2 && s[0] == CR && s[1] == LF then [[]] + SplitLines(s[2..])
    else
      var rest := SplitLines(s[1..]);
      [[s[0]] + rest[0]] + rest[1..]
  }

  /** The number of positions at which the separator occurs. */
  function CountBreaks(s: Text): nat
    decreases |s|
  {
    if |s| < 2 then 0
    else (if s[0] == CR && s[1] == LF then 1 else 0) + CountBreaks(s[1..])
  }

  /** The pieces with the separator between each two. */
  function JoinLines(ls: seq<Text>): Text
    requires |ls| >= 1
    decreases |ls|
  {
    if |ls| == 1 then ls[0] else ls[0] + [CR, LF] + JoinLines(ls[1..])
  }

  /** A text splits into one piece more than it holds separators. */
  lemma {:induction false} SplitCount(s: Text)
    ensures |SplitLines(s)| == CountBreaks(s) + 1
    decreases |s|
  {
    if |s| == 0 {
    } else if |s| >= 2 && s[0] == CR && s[1] == LF {
      SplitCount(s[2..]);
      assert s[1..][1..] == s[2..];
    } else {
      SplitCount(s[1..]);
    }
  }

  /** Joining the pieces gives back the text. */
  lemma {:induction false} JoinSplit(s: Text)
    ensures JoinLines(SplitLines(s)) == s
    decreases |s|
  {
    if |s| == 0 {
    } else if |s| >= 2 && s[0] == CR && s[1] == LF {
      JoinSplit(s[2..]);
      var rest := SplitLines(s[2..]);
      assert SplitLines(s)[1..] == rest;
      assert s == [] + [CR, LF] + s[2..];
    } else {
      JoinSplit(s[1..]);
      JoinCons(s[0], SplitLines(s[1..]));
      assert s == [s[0]] + s[1..];
    }
  }

  /** A unit put in front of the first piece comes out in front of the joined text. */
  lemma {:induction false} JoinCons(c: Unit, ls: seq<Text>)
    requires |ls| >= 1
    ensures JoinLines([[c] + ls[0]] + ls[1..]) == [c] + JoinLines(ls)
  {
    var ms := [[c] + ls[0]] + ls[1..];
    assert ms[1..] == ls[1..];
    if |ls| > 1 {
      var tail := JoinLines(ls[1..]);
      calc {
        JoinLines(ms);
        ([c] + ls[0]) + [CR, LF] + tail;
        [c] + (ls[0] + [CR, LF] + tail);
      }
    }
  }

  /** No piece holds the separator. */
  lemma {:induction false} SplitPiecesNoBreak(s: Text)
    ensures forall k :: 0 <= k < |SplitLines(s)| ==> NoBreak(SplitLines(s)[k])
    decreases |s|
  {
    if |s| == 0 {
    } else if |s| >= 2 && s[0] == CR && s[1] == LF {
      SplitPiecesNoBreak(s[2..]);
      assert SplitLines(s)[1..] == SplitLines(s[2..]);
    } else {
      SplitPiecesNoBreak(s[1..]);
      var rest := SplitLines(s[1..]);
      var first := [s[0]] + rest[0];
      assert SplitLines(s)[1..] == rest[1..];
      forall i | 0 <= i < |first| - 1 ensures !(first[i] == CR && first[i + 1] == LF) {
        if i > 0 {
          assert first[i] == rest[0][i - 1] && first[i + 1] == rest[0][i];
        } else if |s| >= 2 {
          StartsWithFirst(s[1..]);
        }
      }
    }
  }

  /** The first piece is a prefix of the text. */
  lemma {:induction false} StartsWithFirst(s: Text)
    ensures |SplitLines(s)[0]| <= |s|
    ensures SplitLines(s)[0] == s[..|SplitLines(s)[0]|]
    decreases |s|
  {
    if |s| == 0 {
    } else if |s| >= 2 && s[0] == CR && s[1] == LF {
    } else {
      StartsWithFirst(s[1..]);
    }
  }

  /** A piece without separator, then the separator, splits off as the first piece. */
  lemma {:induction false} SplitAfterPiece(p: Text, rest: Text)
    requires NoBreak(p)
    ensures SplitLines(p + [CR, LF] + rest) == [p] + SplitLines(rest)
    decreases |p|
  {
    var s := p + [CR, LF] + rest;
    if |p| == 0 {
      assert s[2..] == rest;
    } else {
      assert !(s[0] == CR && s[1] == LF) by {
        if |p| >= 2 {
          assert s[1] == p[1];
        } else {
          assert s[1] == CR;
        }
      }
      var p' := p[1..];
      assert s[1..] == p' + [CR, LF] + rest;
      SplitAfterPiece(p', rest);
      assert p == [p[0]] + p';
    }
  }

  /** A text without separator is a single piece. */
  lemma {:induction false} SplitNoBreak(p: Text)
    requires NoBreak(p)
    ensures SplitLines(p) == [p]
    decreases |p|
  {
    if |p| > 0 {
      assert !(|p| >= 2 && p[0] == CR && p[1] == LF);
      SplitNoBreak(p[1..]);
      assert p == [p[0]] + p[1..];
    }
  }

  /** Splitting joined pieces that hold no separator gives them back. */
  lemma {:induction false} SplitJoin(ls: seq<Text>)
    requires |ls| >= 1
    requires forall k :: 0 <= k < |ls| ==> NoBreak(ls[k])
    ensures SplitLines(JoinLines(ls)) == ls
    decreases |ls|
  {
    if |ls| == 1 {
      SplitNoBreak(ls[0]);
    } else {
      SplitJoin(ls[1..]);
      SplitAfterPiece(ls[0], JoinLines(ls[1..]));
      assert ls == [ls[0]] + ls[1..];
    }
  }

  /** The empty text is one empty line; a lone separator makes two. */
  lemma {:induction false} SplitExamples()
    ensures SplitLines([]) == [[]]
    ensures SplitLines([CR, LF]) == [[], []]
    ensures SplitLines([CR, CR, LF]) == [[CR], []]
  {
    assert [CR, LF][2..] == [];
    assert SplitLines([CR, LF]) == [[], []];
    var t: Text := [CR, CR, LF];
    assert t[1..] == [CR, LF];
    assert SplitLines(t[1..]) == [[], []];
    assert !(t[0] == CR && t[1] == LF);
    var rest := SplitLines(t[1..]);
    assert SplitLines(t) == [[t[0]] + rest[0]] + rest[1..];
    assert [t[0]] + rest[0] == [CR] && rest[1..] == [[]];
  }
}
