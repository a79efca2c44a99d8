/** The punctuation splitter of src/utils/g2p/Punctuator.hpp: text is cut
    into (segment, mark) pairs so that a backend that drops punctuation
    can have it restored afterwards. */
module Punctuation {
  import opened Bytes

  /** `;:,.!?¡¿—…"«»“”(){}[]` as UTF-8 bytes. The mark class is built byte
      by byte, so each byte of a multi-byte mark is a mark on its own. */
  const DefaultMarks: seq<byte> :=
    [0x3B, 0x3A, 0x2C, 0x2E, 0x21, 0x3F,
     0xC2, 0xA1, 0xC2, 0xBF,
     0xE2, 0x80, 0x94, 0xE2, 0x80, 0xA6,
     0x22, 0xC2, 0xAB, 0xC2, 0xBB,
     0xE2, 0x80, 0x9C, 0xE2, 0x80, 0x9D,
     0x28, 0x29, 0x7B, 0x7D, 0x5B, 0x5D]

  /** A `LineMarkPair`: a segment and the mark after it (empty when none). */
  datatype LineMark = LineMark(line: seq<byte>, mark: seq<byte>)

  /** One match of the pattern `([^M]+)|([M])`: a maximal run of non-mark
      bytes (group 1) or a single mark byte (group 2). */
  datatype Piece = Run(text: seq<byte>) | Mark(b: byte)

  /** Length of the run of non-mark bytes at the front of `s`. */
  function RunLength(s: seq<byte>, marks: seq<byte>): (n: nat)
    ensures n <= |s|
    ensures forall i :: 0 <= i < n ==> s[i] !in marks
    ensures n < |s| ==> s[n] in marks
  {
    if s == [] || s[0] in marks then 0 else 1 + RunLength(s[1..], marks)
  }

  /** The successive matches the regex iterator visits: the pattern
      matches at every position, so the matches tile the text. */
  function Pieces(s: seq<byte>, marks: seq<byte>): seq<Piece>
    decreases |s|
  {
    if s == [] then []
    else if s[0] in marks then [Mark(s[0])] + Pieces(s[1..], marks)
    else
      var n := RunLength(s, marks);
      [Run(s[..n])] + Pieces(s[n..], marks)
  }

  /** One round of the loop body: a run opens a new pair; a mark fills the
      last pair when that pair has no mark yet, and otherwise opens a pair
      with an empty segment. */
  function Attach(result: seq<LineMark>, p: Piece): seq<LineMark> {
    match p
    case Run(t) => result + [LineMark(t, [])]
    case Mark(b) =>
      if result != [] && result[|result| - 1].mark == [] then
        result[|result| - 1 := LineMark(result[|result| - 1].line, [b])]
      else result + [LineMark([], [b])]
  }

  /** The pairs built from a sequence of matches, in order. */
  function Assemble(ps: seq<Piece>): seq<LineMark>
    decreases |ps|
  {
    if ps == [] then [] else Attach(Assemble(ps[..|ps| - 1]), ps[|ps| - 1])
  }

  /** The result of `split_by_marks_`, as a specification. */
  function SplitSpec(str: seq<byte>, marks: seq<byte>): seq<LineMark> {
    if str == [] then []
    else if marks == [] then [LineMark(str, [])]
    else Assemble(Pieces(str, marks))
  }

  /** A `Punctuator` and its mark string, fixed at construction. */
  datatype Punctuator = Punctuator(marks: seq<byte>)
  {
    /** `Punctuator::run`. */
    method Run(text: seq<byte>) returns (result: seq<LineMark>)
      ensures result == SplitSpec(text, marks)
    {
      result := SplitByMarks(text, marks);
    }
  }

  /** A punctuator with the default marks. */
  const Default: Punctuator := Punctuator(DefaultMarks)

  /** `split_by_marks_`: the regex-iterator loop, with the iterator's
      matching done by a byte scan. */
  method SplitByMarks(str: seq<byte>, delimiterChars: seq<byte>) returns (result: seq<LineMark>)
    ensures result == SplitSpec(str, delimiterChars)
  {
    result := [];
    if str == [] {
      return;
    }
    if delimiterChars == [] {
      result := [LineMark(str, [])];
      return;
    }
    var i := 0;
    ghost var done: seq<Piece> := [];
    assert str[0..] == str;
    while i < |str|
      invariant 0 <= i <= |str|
      invariant done + Pieces(str[i..], delimiterChars) == Pieces(str, delimiterChars)
      invariant result == Assemble(done)
      decreases |str| - i
    {
      var j := i;
      while j < |str| && str[j] !in delimiterChars
        invariant i <= j <= |str|
        invariant forall q :: i <= q < j ==> str[q] !in delimiterChars
        decreases |str| - j
      {
        j := j + 1;
      }
      ghost var before := result;
      if j > i {
        PiecesStep(done, str, delimiterChars, i, j);
        result := result + [LineMark(str[i..j], [])];
        AssembleStep(done, Run(str[i..j]), before, result);
        done := done + [Run(str[i..j])];
        i := j;
      } else {
        var m := str[i];
        PiecesStep(done, str, delimiterChars, i, i);
        if result != [] && result[|result| - 1].mark == [] {
          result := result[|result| - 1 := LineMark(result[|result| - 1].line, [m])];
        } else {
          result := result + [LineMark([], [m])];
        }
        AssembleStep(done, Mark(m), before, result);
        done := done + [Mark(m)];
        i := i + 1;
      }
    }
    assert str[|str|..] == [];
    assert done == Pieces(str, delimiterChars);
  }

  /** One match at `i`: a run ending at `j`, or the mark byte at `i` when
      `j == i`. */
  lemma {:induction false} PiecesStep(done: seq<Piece>, str: seq<byte>, marks: seq<byte>, i: nat, j: nat)
    requires i < |str| && i <= j <= |str|
    requires forall q :: i <= q < j ==> str[q] !in marks
    requires j < |str| ==> str[j] in marks
    requires done + Pieces(str[i..], marks) == Pieces(str, marks)
    ensures j > i ==> (done + [Run(str[i..j])]) + Pieces(str[j..], marks) == Pieces(str, marks)
    ensures j == i ==> (done + [Mark(str[i])]) + Pieces(str[i + 1..], marks) == Pieces(str, marks)
  {
    var s := str[i..];
    assert s[0] == str[i];
    if j > i {
      RunLengthIs(s, marks, j - i);
      assert s[..j - i] == str[i..j];
      assert s[j - i..] == str[j..];
      assert Pieces(s, marks) == [Run(str[i..j])] + Pieces(str[j..], marks);
    } else {
      assert s[1..] == str[i + 1..];
      assert Pieces(s, marks) == [Mark(str[i])] + Pieces(str[i + 1..], marks);
    }
  }

  lemma {:induction false} RunLengthIs(s: seq<byte>, marks: seq<byte>, n: nat)
    requires n <= |s|
    requires forall q :: 0 <= q < n ==> s[q] !in marks
    requires n < |s| ==> s[n] in marks
    ensures RunLength(s, marks) == n
  {
    if s != [] && s[0] !in marks {
      RunLengthIs(s[1..], marks, n - 1);
    }
  }

  /** Assembling one more match is one more round of the loop. */
  lemma {:induction false} AssembleStep(done: seq<Piece>, p: Piece, before: seq<LineMark>, after: seq<LineMark>)
    requires before == Assemble(done)
    requires after == Attach(before, p)
    ensures after == Assemble(done + [p])
  {
    assert (done + [p])[..|done|] == done;
  }

  // ---------------------------------------------------------------------
  // Properties
  // ---------------------------------------------------------------------

  /** The bytes of the pairs, segment then mark, in order. */
  function Join(r: seq<LineMark>): seq<byte>
    decreases |r|
  {
    if r == [] then [] else Join(r[..|r| - 1]) + r[|r| - 1].line + r[|r| - 1].mark
  }

  /** The bytes the matches cover, in order. */
  function Covered(ps: seq<Piece>): seq<byte>
    decreases |ps|
  {
    if ps == [] then []
    else Covered(ps[..|ps| - 1]) + (match ps[|ps| - 1] case Run(t) => t case Mark(b) => [b])
  }

  lemma {:induction false} CoveredAppend(a: seq<Piece>, b: seq<Piece>)
    ensures Covered(a + b) == Covered(a) + Covered(b)
    decreases |b|
  {
    if b == [] {
      assert a + b == a;
    } else {
      var b' := b[..|b| - 1];
      assert (a + b)[..|a + b| - 1] == a + b';
      CoveredAppend(a, b');
    }
  }

  /** The matches tile the text. */
  lemma {:induction false} PiecesCover(s: seq<byte>, marks: seq<byte>)
    ensures Covered(Pieces(s, marks)) == s
    decreases |s|
  {
    if s != [] {
      var n := if s[0] in marks then 1 else RunLength(s, marks);
      var first := if s[0] in marks then Mark(s[0]) else Run(s[..n]);
      PiecesCover(s[n..], marks);
      CoveredAppend([first], Pieces(s[n..], marks));
      assert Covered([first]) == s[..n] by {
        assert [first][..0] == [];
      }
      assert s[..n] + s[n..] == s;
    }
  }

  /** Assembling pairs loses and adds no byte. */
  lemma {:induction false} AssembleJoin(ps: seq<Piece>)
    ensures Join(Assemble(ps)) == Covered(ps)
    decreases |ps|
  {
    if ps != [] {
      var r := Assemble(ps[..|ps| - 1]);
      AssembleJoin(ps[..|ps| - 1]);
      match ps[|ps| - 1]
      case Run(t) =>
        assert (r + [LineMark(t, [])])[..|r|] == r;
      case Mark(b) =>
        if r != [] && r[|r| - 1].mark == [] {
          var k := |r| - 1;
          assert r[k := LineMark(r[k].line, [b])][..k] == r[..k];
        } else {
          assert (r + [LineMark([], [b])])[..|r|] == r;
        }
    }
  }

  /** Concatenating segment and mark of every pair, in order, gives back
      the input exactly. */
  lemma {:induction false} SplitJoin(str: seq<byte>, marks: seq<byte>)
    ensures Join(SplitSpec(str, marks)) == str
  {
    if str != [] {
      if marks == [] {
        assert [LineMark(str, [])][..0] == [];
      } else {
        PiecesCover(str, marks);
        AssembleJoin(Pieces(str, marks));
      }
    }
  }

  /** A pair as `split_by_marks_` produces it: the segment holds no mark
      byte, the mark is empty or one mark byte, and the two are not both
      empty. */
  predicate GoodPair(p: LineMark, marks: seq<byte>) {
    (forall i :: 0 <= i < |p.line| ==> p.line[i] !in marks) &&
    (p.mark == [] || (|p.mark| == 1 && p.mark[0] in marks)) &&
    (p.line != [] || p.mark != [])
  }

  /** A match as the iterator produces it: a non-empty run without mark
      bytes, or one mark byte. */
  predicate GoodPiece(p: Piece, marks: seq<byte>) {
    match p
    case Run(t) => t != [] && forall i :: 0 <= i < |t| ==> t[i] !in marks
    case Mark(b) => b in marks
  }

  lemma {:induction false} PiecesGood(s: seq<byte>, marks: seq<byte>)
    ensures forall k :: 0 <= k < |Pieces(s, marks)| ==> GoodPiece(Pieces(s, marks)[k], marks)
    decreases |s|
  {
    if s != [] {
      var n := if s[0] in marks then 1 else RunLength(s, marks);
      PiecesGood(s[n..], marks);
    }
  }

  lemma {:induction false} AssembleGood(ps: seq<Piece>, marks: seq<byte>)
    requires forall k :: 0 <= k < |ps| ==> GoodPiece(ps[k], marks)
    ensures forall k :: 0 <= k < |Assemble(ps)| ==> GoodPair(Assemble(ps)[k], marks)
    decreases |ps|
  {
    if ps != [] {
      AssembleGood(ps[..|ps| - 1], marks);
    }
  }

  /** Every pair is well formed: no segment contains a mark byte, every
      mark is empty or a single mark byte, and no pair is ("", ""). */
  lemma {:induction false} SplitPairsGood(str: seq<byte>, marks: seq<byte>)
    requires marks != []
    ensures forall k :: 0 <= k < |SplitSpec(str, marks)| ==> GoodPair(SplitSpec(str, marks)[k], marks)
  {
    if str != [] {
      PiecesGood(str, marks);
      AssembleGood(Pieces(str, marks), marks);
    }
  }

  /** Empty text gives no pair; an empty mark string gives the text as
      one unmarked pair. */
  lemma {:induction false} SplitDegenerate(str: seq<byte>, marks: seq<byte>)
    ensures str == [] ==> SplitSpec(str, marks) == []
    ensures str != [] && marks == [] ==> SplitSpec(str, marks) == [LineMark(str, [])]
  {
  }

  /** No two runs are adjacent: a run is maximal, so it is followed by a
      mark or by the end. */
  predicate NoAdjacentRuns(ps: seq<Piece>) {
    forall k :: 0 < k < |ps| && ps[k].Run? ==> ps[k - 1].Mark?
  }

  lemma {:induction false} PiecesNoAdjacentRuns(s: seq<byte>, marks: seq<byte>)
    ensures NoAdjacentRuns(Pieces(s, marks))
    ensures s != [] && s[0] !in marks ==> Pieces(s, marks)[0].Run?
    ensures s != [] && s[0] in marks ==> Pieces(s, marks)[0].Mark?
    decreases |s|
  {
    if s != [] {
      var n := if s[0] in marks then 1 else RunLength(s, marks);
      PiecesNoAdjacentRuns(s[n..], marks);
      if s[0] !in marks && n < |s| {
        assert s[n..][0] in marks;
      }
    }
  }

  /** Only the last pair can lack a mark, and it lacks one exactly when
      the text ends in a run. */
  lemma {:induction false} AssembleMarked(ps: seq<Piece>)
    requires NoAdjacentRuns(ps)
    ensures forall k :: 0 <= k < |Assemble(ps)| - 1 ==> Assemble(ps)[k].mark != []
    ensures Assemble(ps) != [] ==> (Assemble(ps)[|Assemble(ps)| - 1].mark == [] <==> ps[|ps| - 1].Run?)
    ensures ps != [] ==> Assemble(ps) != []
    decreases |ps|
  {
    if ps != [] {
      var ps' := ps[..|ps| - 1];
      assert NoAdjacentRuns(ps') by {
        forall k | 0 < k < |ps'| && ps'[k].Run? ensures ps'[k - 1].Mark? {
          assert ps'[k] == ps[k] && ps'[k - 1] == ps[k - 1];
        }
      }
      AssembleMarked(ps');
    }
  }

  /** Every pair except the last carries a mark. */
  lemma {:induction false} SplitMarked(str: seq<byte>, marks: seq<byte>)
    ensures forall k :: 0 <= k < |SplitSpec(str, marks)| - 1 ==> SplitSpec(str, marks)[k].mark != []
  {
    if str != [] && marks != [] {
      PiecesNoAdjacentRuns(str, marks);
      AssembleMarked(Pieces(str, marks));
    }
  }

  /** Text made of mark bytes only: every byte is a match of its own. */
  lemma {:induction false} PiecesOfMarks(s: seq<byte>, marks: seq<byte>)
    requires forall k :: 0 <= k < |s| ==> s[k] in marks
    ensures Pieces(s, marks) == seq(|s|, k requires 0 <= k < |s| => Mark(s[k]))
    decreases |s|
  {
    if s != [] {
      PiecesOfMarks(s[1..], marks);
    }
  }

  /** Marks with nothing before them each open a pair of their own. */
  lemma {:induction false} AssembleOfMarks(ps: seq<Piece>)
    requires forall k :: 0 <= k < |ps| ==> ps[k].Mark?
    ensures Assemble(ps) == seq(|ps|, k requires 0 <= k < |ps| && ps[k].Mark? => LineMark([], [ps[k].b]))
    decreases |ps|
  {
    if ps != [] {
      AssembleOfMarks(ps[..|ps| - 1]);
    }
  }

  /** A leading mark, and a mark that follows another mark, get an empty
      segment: text made of mark bytes only gives one ("", byte) pair per
      byte. With the default marks this is what becomes of the three bytes
      of "…", which the mark class holds one by one. */
  lemma {:induction false} LoneMarks(s: seq<byte>, marks: seq<byte>)
    requires forall k :: 0 <= k < |s| ==> s[k] in marks
    ensures SplitSpec(s, marks) == seq(|s|, k requires 0 <= k < |s| => LineMark([], [s[k]]))
  {
    if s != [] {
      PiecesOfMarks(s, marks);
      AssembleOfMarks(Pieces(s, marks));
    }
  }

  /** A run followed by a mark or by the end is one match. */
  lemma {:induction false} PiecesRunThen(a: seq<byte>, rest: seq<byte>, marks: seq<byte>)
    requires a != []
    requires forall k :: 0 <= k < |a| ==> a[k] !in marks
    requires rest != [] ==> rest[0] in marks
    ensures Pieces(a + rest, marks) == [Run(a)] + Pieces(rest, marks)
  {
    var s := a + rest;
    assert s[0] == a[0];
    RunLengthIs(s, marks, |a|);
    assert s[..|a|] == a;
    assert s[|a|..] == rest;
  }

  /** A mark byte is a match of its own. */
  lemma {:induction false} PiecesMarkThen(m: byte, rest: seq<byte>, marks: seq<byte>)
    requires m in marks
    ensures Pieces([m] + rest, marks) == [Mark(m)] + Pieces(rest, marks)
  {
    assert ([m] + rest)[1..] == rest;
  }

  lemma {:induction false} Regroup(a: seq<byte>, m1: byte, b: seq<byte>, m2: byte)
    ensures a + ([m1] + (b + [m2])) == a + [m1] + b + [m2]
  {
  }

  lemma {:induction false} TwoSentencePieces(a: seq<byte>, m1: byte, b: seq<byte>, m2: byte, marks: seq<byte>)
    requires a != [] && b != []
    requires forall k :: 0 <= k < |a| ==> a[k] !in marks
    requires forall k :: 0 <= k < |b| ==> b[k] !in marks
    requires m1 in marks && m2 in marks
    ensures Pieces(a + [m1] + b + [m2], marks) == [Run(a), Mark(m1), Run(b), Mark(m2)]
  {
    calc {
      Pieces(a + [m1] + b + [m2], marks);
      { Regroup(a, m1, b, m2); }
      Pieces(a + ([m1] + (b + [m2])), marks);
      { PiecesRunThen(a, [m1] + (b + [m2]), marks); }
      [Run(a)] + Pieces([m1] + (b + [m2]), marks);
      { PiecesMarkThen(m1, b + [m2], marks); }
      [Run(a)] + ([Mark(m1)] + Pieces(b + [m2], marks));
      { PiecesRunThen(b, [m2], marks); }
      [Run(a)] + ([Mark(m1)] + ([Run(b)] + Pieces([m2], marks)));
      { PiecesMarkThen(m2, [], marks); assert [m2] + [] == [m2]; }
      [Run(a)] + ([Mark(m1)] + ([Run(b)] + [Mark(m2)]));
      [Run(a), Mark(m1), Run(b), Mark(m2)];
    }
  }

  /** A run followed by a mark adds one pair: the run with that mark. */
  lemma {:induction false} AssembleRunMark(ps: seq<Piece>, t: seq<byte>, m: byte)
    ensures Assemble(ps + [Run(t), Mark(m)]) == Assemble(ps) + [LineMark(t, [m])]
  {
    var r := Assemble(ps);
    var r1 := Attach(r, Run(t));
    AssembleStep(ps, Run(t), r, r1);
    var q := ps + [Run(t)];
    var r2 := Attach(r1, Mark(m));
    AssembleStep(q, Mark(m), r1, r2);
    assert q + [Mark(m)] == ps + [Run(t), Mark(m)];
    assert r1 == r + [LineMark(t, [])];
    assert r2 == r + [LineMark(t, [m])];
  }

  lemma {:induction false} AssembleTwoSentences(a: seq<byte>, m1: byte, b: seq<byte>, m2: byte)
    ensures Assemble([Run(a), Mark(m1), Run(b), Mark(m2)]) == [LineMark(a, [m1]), LineMark(b, [m2])]
  {
    var first := [Run(a), Mark(m1)];
    AssembleRunMark([], a, m1);
    assert [] + first == first;
    AssembleRunMark(first, b, m2);
    assert first + [Run(b), Mark(m2)] == [Run(a), Mark(m1), Run(b), Mark(m2)];
  }

  /** Two sentences, each ended by a mark, give two pairs: the shape of
      "Hello, World!" -> ("Hello", ","), (" World", "!"). */
  lemma {:induction false} TwoSentences(a: seq<byte>, m1: byte, b: seq<byte>, m2: byte, marks: seq<byte>)
    requires a != [] && b != []
    requires forall k :: 0 <= k < |a| ==> a[k] !in marks
    requires forall k :: 0 <= k < |b| ==> b[k] !in marks
    requires m1 in marks && m2 in marks
    ensures SplitSpec(a + [m1] + b + [m2], marks) == [LineMark(a, [m1]), LineMark(b, [m2])]
  {
    TwoSentencePieces(a, m1, b, m2, marks);
    AssembleTwoSentences(a, m1, b, m2);
  }

  /** The bytes of "…", U+2026, each belong to the default mark class. */
  lemma {:induction false} EllipsisBytesAreMarks()
    ensures 0xE2 in DefaultMarks && 0x80 in DefaultMarks && 0xA6 in DefaultMarks
    ensures 0x2C in DefaultMarks && 0x21 in DefaultMarks
  {
    assert DefaultMarks[10] == 0xE2 && DefaultMarks[11] == 0x80 && DefaultMarks[15] == 0xA6;
    assert DefaultMarks[2] == 0x2C && DefaultMarks[4] == 0x21;
  }
}
