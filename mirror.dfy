// The index fold of the mirrored display: which recorded cell is painted at
// each position of the grid when the image is mirrored about its centre.

module Mirror {
  import opened RuleTable

  // Row j (or column j) of a dimension of the given length reads the
  // recorded row (column) Fold(j, length); the centre is length / 2.
  function Fold(j: nat, length: nat): (r: nat)
    requires length >= 2
    ensures r < length
    ensures j < length / 2 ==> r == j
    ensures j >= length / 2 ==> 1 <= r <= length / 2
  {
    var c := length / 2;
    if j >= c then c - j % c else j
  }

  predicate Rectangular(ws: seq<seq<Bit>>) {
    |ws| >= 2 && |ws[0]| >= 2 && forall j :: 0 <= j < |ws| ==> |ws[j]| == |ws[0]|
  }

  // The states painted by the mirrored display, row by row.
  function MirroredImage(ws: seq<seq<Bit>>): (img: seq<seq<Bit>>)
    requires Rectangular(ws)
    ensures |img| == |ws|
    ensures forall j :: 0 <= j < |img| ==> |img[j]| == |ws[0]|
  {
    seq(|ws|, j requires 0 <= j < |ws| => MirroredRow(ws, j))
  }

  function MirroredRow(ws: seq<seq<Bit>>, j: nat): (row: seq<Bit>)
    requires Rectangular(ws) && j < |ws|
    ensures |row| == |ws[0]|
  {
    var src := ws[Fold(j, |ws|)];
    seq(|ws[0]|, i requires 0 <= i < |ws[0]| => src[Fold(i, |ws[0]|)])
  }

  /** Past the centre the fold reflects: c + t reads what c - t reads. */
  lemma FoldReflects(length: nat, t: nat)
    requires length >= 2 && t < length / 2
    ensures Fold(length / 2 + t, length) == Fold(length / 2 - t, length)
    ensures Fold(length / 2 + t, length) == length / 2 - t
  {
    var c := length / 2;
    assert (c + t) % c == t by {
      assert c + t == 1 * c + t;
    }
  }

  /** For an odd length the last position folds back onto the centre, not
      onto position 0: it is not a true mirror there. */
  lemma FoldOddLast(length: nat)
    requires length >= 2 && length % 2 == 1
    ensures Fold(length - 1, length) == length / 2
  {
    var c := length / 2;
    assert length - 1 == 2 * c;
    assert (2 * c) % c == 0 by {
      assert 2 * c == 2 * c + 0;
    }
  }

  lemma FoldFiveRows()
    ensures Fold(4, 5) == 2
  {
    FoldOddLast(5);
  }

  /** The top-left quadrant is painted as recorded. */
  lemma ImageKeepsQuadrant(ws: seq<seq<Bit>>, j: nat, i: nat)
    requires Rectangular(ws)
    requires j < |ws| / 2 && i < |ws[0]| / 2
    ensures MirroredImage(ws)[j][i] == ws[j][i]
  {
    assert MirroredImage(ws)[j] == MirroredRow(ws, j);
  }

  /**
   * The image is symmetric about its centre row and, in every row, about
   * its centre column: offsets t and u on either side read the same.
   */
  lemma ImageSymmetric(ws: seq<seq<Bit>>, t: nat, u: nat)
    requires Rectangular(ws)
    requires t < |ws| / 2 && u < |ws[0]| / 2
    ensures MirroredImage(ws)[|ws| / 2 + t] == MirroredImage(ws)[|ws| / 2 - t]
    ensures forall j :: 0 <= j < |ws| ==>
      MirroredImage(ws)[j][|ws[0]| / 2 + u] == MirroredImage(ws)[j][|ws[0]| / 2 - u]
  {
    var img := MirroredImage(ws);
    var cy, cx := |ws| / 2, |ws[0]| / 2;
    FoldReflects(|ws|, t);
    assert img[cy + t] == MirroredRow(ws, cy + t);
    assert img[cy - t] == MirroredRow(ws, cy - t);
    FoldReflects(|ws[0]|, u);
    forall j | 0 <= j < |ws|
      ensures img[j][cx + u] == img[j][cx - u]
    {
      assert img[j] == MirroredRow(ws, j);
    }
  }
}
