/**
 * `get_attention_mask`: the seq x seq visibility matrix of one batch element
 * over the joint sequence [text tokens | serialized graph-node tokens].
 *
 * The matrix is built in place, as the source does: text rows, text columns
 * and the diagonal are set, every pad row and column (input id 0) is cleared,
 * and then, for every adjacent node pair (u, v) inside the node-position table,
 * the block of u's token span by v's token span (both shifted past the text)
 * is set. `MaskAt` is the resulting matrix, cell by cell.
 */
module StructuralMask {

  /** A node's half-open token span [start, end) among the serialized graph tokens. */
  datatype Span = Span(start: nat, end: nat)

  /** The rows of a boolean matrix as sequences. */
  ghost function Matrix(a: array2<bool>): (m: seq<seq<bool>>)
    reads a
    ensures |m| == a.Length0
    ensures forall u :: 0 <= u < a.Length0 ==> |m[u]| == a.Length1
    ensures forall u, v :: 0 <= u < a.Length0 && 0 <= v < a.Length1 ==> m[u][v] == a[u, v]
  {
    seq(a.Length0, u requires 0 <= u < a.Length0 reads a =>
      seq(a.Length1, v requires 0 <= v < a.Length1 reads a => a[u, v]))
  }

  /** Number of columns of a matrix given by rows. */
  function Cols<T>(m: seq<seq<T>>): nat
  {
    if |m| == 0 then 0 else |m[0]|
  }

  /** Every row has the width of the first. */
  predicate IsRectangular<T>(m: seq<seq<T>>)
  {
    forall u :: 0 <= u < |m| ==> |m[u]| == Cols(m)
  }

  /** Position p of the joint sequence lies in span s once s is shifted past the text. */
  predicate InShiftedSpan(s: Span, textLen: nat, p: nat)
  {
    s.start + textLen <= p < s.end + textLen
  }

  /** Visibility after the text rows, text columns and the diagonal are set. */
  predicate Initial(textLen: nat, i: nat, j: nat)
  {
    i < textLen || j < textLen || i == j
  }

  /** Visibility after the pad rows and columns are cleared. */
  predicate AfterPadIsolation(ids: seq<int>, textLen: nat, i: nat, j: nat)
    requires i < |ids| && j < |ids|
  {
    Initial(textLen, i, j) && ids[i] != 0 && ids[j] != 0
  }

  /**
   * The adjacent pair (u, v) sets cell (i, j): adj[u][v] holds, both nodes are
   * inside the position table, and i, j lie in their shifted spans.
   */
  predicate Paints(adj: seq<seq<bool>>, pos: seq<Span>, textLen: nat, u: nat, v: nat, i: nat, j: nat)
  {
    u < |adj| && v < |adj[u]| && adj[u][v] && u < |pos| && v < |pos| &&
    InShiftedSpan(pos[u], textLen, i) && InShiftedSpan(pos[v], textLen, j)
  }

  /** Some pair (u, v) with v < w paints (i, j): the inner loop after w columns of row u. */
  predicate PaintedInRow(adj: seq<seq<bool>>, pos: seq<Span>, textLen: nat, u: nat, w: nat, i: nat, j: nat)
  {
    w > 0 && (PaintedInRow(adj, pos, textLen, u, w - 1, i, j) || Paints(adj, pos, textLen, u, w - 1, i, j))
  }

  /** Some pair (u, v) with u < r paints (i, j): the outer loop after r rows. */
  predicate PaintedBefore(adj: seq<seq<bool>>, pos: seq<Span>, textLen: nat, r: nat, i: nat, j: nat)
  {
    r > 0 &&
    (PaintedBefore(adj, pos, textLen, r - 1, i, j) || PaintedInRow(adj, pos, textLen, r - 1, Cols(adj), i, j))
  }

  /** Some adjacent pair paints (i, j). */
  predicate Painted(adj: seq<seq<bool>>, pos: seq<Span>, textLen: nat, i: nat, j: nat)
  {
    PaintedBefore(adj, pos, textLen, |adj|, i, j)
  }

  /** Cell (i, j) of the finished mask. */
  predicate MaskAt(adj: seq<seq<bool>>, pos: seq<Span>, ids: seq<int>, textLen: nat, i: nat, j: nat)
    requires i < |ids| && j < |ids|
  {
    AfterPadIsolation(ids, textLen, i, j) || Painted(adj, pos, textLen, i, j)
  }

  /**
   * Sets every cell of the block [rowStart, rowEnd) x [colStart, colEnd), clipped
   * to the matrix, as a slice assignment does.
   */
  method PaintBlock(mask: array2<bool>, rowStart: nat, rowEnd: nat, colStart: nat, colEnd: nat)
    modifies mask
    ensures forall i, j :: 0 <= i < mask.Length0 && 0 <= j < mask.Length1 ==>
              mask[i, j] == (old(mask[i, j]) || (rowStart <= i < rowEnd && colStart <= j < colEnd))
  {
    forall i, j | 0 <= i < mask.Length0 && 0 <= j < mask.Length1 && rowStart <= i < rowEnd && colStart <= j < colEnd {
      mask[i, j] := true;
    }
  }

  /** Clears the row and the column of every pad position (input id 0), one pad at a time. */
  method IsolatePads(mask: array2<bool>, inputIds: seq<int>)
    requires mask.Length0 == |inputIds| && mask.Length1 == |inputIds|
    modifies mask
    ensures forall i, j :: 0 <= i < |inputIds| && 0 <= j < |inputIds| ==>
              mask[i, j] == (old(mask[i, j]) && inputIds[i] != 0 && inputIds[j] != 0)
  {
    var n := |inputIds|;
    var p := 0;
    while p < n
      invariant 0 <= p <= n
      invariant forall i, j :: 0 <= i < n && 0 <= j < n ==>
                  mask[i, j] == (old(mask[i, j]) && !(i < p && inputIds[i] == 0) && !(j < p && inputIds[j] == 0))
    {
      if inputIds[p] == 0 {
        forall j | 0 <= j < n {
          mask[p, j] := false;
        }
        forall i | 0 <= i < n {
          mask[i, p] := false;
        }
      }
      p := p + 1;
    }
  }

  /**
   * For every adjacent pair (u, v), in row-major order, skips it when either node
   * is outside the position table and otherwise sets the block of u's span by v's
   * span, both shifted past the text.
   */
  method PaintAdjacentPairs(mask: array2<bool>, adj: array2<bool>, nodePos: seq<Span>, textLen: nat)
    requires mask != adj
    modifies mask
    ensures forall i, j :: 0 <= i < mask.Length0 && 0 <= j < mask.Length1 ==>
              mask[i, j] == (old(mask[i, j]) || Painted(Matrix(adj), nodePos, textLen, i, j))
  {
    ghost var A := Matrix(adj);
    var u := 0;
    while u < adj.Length0
      invariant 0 <= u <= adj.Length0
      invariant A == Matrix(adj)
      invariant forall i, j :: 0 <= i < mask.Length0 && 0 <= j < mask.Length1 ==>
                  mask[i, j] == (old(mask[i, j]) || PaintedBefore(A, nodePos, textLen, u, i, j))
    {
      var v := 0;
      while v < adj.Length1
        invariant 0 <= v <= adj.Length1
        invariant A == Matrix(adj)
        invariant forall i, j :: 0 <= i < mask.Length0 && 0 <= j < mask.Length1 ==>
                    mask[i, j] == (old(mask[i, j]) ||
                                   PaintedBefore(A, nodePos, textLen, u, i, j) ||
                                   PaintedInRow(A, nodePos, textLen, u, v, i, j))
      {
        if adj[u, v] && u < |nodePos| && v < |nodePos| {
          var startU, endU := nodePos[u].start + textLen, nodePos[u].end + textLen;
          var startV, endV := nodePos[v].start + textLen, nodePos[v].end + textLen;
          PaintBlock(mask, startU, endU, startV, endV);
        }
        v := v + 1;
      }
      assert Cols(A) == adj.Length1;
      u := u + 1;
    }
  }

  /**
   * Builds the mask of one batch element. `adj` is the adjacency indicator, `nodePos`
   * the node-position table, `inputIds` the joint token ids.
   */
  method GetAttentionMask(adj: array2<bool>, nodePos: seq<Span>, inputIds: seq<int>, textLen: nat)
    returns (mask: array2<bool>)
    ensures fresh(mask)
    ensures mask.Length0 == |inputIds| && mask.Length1 == |inputIds|
    ensures forall i, j :: 0 <= i < |inputIds| && 0 <= j < |inputIds| ==>
              mask[i, j] == MaskAt(Matrix(adj), nodePos, inputIds, textLen, i, j)
  {
    var n := |inputIds|;
    mask := new bool[n, n]((i, j) => false);
    forall i, j | 0 <= i < n && 0 <= j < n && i < textLen {
      mask[i, j] := true;
    }
    forall i, j | 0 <= i < n && 0 <= j < n && j < textLen {
      mask[i, j] := true;
    }
    forall i | 0 <= i < n {
      mask[i, i] := true;
    }
    assert forall i, j :: 0 <= i < n && 0 <= j < n ==> mask[i, j] == Initial(textLen, i, j);
    IsolatePads(mask, inputIds);
    assert forall i, j :: 0 <= i < n && 0 <= j < n ==> mask[i, j] == AfterPadIsolation(inputIds, textLen, i, j);
    PaintAdjacentPairs(mask, adj, nodePos, textLen);
  }

  lemma {:induction false} PaintedInRowIff(adj: seq<seq<bool>>, pos: seq<Span>, textLen: nat, u: nat, w: nat, i: nat, j: nat)
    ensures PaintedInRow(adj, pos, textLen, u, w, i, j) <==> exists v: nat :: v < w && Paints(adj, pos, textLen, u, v, i, j)
  {
    if w > 0 {
      PaintedInRowIff(adj, pos, textLen, u, w - 1, i, j);
    }
  }

  lemma {:induction false} PaintedBeforeIff(adj: seq<seq<bool>>, pos: seq<Span>, textLen: nat, r: nat, i: nat, j: nat)
    ensures PaintedBefore(adj, pos, textLen, r, i, j) <==>
              exists u: nat, v: nat :: u < r && v < Cols(adj) && Paints(adj, pos, textLen, u, v, i, j)
  {
    if r > 0 {
      PaintedBeforeIff(adj, pos, textLen, r - 1, i, j);
      PaintedInRowIff(adj, pos, textLen, r - 1, Cols(adj), i, j);
    }
  }

  /** The painting loop sets (i, j) exactly when some adjacent pair paints it. */
  lemma PaintedIff(adj: seq<seq<bool>>, pos: seq<Span>, textLen: nat, i: nat, j: nat)
    requires IsRectangular(adj)
    ensures Painted(adj, pos, textLen, i, j) <==> exists u: nat, v: nat :: Paints(adj, pos, textLen, u, v, i, j)
  {
    PaintedBeforeIff(adj, pos, textLen, |adj|, i, j);
  }

  /**
   * Text rows and text columns: a cell in a text row or column is visible exactly
   * when neither position is a pad (painting never reaches the text, since spans
   * are shifted past it). A non-pad position always sees itself.
   */
  lemma TextAndSelfVisibility(adj: seq<seq<bool>>, pos: seq<Span>, ids: seq<int>, textLen: nat, i: nat, j: nat)
    requires IsRectangular(adj)
    requires i < |ids| && j < |ids|
    ensures i < textLen || j < textLen ==> (MaskAt(adj, pos, ids, textLen, i, j) <==> ids[i] != 0 && ids[j] != 0)
    ensures i == j && ids[i] != 0 ==> MaskAt(adj, pos, ids, textLen, i, j)
  {
    PaintedIff(adj, pos, textLen, i, j);
  }

  /** No node span, shifted past the text, covers a pad position. */
  predicate NoSpanCoversPad(pos: seq<Span>, ids: seq<int>, textLen: nat)
  {
    forall u, p :: 0 <= u < |pos| && 0 <= p < |ids| && ids[p] == 0 ==> !InShiftedSpan(pos[u], textLen, p)
  }

  /**
   * Pad isolation: when no span covers a pad, a pad position sees nothing and is
   * seen by nothing, itself included.
   */
  lemma PadIsolation(adj: seq<seq<bool>>, pos: seq<Span>, ids: seq<int>, textLen: nat, p: nat)
    requires IsRectangular(adj)
    requires NoSpanCoversPad(pos, ids, textLen)
    requires p < |ids| && ids[p] == 0
    ensures forall j :: 0 <= j < |ids| ==> !MaskAt(adj, pos, ids, textLen, p, j) && !MaskAt(adj, pos, ids, textLen, j, p)
  {
    forall j | 0 <= j < |ids|
      ensures !MaskAt(adj, pos, ids, textLen, p, j) && !MaskAt(adj, pos, ids, textLen, j, p)
    {
      PaintedIff(adj, pos, textLen, p, j);
      PaintedIff(adj, pos, textLen, j, p);
    }
  }

  /**
   * Without the disjointness premise pad isolation fails: a self-adjacent node
   * whose span covers a pad makes that pad visible to itself.
   */
  lemma PadIsolationNeedsDisjointSpans()
    ensures !NoSpanCoversPad([Span(0, 1)], [7, 0], 1)
    ensures MaskAt([[true]], [Span(0, 1)], [7, 0], 1, 1, 1)
  {
    var pos, ids := [Span(0, 1)], [7, 0];
    assert ids[1] == 0 && InShiftedSpan(pos[0], 1, 1);
    assert Paints([[true]], pos, 1, 0, 0, 1, 1);
  }

  /**
   * Graph block: for distinct non-pad graph positions i, j, cell (i, j) is visible
   * exactly when some adjacent pair (u, v) inside the position table has i in u's
   * shifted span and j in v's.
   */
  lemma GraphBlockVisibility(adj: seq<seq<bool>>, pos: seq<Span>, ids: seq<int>, textLen: nat, i: nat, j: nat)
    requires IsRectangular(adj)
    requires i < |ids| && j < |ids| && ids[i] != 0 && ids[j] != 0
    requires i != j && i >= textLen && j >= textLen
    ensures MaskAt(adj, pos, ids, textLen, i, j) <==>
              exists u: nat, v: nat :: u < |adj| && v < Cols(adj) && adj[u][v] && u < |pos| && v < |pos| &&
                InShiftedSpan(pos[u], textLen, i) && InShiftedSpan(pos[v], textLen, j)
  {
    PaintedIff(adj, pos, textLen, i, j);
    if MaskAt(adj, pos, ids, textLen, i, j) {
      var u: nat, v: nat :| Paints(adj, pos, textLen, u, v, i, j);
      assert v < Cols(adj);
    } else {
      forall u: nat, v: nat | u < |adj| && v < Cols(adj) && adj[u][v] && u < |pos| && v < |pos|
        ensures !(InShiftedSpan(pos[u], textLen, i) && InShiftedSpan(pos[v], textLen, j))
      {
        assert !Paints(adj, pos, textLen, u, v, i, j);
      }
    }
  }

  /** `adj` with every entry of a node outside the position table cleared. */
  function RestrictToTable(adj: seq<seq<bool>>, k: nat): seq<seq<bool>>
  {
    seq(|adj|, u requires 0 <= u < |adj| =>
      seq(|adj[u]|, v requires 0 <= v < |adj[u]| => adj[u][v] && u < k && v < k))
  }

  /** Adjacency of nodes beyond the position table never changes the mask. */
  lemma OutOfTableNodesIgnored(adj: seq<seq<bool>>, pos: seq<Span>, ids: seq<int>, textLen: nat, i: nat, j: nat)
    requires IsRectangular(adj)
    requires i < |ids| && j < |ids|
    ensures MaskAt(RestrictToTable(adj, |pos|), pos, ids, textLen, i, j) == MaskAt(adj, pos, ids, textLen, i, j)
  {
    var r := RestrictToTable(adj, |pos|);
    assert IsRectangular(r) by {
      if |adj| > 0 {
        assert Cols(r) == Cols(adj);
      }
    }
    PaintedIff(adj, pos, textLen, i, j);
    PaintedIff(r, pos, textLen, i, j);
    forall u: nat, v: nat
      ensures Paints(r, pos, textLen, u, v, i, j) == Paints(adj, pos, textLen, u, v, i, j)
    {
    }
  }

  /**
   * With no adjacency between distinct nodes (self-loops only), distinct non-pad
   * graph positions see each other exactly when they lie in the span of one
   * self-adjacent node inside the position table.
   */
  lemma SelfLoopsOnly(adj: seq<seq<bool>>, pos: seq<Span>, ids: seq<int>, textLen: nat, i: nat, j: nat)
    requires IsRectangular(adj)
    requires forall u, v :: 0 <= u < |adj| && 0 <= v < |adj[u]| && adj[u][v] ==> u == v
    requires i < |ids| && j < |ids| && ids[i] != 0 && ids[j] != 0
    requires i != j && i >= textLen && j >= textLen
    ensures MaskAt(adj, pos, ids, textLen, i, j) <==>
              exists u: nat :: u < |adj| && u < Cols(adj) && adj[u][u] && u < |pos| &&
                InShiftedSpan(pos[u], textLen, i) && InShiftedSpan(pos[u], textLen, j)
  {
    PaintedIff(adj, pos, textLen, i, j);
    if MaskAt(adj, pos, ids, textLen, i, j) {
      var u: nat, v: nat :| Paints(adj, pos, textLen, u, v, i, j);
      assert u == v;
    } else {
      forall u: nat | u < |adj| && u < Cols(adj) && adj[u][u] && u < |pos|
        ensures !(InShiftedSpan(pos[u], textLen, i) && InShiftedSpan(pos[u], textLen, j))
      {
        assert !Paints(adj, pos, textLen, u, u, i, j);
      }
    }
  }

  predicate IsSymmetric(adj: seq<seq<bool>>)
  {
    (forall u :: 0 <= u < |adj| ==> |adj[u]| == |adj|) &&
    forall u, v :: 0 <= u < |adj| && 0 <= v < |adj| ==> adj[u][v] == adj[v][u]
  }

  /** A symmetric adjacency gives a symmetric mask. */
  lemma SymmetricMask(adj: seq<seq<bool>>, pos: seq<Span>, ids: seq<int>, textLen: nat, i: nat, j: nat)
    requires IsSymmetric(adj)
    requires i < |ids| && j < |ids|
    ensures MaskAt(adj, pos, ids, textLen, i, j) == MaskAt(adj, pos, ids, textLen, j, i)
  {
    PaintedIff(adj, pos, textLen, i, j);
    PaintedIff(adj, pos, textLen, j, i);
    forall u: nat, v: nat | Paints(adj, pos, textLen, u, v, i, j)
      ensures Paints(adj, pos, textLen, v, u, j, i)
    {
    }
    forall u: nat, v: nat | Paints(adj, pos, textLen, u, v, j, i)
      ensures Paints(adj, pos, textLen, v, u, i, j)
    {
    }
  }

  /** Graph position p lies in the shifted span of some node inside both the adjacency and the table. */
  predicate CoveredByNode(adj: seq<seq<bool>>, pos: seq<Span>, textLen: nat, p: nat)
  {
    exists u: nat :: u < |adj| && u < Cols(adj) && u < |pos| && InShiftedSpan(pos[u], textLen, p)
  }

  /**
   * A fully connected graph whose node spans cover every graph position makes
   * every pair of non-pad positions visible.
   */
  lemma FullyConnectedAllVisible(adj: seq<seq<bool>>, pos: seq<Span>, ids: seq<int>, textLen: nat, i: nat, j: nat)
    requires IsRectangular(adj)
    requires forall u, v :: 0 <= u < |adj| && 0 <= v < |adj[u]| ==> adj[u][v]
    requires forall p: nat :: textLen <= p < |ids| ==> CoveredByNode(adj, pos, textLen, p)
    requires i < |ids| && j < |ids| && ids[i] != 0 && ids[j] != 0
    ensures MaskAt(adj, pos, ids, textLen, i, j)
  {
    if !Initial(textLen, i, j) {
      assert CoveredByNode(adj, pos, textLen, i) && CoveredByNode(adj, pos, textLen, j);
      var u: nat :| u < |adj| && u < Cols(adj) && u < |pos| && InShiftedSpan(pos[u], textLen, i);
      var v: nat :| v < |adj| && v < Cols(adj) && v < |pos| && InShiftedSpan(pos[v], textLen, j);
      assert Paints(adj, pos, textLen, u, v, i, j);
      PaintedIff(adj, pos, textLen, i, j);
    }
  }
}
