/**
 * The node-pair index tables of `Decoder.forward`: from the number of node
 * hidden states n, two parallel index lists name the source and target node of
 * every edge-generation step, and `index_select` gathers those hidden states.
 * Hidden states are an arbitrary type T.
 */
module DecoderPairs {
  import opened Wrappers

  /** `index_select` with an index past the end of the node axis. */
  datatype GatherError = IndexOutOfRange(index: nat)

  /** Tri(m) = 1 + 2 + ... + m, the number of pairs (i, j) with 1 <= i <= m and j < i. */
  function Tri(m: nat): nat
  {
    if m == 0 then 0 else Tri(m - 1) + m
  }

  /** Index, in the enumeration order, of the pair (i, j): the rows before i, then j. */
  function PairPosition(i: nat, j: nat): nat
    requires i >= 1
  {
    Tri(i - 1) + j
  }

  /** For each i in 1..m, a block holding i copies of i. */
  function SrcRows(m: nat): seq<seq<nat>>
  {
    seq(m, k requires 0 <= k < m => seq(k + 1, _ => k + 1))
  }

  /** For each i in 1..m, the block 0, 1, ..., i-1. */
  function TgtRows(m: nat): seq<seq<nat>>
  {
    seq(m, k requires 0 <= k < m => seq(k + 1, j requires 0 <= j <= k => j as nat))
  }

  /** Left-to-right concatenation of the blocks, as the source's reduce with list addition. */
  function Concat(blocks: seq<seq<nat>>): seq<nat>
  {
    if blocks == [] then [] else Concat(blocks[..|blocks| - 1]) + blocks[|blocks| - 1]
  }

  /**
   * Source indices: the concatenated blocks for i in 1 .. n-2 (nothing when
   * n <= 2), then one more entry, one past the last, or [0] when empty.
   */
  function SrcIndices(n: nat): (src: seq<nat>)
    ensures |src| == if n > 2 then Tri(n - 2) + 1 else 1
    ensures src[|src| - 1] == if n > 2 then n - 1 else 0
  {
    ConcatRows(if n > 2 then n - 2 else 0);
    var base := if n > 2 then Concat(SrcRows(n - 2)) else [];
    if base != [] then base + [base[|base| - 1] + 1] else [0]
  }

  /**
   * Target indices: the concatenated blocks for i in 1 .. n-2, then the last
   * entry of the already extended source list, or [0] when empty.
   */
  function TgtIndices(n: nat): (tgt: seq<nat>)
    ensures |tgt| == |SrcIndices(n)|
    ensures tgt[|tgt| - 1] == SrcIndices(n)[|SrcIndices(n)| - 1]
  {
    ConcatRows(if n > 2 then n - 2 else 0);
    var src := SrcIndices(n);
    var base := if n > 2 then Concat(TgtRows(n - 2)) else [];
    if base != [] then base + [src[|src| - 1]] else [0]
  }

  lemma {:induction false} TriMonotone(a: nat, b: nat)
    requires a <= b
    ensures Tri(a) <= Tri(b)
  {
    if a < b {
      TriMonotone(a, b - 1);
    }
  }

  lemma {:induction false} TriClosedForm(m: nat)
    ensures 2 * Tri(m) == m * (m + 1)
  {
    if m > 0 {
      TriClosedForm(m - 1);
      assert (m - 1) * m + 2 * m == m * (m + 1);
    }
  }

  /**
   * The concatenated blocks for rows 1 .. m hold Tri(m) pairs, and the pair at
   * position k is some (i, j) with 1 <= i <= m, j < i and k == PairPosition(i, j).
   */
  lemma {:induction false} ConcatRows(m: nat)
    ensures |Concat(SrcRows(m))| == Tri(m) && |Concat(TgtRows(m))| == Tri(m)
    ensures forall k :: 0 <= k < Tri(m) ==>
              1 <= Concat(SrcRows(m))[k] <= m &&
              Concat(TgtRows(m))[k] < Concat(SrcRows(m))[k] &&
              k == PairPosition(Concat(SrcRows(m))[k], Concat(TgtRows(m))[k])
    ensures m > 0 ==> Concat(SrcRows(m))[Tri(m) - 1] == m
  {
    if m > 0 {
      ConcatRows(m - 1);
      assert SrcRows(m)[..m - 1] == SrcRows(m - 1);
      assert TgtRows(m)[..m - 1] == TgtRows(m - 1);
      var s, t := Concat(SrcRows(m)), Concat(TgtRows(m));
      assert s == Concat(SrcRows(m - 1)) + seq(m, _ => m);
      assert t == Concat(TgtRows(m - 1)) + seq(m, j requires 0 <= j < m => j as nat);
      forall k | Tri(m - 1) <= k < Tri(m)
        ensures 1 <= s[k] <= m && t[k] < s[k] && k == PairPosition(s[k], t[k])
      {
        assert s[k] == m && t[k] == k - Tri(m - 1);
      }
    }
  }

  /** For n > 2 both lists are the concatenated blocks followed by the pair (n-1, n-1). */
  lemma PairIndicesUnfold(n: nat)
    requires n > 2
    ensures SrcIndices(n) == Concat(SrcRows(n - 2)) + [n - 1]
    ensures TgtIndices(n) == Concat(TgtRows(n - 2)) + [n - 1]
    ensures |Concat(SrcRows(n - 2))| == |Concat(TgtRows(n - 2))| == Tri(n - 2) > 0
  {
    ConcatRows(n - 2);
  }

  /** With at most two nodes both lists are the single trivial pair (0, 0). */
  lemma PairIndicesDegenerate(n: nat)
    requires n <= 2
    ensures SrcIndices(n) == [0] && TgtIndices(n) == [0]
  {
  }

  /** For n > 2 there are (n-1)(n-2)/2 + 1 pairs. */
  lemma PairIndicesCount(n: nat)
    requires n > 2
    ensures |SrcIndices(n)| == |TgtIndices(n)| == (n - 1) * (n - 2) / 2 + 1
  {
    PairIndicesUnfold(n);
    TriClosedForm(n - 2);
    assert (n - 2) * (n - 1) == (n - 1) * (n - 2);
  }

  /**
   * For n > 2 every pair but the last is (i, j) with 1 <= i <= n-2 and j < i,
   * sitting at PairPosition(i, j); the last pair is (n-1, n-1).
   */
  lemma PairIndicesEnumerate(n: nat)
    requires n > 2
    ensures |SrcIndices(n)| == |TgtIndices(n)|
    ensures forall k :: 0 <= k < |SrcIndices(n)| - 1 ==>
              1 <= SrcIndices(n)[k] <= n - 2 &&
              TgtIndices(n)[k] < SrcIndices(n)[k] &&
              k == PairPosition(SrcIndices(n)[k], TgtIndices(n)[k])
    ensures SrcIndices(n)[|SrcIndices(n)| - 1] == n - 1
    ensures TgtIndices(n)[|TgtIndices(n)| - 1] == n - 1
  {
    PairIndicesUnfold(n);
    ConcatRows(n - 2);
    var s, t := SrcIndices(n), TgtIndices(n);
    forall k | 0 <= k < |s| - 1
      ensures 1 <= s[k] <= n - 2 && t[k] < s[k] && k == PairPosition(s[k], t[k])
    {
      assert s[k] == Concat(SrcRows(n - 2))[k] && t[k] == Concat(TgtRows(n - 2))[k];
    }
  }

  /** A pair at an earlier position has a smaller source, or the same source and a smaller target. */
  lemma PositionOrder(i: nat, j: nat, i': nat, j': nat)
    requires 1 <= i && j < i && 1 <= i' && j' < i'
    requires PairPosition(i, j) < PairPosition(i', j')
    ensures i < i' || (i == i' && j < j')
  {
    if i > i' {
      TriMonotone(i', i - 1);
    }
  }

  /** Pairs are listed by increasing source index, then increasing target index. */
  lemma PairIndicesLexOrder(n: nat)
    requires n > 2
    ensures |SrcIndices(n)| == |TgtIndices(n)|
    ensures forall k, k' :: 0 <= k < k' < |SrcIndices(n)| - 1 ==>
              SrcIndices(n)[k] < SrcIndices(n)[k'] ||
              (SrcIndices(n)[k] == SrcIndices(n)[k'] && TgtIndices(n)[k] < TgtIndices(n)[k'])
  {
    PairIndicesEnumerate(n);
    var s, t := SrcIndices(n), TgtIndices(n);
    forall k, k' | 0 <= k < k' < |s| - 1
      ensures s[k] < s[k'] || (s[k] == s[k'] && t[k] < t[k'])
    {
      PositionOrder(s[k], t[k], s[k'], t[k']);
    }
  }

  /** Every pair (i, j) with 1 <= i <= n-2 and j < i is listed, at PairPosition(i, j). */
  lemma PairIndicesComplete(n: nat)
    requires n > 2
    ensures |SrcIndices(n)| == |TgtIndices(n)|
    ensures forall i, j :: 1 <= i <= n - 2 && 0 <= j < i ==>
              PairPosition(i, j) < |SrcIndices(n)| - 1 &&
              SrcIndices(n)[PairPosition(i, j)] == i && TgtIndices(n)[PairPosition(i, j)] == j
  {
    PairIndicesEnumerate(n);
    PairIndicesUnfold(n);
    var s, t := SrcIndices(n), TgtIndices(n);
    forall i, j | 1 <= i <= n - 2 && 0 <= j < i
      ensures PairPosition(i, j) < |s| - 1 && s[PairPosition(i, j)] == i && t[PairPosition(i, j)] == j
    {
      var k := PairPosition(i, j);
      TriMonotone(i, n - 2);
      assert k < Tri(i);
      var i', j' := s[k], t[k];
      if i' < i {
        TriMonotone(i', i - 1);
      } else if i' > i {
        TriMonotone(i, i' - 1);
      }
    }
  }

  /** For n >= 1 the lists have equal length and every index is a valid node, below n. */
  lemma PairIndicesInRange(n: nat)
    requires n >= 1
    ensures |SrcIndices(n)| == |TgtIndices(n)|
    ensures forall k :: 0 <= k < |SrcIndices(n)| ==> SrcIndices(n)[k] < n && TgtIndices(n)[k] < n
  {
    if n > 2 {
      PairIndicesEnumerate(n);
    }
  }

  /** The source list never decreases. */
  lemma SrcNonDecreasing(n: nat)
    ensures forall k, k' :: 0 <= k <= k' < |SrcIndices(n)| ==> SrcIndices(n)[k] <= SrcIndices(n)[k']
  {
    if n > 2 {
      PairIndicesEnumerate(n);
      PairIndicesLexOrder(n);
    }
  }

  /** `torch.index_select` along the node axis: entry k is hs[idx[k]]; an index past the end is an error. */
  function IndexSelect<T>(hs: seq<T>, idx: seq<nat>): (r: Result<seq<T>, GatherError>)
    ensures r.Ok? <==> forall k :: 0 <= k < |idx| ==> idx[k] < |hs|
    ensures r.Ok? ==> |r.value| == |idx| && forall k :: 0 <= k < |idx| ==> r.value[k] == hs[idx[k]]
  {
    if idx == [] then Ok([])
    else if idx[0] >= |hs| then Err(IndexOutOfRange(idx[0]))
    else
      var rest :- IndexSelect(hs, idx[1..]);
      Ok([hs[idx[0]]] + rest)
  }

  /**
   * The operands of edge generation: the source and target node hidden states
   * of every pair, gathered from the n = |hs| node hidden states.
   */
  function EdgeOperands<T>(hs: seq<T>): (r: Result<(seq<T>, seq<T>), GatherError>)
    ensures r.Ok? ==> |r.value.0| == |SrcIndices(|hs|)| && |r.value.1| == |TgtIndices(|hs|)|
    ensures r.Ok? ==> forall k :: 0 <= k < |r.value.0| ==>
                        SrcIndices(|hs|)[k] < |hs| && r.value.0[k] == hs[SrcIndices(|hs|)[k]]
    ensures r.Ok? ==> forall k :: 0 <= k < |r.value.1| ==>
                        TgtIndices(|hs|)[k] < |hs| && r.value.1[k] == hs[TgtIndices(|hs|)[k]]
    ensures |hs| == 0 ==> r.Err?
  {
    var srcIdx, tgtIdx := SrcIndices(|hs|), TgtIndices(|hs|);
    var srcNodes := IndexSelect(hs, srcIdx);
    var tgtNodes := IndexSelect(hs, tgtIdx);
    if srcNodes.Err? then Err(srcNodes.error)
    else if tgtNodes.Err? then Err(tgtNodes.error)
    else Ok((srcNodes.value, tgtNodes.value))
  }

  /**
   * With at least one node hidden state the gathers succeed: step PairPosition(i, j)
   * pairs hs[i] with hs[j], the last step pairs hs[n-1] with itself, and with
   * at most two states the single step pairs hs[0] with itself.
   */
  lemma EdgeOperandsPairs<T>(hs: seq<T>)
    requires |hs| >= 1
    ensures EdgeOperands(hs).Ok?
    ensures var (srcNodes, tgtNodes) := EdgeOperands(hs).value;
            |srcNodes| == |tgtNodes| &&
            (|hs| <= 2 ==> srcNodes == [hs[0]] && tgtNodes == [hs[0]]) &&
            (|hs| > 2 ==>
               srcNodes[|srcNodes| - 1] == hs[|hs| - 1] && tgtNodes[|tgtNodes| - 1] == hs[|hs| - 1] &&
               forall i, j :: 1 <= i <= |hs| - 2 && 0 <= j < i ==>
                 PairPosition(i, j) < |srcNodes| - 1 &&
                 srcNodes[PairPosition(i, j)] == hs[i] && tgtNodes[PairPosition(i, j)] == hs[j])
  {
    var n := |hs|;
    PairIndicesInRange(n);
    if n > 2 {
      PairIndicesEnumerate(n);
      PairIndicesComplete(n);
    }
  }
}
