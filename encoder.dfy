/**
 * The integer and boolean glue of `GraphTrans.encoder` for one batch element:
 * the edge mask and the adjacency indicator derived from the edge-type ids, the
 * joint text+graph token sequence with its segment ids, the structural
 * attention mask and the memory mask. The pretrained text encoder that consumes
 * them is not part of this model.
 */
module GraphTransEncoder {
  import opened StructuralMask
  import LengthMasks

  /**
   * Rectangular edge ids with at least as many rows as columns, which the
   * update of the adjacency diagonal (indexed over the columns) needs.
   */
  predicate IsEdgeGrid(edges: seq<seq<int>>)
  {
    IsRectangular(edges) && Cols(edges) <= |edges|
  }

  /** `edge_masks`: an entry carries an edge when its id is neither pad nor `<blank>`. */
  function EdgeMask(edges: seq<seq<int>>, pad: int, blank: int): (m: seq<seq<bool>>)
    ensures |m| == |edges| && forall u :: 0 <= u < |edges| ==> |m[u]| == |edges[u]|
    ensures forall u, v :: 0 <= u < |edges| && 0 <= v < |edges[u]| ==>
              (m[u][v] <==> edges[u][v] != pad && edges[u][v] != blank)
    ensures IsRectangular(edges) ==> IsRectangular(m) && Cols(m) == Cols(edges)
  {
    seq(|edges|, u requires 0 <= u < |edges| =>
      seq(|edges[u]|, v requires 0 <= v < |edges[u]| => edges[u][v] != pad && edges[u][v] != blank))
  }

  /** `adj_masks`: the edge mask with its diagonal forced true. */
  ghost function Adjacency(edges: seq<seq<int>>, pad: int, blank: int): seq<seq<bool>>
  {
    var m := EdgeMask(edges, pad, blank);
    seq(|m|, u requires 0 <= u < |m| => seq(|m[u]|, v requires 0 <= v < |m[u]| => u == v || m[u][v]))
  }

  /**
   * Adjacency derivation: a node pair is adjacent exactly when it is a self-pair or
   * its edge id is neither pad nor blank; off the diagonal it is the edge mask.
   */
  lemma AdjacencyDerivation(edges: seq<seq<int>>, pad: int, blank: int)
    requires IsEdgeGrid(edges)
    ensures IsRectangular(Adjacency(edges, pad, blank)) && |Adjacency(edges, pad, blank)| == |edges|
    ensures forall u, v :: 0 <= u < |edges| && 0 <= v < |edges[u]| ==>
              (Adjacency(edges, pad, blank)[u][v] <==> u == v || (edges[u][v] != pad && edges[u][v] != blank))
    ensures forall u, v :: 0 <= u < |edges| && 0 <= v < |edges[u]| && u != v ==>
              Adjacency(edges, pad, blank)[u][v] == EdgeMask(edges, pad, blank)[u][v]
  {
    var a := Adjacency(edges, pad, blank);
    if |edges| > 0 {
      assert Cols(a) == Cols(edges);
    }
  }

  /** Clones the edge mask into a fresh matrix and sets its diagonal in place. */
  method AdjacencyMask(edges: seq<seq<int>>, pad: int, blank: int) returns (adj: array2<bool>)
    requires IsEdgeGrid(edges)
    ensures fresh(adj)
    ensures Matrix(adj) == Adjacency(edges, pad, blank)
  {
    var m := EdgeMask(edges, pad, blank);
    var rows, cols := |edges|, Cols(edges);
    adj := new bool[rows, cols]((u, v) requires 0 <= u < rows && 0 <= v < cols => m[u][v]);
    forall d | 0 <= d < cols {
      adj[d, d] := true;
    }
    AdjacencyDerivation(edges, pad, blank);
    var a := Adjacency(edges, pad, blank);
    forall u | 0 <= u < rows
      ensures Matrix(adj)[u] == a[u]
    {
      assert |Matrix(adj)[u]| == cols == |a[u]|;
    }
  }

  /** The tokenizer's fields for one row of tokens; all three have the same width. */
  datatype Encoding = Encoding(inputIds: seq<int>, tokenTypeIds: seq<int>, attentionMask: seq<int>)

  predicate WellFormed(e: Encoding)
  {
    |e.tokenTypeIds| == |e.inputIds| && |e.attentionMask| == |e.inputIds|
  }

  /**
   * The text fields followed by the graph fields, concatenated field by field, and `text_len`, the
   * width of the text part.
   */
  function JoinTextAndGraph(text: Encoding, graph: Encoding): (r: (Encoding, nat))
    requires WellFormed(text)
    ensures var (joint, textLen) := r;
            textLen == |text.inputIds| &&
            |joint.inputIds| == textLen + |graph.inputIds| &&
            joint.inputIds[..textLen] == text.inputIds && joint.inputIds[textLen..] == graph.inputIds &&
            |joint.tokenTypeIds| == textLen + |graph.tokenTypeIds| &&
            joint.tokenTypeIds[..textLen] == text.tokenTypeIds && joint.tokenTypeIds[textLen..] == graph.tokenTypeIds &&
            (WellFormed(graph) ==> WellFormed(joint))
  {
    var joint := Encoding(text.inputIds + graph.inputIds, text.tokenTypeIds + graph.tokenTypeIds,
                          text.attentionMask + graph.attentionMask);
    (joint, |text.attentionMask|)
  }

  /** Sets the segment id of every position from `text_len` onward to 1 (the graph suffix). */
  method MarkGraphSegment(tokenTypeIds: array<int>, textLen: nat)
    modifies tokenTypeIds
    ensures forall t :: 0 <= t < tokenTypeIds.Length ==>
              tokenTypeIds[t] == if t < textLen then old(tokenTypeIds[t]) else 1
  {
    forall t | textLen <= t < tokenTypeIds.Length {
      tokenTypeIds[t] := 1;
    }
  }

  /**
   * Everything `encoder` hands to the text encoder, and the memory mask it
   * returns: joint ids, segment ids, the structural attention mask over the
   * adjacency derived from `edges`, and the non-zero test of the joint ids.
   */
  method EncoderInputs(edges: seq<seq<int>>, edgePad: int, blank: int, nodePos: seq<Span>,
                       text: Encoding, graph: Encoding)
    returns (inputIds: seq<int>, tokenTypeIds: array<int>, attentionMask: array2<bool>,
             memMasks: seq<bool>, textLen: nat)
    requires IsEdgeGrid(edges)
    requires WellFormed(text) && WellFormed(graph)
    ensures textLen == |text.inputIds|
    ensures inputIds == text.inputIds + graph.inputIds
    ensures fresh(tokenTypeIds)
    ensures tokenTypeIds[..] == text.tokenTypeIds + seq(|graph.tokenTypeIds|, _ => 1)
    ensures fresh(attentionMask)
    ensures attentionMask.Length0 == |inputIds| && attentionMask.Length1 == |inputIds|
    ensures forall i, j :: 0 <= i < |inputIds| && 0 <= j < |inputIds| ==>
              attentionMask[i, j] == MaskAt(Adjacency(edges, edgePad, blank), nodePos, inputIds, textLen, i, j)
    ensures |memMasks| == |inputIds|
    ensures forall t :: 0 <= t < |inputIds| ==> (memMasks[t] <==> inputIds[t] != 0)
  {
    var adj := AdjacencyMask(edges, edgePad, blank);
    var joined := JoinTextAndGraph(text, graph);
    var joint := joined.0;
    textLen := joined.1;
    inputIds := joint.inputIds;
    assert inputIds == inputIds[..textLen] + inputIds[textLen..];
    var types := joint.tokenTypeIds;
    tokenTypeIds := new int[|types|](t requires 0 <= t < |types| => types[t]);
    MarkGraphSegment(tokenTypeIds, textLen);
    assert |types| == textLen + |graph.tokenTypeIds|;
    forall t | 0 <= t < tokenTypeIds.Length
      ensures tokenTypeIds[..][t] == (text.tokenTypeIds + seq(|graph.tokenTypeIds|, _ => 1))[t]
    {
      if t < textLen {
        assert types[..textLen][t] == types[t];
      }
    }
    attentionMask := GetAttentionMask(adj, nodePos, inputIds, textLen);
    memMasks := LengthMasks.FullAttentionMask(inputIds);
  }
}
