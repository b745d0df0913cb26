# Graph-edit model: masks and pair indices

This project models, in Dafny, the integer and boolean bookkeeping around the
neural parts of the graph-modification model in `code/models.py`
(SceneGraphModification). The model takes a source graph and an instruction
and encodes them jointly. It then decodes a target graph: first a node
sequence, then one edge type per node pair. The parts modelled are:

- **Structural attention mask** (`get_attention_mask`), in module
  `StructuralMask`. It is the visibility matrix over the joint sequence of text
  tokens followed by graph-node tokens. The method `GetAttentionMask` builds it
  in place on an `array2<bool>`, in the source's order:
  1. It sets the text rows, the text columns and the diagonal.
  2. It clears every pad row and pad column (input id 0).
  3. For every adjacent node pair, it sets the block spanned by the two
     nodes' token spans, each shifted past the text.

  `MaskAt` is the finished matrix as a predicate. The lemmas state what the
  matrix means.
- **Encoder glue** (`GraphTrans.encoder`), in module `GraphTransEncoder`:
  - the edge mask;
  - the adjacency indicator (the edge mask with its diagonal forced true,
    set in place);
  - the joint token sequence and `text_len`;
  - the segment ids, where the graph suffix is set to 1 in place;
  - the memory mask `input_ids != 0`.
- **Node-pair index tables** (`Decoder.forward`), in module `DecoderPairs`.
  They are built as the source builds them: list comprehensions, `reduce`
  concatenation, then one appended pair. `IndexSelect` gathers hidden states
  by index. Hidden states are an opaque type `T`.
- **Length masks**, in module `LengthMasks`: `sequence_mask`,
  `get_full_attention_mask` and `nodes_lens`.

Each operation models one batch element. The masks and the encoder inputs are
computed for each element on its own. The pair tables are not: they are built
once for the whole batch (see below).

Behaviour of the code worth noting:

- A self-loop on node u paints the whole block of u's span by u's span, not
  only the diagonal. Lemma `SelfLoopsOnly` states what a graph without edges
  between distinct nodes actually gives.
- For n > 2 the pair tables hold (n−1)(n−2)/2 + 1 pairs: the Tri(n−2)
  strictly-lower-triangular pairs (i, j) with 1 <= i <= n−2 and j < i, plus
  the appended pair (n−1, n−1). For n <= 2 they hold the single pair (0, 0).
- The node count n of the pair tables is the second dimension of the decoder's
  node hidden states (models.py:505). After `pad_packed_sequence`
  (models.py:454) that is the longest `nodes_lens` in the batch, so one pair
  table is shared by every batch element. For an element with fewer nodes,
  the pairs past its own length, the final pair (n−1, n−1) included, gather
  zero-padded hidden states. In the model, `hs` is one element's padded row
  of hidden states, of length n.
- Pad rows and columns are not protected against painting. A node span that
  covers a pad re-enables it (lemma `PadIsolationNeedsDisjointSpans`). Pad
  isolation holds only when no span covers a pad (lemma `PadIsolation`).
- `sequence_mask` uses `max_len or lengths.max()`. A `max_len` of 0 therefore
  falls back to the maximum, and an empty `lengths` with no usable `max_len`
  is an error.

## Model

| member | source | states |
|---|---|---|
| `StructuralMask.GetAttentionMask` | code/models.py:36-62 | returns a fresh seq×seq matrix whose every cell equals `MaskAt`: (text row, text column or diagonal, and neither position a pad) or painted by an in-table adjacent pair |
| `StructuralMask.IsolatePads` | code/models.py:43-46 | in place: a cell stays set exactly when it was set and neither its row nor its column position holds a pad id |
| `StructuralMask.PaintAdjacentPairs` | code/models.py:48-60 | in place: a cell is set afterwards exactly when it was set before or some in-table adjacent pair's shifted span block covers it |
| `StructuralMask.PaintBlock` | code/models.py:60 | in place: the cells of the half-open row and column ranges become true; every other cell keeps its value |
| `StructuralMask.PaintedIff` | code/models.py:48-60 | the painting loop over all (u, v) sets cell (i, j) exactly when some pair with adj[u][v], both nodes inside the position table, has i in u's shifted span and j in v's |
| `StructuralMask.TextAndSelfVisibility` | code/models.py:39-46 | a cell in a text row or text column is visible exactly when neither position is a pad; a non-pad position sees itself |
| `StructuralMask.PadIsolation` | code/models.py:43-60 | when no shifted node span covers a pad, every pad position's row and column are all false, its own cell included |
| `StructuralMask.PadIsolationNeedsDisjointSpans` | code/models.py:43-60 | the premise is needed: with a self-adjacent node whose span covers a pad, the pad's own cell is visible |
| `StructuralMask.GraphBlockVisibility` | code/models.py:48-60 | for distinct non-pad positions past the text, visibility holds iff some adjacent in-table pair (u, v) has i in span u and j in span v (shifted by text_len) |
| `StructuralMask.OutOfTableNodesIgnored` | code/models.py:50-51 | clearing all adjacency of nodes beyond the position table leaves every cell unchanged |
| `StructuralMask.SelfLoopsOnly` | code/models.py:48-60 | with self-loops only, distinct non-pad graph positions see each other iff both lie in the span of one self-adjacent in-table node |
| `StructuralMask.SymmetricMask` | code/models.py:36-62 | a symmetric adjacency yields a symmetric mask |
| `StructuralMask.FullyConnectedAllVisible` | code/models.py:36-62 | with all pairs adjacent and every graph position inside some node span, every pair of non-pad positions is visible |
| `GraphTransEncoder.EdgeMask` | code/models.py:142 | the mask has the edges' shape, and entry (u, v) holds iff the edge id is neither pad nor blank |
| `GraphTransEncoder.AdjacencyDerivation` | code/models.py:142-146 | adj[u][v] iff u == v or the edge id is neither pad nor blank; off the diagonal adj equals the edge mask; adj has the edges' shape |
| `GraphTransEncoder.AdjacencyMask` | code/models.py:144-146 | the cloned edge mask with its diagonal set in place equals the adjacency indicator |
| `GraphTransEncoder.JoinTextAndGraph` | code/models.py:158-162 | the joint ids and segment ids are the text fields followed by the graph fields, and text_len is the text width |
| `GraphTransEncoder.MarkGraphSegment` | code/models.py:164 | segment ids from text_len onward become 1; the prefix is unchanged |
| `GraphTransEncoder.EncoderInputs` | code/models.py:140-174 | joint ids = text ++ graph; segment ids = text's, then all 1; the attention mask is `MaskAt` over the derived adjacency; memory mask[t] iff id[t] != 0 |
| `DecoderPairs.SrcIndices` | code/models.py:507-508 | for n > 2 the table has Tri(n−2) + 1 entries and ends with n−1; otherwise it is one entry, 0 |
| `DecoderPairs.TgtIndices` | code/models.py:513-514 | the table is as long as the source table and ends with the source table's last entry |
| `DecoderPairs.ConcatRows` | code/models.py:507 | the reduced comprehension blocks for rows 1..m hold Tri(m) pairs, each (i, j) with 1 <= i <= m, j < i, at position Tri(i-1)+j |
| `DecoderPairs.PairIndicesUnfold` | code/models.py:507-514 | for n > 2 both tables are the reduced blocks followed by n−1: the target append reads the already extended source list |
| `DecoderPairs.PairIndicesDegenerate` | code/models.py:507-514 | for n <= 2 both tables are [0] |
| `DecoderPairs.PairIndicesCount` | code/models.py:505-514 | for n > 2 both tables have (n−1)(n−2)/2 + 1 entries |
| `DecoderPairs.PairIndicesEnumerate` | code/models.py:507-514 | for n > 2 each pair but the last is (i, j) with 1 <= i <= n−2, j < i, at position Tri(i−1)+j; the last pair is (n−1, n−1) |
| `DecoderPairs.PairIndicesLexOrder` | code/models.py:507-514 | the pairs before the last are in strictly increasing order of source index, then target index |
| `DecoderPairs.PairIndicesComplete` | code/models.py:507-514 | every (i, j) with 1 <= i <= n−2 and j < i occurs, at position Tri(i−1)+j |
| `DecoderPairs.PairIndicesInRange` | code/models.py:505-516 | for n >= 1 the tables have equal length and every index is below n, so both gathers are in range |
| `DecoderPairs.SrcNonDecreasing` | code/models.py:507-508 | the source table never decreases |
| `DecoderPairs.IndexSelect` | code/models.py:510 | gathering succeeds iff every index is in range, and then entry k is hs[idx[k]] |
| `DecoderPairs.EdgeOperands` | code/models.py:505-516 | the source and target operands are the hidden states at the source and target indices; no node states is an error |
| `DecoderPairs.EdgeOperandsPairs` | code/models.py:505-516 | with n >= 1 states both gathers succeed; step Tri(i−1)+j pairs hs[i] with hs[j], the last step pairs hs[n−1] with itself, and for n <= 2 the one step pairs hs[0] with itself |
| `LengthMasks.SequenceMask` | code/models.py:21-30 | succeeds iff a non-zero max_len is given or lengths is non-empty; mask[b][t] iff t < lengths[b]; rows share one width, max_len when given, otherwise the largest length |
| `LengthMasks.MaskWidth` | code/models.py:26 | succeeds iff a non-zero max_len is given or lengths is non-empty; the width is max_len when given, otherwise a length that bounds every length |
| `LengthMasks.FullAttentionMask` | code/models.py:32-33 | one entry per id, true iff the id is not 0; with no zero id every entry is true |
| `LengthMasks.Max` | code/models.py:26 | the maximum bounds every length and is one of them |
| `LengthMasks.SequenceMaskRecoversLengths` | code/models.py:21-30 | each row of the mask has min(lengths[b], width) true entries; with the default width, exactly lengths[b] |
| `LengthMasks.NodesLens` | code/models.py:502 | one count per row, never more than the row width |
| `LengthMasks.RightPaddedPrefix` | code/models.py:502 | in a right-padded row the non-pad ids are exactly the first nodes_lens positions |
| `LengthMasks.SequenceMaskOfNodesLens` | code/models.py:21-30 | for right-padded rows of one width, sequence_mask(nodes_lens, width) is the non-pad mask |
| `LengthMasks.FullMaskIsLengthMask` | code/models.py:32-33 | for a right-padded row, get_full_attention_mask equals the length mask of its non-zero count |

## Left out

- The pretrained text encoder (`AutoModel.from_pretrained` and the
  `self.bert(...)` call, models.py:95, 168-171). `EncoderInputs` produces
  exactly its inputs and the memory mask. The memory tensor itself is foreign
  floating-point output.
- The edge embedding and its zeroing by the edge mask (models.py:141, 148).
  Embeddings are floating point. The mask they use is `EdgeMask`.
- GRU decoders, Luong attention, `gating`, embedding scaling, the weight-tied
  output projections and dropout (models.py:71-75, 313-390, 438-495). These
  are floating-point numerics.
- `compute_loss` (models.py:106-131). It is floating-point cross-entropy.
- The unused transformer boilerplate `Encoder`, `LayerNorm`,
  `SublayerConnection`, `EncoderLayer`, `attention`, `MultiHeadedAttention`,
  `PositionwiseFeedForward`, `PositionalEncoding` and `clones`.
- `pack_padded_sequence`/`pad_packed_sequence`, device moves and the sharing
  of one embedding object between nodes and edges. The node count n of the
  pair tables is taken as the length of the padded node hidden-state
  sequence, which is the batch-wide maximum of `nodes_lens`.
- The batch dimension. Every operation models one batch element. The masks
  and encoder inputs are per element. The pair tables depend on the batch
  only through n, which is a parameter here.
- `GraphTransEncoder.AdjacencyMask` requires at least as many rows as columns
  of edge ids, and so do `GraphTransEncoder.AdjacencyDerivation` and
  `GraphTransEncoder.EncoderInputs`. With fewer rows, the diagonal update at models.py:146 indexes
  a row that does not exist and raises an IndexError; that error path is
  not modelled.
- Node positions are natural numbers, so negative Python slice bounds are not
  modelled. Slices past the end are clipped, as in Python.
- `GraphTransEncoder.JoinTextAndGraph` requires the tokenizer's three fields
  of the text to have one width. The source takes `text_len` from the last
  field it concatenates.
- Integer widths: all ids, lengths and indices are unbounded integers. The
  source's 64-bit tensors never approach their limits here.
