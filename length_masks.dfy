/**
 * Length and padding masks of models.py: `sequence_mask`, `get_full_attention_mask`
 * and the per-row count of non-pad node ids (`nodes_lens` in `Decoder.forward`).
 * One row of a batch tensor is a `seq`; a batch is a `seq` of rows.
 */
module LengthMasks {
  import opened Wrappers

  /** Raised by `lengths.max()` on an empty tensor. */
  datatype MaskError = EmptyLengths

  /** Number of true entries of one row (the sum of the mask as integers). */
  function CountTrue(s: seq<bool>): (c: nat)
    ensures c <= |s|
  {
    if s == [] then 0 else CountTrue(s[..|s| - 1]) + (if s[|s| - 1] then 1 else 0)
  }

  /** Comparison of each id with `pad`, element by element. */
  function NonPad(ids: seq<int>, pad: int): seq<bool>
  {
    seq(|ids|, t requires 0 <= t < |ids| => ids[t] != pad)
  }

  /** `get_full_attention_mask`: a token is visible exactly when its id is not 0. */
  function FullAttentionMask(ids: seq<int>): (m: seq<bool>)
    ensures |m| == |ids|
    ensures forall t :: 0 <= t < |ids| ==> (m[t] <==> ids[t] != 0)
    ensures (forall t :: 0 <= t < |ids| ==> ids[t] != 0) ==> CountTrue(m) == |ids|
  {
    AllTrueCount(NonPad(ids, 0));
    NonPad(ids, 0)
  }

  /** A row with no false entry counts its full width. */
  lemma {:induction false} AllTrueCount(s: seq<bool>)
    ensures (forall t :: 0 <= t < |s| ==> s[t]) ==> CountTrue(s) == |s|
  {
    if s != [] {
      AllTrueCount(s[..|s| - 1]);
    }
  }

  /** `nodes_lens`: the number of non-pad ids in each row. */
  function NodesLens(rows: seq<seq<int>>, pad: int): (lens: seq<nat>)
    ensures |lens| == |rows|
    ensures forall b :: 0 <= b < |rows| ==> lens[b] <= |rows[b]|
  {
    seq(|rows|, b requires 0 <= b < |rows| => CountTrue(NonPad(rows[b], pad)))
  }

  /** `lengths.max()` of a non-empty tensor. */
  function Max(s: seq<nat>): (m: nat)
    requires |s| > 0
    ensures forall k :: 0 <= k < |s| ==> s[k] <= m
    ensures exists k :: 0 <= k < |s| && s[k] == m
  {
    if |s| == 1 then s[0]
    else
      var m' := Max(s[..|s| - 1]);
      assert forall k :: 0 <= k < |s| - 1 ==> s[..|s| - 1][k] == s[k];
      if s[|s| - 1] > m' then s[|s| - 1] else m'
  }

  /** True when `sequence_mask` falls back to the largest length for its width. */
  predicate UsesDefaultWidth(maxLen: Option<nat>)
  {
    maxLen.None? || maxLen.value == 0
  }

  /**
   * The mask width: Python's `or` keeps `max_len` only when it is
   * present and non-zero, and otherwise falls back to the largest length; the
   * maximum of an empty tensor is an error.
   */
  function MaskWidth(lengths: seq<nat>, maxLen: Option<nat>): (r: Result<nat, MaskError>)
    ensures r.Ok? <==> !UsesDefaultWidth(maxLen) || |lengths| > 0
    ensures r.Ok? && !UsesDefaultWidth(maxLen) ==> r.value == maxLen.value
    ensures r.Ok? && UsesDefaultWidth(maxLen) ==>
              (forall b :: 0 <= b < |lengths| ==> lengths[b] <= r.value) &&
              (exists b :: 0 <= b < |lengths| && lengths[b] == r.value)
  {
    if maxLen.Some? && maxLen.value != 0 then Ok(maxLen.value)
    else if |lengths| == 0 then Err(EmptyLengths)
    else Ok(Max(lengths))
  }

  /**
   * `sequence_mask`: row b of the mask is true at column t exactly when
   * t < lengths[b]; all rows share one width.
   */
  function SequenceMask(lengths: seq<nat>, maxLen: Option<nat>): (r: Result<seq<seq<bool>>, MaskError>)
    ensures r.Ok? <==> !UsesDefaultWidth(maxLen) || |lengths| > 0
    ensures r.Ok? ==> |r.value| == |lengths|
    ensures r.Ok? ==> forall b :: 0 <= b < |lengths| ==> |r.value[b]| == |r.value[0]|
    ensures r.Ok? ==> forall b, t :: 0 <= b < |lengths| && 0 <= t < |r.value[b]| ==>
                        (r.value[b][t] <==> t < lengths[b])
    ensures r.Ok? && !UsesDefaultWidth(maxLen) ==>
              forall b :: 0 <= b < |lengths| ==> |r.value[b]| == maxLen.value
    ensures r.Ok? && UsesDefaultWidth(maxLen) ==>
              (forall b :: 0 <= b < |lengths| ==> lengths[b] <= |r.value[b]|) &&
              (exists b :: 0 <= b < |lengths| && lengths[b] == |r.value[b]|)
  {
    var width :- MaskWidth(lengths, maxLen);
    Ok(seq(|lengths|, b requires 0 <= b < |lengths| => seq(width, t => t < lengths[b])))
  }

  /** A row whose pad ids all come after its non-pad ids. */
  predicate RightPadded(row: seq<int>, pad: int)
  {
    forall t, t' :: 0 <= t < t' < |row| && row[t] == pad ==> row[t'] == pad
  }

  /** A row that is true on a prefix of length k has k true entries (when k fits). */
  lemma {:induction false} CountPrefix(w: nat, k: nat)
    ensures CountTrue(seq(w, t => t < k)) == if k < w then k else w
  {
    if w > 0 {
      assert seq(w, t => t < k)[..w - 1] == seq(w - 1, t => t < k);
      CountPrefix(w - 1, k);
    }
  }

  /**
   * Counting the true entries of each row of `sequence_mask(lengths)` gives the
   * lengths back, capped by the width; with the default width nothing is capped.
   */
  lemma SequenceMaskRecoversLengths(lengths: seq<nat>, maxLen: Option<nat>)
    requires SequenceMask(lengths, maxLen).Ok?
    ensures forall b :: 0 <= b < |lengths| ==>
              CountTrue(SequenceMask(lengths, maxLen).value[b]) ==
                (if lengths[b] < |SequenceMask(lengths, maxLen).value[b]| then lengths[b]
                 else |SequenceMask(lengths, maxLen).value[b]|)
    ensures UsesDefaultWidth(maxLen) ==>
              forall b :: 0 <= b < |lengths| ==> CountTrue(SequenceMask(lengths, maxLen).value[b]) == lengths[b]
  {
    var m := SequenceMask(lengths, maxLen).value;
    forall b | 0 <= b < |lengths|
      ensures CountTrue(m[b]) == if lengths[b] < |m[b]| then lengths[b] else |m[b]|
    {
      assert m[b] == seq(|m[b]|, t => t < lengths[b]);
      CountPrefix(|m[b]|, lengths[b]);
    }
  }

  /** In a right-padded row the non-pad ids are exactly the first `nodes_lens` positions. */
  lemma {:induction false} RightPaddedPrefix(row: seq<int>, pad: int)
    requires RightPadded(row, pad)
    ensures forall t :: 0 <= t < |row| ==> (row[t] != pad <==> t < CountTrue(NonPad(row, pad)))
  {
    if row != [] {
      var front := row[..|row| - 1];
      assert RightPadded(front, pad);
      assert NonPad(row, pad)[..|row| - 1] == NonPad(front, pad);
      RightPaddedPrefix(front, pad);
      if row[|row| - 1] != pad {
        forall t | 0 <= t < |front|
          ensures front[t] != pad
        {
        }
      }
    }
  }

  /**
   * `sequence_mask(nodes_lens, width)` rebuilds the non-pad mask of a batch of
   * right-padded rows of that width: the two length masks agree.
   */
  lemma SequenceMaskOfNodesLens(rows: seq<seq<int>>, pad: int, width: nat)
    requires width > 0
    requires forall b :: 0 <= b < |rows| ==> |rows[b]| == width && RightPadded(rows[b], pad)
    ensures SequenceMask(NodesLens(rows, pad), Some(width)) ==
              Ok(seq(|rows|, b requires 0 <= b < |rows| => NonPad(rows[b], pad)))
  {
    var lens := NodesLens(rows, pad);
    var m := SequenceMask(lens, Some(width)).value;
    var expected := seq(|rows|, b requires 0 <= b < |rows| => NonPad(rows[b], pad));
    forall b | 0 <= b < |rows|
      ensures m[b] == expected[b]
    {
      RightPaddedPrefix(rows[b], pad);
      assert lens[b] == CountTrue(NonPad(rows[b], pad));
      assert |m[b]| == width == |expected[b]|;
      forall t | 0 <= t < width
        ensures m[b][t] == expected[b][t]
      {
      }
    }
    assert m == expected;
  }

  /**
   * `get_full_attention_mask` of a right-padded row equals the length mask built
   * from its count of non-zero ids.
   */
  lemma FullMaskIsLengthMask(ids: seq<int>)
    requires |ids| > 0 && RightPadded(ids, 0)
    ensures SequenceMask(NodesLens([ids], 0), Some(|ids|)).Ok?
    ensures SequenceMask(NodesLens([ids], 0), Some(|ids|)).value[0] == FullAttentionMask(ids)
  {
    SequenceMaskOfNodesLens([ids], 0, |ids|);
  }
}
