/** chronoid/ksuid/encode_batch.c, the scalar batch that every kernel must reproduce. */
module EncodeScalar {
  import opened Words
  import opened Base62Text
  import Base62

  /** The reference output: the encodings one after the other. */
  function BatchText(ids: seq<Ksuid>): (s: seq<byte>)
    ensures |s| == STRING_LEN * |ids|
  {
    seq(STRING_LEN * |ids|, i requires 0 <= i < STRING_LEN * |ids| =>
      assert 0 <= i / STRING_LEN < |ids|;
      Encoding(ids[i / STRING_LEN])[i % STRING_LEN])
  }

  lemma {:induction false} CellIndex(k: nat, c: nat)
    requires c < STRING_LEN
    ensures (STRING_LEN * k + c) / STRING_LEN == k && (STRING_LEN * k + c) % STRING_LEN == c
  {
  }

  /** Slice [27k, 27k + 27) of the reference output is the text of identifier k. */
  lemma {:induction false} BatchSlice(ids: seq<Ksuid>, k: nat)
    requires k < |ids|
    ensures forall i | STRING_LEN * k <= i < STRING_LEN * k + STRING_LEN ::
      BatchText(ids)[i] == Encoding(ids[k])[i - STRING_LEN * k]
  {
    hide Encoding;
    forall i | STRING_LEN * k <= i < STRING_LEN * k + STRING_LEN
      ensures BatchText(ids)[i] == Encoding(ids[k])[i - STRING_LEN * k]
    {
      CellIndex(k, i - STRING_LEN * k);
    }
  }

  /** `chronoid_ksuid_string_batch_scalar`, from identifier `first` on, into the output at `out + off`. */
  method StringBatchScalar(ids: seq<Ksuid>, first: nat, out: array<byte>, off: nat)
    requires first <= |ids| && off + STRING_LEN * |ids| <= out.Length
    modifies out
    ensures forall p :: off + STRING_LEN * first <= p < off + STRING_LEN * |ids| ==> out[p] == BatchText(ids)[p - off]
    ensures forall p | 0 <= p < off + STRING_LEN * first || off + STRING_LEN * |ids| <= p < out.Length ::
      out[p] == old(out[p])
  {
    hide Encoding, BatchText;
    for i := first to |ids|
      invariant forall p :: off + STRING_LEN * first <= p < off + STRING_LEN * i ==> out[p] == BatchText(ids)[p - off]
      invariant forall p | 0 <= p < off + STRING_LEN * first || off + STRING_LEN * |ids| <= p < out.Length ::
        out[p] == old(out[p])
    {
      Base62.Encode(out, off + STRING_LEN * i, ids[i]);
      BatchSlice(ids, i);
    }
  }
}
