/** chronoid/uuidv7/uuidv7.c, text conversion, and monotonicity carried to the printed strings. */
module Uuidv7 {
  import opened Positional
  import opened Words
  import opened UuidLayout
  import opened HexText
  import HexSimd
  import opened UuidSequence

  datatype TextErr = PARSED | ERR_STR_SIZE | ERR_STR_VALUE

  /** `chronoid_uuidv7_parse`: a failure leaves `out` as it was. */
  method Parse(out: array<byte>, s: seq<byte>) returns (e: TextErr)
    requires out.Length == 16
    modifies out
    ensures e == if |s| != TEXT_LEN then ERR_STR_SIZE else if Canonical(s) then PARSED else ERR_STR_VALUE
    ensures out[..] == if e == PARSED then Decoded(s) else old(out[..])
    ensures e == PARSED <==> IsTextInAnyCase(s)
    ensures e == PARSED ==> Text(out[..]) == Lowered(s)
  {
    hide Decoded, Text, Lowered, IsTextInAnyCase;
    AcceptsTextsInAnyCase(s);
    if |s| != TEXT_LEN {
      return ERR_STR_SIZE;
    }
    var tmp := new byte[16];
    var ok := HexText.Decode(tmp, s);
    if !ok {
      return ERR_STR_VALUE;
    }
    forall i | 0 <= i < 16 {
      out[i] := tmp[i];
    }
    assert out[..] == tmp[..];
    return PARSED;
  }

  /** `chronoid_uuidv7_format` and back. */
  method FormatThenParse(id: Uuid, out: array<byte>) returns (e: TextErr)
    requires out.Length == 16
    modifies out
    ensures e == PARSED && out[..] == id
  {
    hide Text, Decoded;
    var text := new byte[TEXT_LEN];
    HexSimd.EncodeLowerSsse3(text, 0, id);
    assert text[..] == Text(id);
    DecodeText(id);
    e := Parse(out, text[..]);
  }

  /** Over every run of a sequence the printed strings are strictly increasing in ASCII order. */
  lemma {:induction false} SequenceTextsIncrease(s: State, envs: seq<Env>, i: nat, j: nat)
    requires ValidState(s) && i < j < |envs|
    requires Run(s, envs).outcomes[i].Ok? && Run(s, envs).outcomes[j].Ok?
    ensures LexLess(Text(Run(s, envs).outcomes[i].id), Text(Run(s, envs).outcomes[j].id))
  {
    hide Step, Text;
    RunIsMonotonic(s, envs);
    TextOrder(Run(s, envs).outcomes[i].id, Run(s, envs).outcomes[j].id);
  }

  /** UUIDs stamped with an earlier millisecond print as an earlier string, whatever the random parts. */
  lemma {:induction false} TextSortsByTime(ms: nat, c: u16, r: Tail, ms': nat, c': u16, r': Tail)
    requires ms < ms' <= MAX_UNIX_MS && c <= 0x0FFF && c' <= 0x0FFF
    ensures LexLess(Text(Layout(ms, c, r)), Text(Layout(ms', c', r')))
  {
    hide Layout, Text;
    LayoutOrder(ms, c, r, ms', c', r');
    TextOrder(Layout(ms, c, r), Layout(ms', c', r'));
  }
}
