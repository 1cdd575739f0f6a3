/** Layouts, constants and chain codes of the FTD protocol. */
module Ftd {
  import opened Bytes

  const FTD_HEADER_SIZE := 4
  const FTD_EXTEND_HEADER_SIZE := 127

  const FTDC_HEADER_SIZE := 16
  const FTDC_MAX_LENGTH := 4096
  const FTDC_CONTENT_MAX_LENGTH := FTDC_MAX_LENGTH - FTDC_HEADER_SIZE

  // The packed fixed part of a field: a four-byte fid and a two-byte length.
  const FIELD_PREFIX := 6

  const FTDC_CHAIN_SINGLE: byte := 'S'
  const FTDC_CHAIN_FIRST: byte := 'F'
  const FTDC_CHAIN_MIDDLE: byte := 'C'
  const FTDC_CHAIN_LAST: byte := 'L'

  // `field_length` is a signed short, so a field carries at most 32767 bytes.
  type FieldData = s: bytes | |s| < 0x8000

  datatype Field = Field(fid: int32, data: FieldData)

  function EntitySize(f: Field): nat {
    FIELD_PREFIX + |f.data|
  }

  function EncodeField(f: Field): (s: bytes)
    ensures |s| == EntitySize(f)
  {
    LeInt(f.fid) + Le16(|f.data|) + f.data
  }

  /** Four bytes of id, two of length, then the data, the low bytes first. */
  lemma FieldBytes(f: Field)
    ensures var s := EncodeField(f);
            && |s| == 6 + |f.data|
            && s[..4] == LeInt(f.fid)
            && s[4] as int + 0x100 * s[5] as int == |f.data|
            && s[6..] == f.data
  {
    hide LeInt, Le16;
    LittleEndian16(|f.data|);
  }

  function Content(fs: seq<Field>): bytes {
    if fs == [] then [] else EncodeField(fs[0]) + Content(fs[1..])
  }

  lemma {:induction false} ContentSplit(fs: seq<Field>, gs: seq<Field>)
    ensures Content(fs + gs) == Content(fs) + Content(gs)
  {
    if fs == [] {
      assert fs + gs == gs;
    } else {
      calc {
        Content(fs + gs);
        { assert (fs + gs)[1..] == fs[1..] + gs; }
        EncodeField(fs[0]) + Content(fs[1..] + gs);
        { ContentSplit(fs[1..], gs); }
        EncodeField(fs[0]) + (Content(fs[1..]) + Content(gs));
        Content(fs) + Content(gs);
      }
    }
  }

  lemma ContentSnoc(fs: seq<Field>, f: Field)
    ensures Content(fs + [f]) == Content(fs) + EncodeField(f)
  {
    ContentSplit(fs, [f]);
    assert Content([f]) == EncodeField(f);
  }

  /** Every field costs at least its six-byte prefix, whatever it carries. */
  lemma {:induction false} ContentLowerBound(fs: seq<Field>)
    ensures FIELD_PREFIX * |fs| <= |Content(fs)|
  {
    if fs == [] {
    } else {
      ContentLowerBound(fs[1..]);
    }
  }
}
