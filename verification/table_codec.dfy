/**
 * An assumed concrete layout for lookup-table account data, used only to give
 * the resolver's decoder parameter a body to instantiate: a 56-byte metadata
 * header whose first four bytes are the little-endian state tag 1 ("lookup
 * table"), followed by the table's addresses as consecutive 32-byte chunks.
 * The rest of the header is not interpreted.
 */
module TableCodec {
  import opened Keys
  import opened Outcomes

  /** Size in bytes of the metadata header. */
  const MetaSize: nat := 56

  /** A header this model accepts: the right size, tagged as an initialized table. */
  predicate ValidMeta(meta: Bytes)
  {
    |meta| == MetaSize && meta[..4] == [1, 0, 0, 0]
  }

  /** Concatenates addresses into raw bytes. */
  function Flatten(addresses: seq<Pubkey>): (b: Bytes)
    ensures |b| == PubkeyLen * |addresses|
    decreases |addresses|
  {
    if |addresses| == 0 then [] else addresses[0] + Flatten(addresses[1..])
  }

  /** Cuts raw bytes whose length is a multiple of 32 into addresses. */
  function Chunks(b: Bytes): (addresses: seq<Pubkey>)
    requires |b| % PubkeyLen == 0
    ensures PubkeyLen * |addresses| == |b|
    decreases |b|
  {
    if |b| == 0 then [] else [b[..PubkeyLen]] + Chunks(b[PubkeyLen..])
  }

  /**
   * Decodes table data: fails when the data is shorter than the header, the
   * header is not tagged as a table, or the address area is not a whole
   * number of addresses.
   */
  function Decode(data: Bytes): (r: Option<seq<Pubkey>>)
    ensures r.Some? ==> MetaSize + PubkeyLen * |r.value| == |data|
    ensures r.Some? <==> |data| >= MetaSize && ValidMeta(data[..MetaSize]) && (|data| - MetaSize) % PubkeyLen == 0
  {
    if |data| < MetaSize || !ValidMeta(data[..MetaSize]) || (|data| - MetaSize) % PubkeyLen != 0 then None
    else Some(Chunks(data[MetaSize..]))
  }

  /** Lays out a table: header, then the addresses. */
  function Encode(meta: Bytes, addresses: seq<Pubkey>): (data: Bytes)
    requires ValidMeta(meta)
    ensures |data| == MetaSize + PubkeyLen * |addresses|
  {
    meta + Flatten(addresses)
  }

  lemma {:induction false} ChunksFlatten(addresses: seq<Pubkey>)
    ensures Chunks(Flatten(addresses)) == addresses
    decreases |addresses|
  {
    if |addresses| > 0 {
      var b := Flatten(addresses);
      assert b[..PubkeyLen] == addresses[0];
      assert b[PubkeyLen..] == Flatten(addresses[1..]);
      ChunksFlatten(addresses[1..]);
    }
  }

  lemma {:induction false} FlattenChunks(b: Bytes)
    requires |b| % PubkeyLen == 0
    ensures Flatten(Chunks(b)) == b
    decreases |b|
  {
    if |b| > 0 {
      var cs := Chunks(b);
      assert cs[1..] == Chunks(b[PubkeyLen..]);
      FlattenChunks(b[PubkeyLen..]);
    }
  }

  /** Decoding an encoded table gives back its addresses. */
  lemma DecodeEncode(meta: Bytes, addresses: seq<Pubkey>)
    requires ValidMeta(meta)
    ensures Decode(Encode(meta, addresses)) == Some(addresses)
  {
    var data := Encode(meta, addresses);
    assert data[..MetaSize] == meta;
    assert data[MetaSize..] == Flatten(addresses);
    ChunksFlatten(addresses);
  }

  /** Data that decodes is exactly the encoding of its header and its addresses. */
  lemma EncodeDecode(data: Bytes)
    requires Decode(data).Some?
    ensures ValidMeta(data[..MetaSize])
    ensures Encode(data[..MetaSize], Decode(data).value) == data
  {
    FlattenChunks(data[MetaSize..]);
    assert data == data[..MetaSize] + data[MetaSize..];
  }
}
