/**
 * Concrete resolutions against a store holding one table laid out by the
 * assumed table codec.
 */
module Scenarios {
  import opened Keys
  import opened Outcomes
  import opened Store
  import opened Resolver
  import TableCodec

  /**
   * With the table [a, b, c] cached under `key`: writable indices [0, 2] and
   * readonly indices [1] load [a, c] and [b]; index 5 is out of range; and a
   * lookup naming an uncached table fails as not found.
   */
  lemma ThreeAddressTable(meta: Bytes, key: Pubkey, other: Pubkey, a: Pubkey, b: Pubkey, c: Pubkey,
                          store: Store)
    requires TableCodec.ValidMeta(meta)
    requires key in store.inner && store.inner[key] == TableCodec.Encode(meta, [a, b, c])
    requires other !in store.inner
    ensures Resolve(store, TableCodec.Decode, [MessageAddressTableLookup(key, [0, 2], [1])])
            == Ok(LoadedAddresses([a, c], [b]))
    ensures Resolve(store, TableCodec.Decode, [MessageAddressTableLookup(key, [5], [])])
            == Err(InvalidLookupIndex)
    ensures Resolve(store, TableCodec.Decode,
                    [MessageAddressTableLookup(key, [0], []), MessageAddressTableLookup(other, [0], [])])
            == Err(LookupTableAccountNotFound)
  {
    TableCodec.DecodeEncode(meta, [a, b, c]);
    var decode: Decoder := TableCodec.Decode;
    assert TableAt(store, decode, key) == Ok([a, b, c]);
    var ok := [MessageAddressTableLookup(key, [0, 2], [1])];
    assert LookupError(store, decode, ok[0]) == None;
    GatheredSingle(store, decode, ok[0], Writable);
    GatheredSingle(store, decode, ok[0], Readonly);
    assert Select([a, b, c], [0, 2]) == [a, c];
    assert Select([a, b, c], [1]) == [b];
    var far := MessageAddressTableLookup(key, [5], []);
    assert !InRange([a, b, c], far.writableIndexes) by {
      assert far.writableIndexes[0] == 5;
    }
    assert LookupError(store, decode, far) == Some(InvalidLookupIndex);
    assert [far][..0] == [];
    FailsAt(store, decode, [far], 0);
    var twice := [MessageAddressTableLookup(key, [0], []), MessageAddressTableLookup(other, [0], [])];
    assert twice[..1] == [twice[0]];
    FailsAt(store, decode, twice, 1);
  }

  /** Data that is shorter than a header never resolves; the failure is invalid data. */
  lemma ShortDataIsInvalid(store: Store, key: Pubkey, indexes: seq<Index>)
    requires key in store.inner && |store.inner[key]| < TableCodec.MetaSize
    ensures Resolve(store, TableCodec.Decode, [MessageAddressTableLookup(key, indexes, [])])
            == Err(InvalidAccountData)
  {
  }
}
