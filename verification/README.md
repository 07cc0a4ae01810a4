# Address lookup table store — a Dafny model

This project models the core of a small Rust crate. The crate caches the raw account data of Solana
address lookup tables in a local store. It also answers a message's table lookups from that cache,
without going to the network.

The store maps a 32-byte table address (`Pubkey`) to the table's raw bytes. `update` fetches data
for a list of addresses from a data source and merges it into the map. In Append mode, the default,
it fetches only addresses not yet cached. In Overwrite mode it fetches all of them. When there is
nothing to fetch, it calls neither the source nor the save step.

Address loading (`load_addresses`) walks the message's lookups in order. For each one, it finds the
cached table, decodes it, and maps every writable index and then every readonly index to an
address. The results are appended to two output lists. The first missing table, undecodable table
or out-of-range index aborts the whole call.

Modules:

- `Outcomes` (`outcomes.dfy`): `Option` and `Result`.
- `Keys` (`keys.dfy`): bytes, the 32-byte `Pubkey`, and the one-byte table `Index`.
- `DataSource` (`data_source.dfy`): what the store relies on from its data source.
  - An honest reply lists only requested keys, in request order, so its keys form a subsequence of
    the request.
  - `Served` is a reference reply computed from one snapshot of account state.
- `Store` (`store.dfy`, after src/store.rs): `UpdateMode`, `ContainsKey`, the fetch-set filter, the merge, and
  `Update`, with lemmas about them.
  - The data source and the save step are parameters.
  - `UpdateOutcome` records the batch handed to the source and the map handed to the save step.
    `None` means that step was not called.
- `Resolver` (`resolver.dfy`, after the `AddressLoader` impl in src/store.rs):
  - `Resolve` is a declarative meaning: the error of the first lookup that cannot be served, or
    the concatenated selections.
  - `LoadAddresses` mirrors the source's loops and is proved equal to `Resolve`.
- `TableCodec` (`table_codec.dfy`): an ASSUMED concrete layout for the foreign table decoder. It
  exists only to instantiate the resolver's decoder parameter in `Scenarios`. The layout:
  - a 56-byte header whose first four bytes are the little-endian tag 1;
  - then the addresses, as 32-byte chunks.
- `Scenarios` (`scenarios.dfy`): the worked example. A store holds the table [a, b, c]. Lookups
  with writable [0, 2] and readonly [1] resolve to [a, c] and [b]. Index 5 fails, and an uncached
  table fails.

Where the code behaves differently from what a reader might expect, the model follows the code:

- When saving fails, the code has already merged the fetched entries into the in-memory map. The
  model returns the merged store together with `PersistFailed`, as the code does.
- One might expect at most one entry per requested key. In the code, duplicate keys in the
  request are kept in both modes, and the RPC adapter answers each requested position, so a reply
  can hold two entries for one key. At most one entry per key holds only for a duplicate-free request
  (`DataSource.ServedDistinct`). The merge is last-write-wins either way.
- One might expect atomic persistence (write a temporary file, then rename). The code overwrites
  the backing file in place. Persistence is outside this model in either case.
- Within a lookup the code checks writable indices before readonly ones. This order is
  unobservable in the result, because both kinds of bad index give the same `InvalidLookupIndex`.

## Model

| member | source | states |
|---|---|---|
| `DataSource.Served` | src/rpc_loader.rs:25-31 | The reference reply is honest: its keys are a subsequence of the request. It carries only snapshot data, and it holds an entry for every requested key that exists. |
| `DataSource.ServedChunks` | src/rpc_loader.rs:24-32 | Serving a request in two chunks and concatenating the replies equals serving it whole, so batching by 100 is invisible to the store. |
| `DataSource.ServedNone` | src/rpc_loader.rs:27-31 | A request none of whose keys exist gets an empty reply. |
| `DataSource.ServedDistinct` | src/rpc_loader.rs:27-31 | A duplicate-free request gets at most one entry per key. |
| `Store.ContainsKey` | src/store.rs:86-88 | True exactly when the map has an entry for the key. It is a pure query. |
| `Store.Missing` | src/store.rs:97-101 | The Append filter. Its result is a subsequence of the request, so input order is kept. A key with data occurs 0 times. A key without data occurs exactly as often as in the request, so duplicates are kept. |
| `Store.FetchSet` | src/store.rs:96-103 | Overwrite fetches the request unchanged. Append fetches exactly the absent keys, in order, with their multiplicities. |
| `Store.InsertTableData` | src/store.rs:117-119 | Insertion adds the key, maps it to the new data and leaves every other key as it was. |
| `Store.InsertAll` | src/store.rs:107-109 | After merging, the domain is the old keys plus the fetched keys. Unfetched keys keep their data. Each fetched key gets the data of its last entry. |
| `Store.Update` | src/store.rs:91-114 | The source is called with the fetch set exactly when that set is non-empty. With nothing to fetch, it returns Ok with the store unchanged and nothing saved. A fetch error is returned as `FetchFailed` with the source's reason, before any insertion: the store is unchanged and nothing is saved. A saved map is the resulting map, and a successful fetch is always saved. The domain never shrinks. |
| `Store.UpdateNothing` | src/store.rs:105-113 | An update with no keys makes no fetch and no save, returns Ok and leaves the store unchanged, in either mode. |
| `Store.OverwriteRefetches` | src/store.rs:102-106 | Overwrite with a non-empty request hands the whole request to the source, whatever is cached. |
| `Store.AppendFetchesMissing` | src/store.rs:96-105 | In Append mode, a key is fetched if and only if it is requested and absent. When every requested key is present, the update is a no-op with no fetch and no save. |
| `Store.UpdateMerges` | src/store.rs:106-110 | After a successful fetch, the resulting map is the old map with the entries merged: last write wins, and other keys are kept. That map is handed to the save step. The status is Ok if the save succeeded, else `PersistFailed` with the save's reason. |
| `Store.HonestUpdateBounds` | src/store.rs:96-109 | With a source that answers only for requested keys, in any order, only requested keys are added. Append mode never changes data already cached. |
| `Store.InsertAgreeing` | src/store.rs:107-109 | If every fetched entry for a key carries the same data, the merge stores that data. |
| `Store.SnapshotUpdate` | src/store.rs:96-110 | Updating from a snapshot leaves every requested key that exists with data. In Overwrite mode it is the snapshot's data. In Append mode, cached data is kept and missing data comes from the snapshot. |
| `Store.AppendTwice` | src/store.rs:96-113 | Repeating an Append update against the same snapshot leaves the store unchanged. It fetches only keys absent from both store and snapshot, and does not fetch at all when every key exists. |
| `Resolver.TableAt` | src/store.rs:131-136 | An absent table gives LookupTableAccountNotFound. Undecodable data gives InvalidAccountData. Otherwise the result is the decoded address list. |
| `Resolver.FirstError` | src/store.rs:130-153 | No error is reported exactly when every lookup can be served. |
| `Resolver.FirstFailing` | src/store.rs:130-153 | The reported error is that of a lookup whose predecessors can all be served. |
| `Resolver.FailsAt` | src/store.rs:130-152 | If the lookups before `n` can be served and lookup `n` cannot, resolution fails with lookup `n`'s error. |
| `Resolver.ResolveFails` | src/store.rs:130-153 | Resolution fails with `e` if and only if some lookup fails with `e` and every earlier lookup can be served. A failure carries no partial output. |
| `Resolver.GatheredLength` | src/store.rs:138-152 | Each output list has as many addresses as there are indices of its kind over all lookups. |
| `Resolver.GatheredAppend` | src/store.rs:130-153 | The output for two runs of lookups is the first run's output followed by the second's. |
| `Resolver.ResolveAppend` | src/store.rs:130-155 | Resolving [run1, run2] gives run1's error, else run2's error. Otherwise it gives both runs' lists concatenated, in order, never interleaved. |
| `Resolver.ResolveLengths` | src/store.rs:127-155 | On success, the writable and readonly lengths equal the sums of the index-list lengths. |
| `Resolver.ResolvePositions` | src/store.rs:138-152 | On success, index `i` of lookup `j` is in range of its table. The address at offset (indices of earlier lookups) + `i` in the matching list is the table entry that index selects. |
| `Resolver.SelectChecked` | src/store.rs:138-152 | The index loop succeeds iff every index is below the table length. On success, position `i` holds table[indexes[i]]. On failure, the error is InvalidLookupIndex. |
| `Resolver.LoadAddresses` | src/store.rs:122-156 | The loader, written as the source's loops with early returns, equals the declarative `Resolve`: the first failure's error, or the gathered lists. |
| `TableCodec.Decode` | src/store.rs:135-136 | (Assumed layout.) Decoding succeeds exactly for a valid header followed by whole 32-byte addresses. The address count then matches the data length. |
| `TableCodec.DecodeEncode` | src/store.rs:135-136 | (Assumed layout.) Decoding an encoded table returns its addresses. |
| `TableCodec.EncodeDecode` | src/store.rs:135-136 | (Assumed layout.) Data that decodes is exactly its header followed by its encoded addresses. |
| `Scenarios.ThreeAddressTable` | src/store.rs:127-155 | For the table [a, b, c], writable [0, 2] and readonly [1] give [a, c] and [b]. Index 5 gives InvalidLookupIndex. A later lookup naming an uncached table gives LookupTableAccountNotFound. |
| `Scenarios.ShortDataIsInvalid` | src/store.rs:135-136 | Cached data shorter than the table header fails with InvalidAccountData. |

## Left out

- `load_or_create`, `new_with_path`, `load_from_path`, `save_to_path` (src/store.rs:34-70) are file I/O with bincode serialisation, whose format is not part of this model.
  - Saving is a parameter of `Update`, and the map handed to it is recorded.
  - The store's path is not modelled.
  - `save_to_path` opens the file for writing without truncating it. Whether a shorter new encoding leaves stale bytes behind depends on bincode's reader, which is not part of this model.
- The RPC client in src/rpc_loader.rs is a network call to a fixed endpoint. Only its observable contract is modelled (`DataSource.Honest`, `DataSource.Served`): drop missing accounts, keep request order, chunking invisible. Transport errors are an opaque `FetchFailed(reason)`.
- The real decoder `AddressLookupTable::deserialize` belongs to an external SDK. The resolver takes the decoder as a parameter.
  - `TableCodec` is an assumed layout. Beyond the tag, the header fields (deactivation slot, authority and so on) are not interpreted.
- Atomic temp-file-and-rename persistence and locking for concurrent use are not in the code. The code is single-threaded, and its save overwrites the file in place.
- The `Default` derive of `UpdateMode`, which makes Append the default, has no counterpart. Callers always pass a mode.
- Failing to open or write the backing file is modelled only as the save step's failure reason, surfaced as `PersistFailed`.
