/**
 * The lookup-table cache: an in-memory map from a table's address to its raw
 * account data, and the fetch-and-merge update that fills it. The backing
 * file and its path are not part of this model; saving is a parameter whose
 * argument is recorded in the update's outcome.
 */
module Store {
  import opened Keys
  import opened Outcomes
  import opened DataSource

  /** How an update treats keys that already have data in the store. */
  datatype UpdateMode =
    | Append     // fetch only keys not yet present (the default)
    | Overwrite  // fetch every requested key

  /** The store's contents. */
  datatype Store = Store(inner: map<Pubkey, Bytes>)

  /** Why an update failed. */
  datatype StoreError =
    | FetchFailed(reason: string)    // the data source reported an error
    | PersistFailed(reason: string)  // writing the backing file failed

  /** A data source: a batch of keys to either an error or the entries it found. */
  type Fetcher = seq<Pubkey> -> Result<seq<Entry>, string>

  /** Persistence: the map to write, to success (`None`) or a failure reason. */
  type Persister = map<Pubkey, Bytes> -> Option<string>

  /**
   * What an update did: the resulting store, the key batch handed to the
   * data source (`None` if it was not called), the map handed to
   * persistence (`None` if nothing was saved) and the returned status.
   */
  datatype UpdateOutcome = UpdateOutcome(
    store: Store,
    fetched: Option<seq<Pubkey>>,
    saved: Option<map<Pubkey, Bytes>>,
    result: Result<(), StoreError>)

  /** Whether the store holds data for `key`. */
  function ContainsKey(store: Store, key: Pubkey): (present: bool)
    ensures present <==> key in store.inner
  {
    key in store.inner
  }

  /**
   * The requested keys that have no data yet, in request order. Duplicates
   * among them are kept.
   */
  function Missing(store: Store, keys: seq<Pubkey>): (missing: seq<Pubkey>)
    ensures IsSubsequence(missing, keys)
    ensures forall k :: multiset(missing)[k] == if ContainsKey(store, k) then 0 else multiset(keys)[k]
    ensures forall k :: k in missing <==> k in keys && !ContainsKey(store, k)
    decreases |keys|
  {
    if |keys| == 0 then []
    else
      var rest := Missing(store, keys[1..]);
      assert keys == [keys[0]] + keys[1..];
      if ContainsKey(store, keys[0]) then
        rest
      else
        assert ([keys[0]] + rest)[1..] == rest;
        [keys[0]] + rest
  }

  /** The keys an update asks the data source for. */
  function FetchSet(store: Store, keys: seq<Pubkey>, mode: UpdateMode): (fetch: seq<Pubkey>)
    ensures mode == Overwrite ==> fetch == keys
    ensures mode == Append ==> IsSubsequence(fetch, keys)
    ensures mode == Append ==>
      forall k :: multiset(fetch)[k] == if ContainsKey(store, k) then 0 else multiset(keys)[k]
  {
    match mode
    case Append => Missing(store, keys)
    case Overwrite => keys
  }

  /** Stores `data` under `key`, replacing any previous data. */
  function InsertTableData(m: map<Pubkey, Bytes>, key: Pubkey, data: Bytes): (r: map<Pubkey, Bytes>)
    ensures r.Keys == m.Keys + {key}
    ensures r[key] == data
    ensures forall k :: k in m && k != key ==> r[k] == m[k]
  {
    m[key := data]
  }

  /** Entry `i` is the last one in `entries` for its key. */
  predicate LastFor(entries: seq<Entry>, i: nat)
    requires i < |entries|
  {
    forall j :: i < j < |entries| ==> entries[j].0 != entries[i].0
  }

  /**
   * Inserts the fetched entries one after another. Every fetched key ends up
   * present with the data of its last entry; keys not fetched keep their
   * data; nothing is removed.
   */
  function InsertAll(m: map<Pubkey, Bytes>, entries: seq<Entry>): (r: map<Pubkey, Bytes>)
    ensures forall k :: k in r <==> k in m || k in KeysOf(entries)
    ensures forall k :: k in m && k !in KeysOf(entries) ==> r[k] == m[k]
    ensures forall i :: 0 <= i < |entries| ==> entries[i].0 in r
    ensures forall i :: 0 <= i < |entries| && LastFor(entries, i) ==> r[entries[i].0] == entries[i].1
    decreases |entries|
  {
    assert forall i :: 0 <= i < |entries| ==> KeysOf(entries)[i] == entries[i].0;
    if |entries| == 0 then m
    else
      var r := InsertAll(InsertTableData(m, entries[0].0, entries[0].1), entries[1..]);
      assert forall k :: k in KeysOf(entries) <==> k == entries[0].0 || k in KeysOf(entries[1..]) by {
        assert KeysOf(entries) == [entries[0].0] + KeysOf(entries[1..]);
      }
      assert forall i :: 1 <= i < |entries| && LastFor(entries, i) ==> LastFor(entries[1..], i - 1) by {
        forall i | 1 <= i < |entries| && LastFor(entries, i)
          ensures LastFor(entries[1..], i - 1)
        {
          forall j | i - 1 < j < |entries| - 1 ensures entries[1..][j].0 != entries[1..][i - 1].0 {
            assert entries[1..][j] == entries[j + 1];
          }
        }
      }
      r
  }

  /**
   * Fetches data for `keys` and merges it into the store. Append mode asks
   * only for keys without data, Overwrite mode for all of them. When there is
   * nothing to ask for, neither the data source nor persistence is called.
   * A data-source error leaves the store untouched; otherwise the entries are
   * merged and the whole map is saved, and a failed save is reported after
   * the merge has already happened.
   */
  function Update(store: Store, keys: seq<Pubkey>, mode: UpdateMode,
                  fetch: Fetcher, persist: Persister): (out: UpdateOutcome)
    ensures out.fetched == if |FetchSet(store, keys, mode)| == 0 then None else Some(FetchSet(store, keys, mode))
    ensures out.fetched == None ==> out.store == store && out.saved == None && out.result == Ok(())
    ensures out.result.Err? && out.result.error.FetchFailed? ==> out.store == store && out.saved == None
    ensures out.fetched.Some? && fetch(out.fetched.value).Err? ==>
      && out.result == Err(FetchFailed(fetch(out.fetched.value).error))
      && out.store == store
      && out.saved == None
    ensures out.saved.Some? ==> out.saved.value == out.store.inner
    ensures out.fetched.Some? && fetch(out.fetched.value).Ok? ==> out.saved.Some?
    ensures store.inner.Keys <= out.store.inner.Keys
  {
    var toFetch := FetchSet(store, keys, mode);
    if |toFetch| == 0 then
      UpdateOutcome(store, None, None, Ok(()))
    else
      match fetch(toFetch)
      case Err(reason) =>
        UpdateOutcome(store, Some(toFetch), None, Err(FetchFailed(reason)))
      case Ok(entries) =>
        var merged := Store(InsertAll(store.inner, entries));
        var status := match persist(merged.inner)
                      case None => Ok(())
                      case Some(reason) => Err(PersistFailed(reason));
        UpdateOutcome(merged, Some(toFetch), Some(merged.inner), status)
  }

  /** A data source that answers every request from one snapshot of account state. */
  function SnapshotSource(chain: map<Pubkey, Bytes>): Fetcher
  {
    request => Ok(Served(chain, request))
  }

  /** An update with no keys does nothing: no fetch, no save, the store unchanged. */
  lemma UpdateNothing(store: Store, mode: UpdateMode, fetch: Fetcher, persist: Persister)
    ensures Update(store, [], mode, fetch, persist) == UpdateOutcome(store, None, None, Ok(()))
  {
  }

  /** Overwrite mode hands every requested key to the data source, present or not. */
  lemma OverwriteRefetches(store: Store, keys: seq<Pubkey>, fetch: Fetcher, persist: Persister)
    requires |keys| > 0
    ensures Update(store, keys, Overwrite, fetch, persist).fetched == Some(keys)
  {
  }

  /**
   * Append mode asks only for keys without data, and for every such key; when
   * all requested keys are present it calls neither the source nor persistence.
   */
  lemma AppendFetchesMissing(store: Store, keys: seq<Pubkey>, fetch: Fetcher, persist: Persister)
    ensures var out := Update(store, keys, Append, fetch, persist);
      && (out.fetched.Some? ==> forall k :: k in out.fetched.value <==> k in keys && !ContainsKey(store, k))
      && ((forall k :: k in keys ==> ContainsKey(store, k)) ==>
            out == UpdateOutcome(store, None, None, Ok(())))
  {
    var missing := Missing(store, keys);
    if |missing| > 0 {
      assert missing[0] in missing;
    }
  }

  /**
   * After a successful fetch the store is the old store with the fetched
   * entries inserted in order: fetched keys get their last entry's data,
   * the other keys keep theirs.
   */
  lemma UpdateMerges(store: Store, keys: seq<Pubkey>, mode: UpdateMode, fetch: Fetcher,
                     persist: Persister, entries: seq<Entry>)
    requires |FetchSet(store, keys, mode)| > 0
    requires fetch(FetchSet(store, keys, mode)) == Ok(entries)
    ensures var out := Update(store, keys, mode, fetch, persist);
      && (forall k :: k in out.store.inner <==> k in store.inner || k in KeysOf(entries))
      && (forall k :: k in store.inner && k !in KeysOf(entries) ==> out.store.inner[k] == store.inner[k])
      && (forall i :: 0 <= i < |entries| && LastFor(entries, i) ==> out.store.inner[entries[i].0] == entries[i].1)
      && out.saved == Some(out.store.inner)
      && out.result == (if persist(out.store.inner).None? then Ok(())
                        else Err(PersistFailed(persist(out.store.inner).value)))
  {
  }

  /**
   * With a data source that only answers for keys it was asked about (in any
   * order), Append mode never changes data already in the store, and an
   * update of either mode only adds keys that were requested.
   */
  lemma {:induction false} HonestUpdateBounds(store: Store, keys: seq<Pubkey>, mode: UpdateMode,
                                              fetch: Fetcher, persist: Persister)
    requires fetch(FetchSet(store, keys, mode)).Ok? ==>
      OnlyRequested(FetchSet(store, keys, mode), fetch(FetchSet(store, keys, mode)).value)
    ensures var out := Update(store, keys, mode, fetch, persist);
      && (forall k :: k in out.store.inner ==> k in store.inner || k in keys)
      && (mode == Append ==> forall k :: k in store.inner ==> out.store.inner[k] == store.inner[k])
  {
    var toFetch := FetchSet(store, keys, mode);
    if |toFetch| > 0 && fetch(toFetch).Ok? {
      var entries := fetch(toFetch).value;
      if mode == Append {
        SubsequenceMembers(toFetch, keys);
        forall k | k in store.inner ensures k !in KeysOf(entries) {
          assert k !in toFetch;
        }
      } else {
        assert toFetch == keys;
      }
    }
  }

  /** Some entry for `k` is the last one for `k`. */
  lemma {:induction false} LastEntry(entries: seq<Entry>, k: Pubkey) returns (i: nat)
    requires k in KeysOf(entries)
    ensures i < |entries| && entries[i].0 == k && LastFor(entries, i)
    decreases |entries|
  {
    var n := |entries| - 1;
    if entries[n].0 == k {
      i := n;
    } else {
      var init := entries[..n];
      assert KeysOf(entries) == KeysOf(init) + [entries[n].0];
      i := LastEntry(init, k);
      assert init[i] == entries[i];
      forall j | i < j < |entries| ensures entries[j].0 != entries[i].0 {
        if j < n {
          assert init[j] == entries[j];
        }
      }
    }
  }

  /** When every fetched entry for `k` carries `d`, the merge stores `d` under `k`. */
  lemma InsertAgreeing(m: map<Pubkey, Bytes>, entries: seq<Entry>, k: Pubkey, d: Bytes)
    requires (k, d) in entries
    requires forall e :: e in entries && e.0 == k ==> e.1 == d
    ensures k in InsertAll(m, entries) && InsertAll(m, entries)[k] == d
  {
    var w :| 0 <= w < |entries| && entries[w] == (k, d);
    assert KeysOf(entries)[w] == k;
    var i := LastEntry(entries, k);
    assert entries[i] in entries;
  }

  /**
   * Updating from a snapshot of account state: afterwards every requested key
   * that exists in the snapshot has data. Overwrite mode gives it the
   * snapshot's data; Append mode keeps data that was already present and
   * takes the snapshot's data for the rest.
   */
  lemma {:induction false} SnapshotUpdate(chain: map<Pubkey, Bytes>, store: Store, keys: seq<Pubkey>,
                                          mode: UpdateMode, persist: Persister)
    ensures var out := Update(store, keys, mode, SnapshotSource(chain), persist);
      forall k :: k in keys && k in chain ==>
        && k in out.store.inner
        && out.store.inner[k] == (if mode == Append && k in store.inner then store.inner[k] else chain[k])
  {
    var toFetch := FetchSet(store, keys, mode);
    var out := Update(store, keys, mode, SnapshotSource(chain), persist);
    var entries := Served(chain, toFetch);
    HonestOnlyRequested(toFetch, entries);
    HonestUpdateBounds(store, keys, mode, SnapshotSource(chain), persist);
    forall k | k in keys && k in chain
      ensures k in out.store.inner
      ensures out.store.inner[k] == (if mode == Append && k in store.inner then store.inner[k] else chain[k])
    {
      if mode == Append && k in store.inner {
      } else {
        assert k in toFetch;
        InsertAgreeing(store.inner, entries, k, chain[k]);
      }
    }
  }

  /**
   * Repeating an Append update against the same snapshot changes nothing: the
   * second update asks only for keys that exist neither in the store nor in
   * the snapshot, and skips the source and persistence entirely when every
   * requested key exists.
   */
  lemma {:induction false} AppendTwice(chain: map<Pubkey, Bytes>, store: Store, keys: seq<Pubkey>,
                                       persist1: Persister, persist2: Persister)
    ensures var first := Update(store, keys, Append, SnapshotSource(chain), persist1);
      var second := Update(first.store, keys, Append, SnapshotSource(chain), persist2);
      && second.store == first.store
      && (second.fetched.Some? ==>
            forall k :: k in second.fetched.value ==> k !in first.store.inner && k !in chain)
      && ((forall k :: k in keys ==> k in chain || k in store.inner) ==> second.fetched == None)
  {
    var first := Update(store, keys, Append, SnapshotSource(chain), persist1);
    SnapshotUpdate(chain, store, keys, Append, persist1);
    var again := Missing(first.store, keys);
    assert forall k :: k in again ==> k !in chain;
    ServedNone(chain, again);
    if |again| > 0 {
      assert again[0] in again;
    }
  }
}
