/**
 * Address loading over a store snapshot: each lookup names a table in the
 * store and two lists of indices into it; the result lists the addresses the
 * indices select, lookup after lookup, writable and readonly kept apart.
 * The first lookup that cannot be served aborts the whole resolution.
 */
module Resolver {
  import opened Keys
  import opened Outcomes
  import opened Store

  /** Why a resolution failed. */
  datatype AddressLoaderError =
    | LookupTableAccountNotFound  // the store holds no data for the table
    | InvalidAccountData          // the table's data does not decode
    | InvalidLookupIndex          // an index is past the end of the table

  /** One table lookup of a message: the table's address and the indices to load. */
  datatype MessageAddressTableLookup = MessageAddressTableLookup(
    accountKey: Pubkey,
    writableIndexes: seq<Index>,
    readonlyIndexes: seq<Index>)

  /** The resolved addresses. */
  datatype LoadedAddresses = LoadedAddresses(writable: seq<Pubkey>, readonly: seq<Pubkey>)

  /** Which of a lookup's two index lists. */
  datatype Access = Writable | Readonly

  /** Turns a table's raw data into its address list, or fails. */
  type Decoder = Bytes -> Option<seq<Pubkey>>

  function Indexes(lookup: MessageAddressTableLookup, access: Access): seq<Index>
  {
    match access
    case Writable => lookup.writableIndexes
    case Readonly => lookup.readonlyIndexes
  }

  /** The decoded table stored under `key`: not found, undecodable, or its addresses. */
  function TableAt(store: Store, decode: Decoder, key: Pubkey): (r: Result<seq<Pubkey>, AddressLoaderError>)
    ensures r == Err(LookupTableAccountNotFound) <==> key !in store.inner
    ensures r == Err(InvalidAccountData) <==> key in store.inner && decode(store.inner[key]).None?
    ensures r.Ok? ==> key in store.inner && decode(store.inner[key]) == Some(r.value)
  {
    if key !in store.inner then Err(LookupTableAccountNotFound)
    else match decode(store.inner[key])
      case None => Err(InvalidAccountData)
      case Some(addresses) => Ok(addresses)
  }

  /** Every index selects an address of the table. */
  predicate InRange(table: seq<Pubkey>, indexes: seq<Index>)
  {
    forall i :: 0 <= i < |indexes| ==> indexes[i] < |table|
  }

  /** The addresses `indexes` select from `table`, position by position. */
  function Select(table: seq<Pubkey>, indexes: seq<Index>): (r: seq<Pubkey>)
    requires InRange(table, indexes)
    ensures |r| == |indexes|
    ensures forall i :: 0 <= i < |indexes| ==> r[i] == table[indexes[i]]
  {
    seq(|indexes|, i requires 0 <= i < |indexes| => table[indexes[i]])
  }

  /**
   * What stops a lookup from being served, checked in the order the loader
   * checks: the table's presence, then its data, then its indices.
   */
  function LookupError(store: Store, decode: Decoder, lookup: MessageAddressTableLookup): Option<AddressLoaderError>
  {
    match TableAt(store, decode, lookup.accountKey)
    case Err(e) => Some(e)
    case Ok(table) =>
      if InRange(table, lookup.writableIndexes) && InRange(table, lookup.readonlyIndexes) then None
      else Some(InvalidLookupIndex)
  }

  /** Every lookup can be served. */
  predicate Servable(store: Store, decode: Decoder, lookups: seq<MessageAddressTableLookup>)
  {
    forall j :: 0 <= j < |lookups| ==> LookupError(store, decode, lookups[j]).None?
  }

  /** The error of the first lookup that cannot be served, if any. */
  function FirstError(store: Store, decode: Decoder, lookups: seq<MessageAddressTableLookup>): (r: Option<AddressLoaderError>)
    ensures r.None? <==> Servable(store, decode, lookups)
    decreases |lookups|
  {
    if |lookups| == 0 then None
    else
      var rest := FirstError(store, decode, lookups[1..]);
      assert forall j :: 1 <= j < |lookups| ==> lookups[j] == lookups[1..][j - 1];
      match LookupError(store, decode, lookups[0])
      case Some(e) => Some(e)
      case None => rest
  }

  /**
   * The addresses a lookup contributes to one output list; a lookup whose
   * table or indices are bad contributes nothing (resolution never gets that
   * far with it).
   */
  function Selected(store: Store, decode: Decoder, lookup: MessageAddressTableLookup, access: Access): seq<Pubkey>
  {
    match TableAt(store, decode, lookup.accountKey)
    case Err(_) => []
    case Ok(table) =>
      if InRange(table, Indexes(lookup, access)) then Select(table, Indexes(lookup, access)) else []
  }

  /** The concatenation, in order, of what `f` gives for each element. */
  function FlatMap<T, U>(xs: seq<T>, f: T -> seq<U>): seq<U>
    decreases |xs|
  {
    if |xs| == 0 then [] else FlatMap(xs[..|xs| - 1], f) + f(xs[|xs| - 1])
  }

  /** The concatenation, in request order, of what each lookup contributes. */
  function Gathered(store: Store, decode: Decoder, lookups: seq<MessageAddressTableLookup>, access: Access): seq<Pubkey>
  {
    FlatMap(lookups, lookup => Selected(store, decode, lookup, access))
  }

  /** Total number of indices in one list over all lookups. */
  function IndexCount(lookups: seq<MessageAddressTableLookup>, access: Access): nat
    decreases |lookups|
  {
    if |lookups| == 0 then 0
    else
      var n := |lookups| - 1;
      IndexCount(lookups[..n], access) + |Indexes(lookups[n], access)|
  }

  /**
   * The meaning of a resolution: the first unservable lookup's error, or the
   * gathered writable and readonly addresses.
   */
  function Resolve(store: Store, decode: Decoder, lookups: seq<MessageAddressTableLookup>): Result<LoadedAddresses, AddressLoaderError>
  {
    match FirstError(store, decode, lookups)
    case Some(e) => Err(e)
    case None =>
      Ok(LoadedAddresses(Gathered(store, decode, lookups, Writable), Gathered(store, decode, lookups, Readonly)))
  }

  /** If a prefix of the lookups is servable, the first error is found in the rest. */
  lemma {:induction false} FirstErrorAfter(store: Store, decode: Decoder, lookups: seq<MessageAddressTableLookup>, n: nat)
    requires n <= |lookups|
    requires Servable(store, decode, lookups[..n])
    ensures FirstError(store, decode, lookups) == FirstError(store, decode, lookups[n..])
    decreases n
  {
    if n > 0 {
      assert lookups[..n][0] == lookups[0];
      assert lookups[1..][..n - 1] == lookups[..n][1..];
      assert lookups[1..][n - 1..] == lookups[n..];
      FirstErrorAfter(store, decode, lookups[1..], n - 1);
    }
  }

  /** Resolution fails with the error of the first lookup that cannot be served. */
  lemma FailsAt(store: Store, decode: Decoder, lookups: seq<MessageAddressTableLookup>, n: nat)
    requires n < |lookups|
    requires Servable(store, decode, lookups[..n])
    requires LookupError(store, decode, lookups[n]).Some?
    ensures Resolve(store, decode, lookups) == Err(LookupError(store, decode, lookups[n]).value)
  {
    FirstErrorAfter(store, decode, lookups, n);
    assert lookups[n..][0] == lookups[n];
  }

  /** Serving one more lookup extends the servable prefix and both output lists. */
  lemma ServeNext(store: Store, decode: Decoder, lookups: seq<MessageAddressTableLookup>, n: nat)
    requires n < |lookups|
    requires Servable(store, decode, lookups[..n])
    requires LookupError(store, decode, lookups[n]).None?
    ensures Servable(store, decode, lookups[..n + 1])
    ensures forall a :: Gathered(store, decode, lookups[..n + 1], a)
                        == Gathered(store, decode, lookups[..n], a) + Selected(store, decode, lookups[n], a)
  {
    assert lookups[..n + 1][..n] == lookups[..n];
    assert lookups[..n + 1][n] == lookups[n];
  }

  /** The first error belongs to a lookup all of whose predecessors can be served. */
  lemma {:induction false} FirstFailing(store: Store, decode: Decoder, lookups: seq<MessageAddressTableLookup>)
    returns (j: nat)
    requires FirstError(store, decode, lookups).Some?
    ensures j < |lookups|
    ensures Servable(store, decode, lookups[..j])
    ensures LookupError(store, decode, lookups[j]) == FirstError(store, decode, lookups)
    decreases |lookups|
  {
    if LookupError(store, decode, lookups[0]).Some? {
      j := 0;
    } else {
      var k := FirstFailing(store, decode, lookups[1..]);
      j := k + 1;
      assert lookups[1..][k] == lookups[j];
      forall m | 0 <= m < j ensures LookupError(store, decode, lookups[..j][m]).None? {
        if m > 0 {
          assert lookups[..j][m] == lookups[1..][..k][m - 1];
        }
      }
    }
  }

  /**
   * Resolution fails with `e` exactly when some lookup fails with `e` and
   * every lookup before it can be served: the first failure wins, and a
   * failure carries no partial output.
   */
  lemma ResolveFails(store: Store, decode: Decoder, lookups: seq<MessageAddressTableLookup>, e: AddressLoaderError)
    ensures Resolve(store, decode, lookups) == Err(e) <==>
      exists j :: 0 <= j < |lookups| && Servable(store, decode, lookups[..j])
                  && LookupError(store, decode, lookups[j]) == Some(e)
  {
    if Resolve(store, decode, lookups) == Err(e) {
      var j := FirstFailing(store, decode, lookups);
      assert 0 <= j < |lookups| && Servable(store, decode, lookups[..j]);
    }
    if exists j :: 0 <= j < |lookups| && Servable(store, decode, lookups[..j])
                   && LookupError(store, decode, lookups[j]) == Some(e) {
      var j :| 0 <= j < |lookups| && Servable(store, decode, lookups[..j])
               && LookupError(store, decode, lookups[j]) == Some(e);
      FailsAt(store, decode, lookups, j);
    }
  }

  /** Each output list has one address per index, over all lookups. */
  lemma {:induction false} GatheredLength(store: Store, decode: Decoder, lookups: seq<MessageAddressTableLookup>, access: Access)
    requires Servable(store, decode, lookups)
    ensures |Gathered(store, decode, lookups, access)| == IndexCount(lookups, access)
    decreases |lookups|
  {
    if |lookups| > 0 {
      var n := |lookups| - 1;
      assert forall j :: 0 <= j < n ==> lookups[..n][j] == lookups[j];
      GatheredLength(store, decode, lookups[..n], access);
    }
  }

  /** The output of a nonempty run is that of all but its last lookup, then the last lookup's. */
  lemma GatheredSnoc(store: Store, decode: Decoder, lookups: seq<MessageAddressTableLookup>, access: Access)
    requires |lookups| > 0
    ensures Gathered(store, decode, lookups, access)
            == Gathered(store, decode, lookups[..|lookups| - 1], access)
               + Selected(store, decode, lookups[|lookups| - 1], access)
  {
  }

  /** Flattening consecutive runs is concatenating their flattenings. */
  lemma {:induction false} FlatMapAppend<T, U>(a: seq<T>, b: seq<T>, f: T -> seq<U>)
    ensures FlatMap(a + b, f) == FlatMap(a, f) + FlatMap(b, f)
    decreases |b|
  {
    if |b| == 0 {
      assert a + b == a;
    } else {
      var n := |b| - 1;
      assert (a + b)[..|a + b| - 1] == a + b[..n];
      assert (a + b)[|a + b| - 1] == b[n];
      FlatMapAppend(a, b[..n], f);
    }
  }

  /** The output of consecutive runs of lookups is the concatenation of their outputs. */
  lemma GatheredAppend(store: Store, decode: Decoder, a: seq<MessageAddressTableLookup>,
                       b: seq<MessageAddressTableLookup>, access: Access)
    ensures Gathered(store, decode, a + b, access) == Gathered(store, decode, a, access) + Gathered(store, decode, b, access)
  {
    FlatMapAppend(a, b, lookup => Selected(store, decode, lookup, access));
  }

  /**
   * Resolving two runs of lookups one after the other: the first run's error
   * if it fails, else the second run's error if it fails, else the two
   * results concatenated list by list, never interleaved.
   */
  lemma ResolveAppend(store: Store, decode: Decoder, a: seq<MessageAddressTableLookup>, b: seq<MessageAddressTableLookup>)
    ensures Resolve(store, decode, a + b) ==
      match Resolve(store, decode, a)
      case Err(e) => Err(e)
      case Ok(x) =>
        match Resolve(store, decode, b)
        case Err(e) => Err(e)
        case Ok(y) => Ok(LoadedAddresses(x.writable + y.writable, x.readonly + y.readonly))
  {
    assert (a + b)[..|a|] == a;
    assert (a + b)[|a|..] == b;
    match FirstError(store, decode, a)
    case Some(e) =>
      var j := FirstFailing(store, decode, a);
      assert (a + b)[..j] == a[..j];
      assert (a + b)[j] == a[j];
      FailsAt(store, decode, a + b, j);
    case None =>
      FirstErrorAfter(store, decode, a + b, |a|);
      if FirstError(store, decode, b).None? {
        GatheredAppend(store, decode, a, b, Writable);
        GatheredAppend(store, decode, a, b, Readonly);
      }
  }

  /** The lengths of a successful resolution are the index counts. */
  lemma ResolveLengths(store: Store, decode: Decoder, lookups: seq<MessageAddressTableLookup>)
    requires Resolve(store, decode, lookups).Ok?
    ensures |Resolve(store, decode, lookups).value.writable| == IndexCount(lookups, Writable)
    ensures |Resolve(store, decode, lookups).value.readonly| == IndexCount(lookups, Readonly)
  {
    GatheredLength(store, decode, lookups, Writable);
    GatheredLength(store, decode, lookups, Readonly);
  }

  /** One lookup on its own contributes exactly its selection. */
  lemma GatheredSingle(store: Store, decode: Decoder, lookup: MessageAddressTableLookup, access: Access)
    ensures Gathered(store, decode, [lookup], access) == Selected(store, decode, lookup, access)
  {
    GatheredSnoc(store, decode, [lookup], access);
    assert [lookup][..0] == [];
  }

  /** The output list splits around lookup `j` into before, `j`'s selection, and after. */
  lemma GatheredAround(store: Store, decode: Decoder, lookups: seq<MessageAddressTableLookup>, access: Access, j: nat)
    requires j < |lookups|
    ensures Gathered(store, decode, lookups, access)
            == Gathered(store, decode, lookups[..j], access)
               + Selected(store, decode, lookups[j], access)
               + Gathered(store, decode, lookups[j + 1..], access)
  {
    var before := lookups[..j];
    var x := lookups[j];
    var rest := lookups[j + 1..];
    GatheredSingle(store, decode, x, access);
    GatheredAppend(store, decode, before, [x], access);
    GatheredAppend(store, decode, before + [x], rest, access);
    assert lookups == before + [x] + rest;
  }

  /**
   * In servable lookups, the `i`-th index of lookup `j` lands right after
   * everything the lookups before `j` contributed to the same list.
   */
  lemma GatheredPosition(store: Store, decode: Decoder, lookups: seq<MessageAddressTableLookup>,
                         access: Access, j: nat, i: nat)
    requires Servable(store, decode, lookups)
    requires j < |lookups| && i < |Indexes(lookups[j], access)|
    ensures IndexCount(lookups[..j], access) + i < |Gathered(store, decode, lookups, access)|
    ensures Gathered(store, decode, lookups, access)[IndexCount(lookups[..j], access) + i]
            == Selected(store, decode, lookups[j], access)[i]
  {
    var before := lookups[..j];
    assert Servable(store, decode, before) by {
      assert forall m :: 0 <= m < j ==> before[m] == lookups[m];
    }
    GatheredLength(store, decode, before, access);
    GatheredAround(store, decode, lookups, access, j);
  }

  /**
   * Positional correspondence: in a successful resolution, the `i`-th index
   * of lookup `j` selects the address found right after everything the
   * lookups before `j` contributed to the same list.
   */
  lemma ResolvePositions(store: Store, decode: Decoder, lookups: seq<MessageAddressTableLookup>,
                         access: Access, j: nat, i: nat)
    requires Resolve(store, decode, lookups).Ok?
    requires j < |lookups| && i < |Indexes(lookups[j], access)|
    ensures var out := Resolve(store, decode, lookups).value;
      var list := if access == Writable then out.writable else out.readonly;
      var table := TableAt(store, decode, lookups[j].accountKey);
      && table.Ok?
      && Indexes(lookups[j], access)[i] < |table.value|
      && IndexCount(lookups[..j], access) + i < |list|
      && list[IndexCount(lookups[..j], access) + i] == table.value[Indexes(lookups[j], access)[i]]
  {
    assert Servable(store, decode, lookups);
    var lookup := lookups[j];
    assert LookupError(store, decode, lookup).None?;
    var table := TableAt(store, decode, lookup.accountKey).value;
    assert InRange(table, Indexes(lookup, access));
    assert Selected(store, decode, lookup, access) == Select(table, Indexes(lookup, access));
    GatheredPosition(store, decode, lookups, access, j, i);
  }

  /**
   * Reads the addresses `indexes` select from `table`, in order, failing on
   * the first index past the end of the table.
   */
  method SelectChecked(table: seq<Pubkey>, indexes: seq<Index>) returns (r: Result<seq<Pubkey>, AddressLoaderError>)
    ensures r.Ok? <==> InRange(table, indexes)
    ensures r.Err? ==> r.error == InvalidLookupIndex
    ensures r.Ok? ==> |r.value| == |indexes| && forall i :: 0 <= i < |indexes| ==> r.value[i] == table[indexes[i]]
  {
    var selected: seq<Pubkey> := [];
    var i := 0;
    while i < |indexes|
      invariant 0 <= i <= |indexes|
      invariant InRange(table, indexes[..i])
      invariant |selected| == i
      invariant forall k :: 0 <= k < i ==> selected[k] == table[indexes[k]]
    {
      var index := indexes[i];
      if index >= |table| {
        return Err(InvalidLookupIndex);
      }
      selected := selected + [table[index]];
      i := i + 1;
    }
    assert indexes[..i] == indexes;
    return Ok(selected);
  }

  /**
   * Loads the addresses for `lookups`, walking them in order and failing on
   * the first table that is missing or undecodable or the first index past
   * the end of its table; the writable indices of a lookup are read before
   * its readonly ones.
   */
  method LoadAddresses(store: Store, decode: Decoder, lookups: seq<MessageAddressTableLookup>)
    returns (r: Result<LoadedAddresses, AddressLoaderError>)
    ensures r == Resolve(store, decode, lookups)
  {
    var writable: seq<Pubkey> := [];
    var readonly: seq<Pubkey> := [];
    var n := 0;
    while n < |lookups|
      invariant 0 <= n <= |lookups|
      invariant Servable(store, decode, lookups[..n])
      invariant writable == Gathered(store, decode, lookups[..n], Writable)
      invariant readonly == Gathered(store, decode, lookups[..n], Readonly)
    {
      var lookup := lookups[n];
      if lookup.accountKey !in store.inner {
        FailsAt(store, decode, lookups, n);
        return Err(LookupTableAccountNotFound);
      }
      var decoded := decode(store.inner[lookup.accountKey]);
      if decoded.None? {
        FailsAt(store, decode, lookups, n);
        return Err(InvalidAccountData);
      }
      var table := decoded.value;
      var w := SelectChecked(table, lookup.writableIndexes);
      if w.Err? {
        FailsAt(store, decode, lookups, n);
        return Err(w.error);
      }
      var ro := SelectChecked(table, lookup.readonlyIndexes);
      if ro.Err? {
        FailsAt(store, decode, lookups, n);
        return Err(ro.error);
      }
      ServeNext(store, decode, lookups, n);
      writable := writable + w.value;
      readonly := readonly + ro.value;
      n := n + 1;
    }
    assert lookups[..n] == lookups;
    return Ok(LoadedAddresses(writable, readonly));
  }
}
