/**
 * The contract the store relies on from its data source. The source itself
 * (an RPC client) is a parameter of the store; this module only says what a
 * well-behaved reply looks like and gives a reference reply built from one
 * snapshot of account state.
 */
module DataSource {
  import opened Keys

  /** One fetched account: its address and its raw data. */
  type Entry = (Pubkey, Bytes)

  /** The addresses of a reply, position by position. */
  function KeysOf(entries: seq<Entry>): (ks: seq<Pubkey>)
    ensures |ks| == |entries|
    ensures forall i :: 0 <= i < |entries| ==> ks[i] == entries[i].0
  {
    seq(|entries|, i requires 0 <= i < |entries| => entries[i].0)
  }

  /** `xs` is obtained from `ys` by deleting some elements, keeping the rest in order. */
  predicate IsSubsequence<T(==)>(xs: seq<T>, ys: seq<T>)
    decreases |ys|
  {
    if |ys| == 0 then |xs| == 0
    else (|xs| > 0 && xs[0] == ys[0] && IsSubsequence(xs[1..], ys[1..]))
         || IsSubsequence(xs, ys[1..])
  }

  /** No element occurs twice. */
  predicate Distinct<T(==)>(s: seq<T>)
  {
    forall i, j :: 0 <= i < j < |s| ==> s[i] != s[j]
  }

  /** Every element of a subsequence occurs in the sequence it was taken from. */
  lemma {:induction false} SubsequenceMembers<T>(xs: seq<T>, ys: seq<T>)
    requires IsSubsequence(xs, ys)
    ensures forall x :: x in xs ==> x in ys
    decreases |ys|
  {
    if |ys| == 0 {
    } else if |xs| > 0 && xs[0] == ys[0] && IsSubsequence(xs[1..], ys[1..]) {
      SubsequenceMembers(xs[1..], ys[1..]);
      forall x | x in xs ensures x in ys {
        if x != xs[0] {
          assert x in xs[1..];
        }
      }
    } else {
      SubsequenceMembers(xs, ys[1..]);
    }
  }

  /** A subsequence of a duplicate-free sequence is duplicate-free. */
  lemma {:induction false} SubsequenceDistinct<T>(xs: seq<T>, ys: seq<T>)
    requires IsSubsequence(xs, ys)
    requires Distinct(ys)
    ensures Distinct(xs)
    decreases |ys|
  {
    if |ys| == 0 {
    } else if |xs| > 0 && xs[0] == ys[0] && IsSubsequence(xs[1..], ys[1..]) {
      SubsequenceDistinct(xs[1..], ys[1..]);
      SubsequenceMembers(xs[1..], ys[1..]);
      forall i, j | 0 <= i < j < |xs| ensures xs[i] != xs[j] {
        if i == 0 {
          assert xs[j] == xs[1..][j - 1];
          assert xs[j] in ys[1..];
        } else {
          assert xs[i] == xs[1..][i - 1] && xs[j] == xs[1..][j - 1];
        }
      }
    } else {
      SubsequenceDistinct(xs, ys[1..]);
    }
  }

  /**
   * A reply is honest for a request when it only carries accounts that were
   * asked for, in the order they were asked for: keys the source cannot find
   * are dropped, never invented.
   */
  predicate Honest(request: seq<Pubkey>, reply: seq<Entry>)
  {
    IsSubsequence(KeysOf(reply), request)
  }

  /** Every key of the reply was requested; nothing is said about order. */
  predicate OnlyRequested(request: seq<Pubkey>, reply: seq<Entry>)
  {
    forall k :: k in KeysOf(reply) ==> k in request
  }

  /** An honest reply only answers for requested keys. */
  lemma HonestOnlyRequested(request: seq<Pubkey>, reply: seq<Entry>)
    requires Honest(request, reply)
    ensures OnlyRequested(request, reply)
  {
    SubsequenceMembers(KeysOf(reply), request);
  }

  /** Prepending a requested key that the reply skips keeps the reply honest. */
  lemma HonestSkip(k: Pubkey, request: seq<Pubkey>, reply: seq<Entry>)
    requires Honest(request, reply)
    ensures Honest([k] + request, reply)
  {
    assert ([k] + request)[1..] == request;
  }

  /** Prepending a requested key together with its entry keeps the reply honest. */
  lemma HonestTake(e: Entry, request: seq<Pubkey>, reply: seq<Entry>)
    requires Honest(request, reply)
    ensures Honest([e.0] + request, [e] + reply)
  {
    assert ([e.0] + request)[1..] == request;
    assert KeysOf([e] + reply)[1..] == KeysOf(reply);
  }

  /**
   * The reply of a source that sees the account state `chain`: for every
   * requested key that exists, its data, in request order; missing keys are
   * dropped.
   */
  function Served(chain: map<Pubkey, Bytes>, request: seq<Pubkey>): (reply: seq<Entry>)
    ensures Honest(request, reply)
    ensures forall e :: e in reply ==> e.0 in chain && chain[e.0] == e.1
    ensures forall k :: k in request && k in chain ==> (k, chain[k]) in reply
    decreases |request|
  {
    if |request| == 0 then []
    else
      var k := request[0];
      var rest := Served(chain, request[1..]);
      assert request == [k] + request[1..];
      if k in chain then
        HonestTake((k, chain[k]), request[1..], rest);
        [(k, chain[k])] + rest
      else
        HonestSkip(k, request[1..], rest);
        rest
  }

  /**
   * Splitting a request into chunks and concatenating the replies gives the
   * reply to the whole request, so batching by the source is invisible.
   */
  lemma {:induction false} ServedChunks(chain: map<Pubkey, Bytes>, a: seq<Pubkey>, b: seq<Pubkey>)
    ensures Served(chain, a + b) == Served(chain, a) + Served(chain, b)
    decreases |a|
  {
    if |a| == 0 {
      assert a + b == b;
    } else {
      assert (a + b)[0] == a[0];
      assert (a + b)[1..] == a[1..] + b;
      ServedChunks(chain, a[1..], b);
    }
  }

  /** A request without duplicates gets at most one entry per key. */
  lemma ServedDistinct(chain: map<Pubkey, Bytes>, request: seq<Pubkey>)
    requires Distinct(request)
    ensures Distinct(KeysOf(Served(chain, request)))
  {
    SubsequenceDistinct(KeysOf(Served(chain, request)), request);
  }

  /** A snapshot reply to keys none of which exist is empty. */
  lemma ServedNone(chain: map<Pubkey, Bytes>, request: seq<Pubkey>)
    requires forall k :: k in request ==> k !in chain
    ensures Served(chain, request) == []
  {
    var reply := Served(chain, request);
    SubsequenceMembers(KeysOf(reply), request);
  }
}
