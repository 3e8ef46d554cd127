/** Fetching many items from the node: one call each, or JSON-RPC batches answered in any order. */
module Rpc {
  import opened Wrappers

  /** One element of a batch reply; `result` is absent when it is missing, null or cannot be decoded. */
  datatype Response<V> = Response(id: Option<int>, error: bool, result: Option<V>)

  /** The external client sends chunks; `respond` is the reply to a chunk, or a transport failure. */
  datatype Client<!K, !V> = Core | External(batchSize: nat, respond: seq<K> -> Option<seq<Response<V>>>)

  /** What is asked for and found: the answers of `node`, unanswered items left out. */
  function Found<K, V>(keys: seq<K>, node: K -> Option<V>): map<K, V> {
    map k | k in keys && node(k).Some? :: node(k).value
  }

  /**
   * A reply to `chunk`: each element that carries a result for one of the ids carries that item's
   * answer, and each answered item has such an element. Order and repetition are free, as in
   * section 6 of the JSON-RPC 2.0 specification.
   */
  ghost predicate Answers<K, V>(chunk: seq<K>, responses: seq<Response<V>>, node: K -> Option<V>) {
    && (forall r :: r in responses && Carries(r) && 0 <= r.id.value < |chunk| ==> node(chunk[r.id.value]) == r.result)
    && (forall i :: 0 <= i < |chunk| && node(chunk[i]).Some? ==>
          exists r :: r in responses && Carries(r) && r.id.value == i)
  }

  predicate Carries<V>(r: Response<V>) {
    !r.error && r.id.Some? && r.result.Some?
  }

  ghost predicate Faithful<K(!new), V(!new)>(client: Client<K, V>, node: K -> Option<V>) {
    client.External? ==>
      client.batchSize >= 1 &&
      forall chunk :: client.respond(chunk).Some? ==> Answers(chunk, client.respond(chunk).value, node)
  }

  /** Sorts the elements of one reply back to their items by id. */
  method Demultiplex<K(==), V>(chunk: seq<K>, responses: seq<Response<V>>, before: map<K, V>, ghost node: K -> Option<V>)
    returns (results: map<K, V>)
    requires Answers(chunk, responses, node)
    requires forall k :: k in before ==> node(k) == Some(before[k])
    ensures results == before + Found(chunk, node)
  {
    results := before;
    var n := 0;
    while n < |responses|
      invariant 0 <= n <= |responses|
      invariant forall k :: k in results ==> node(k) == Some(results[k]) && (k in before || k in chunk)
      invariant forall k :: k in before ==> k in results
      invariant forall r :: r in responses[..n] && Carries(r) && 0 <= r.id.value < |chunk| ==> chunk[r.id.value] in results
    {
      var resp := responses[n];
      assert responses[..n + 1] == responses[..n] + [resp];
      assert resp in responses;
      if !resp.error && resp.id.Some? && 0 <= resp.id.value < |chunk| && resp.result.Some? {
        results := results[chunk[resp.id.value] := resp.result.value];
      }
      n := n + 1;
    }
    assert responses[..n] == responses;
    forall k | k in Found(chunk, node) ensures k in results {
      var i :| 0 <= i < |chunk| && chunk[i] == k;
      var r :| r in responses && Carries(r) && r.id.value == i;
    }
  }

  lemma FoundConcat<K, V>(a: seq<K>, b: seq<K>, node: K -> Option<V>)
    ensures Found(a + b, node) == Found(a, node) + Found(b, node)
  {
  }

  /** Batches of `batchSize`, replies in any order: the same items as fetching one by one. */
  method FetchInBatches<K(==, !new), V(!new)>(client: Client<K, V>, keys: seq<K>, ghost node: K -> Option<V>)
    returns (r: Option<map<K, V>>)
    requires client.External? && Faithful(client, node)
    ensures r.Some? ==> r.value == Found(keys, node)
    ensures (forall chunk :: client.respond(chunk).Some?) ==> r.Some?
  {
    hide Answers;
    var results: map<K, V> := map[];
    var i := 0;
    while i < |keys|
      invariant 0 <= i <= |keys|
      invariant results == Found(keys[..i], node)
    {
      var end := if i + client.batchSize < |keys| then i + client.batchSize else |keys|;
      var chunk := keys[i..end];
      var responses := client.respond(chunk);
      if responses.None? {
        return None;
      }
      results := Demultiplex(chunk, responses.value, results, node);
      FoundConcat(keys[..i], chunk, node);
      assert keys[..end] == keys[..i] + chunk;
      i := end;
    }
    assert keys[..i] == keys;
    r := Some(results);
  }

  method FetchOneByOne<K(==), V>(keys: seq<K>, node: K -> Option<V>) returns (results: map<K, V>)
    ensures results == Found(keys, node)
  {
    results := map[];
    var i := 0;
    while i < |keys|
      invariant 0 <= i <= |keys|
      invariant results == Found(keys[..i], node)
    {
      assert keys[..i + 1] == keys[..i] + [keys[i]];
      var res := node(keys[i]);
      if res.Some? {
        results := results[keys[i] := res.value];
      }
      i := i + 1;
    }
    assert keys[..i] == keys;
  }

  /** Either kind of client; the core client never fails as a whole. */
  method Fetch<K(==, !new), V(!new)>(client: Client<K, V>, keys: seq<K>, node: K -> Option<V>)
    returns (r: Option<map<K, V>>)
    requires Faithful(client, node)
    ensures r.Some? ==> r.value == Found(keys, node)
    ensures client.Core? || (forall chunk :: client.respond(chunk).Some?) ==> r.Some?
  {
    if client.External? {
      r := FetchInBatches(client, keys, node);
    } else {
      var results := FetchOneByOne(keys, node);
      r := Some(results);
    }
  }
}
