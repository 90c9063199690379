/**
 * The JSON object a `post` sends: the parsed pairs inserted, in command-line
 * order, into an initially empty key-unique map. A later pair with the same
 * key overwrites the earlier one (last write wins).
 */
module RequestBody {
  import opened KvPairs

  /** The body map, as the fold of map insertions over the pairs. */
  function LastWriteWins(pairs: seq<KvPair>): map<string, string>
    decreases |pairs|
  {
    if pairs == [] then map[]
    else
      var last := pairs[|pairs| - 1];
      LastWriteWins(pairs[..|pairs| - 1])[last.key := last.value]
  }

  /** Every key that appears in some pair. */
  function KeysOf(pairs: seq<KvPair>): set<string>
  {
    set i | 0 <= i < |pairs| :: pairs[i].key
  }

  /** No pair after position `i` has the key of pair `i`. */
  ghost predicate IsLastOccurrence(pairs: seq<KvPair>, i: nat)
    requires i < |pairs|
  {
    forall j :: i < j < |pairs| ==> pairs[j].key != pairs[i].key
  }

  /** No two pairs share a key. */
  ghost predicate DistinctKeys(pairs: seq<KvPair>)
  {
    forall i, j :: 0 <= i < j < |pairs| ==> pairs[i].key != pairs[j].key
  }

  /** Dropping the last pair drops its key unless an earlier pair has it. */
  lemma KeysOfInit(pairs: seq<KvPair>)
    requires pairs != []
    ensures KeysOf(pairs) == KeysOf(pairs[..|pairs| - 1]) + {pairs[|pairs| - 1].key}
  {
    var n := |pairs|;
    var init := pairs[..n - 1];
    forall k | k in KeysOf(pairs) ensures k in KeysOf(init) + {pairs[n - 1].key} {
      var i :| 0 <= i < n && pairs[i].key == k;
      if i < n - 1 { assert init[i] == pairs[i]; }
    }
    forall k | k in KeysOf(init) ensures k in KeysOf(pairs) {
      var i :| 0 <= i < n - 1 && init[i].key == k;
      assert pairs[i] == init[i];
    }
  }

  /** The body holds exactly the keys of the pairs. */
  lemma {:induction false} LastWriteWinsKeys(pairs: seq<KvPair>)
    ensures LastWriteWins(pairs).Keys == KeysOf(pairs)
    decreases |pairs|
  {
    if pairs != [] {
      LastWriteWinsKeys(pairs[..|pairs| - 1]);
      KeysOfInit(pairs);
    }
  }

  /** Each key of the body maps to the value of the last pair that has it. */
  lemma {:induction false} LastWriteWinsValues(pairs: seq<KvPair>)
    ensures forall i :: 0 <= i < |pairs| && IsLastOccurrence(pairs, i) ==>
              pairs[i].key in LastWriteWins(pairs) && LastWriteWins(pairs)[pairs[i].key] == pairs[i].value
    decreases |pairs|
  {
    if pairs != [] {
      var n := |pairs|;
      var init := pairs[..n - 1];
      var last := pairs[n - 1];
      LastWriteWinsValues(init);
      forall i | 0 <= i < n - 1 && IsLastOccurrence(pairs, i)
        ensures pairs[i].key in LastWriteWins(pairs) && LastWriteWins(pairs)[pairs[i].key] == pairs[i].value
      {
        assert pairs[i] == init[i];
        assert pairs[i].key != last.key;
        assert IsLastOccurrence(init, i) by {
          forall j | i < j < n - 1 ensures init[j].key != init[i].key {
            assert init[j] == pairs[j];
          }
        }
      }
    }
  }

  /** No pairs, empty body. */
  lemma EmptyBody()
    ensures LastWriteWins([]) == map[]
  {
  }

  /** Each insertion changes the entry of its own key and no other. */
  lemma InsertChangesOnlyItsKey(pairs: seq<KvPair>, p: KvPair)
    ensures LastWriteWins(pairs + [p]).Keys == LastWriteWins(pairs).Keys + {p.key}
    ensures LastWriteWins(pairs + [p])[p.key] == p.value
    ensures forall k :: k in LastWriteWins(pairs) && k != p.key ==>
              LastWriteWins(pairs + [p])[k] == LastWriteWins(pairs)[k]
  {
    assert (pairs + [p])[..|pairs|] == pairs;
  }

  /**
   * Without duplicate keys nothing is overwritten: every pair is in the body
   * unchanged and the body has one entry per pair.
   */
  lemma {:induction false} DistinctKeysKeepEveryPair(pairs: seq<KvPair>)
    requires DistinctKeys(pairs)
    ensures forall i :: 0 <= i < |pairs| ==>
              pairs[i].key in LastWriteWins(pairs) && LastWriteWins(pairs)[pairs[i].key] == pairs[i].value
    ensures |LastWriteWins(pairs)| == |pairs|
    decreases |pairs|
  {
    LastWriteWinsValues(pairs);
    LastWriteWinsKeys(pairs);
    if pairs != [] {
      var n := |pairs|;
      var init := pairs[..n - 1];
      var last := pairs[n - 1];
      assert DistinctKeys(init) by {
        forall i, j | 0 <= i < j < n - 1 ensures init[i].key != init[j].key {
          assert init[i] == pairs[i] && init[j] == pairs[j];
        }
      }
      DistinctKeysKeepEveryPair(init);
      assert last.key !in LastWriteWins(init) by {
        LastWriteWinsKeys(init);
        forall i | 0 <= i < n - 1 ensures init[i].key != last.key {
          assert init[i] == pairs[i];
        }
      }
    }
  }

  /**
   * The loop of `do_post`: start from an empty map and insert every pair in
   * order.
   */
  method BuildRequestBody(pairs: seq<KvPair>) returns (body: map<string, string>)
    ensures body == LastWriteWins(pairs)
    ensures body.Keys == KeysOf(pairs)
    ensures forall i :: 0 <= i < |pairs| && IsLastOccurrence(pairs, i) ==>
              body[pairs[i].key] == pairs[i].value
  {
    body := map[];
    for i := 0 to |pairs|
      invariant body == LastWriteWins(pairs[..i])
    {
      assert pairs[..i + 1][..i] == pairs[..i];
      body := body[pairs[i].key := pairs[i].value];
    }
    assert pairs[..|pairs|] == pairs;
    LastWriteWinsKeys(pairs);
    LastWriteWinsValues(pairs);
  }
}
