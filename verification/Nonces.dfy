/** The receiver's replay protection: freshness of the signed timestamp, then the nonce
    store, over every sequence of requests. Times are nanoseconds. */
module Nonces {
  import opened Text
  import opened Timestamps

  /** Entries that have not expired at `now`. */
  function Purge(items: map<string, int>, now: int): map<string, int> {
    map k | k in items && now <= items[k] :: items[k]
  }

  class NonceStore {
    var items: map<string, int>

    constructor ()
      ensures items == map[]
    {
      items := map[];
    }

    /** Drops what has expired, then takes the nonce unless it is still there. */
    method Add(nonce: string, expiresAt: int, now: int) returns (added: bool)
      modifies this
      ensures added <==> !(nonce in old(items) && now <= old(items)[nonce])
      ensures forall k :: k in items <==> (k in old(items) && now <= old(items)[k]) || (added && k == nonce)
      ensures forall k :: k in items ==> items[k] == if added && k == nonce then expiresAt else old(items)[k]
      ensures items == if added then Purge(old(items), now)[nonce := expiresAt] else Purge(old(items), now)
    {
      var keys := items.Keys;
      while keys != {}
        invariant keys <= old(items).Keys
        invariant items == map k | k in old(items) && (k in keys || now <= old(items)[k]) :: old(items)[k]
        decreases |keys|
      {
        var key :| key in keys;
        if key in items && now > items[key] { items := items - {key}; }
        keys := keys - {key};
      }
      assert items == Purge(old(items), now);
      if nonce in items { return false; }
      items := items[nonce := expiresAt];
      added := true;
    }
  }

  /** One signed request: the three clock readings `verifySignature` takes, the timestamp in
      whole seconds, the nonce, and whether the other checks pass. */
  datatype Call = Call(sinceAt: int, untilAt: int, addedAt: int, timestamp: int, nonce: string, signed: bool)

  function Expiry(skew: nat, c: Call): int { c.timestamp * SECOND + skew }

  /** The request gets as far as the nonce store. */
  predicate Reaches(skew: nat, c: Call) {
    c.signed && c.sinceAt - c.timestamp * SECOND <= skew && c.timestamp * SECOND - c.untilAt <= skew
  }

  predicate Accepts(skew: nat, items: map<string, int>, c: Call) {
    Reaches(skew, c) && c.nonce !in Purge(items, c.addedAt)
  }

  function After(skew: nat, items: map<string, int>, c: Call): map<string, int> {
    if !Reaches(skew, c) then items
    else if Accepts(skew, items, c) then Purge(items, c.addedAt)[c.nonce := Expiry(skew, c)]
    else Purge(items, c.addedAt)
  }

  /** `verifySignature` on a store. A request is accepted exactly when it is signed, its timestamp
      is within the skew on both sides, and its nonce is not stored or has expired. An unsigned
      or stale one leaves the store alone; an accepted one is stored until its timestamp plus the
      skew. */
  method Verify(store: NonceStore, skew: nat, c: Call) returns (accepted: bool)
    modifies store
    ensures accepted <==>
            c.signed && c.sinceAt - c.timestamp * 1_000_000_000 <= skew && c.timestamp * 1_000_000_000 - c.untilAt <= skew &&
            !(c.nonce in old(store.items) && c.addedAt <= old(store.items)[c.nonce])
    ensures !c.signed || c.sinceAt - c.timestamp * 1_000_000_000 > skew || c.timestamp * 1_000_000_000 - c.untilAt > skew ==>
              store.items == old(store.items)
    ensures accepted ==> c.nonce in store.items && store.items[c.nonce] == c.timestamp * 1_000_000_000 + skew
    ensures accepted == Accepts(skew, old(store.items), c)
    ensures store.items == After(skew, old(store.items), c)
  {
    if !c.signed || c.sinceAt - c.timestamp * SECOND > skew || c.timestamp * SECOND - c.untilAt > skew {
      return false;
    }
    accepted := store.Add(c.nonce, c.timestamp * SECOND + skew, c.addedAt);
  }

  /** The store after a sequence of requests. */
  function Store(skew: nat, calls: seq<Call>): map<string, int> {
    if calls == [] then map[] else After(skew, Store(skew, calls[..|calls| - 1]), calls[|calls| - 1])
  }

  predicate AcceptedAt(skew: nat, calls: seq<Call>, i: nat)
    requires i < |calls|
  {
    Accepts(skew, Store(skew, calls[..i]), calls[i])
  }

  /** Each request reads the clock forwards, and the store's lock orders the last readings. */
  ghost predicate ClockForward(calls: seq<Call>) {
    && (forall i :: 0 <= i < |calls| ==> calls[i].sinceAt <= calls[i].untilAt <= calls[i].addedAt)
    && (forall i, j :: 0 <= i < j < |calls| ==> calls[i].addedAt <= calls[j].addedAt)
  }

  /** The latest accepted request with this nonce. */
  function LastAccepted(skew: nat, calls: seq<Call>, nonce: string): (r: Option<nat>)
    ensures r.Some? ==> r.value < |calls| && calls[r.value].nonce == nonce
  {
    if calls == [] then None
    else
      var n := |calls| - 1;
      if calls[n].nonce == nonce && AcceptedAt(skew, calls, n) then Some(n)
      else LastAccepted(skew, calls[..n], nonce)
  }

  /** What is still stored at time `t` is the latest accepted entry, if it lives that long. */
  lemma {:induction false} StoreHoldsLast(skew: nat, calls: seq<Call>, nonce: string, t: int)
    requires ClockForward(calls) && forall i :: 0 <= i < |calls| ==> calls[i].addedAt <= t
    ensures var items, last := Store(skew, calls), LastAccepted(skew, calls, nonce);
      nonce in Purge(items, t) <==> last.Some? && t <= Expiry(skew, calls[last.value])
  {
    if calls != [] {
      var n := |calls| - 1;
      StoreHoldsLast(skew, calls[..n], nonce, t);
      assert calls[..n + 1] == calls;
    }
  }

  lemma {:induction false} LastIsLast(skew: nat, calls: seq<Call>, nonce: string, i: nat)
    requires i < |calls| && calls[i].nonce == nonce && AcceptedAt(skew, calls, i)
    ensures var last := LastAccepted(skew, calls, nonce); last.Some? && i <= last.value && AcceptedAt(skew, calls, last.value)
  {
    var n := |calls| - 1;
    if !(calls[n].nonce == nonce && AcceptedAt(skew, calls, n)) {
      assert calls[..n][..i] == calls[..i];
      LastIsLast(skew, calls[..n], nonce, i);
      var last := LastAccepted(skew, calls[..n], nonce).value;
      assert calls[..n][..last] == calls[..last];
    }
  }

  /** Two accepted requests with one nonce are separated by the first one's expiry. */
  lemma {:induction false} SeparatedByExpiry(skew: nat, calls: seq<Call>, i: nat, j: nat)
    requires ClockForward(calls) && i < j < |calls| && calls[i].nonce == calls[j].nonce
    requires AcceptedAt(skew, calls, i) && AcceptedAt(skew, calls, j)
    ensures calls[j].addedAt > Expiry(skew, calls[i])
    decreases j
  {
    var before, nonce := calls[..j], calls[j].nonce;
    assert before[..i] == calls[..i];
    LastIsLast(skew, before, nonce, i);
    StoreHoldsLast(skew, before, nonce, calls[j].addedAt);
    var m := LastAccepted(skew, before, nonce).value;
    if i < m {
      assert before[..m] == calls[..m];
      SeparatedByExpiry(skew, calls, i, m);
    }
  }

  /** Exactly when the store takes a request: no accepted one with its nonce is unexpired. */
  lemma AcceptedIffExpired(skew: nat, calls: seq<Call>, j: nat)
    requires ClockForward(calls) && j < |calls| && Reaches(skew, calls[j])
    ensures AcceptedAt(skew, calls, j) <==>
            forall i :: 0 <= i < j && calls[i].nonce == calls[j].nonce && AcceptedAt(skew, calls, i) ==>
              calls[j].addedAt > Expiry(skew, calls[i])
  {
    var before, nonce := calls[..j], calls[j].nonce;
    if AcceptedAt(skew, calls, j) {
      forall i | 0 <= i < j && calls[i].nonce == nonce && AcceptedAt(skew, calls, i)
        ensures calls[j].addedAt > Expiry(skew, calls[i])
      {
        SeparatedByExpiry(skew, calls, i, j);
      }
    } else {
      StoreHoldsLast(skew, before, nonce, calls[j].addedAt);
      var m := LastAccepted(skew, before, nonce).value;
      LastWasAccepted(skew, before, nonce);
      assert before[..m] == calls[..m];
    }
  }

  lemma {:induction false} LastWasAccepted(skew: nat, calls: seq<Call>, nonce: string)
    requires LastAccepted(skew, calls, nonce).Some?
    ensures AcceptedAt(skew, calls, LastAccepted(skew, calls, nonce).value)
  {
    var n := |calls| - 1;
    var m := LastAccepted(skew, calls, nonce).value;
    if m < n {
      LastWasAccepted(skew, calls[..n], nonce);
      assert calls[..n][..m] == calls[..m];
    }
  }

  /** A (timestamp, nonce) pair is accepted at most once by every request whose freshness check
      and store read the same instant. */
  lemma PairAcceptedOnce(skew: nat, calls: seq<Call>, i: nat, j: nat)
    requires ClockForward(calls) && i < j < |calls|
    requires calls[i].nonce == calls[j].nonce && calls[i].timestamp == calls[j].timestamp
    requires AcceptedAt(skew, calls, i) && calls[j].sinceAt == calls[j].addedAt
    ensures !AcceptedAt(skew, calls, j)
  {
    if AcceptedAt(skew, calls, j) { SeparatedByExpiry(skew, calls, i, j); }
  }

  /** The code reads the clock again in the store, and a replay can slip into that gap. A pair
      accepted before is accepted again exactly when it is fresh at the check and expired at
      the store. */
  lemma ReplayAcceptedIff(skew: nat, calls: seq<Call>, i: nat, j: nat)
    requires ClockForward(calls) && i < j < |calls|
    requires calls[i].nonce == calls[j].nonce && calls[i].timestamp == calls[j].timestamp
    requires AcceptedAt(skew, calls, i)
    requires forall k :: i < k < j && calls[k].nonce == calls[i].nonce ==> !AcceptedAt(skew, calls, k)
    ensures AcceptedAt(skew, calls, j) <==> Reaches(skew, calls[j]) && calls[j].addedAt > Expiry(skew, calls[j])
  {
    if Reaches(skew, calls[j]) {
      AcceptedIffExpired(skew, calls, j);
      if calls[j].addedAt > Expiry(skew, calls[j]) {
        forall k | 0 <= k < j && calls[k].nonce == calls[j].nonce && AcceptedAt(skew, calls, k)
          ensures calls[j].addedAt > Expiry(skew, calls[k])
        {
          if k < i { SeparatedByExpiry(skew, calls, k, i); }
        }
      }
    }
  }

  /** Such a replay exists for every skew, timestamp and nonce: the second request is checked at
      the last fresh instant and reaches the store one nanosecond later. */
  lemma ReplaySlipsThrough(skew: nat, timestamp: int, nonce: string) returns (calls: seq<Call>)
    ensures |calls| == 2 && ClockForward(calls)
    ensures forall i :: 0 <= i < 2 ==>
              calls[i].timestamp == timestamp && calls[i].nonce == nonce && AcceptedAt(skew, calls, i)
  {
    var sent := timestamp * SECOND;
    calls := [Call(sent, sent, sent, timestamp, nonce, true),
              Call(sent + skew, sent + skew, sent + skew + 1, timestamp, nonce, true)];
    assert calls[..0] == [];
    assert AcceptedAt(skew, calls, 0);
    ReplayAcceptedIff(skew, calls, 0, 1);
  }

  /** The store stays within the signing window: right after a request that read one instant
      throughout, every stored expiry lies between that instant and two skews later. */
  lemma {:induction false} StoredWithinWindow(skew: nat, calls: seq<Call>, key: string, t: int)
    requires ClockForward(calls) && forall i :: 0 <= i < |calls| ==> calls[i].addedAt <= t
    requires key in Store(skew, calls)
    ensures Store(skew, calls)[key] <= t + 2 * skew
    ensures var last := calls[|calls| - 1];
      Reaches(skew, last) && last.sinceAt == last.addedAt == t ==> t <= Store(skew, calls)[key]
  {
    var n := |calls| - 1;
    if key in Store(skew, calls[..n]) { StoredWithinWindow(skew, calls[..n], key, t); }
  }
}
