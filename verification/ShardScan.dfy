/**
 Loading the shard table: SCAN in batches until cursor 0, one MGET of all keys, parse, skip what is gone
 or malformed. SCAN may report a key more than once; that never changes the decision.
 */
module ShardScan {
  import opened Prelude
  import opened Scheduler

  datatype ScanReply = ScanReply(cursor: nat, keys: seq<string>)

  /** The stored `shards:*` values at the MGET, already put through the JSON parser. */
  datatype Stored = Row(row: ShardRow) | Malformed

  type Registry = map<string, Stored>

  /** The keys of the replies up to and including the first one with cursor 0. */
  function ScannedKeys(replies: seq<ScanReply>): seq<string> {
    if replies == [] then []
    else if replies[0].cursor == 0 then replies[0].keys
    else replies[0].keys + ScannedKeys(replies[1..])
  }

  /** Reply `n` is answered to the scan: no reply before it has cursor 0. */
  ghost predicate Scanned(replies: seq<ScanReply>, n: nat) {
    n < |replies| && forall i :: 0 <= i < n ==> replies[i].cursor != 0
  }

  /** The keys of the first `n` replies, in order. */
  function Batches(replies: seq<ScanReply>, n: nat): seq<string>
    requires n <= |replies|
  {
    if n == 0 then [] else Batches(replies, n - 1) + replies[n - 1].keys
  }

  lemma {:induction false} BatchesShift(replies: seq<ScanReply>, n: nat)
    requires 1 <= n <= |replies|
    ensures Batches(replies, n) == replies[0].keys + Batches(replies[1..], n - 1)
  {
    if n > 1 {
      BatchesShift(replies, n - 1);
    }
  }

  /** The scan yields every batch up to and including the first that comes with cursor 0, and no other. */
  lemma {:induction false} ScanStopsAtCursorZero(replies: seq<ScanReply>, n: nat)
    requires Scanned(replies, n) && replies[n].cursor == 0
    ensures ScannedKeys(replies) == Batches(replies, n + 1)
  {
    if n > 0 {
      assert Scanned(replies[1..], n - 1);
      ScanStopsAtCursorZero(replies[1..], n - 1);
    } else {
      assert Batches(replies, 0) == [];
    }
    BatchesShift(replies, n + 1);
  }

  /** Which keys are scanned, exactly. */
  lemma {:induction false} ScannedExactly(replies: seq<ScanReply>, k: string)
    ensures k in ScannedKeys(replies) <==> exists n: nat :: Scanned(replies, n) && k in replies[n].keys
  {
    if replies != [] {
      if k in replies[0].keys {
        assert Scanned(replies, 0);
      }
      if replies[0].cursor != 0 {
        ScannedExactly(replies[1..], k);
        forall n: nat
          ensures Scanned(replies, n + 1) <==> Scanned(replies[1..], n)
        {
          assert Scanned(replies, n + 1) ==> forall i :: 0 <= i < n ==> replies[1..][i] == replies[i + 1];
        }
        if n: nat :| Scanned(replies[1..], n) && k in replies[1..][n].keys {
          assert Scanned(replies, n + 1) && k in replies[n + 1].keys;
        }
        if n: nat :| Scanned(replies, n) && k in replies[n].keys && n > 0 {
          assert Scanned(replies[1..], n - 1) && k in replies[1..][n - 1].keys;
        }
      }
    }
  }

  predicate WellFormed(registry: Registry, key: string) {
    key in registry && registry[key].Row?
  }

  /** The rows of the well-formed keys, in key order. */
  function RowsOf(keys: seq<string>, registry: Registry): seq<ShardRow> {
    if keys == [] then []
    else
      var front := RowsOf(Drop1(keys), registry);
      if WellFormed(registry, Last(keys)) then front + [registry[Last(keys)].row] else front
  }

  /** The SCAN loop. `replies` are the answers Redis gives to successive SCANs. */
  method ScanKeys(replies: seq<ScanReply>) returns (keys: seq<string>)
    requires exists i :: 0 <= i < |replies| && replies[i].cursor == 0
    ensures keys == ScannedKeys(replies)
  {
    keys := [];
    var n := 0;
    while true
      invariant n < |replies| && forall i :: 0 <= i < n ==> replies[i].cursor != 0
      invariant keys + ScannedKeys(replies[n..]) == ScannedKeys(replies)
      decreases |replies| - n
    {
      assert replies[n..][0] == replies[n] && replies[n..][1..] == replies[n + 1..];
      keys := keys + replies[n].keys;
      if replies[n].cursor == 0 {
        break;
      }
      n := n + 1;
    }
  }

  /** The loop over the answers of the MGET. */
  method ParseRows(keys: seq<string>, registry: Registry) returns (out: seq<ShardRow>)
    ensures out == RowsOf(keys, registry)
  {
    out := [];
    for k := 0 to |keys|
      invariant out == RowsOf(keys[..k], registry)
    {
      assert Drop1(keys[..k + 1]) == keys[..k];
      if WellFormed(registry, keys[k]) {
        out := out + [registry[keys[k]].row];
      }
    }
    assert keys[..|keys|] == keys;
  }

  method FetchShards(replies: seq<ScanReply>, registry: Registry) returns (out: seq<ShardRow>)
    requires exists i :: 0 <= i < |replies| && replies[i].cursor == 0
    ensures out == RowsOf(ScannedKeys(replies), registry)
    ensures forall s :: s in out <==> exists n: nat, k ::
                Scanned(replies, n) && k in replies[n].keys && k in registry && registry[k] == Row(s)
  {
    FetchedExactly(replies, registry);
    var keys := ScanKeys(replies);
    if keys == [] {
      return [];
    }
    out := ParseRows(keys, registry);
  }

  // ----- duplicates -------------------------------------------------------------------------

  /** First occurrences only, and only of well-formed keys. */
  function Cleaned(keys: seq<string>, registry: Registry): seq<string> {
    if keys == [] then []
    else
      var front := Cleaned(Drop1(keys), registry);
      if Last(keys) in front || !WellFormed(registry, Last(keys)) then front else front + [Last(keys)]
  }

  lemma {:induction false} CleanedIsDistinct(keys: seq<string>, registry: Registry)
    ensures forall k :: k in Cleaned(keys, registry) <==> k in keys && WellFormed(registry, k)
    ensures forall i, j :: 0 <= i < j < |Cleaned(keys, registry)| ==>
              Cleaned(keys, registry)[i] != Cleaned(keys, registry)[j]
  {
    if keys != [] {
      CleanedIsDistinct(Drop1(keys), registry);
      assert keys == Drop1(keys) + [Last(keys)];
    }
  }

  lemma {:induction false} RowsOfMembers(keys: seq<string>, registry: Registry)
    ensures forall k :: k in keys && WellFormed(registry, k) ==> registry[k].row in RowsOf(keys, registry)
    ensures forall s :: s in RowsOf(keys, registry) ==>
              exists k :: k in keys && WellFormed(registry, k) && registry[k].row == s
  {
    if keys != [] {
      RowsOfMembers(Drop1(keys), registry);
      assert keys == Drop1(keys) + [Last(keys)];
    }
  }

  /** A row is fetched if and only if it is the well-formed row of a key in a reply of the scan. */
  lemma FetchedExactly(replies: seq<ScanReply>, registry: Registry)
    ensures forall s :: s in RowsOf(ScannedKeys(replies), registry) <==> exists n: nat, k ::
                Scanned(replies, n) && k in replies[n].keys && k in registry && registry[k] == Row(s)
  {
    var keys := ScannedKeys(replies);
    RowsOfMembers(keys, registry);
    forall k
      ensures k in keys <==> exists n: nat :: Scanned(replies, n) && k in replies[n].keys
    {
      ScannedExactly(replies, k);
    }
  }

  /** `at` lists in increasing order the positions of the well-formed keys among the first `n`. */
  ghost predicate Positions(at: seq<nat>, keys: seq<string>, n: nat, registry: Registry)
    requires n <= |keys|
  {
    && (forall i :: 0 <= i < |at| ==> at[i] < n && WellFormed(registry, keys[at[i]]))
    && (forall i, j :: 0 <= i < j < |at| ==> at[i] < at[j])
    && (forall p: nat :: p < n && WellFormed(registry, keys[p]) ==> p in at)
  }

  /** Row `i` is that of the key at position `at[i]`. */
  ghost predicate RowsAt(at: seq<nat>, keys: seq<string>, registry: Registry, rows: seq<ShardRow>) {
    |rows| == |at| && forall i :: 0 <= i < |at| ==>
      at[i] < |keys| && keys[at[i]] in registry && registry[keys[at[i]]] == Row(rows[i])
  }

  lemma OneMorePosition(at: seq<nat>, keys: seq<string>, n: nat, registry: Registry)
    requires n < |keys| && Positions(at, keys, n, registry) && WellFormed(registry, keys[n])
    ensures Positions(at + [n], keys, n + 1, registry)
  {
    var more := at + [n];
    assert more[|at|] == n;
    assert forall p: nat :: p in at ==> p in more;
  }

  lemma {:induction false} RowsUpTo(keys: seq<string>, n: nat, registry: Registry) returns (at: seq<nat>)
    requires n <= |keys|
    ensures Positions(at, keys, n, registry) && RowsAt(at, keys, registry, RowsOf(keys[..n], registry))
  {
    if n == 0 {
      at := [];
    } else {
      at := RowsUpTo(keys, n - 1, registry);
      assert Drop1(keys[..n]) == keys[..n - 1];
      if WellFormed(registry, keys[n - 1]) {
        OneMorePosition(at, keys, n - 1, registry);
        at := at + [n - 1];
      }
    }
  }

  /** The rows come in the order of their keys: one for every well-formed key, repeated ones included. */
  lemma RowsKeepOrder(keys: seq<string>, registry: Registry) returns (at: seq<nat>)
    ensures Positions(at, keys, |keys|, registry) && RowsAt(at, keys, registry, RowsOf(keys, registry))
  {
    at := RowsUpTo(keys, |keys|, registry);
    assert keys[..|keys|] == keys;
  }

  /** Lookups by id find the same rows. */
  ghost predicate LooksUpAlike(a: seq<ShardRow>, b: seq<ShardRow>) {
    forall id :: FindById(a, id) == FindById(b, id)
  }

  /** Both empty, or the same best row. */
  ghost predicate PicksAlike(a: seq<ShardRow>, b: seq<ShardRow>) {
    (a == [] <==> b == []) && (a != [] ==> Best(a) == Best(b))
  }

  /** Two tables that decide alike: same members, same first (eligible) row per id, same best row. */
  ghost predicate DecideAlike(a: seq<ShardRow>, b: seq<ShardRow>, required: nat, now: nat) {
    var ea, eb := EligibleRows(a, required, now), EligibleRows(b, required, now);
    (forall s :: s in a <==> s in b) && LooksUpAlike(a, b) && LooksUpAlike(ea, eb) && PicksAlike(ea, eb)
  }

  lemma RepeatKeepsLookup(a: seq<ShardRow>, s: ShardRow)
    requires s in a
    ensures LooksUpAlike(a + [s], a)
  {
    assert Drop1(a + [s]) == a;
    forall id
      ensures FindById(a + [s], id) == FindById(a, id)
    {
      FindByIdFirst(a, id);
    }
  }

  lemma RepeatKeepsPick(a: seq<ShardRow>, s: ShardRow)
    requires s in a
    ensures PicksAlike(a + [s], a)
  {
    assert Drop1(a + [s]) == a && Last(a + [s]) == s;
    BestIsMinimal(a);
  }

  lemma EligibleSnoc(a: seq<ShardRow>, s: ShardRow, required: nat, now: nat)
    ensures EligibleRows(a + [s], required, now)
            == EligibleRows(a, required, now) + if IsEligible(s, required, now) then [s] else []
  {
    assert Drop1(a + [s]) == a && Last(a + [s]) == s;
  }

  /** Appending a row that is already there changes nothing. */
  lemma RepeatChangesNothing(a: seq<ShardRow>, s: ShardRow, required: nat, now: nat)
    requires s in a
    ensures DecideAlike(a + [s], a, required, now)
  {
    var ea := EligibleRows(a, required, now);
    EligibleSnoc(a, s, required, now);
    EligibleRowsMembers(a, required, now);
    RepeatKeepsLookup(a, s);
    if IsEligible(s, required, now) {
      RepeatKeepsLookup(ea, s);
      RepeatKeepsPick(ea, s);
    } else {
      assert ea + [] == ea;
    }
  }

  lemma AppendKeepsLookup(a: seq<ShardRow>, b: seq<ShardRow>, s: ShardRow)
    requires LooksUpAlike(a, b)
    ensures LooksUpAlike(a + [s], b + [s])
  {
    assert Drop1(a + [s]) == a && Drop1(b + [s]) == b;
    forall id
      ensures FindById(a + [s], id) == FindById(b + [s], id)
    {
      assert FindById(a, id) == FindById(b, id);
    }
  }

  lemma AppendKeepsPick(a: seq<ShardRow>, b: seq<ShardRow>, s: ShardRow)
    requires PicksAlike(a, b)
    ensures PicksAlike(a + [s], b + [s])
  {
    assert Drop1(a + [s]) == a && Drop1(b + [s]) == b;
  }

  /** Appending the same row to alike tables keeps them alike. */
  lemma AppendKeepsAlike(a: seq<ShardRow>, b: seq<ShardRow>, s: ShardRow, required: nat, now: nat)
    requires DecideAlike(a, b, required, now)
    ensures DecideAlike(a + [s], b + [s], required, now)
  {
    var ea, eb := EligibleRows(a, required, now), EligibleRows(b, required, now);
    EligibleSnoc(a, s, required, now);
    EligibleSnoc(b, s, required, now);
    AppendKeepsLookup(a, b, s);
    if IsEligible(s, required, now) {
      AppendKeepsLookup(ea, eb, s);
      AppendKeepsPick(ea, eb, s);
    } else {
      assert ea + [] == ea && eb + [] == eb;
    }
  }

  lemma {:induction false} CleaningDecidesAlike(keys: seq<string>, registry: Registry, required: nat, now: nat)
    ensures DecideAlike(RowsOf(keys, registry), RowsOf(Cleaned(keys, registry), registry), required, now)
  {
    if keys != [] {
      var front, k := Drop1(keys), Last(keys);
      CleaningDecidesAlike(front, registry, required, now);
      CleanedIsDistinct(front, registry);
      RowsOfMembers(front, registry);
      var a, b := RowsOf(front, registry), RowsOf(Cleaned(front, registry), registry);
      if WellFormed(registry, k) {
        var s := registry[k].row;
        if k in Cleaned(front, registry) {
          RepeatChangesNothing(a, s, required, now);
        } else {
          AppendKeepsAlike(a, b, s, required, now);
          assert Drop1(Cleaned(front, registry) + [k]) == Cleaned(front, registry);
        }
      }
    }
  }

  /** Same placement, or a refusal of the same kind. */
  predicate SameVerdict(d: Decision, d': Decision) {
    match d
    case Place(s) => d' == Place(s)
    case ContractOutOfRange(_, _) => d'.ContractOutOfRange?
    case NoEligibleShards(_, _) => d'.NoEligibleShards?
  }

  /**
   SCAN-duplicate insensitivity: whatever batches SCAN gives, repeated keys, vanished keys and malformed
   rows change neither the chosen shard, nor the kind of refusal, nor the row the response looks up by shard
   id after the claim, compared with the table that lists every well-formed key once.
   */
  lemma ScanInsensitive(
    replies: seq<ScanReply>, registry: Registry, required: nat, now: nat, active: Option<string>)
    ensures var keys := ScannedKeys(replies);
            SameVerdict(Decide(RowsOf(keys, registry), required, now, active),
                        Decide(RowsOf(Cleaned(keys, registry), registry), required, now, active))
            && forall id :: FindById(RowsOf(keys, registry), id) == FindById(RowsOf(Cleaned(keys, registry), registry), id)
  {
    var keys := ScannedKeys(replies);
    CleaningDecidesAlike(keys, registry, required, now);
    var a, b := RowsOf(keys, registry), RowsOf(Cleaned(keys, registry), registry);
    assert forall s :: s in a <==> s in b;
    assert a == [] <==> b == [] by {
      assert a != [] ==> a[0] in b;
      assert b != [] ==> b[0] in a;
    }
  }
}
