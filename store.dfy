/** The leaderboard table as a sequence of rows, and the queries and writes
    the handler sends to it: `listEntries`, `findEntryByName`, the PATCH and
    POST of `upsertBestEntry`, and `deleteEntry` (api/leaderboard.js, lines
    98-141). The rows are what the database would hold; each function states
    the rows a query returns or a write leaves. */
module Store {
  import opened Wrappers
  import opened Records
  import opened Names
  import opened Ranking

  // ---------------------------------------------------------------------
  // What the store holds
  // ---------------------------------------------------------------------

  /** A name the handler accepts: normalised, valid and not blocked. */
  predicate AcceptedName(name: string) {
    IsNormal(name) && IsValidName(name) && !HasBlockedTerms(name)
  }

  /** A payload the handler builds only after every check has passed. */
  predicate WellFormedPayload(p: Payload) {
    && p.mode in ALLOWED_MODES
    && AcceptedName(p.playerName)
    && 0 < p.maxScore && 0 <= p.score <= p.maxScore && 0 <= p.durationMs
    && 0 <= p.accuracyPercent <= 100
  }

  /** The payload fields of a stored row. */
  function PayloadOf(e: Entry): Payload {
    Payload(e.mode, e.playerName, e.score, e.maxScore, e.durationMs, e.accuracyPercent)
  }

  /** No two rows share an id or a (mode, player name). */
  predicate DistinctRows(entries: seq<Entry>) {
    forall i, j :: 0 <= i < j < |entries| ==>
      entries[i].id != entries[j].id && !SameKey(entries[i], entries[j])
  }

  /** Rows carry distinct positive ids below `nextId`, only validated values,
      and at most one row per (mode, player name). */
  ghost predicate StoreInvariant(entries: seq<Entry>, nextId: nat) {
    && 1 <= nextId
    && (forall i :: 0 <= i < |entries| ==>
          1 <= entries[i].id < nextId && WellFormedPayload(PayloadOf(entries[i])))
    && DistinctRows(entries)
  }

  // ---------------------------------------------------------------------
  // Queries
  // ---------------------------------------------------------------------

  /** `findEntryByName(mode, name)`: a row of that player in that mode, or
      none when there is no such row. */
  function FindEntryByName(entries: seq<Entry>, mode: string, name: string): (r: Option<Entry>)
    ensures r.Some? ==> r.value in entries && r.value.mode == mode && r.value.playerName == name
    ensures r.None? ==> forall e :: e in entries ==> !(e.mode == mode && e.playerName == name)
  {
    if entries == [] then None
    else if entries[0].mode == mode && entries[0].playerName == name then Some(entries[0])
    else FindEntryByName(entries[1..], mode, name)
  }

  /** The rows of one mode (`mode=eq.<mode>`), each as often as it is stored. */
  function ModeRows(entries: seq<Entry>, mode: string): (r: seq<Entry>)
    ensures forall e :: multiset(r)[e] == if e.mode == mode then multiset(entries)[e] else 0
  {
    if entries == [] then []
    else
      var rest := ModeRows(entries[1..], mode);
      assert entries == [entries[0]] + entries[1..];
      if entries[0].mode == mode then [entries[0]] + rest else rest
  }

  /** With at most one row per player and mode, the lookup finds that row. */
  lemma FindEntryByNameUnique(entries: seq<Entry>, k: nat)
    requires DistinctRows(entries) && k < |entries|
    ensures FindEntryByName(entries, entries[k].mode, entries[k].playerName) == Some(entries[k])
  {
    var r := FindEntryByName(entries, entries[k].mode, entries[k].playerName);
    var i :| 0 <= i < |entries| && entries[i] == r.value;
    assert SameKey(entries[i], entries[k]);
  }

  // ---------------------------------------------------------------------
  // Writes
  // ---------------------------------------------------------------------

  /** The row a PATCH with body `p` leaves: the payload's fields over the old
      row; the id and the creation time stay (the body carries neither). */
  function Patched(e: Entry, p: Payload): Entry {
    e.(mode := p.mode, playerName := p.playerName, score := p.score,
       maxScore := p.maxScore, durationMs := p.durationMs,
       accuracyPercent := p.accuracyPercent)
  }

  /** PATCH `id=eq.<id>`: every row with that id is patched. */
  function PatchById(entries: seq<Entry>, id: nat, p: Payload): seq<Entry> {
    seq(|entries|, i requires 0 <= i < |entries| =>
      if entries[i].id == id then Patched(entries[i], p) else entries[i])
  }

  /** The row a POST with body `p` inserts: the store assigns the id and the
      creation time. */
  function NewEntry(id: nat, p: Payload, now: int): Entry {
    Entry(id, p.mode, p.playerName, p.score, p.maxScore, p.durationMs, p.accuracyPercent, now)
  }

  function MeritOf(e: Option<Entry>): Option<Merit> {
    if e.Some? then Some(EntryMerit(e.value)) else None
  }

  /** `upsertBestEntry(p)` writes: the lookup finds no row, or one `p` beats. */
  predicate UpsertWrites(entries: seq<Entry>, p: Payload) {
    IsBetterResult(PayloadMerit(p), MeritOf(FindEntryByName(entries, p.mode, p.playerName)))
  }

  /** The rows after `upsertBestEntry(p)` when every store call succeeds: untouched
      when `p` is not better, the existing row patched in place, or a new row. */
  function Upserted(entries: seq<Entry>, p: Payload, freshId: nat, now: int): seq<Entry> {
    var existing := FindEntryByName(entries, p.mode, p.playerName);
    if !UpsertWrites(entries, p) then entries
    else if existing.Some? then PatchById(entries, existing.value.id, p)
    else entries + [NewEntry(freshId, p, now)]
  }

  /** The id the store hands out next after an upsert. */
  function NextIdAfter(entries: seq<Entry>, p: Payload, nextId: nat): nat {
    if FindEntryByName(entries, p.mode, p.playerName).None? then nextId + 1 else nextId
  }

  /** DELETE `id=eq.<id>`: every row with that id goes, the rest stay in order. */
  function RemoveById(entries: seq<Entry>, id: nat): (r: seq<Entry>)
    ensures forall e :: multiset(r)[e] == if e.id == id then 0 else multiset(entries)[e]
    ensures forall e :: e in r ==> e.id != id
  {
    if entries == [] then []
    else
      var rest := RemoveById(entries[1..], id);
      assert entries == [entries[0]] + entries[1..];
      if entries[0].id == id then rest else [entries[0]] + rest
  }

  // ---------------------------------------------------------------------
  // What an upsert does
  // ---------------------------------------------------------------------

  /** Patching an existing row keeps its position, its id and its creation
      time, takes every payload field, and touches no other row. */
  lemma PatchInPlace(entries: seq<Entry>, nextId: nat, k: nat, p: Payload)
    requires StoreInvariant(entries, nextId) && k < |entries|
    ensures var r := PatchById(entries, entries[k].id, p);
      && |r| == |entries|
      && r[k].id == entries[k].id && r[k].createdAt == entries[k].createdAt
      && PayloadOf(r[k]) == p
      && forall i :: 0 <= i < |entries| && i != k ==> r[i] == entries[i]
  {
  }

  /** Rows of other players or modes are untouched by an upsert, which only
      patches or appends a row for the payload's (mode, player name). */
  lemma UpsertTouchesOnlyItsKey(entries: seq<Entry>, nextId: nat, p: Payload, now: int)
    requires StoreInvariant(entries, nextId)
    ensures var r := Upserted(entries, p, nextId, now);
      && |entries| <= |r| <= |entries| + 1
      && (forall i :: 0 <= i < |entries| && !(entries[i].mode == p.mode && entries[i].playerName == p.playerName)
            ==> r[i] == entries[i])
      && (forall i :: |entries| <= i < |r| ==> r[i].mode == p.mode && r[i].playerName == p.playerName)
  {
    var existing := FindEntryByName(entries, p.mode, p.playerName);
    if UpsertWrites(entries, p) && existing.Some? {
      var k :| 0 <= k < |entries| && entries[k] == existing.value;
      PatchInPlace(entries, nextId, k, p);
    }
  }

  /** Without an existing row, a better payload inserts exactly one new row
      with a fresh id and the current time. */
  lemma UpsertInsertsOne(entries: seq<Entry>, p: Payload, freshId: nat, now: int)
    requires FindEntryByName(entries, p.mode, p.playerName).None?
    ensures Upserted(entries, p, freshId, now) == entries + [NewEntry(freshId, p, now)]
  {
  }

  /** Patching the row at `k` with a valid payload keeps the invariant. */
  lemma PatchKeepsInvariant(entries: seq<Entry>, nextId: nat, k: nat, p: Payload)
    requires StoreInvariant(entries, nextId) && WellFormedPayload(p) && k < |entries|
    requires entries[k].mode == p.mode && entries[k].playerName == p.playerName
    ensures StoreInvariant(PatchById(entries, entries[k].id, p), nextId)
  {
    var r := PatchById(entries, entries[k].id, p);
    PatchInPlace(entries, nextId, k, p);
    forall i, j | 0 <= i < j < |r|
      ensures r[i].id != r[j].id && !SameKey(r[i], r[j])
    {
      if i == k {
        assert SameKey(r[i], entries[i]);
      } else if j == k {
        assert SameKey(r[j], entries[j]);
      }
    }
  }

  /** Appending a valid row for a new key with the next id keeps the invariant. */
  lemma InsertKeepsInvariant(entries: seq<Entry>, nextId: nat, p: Payload, now: int)
    requires StoreInvariant(entries, nextId) && WellFormedPayload(p)
    requires FindEntryByName(entries, p.mode, p.playerName).None?
    ensures StoreInvariant(entries + [NewEntry(nextId, p, now)], nextId + 1)
  {
    var r := entries + [NewEntry(nextId, p, now)];
    assert PayloadOf(NewEntry(nextId, p, now)) == p;
    forall i, j | 0 <= i < j < |r|
      ensures r[i].id != r[j].id && !SameKey(r[i], r[j])
    {
      assert r[i] == entries[i];
      if j < |entries| {
        assert r[j] == entries[j];
      }
    }
  }

  /** An upsert keeps the store's invariant: in particular there is still at
      most one row per (mode, player name). */
  lemma UpsertKeepsInvariant(entries: seq<Entry>, nextId: nat, p: Payload, now: int)
    requires StoreInvariant(entries, nextId) && WellFormedPayload(p)
    ensures StoreInvariant(Upserted(entries, p, nextId, now), NextIdAfter(entries, p, nextId))
  {
    var existing := FindEntryByName(entries, p.mode, p.playerName);
    if UpsertWrites(entries, p) {
      if existing.Some? {
        var k :| 0 <= k < |entries| && entries[k] == existing.value;
        PatchKeepsInvariant(entries, nextId, k, p);
      } else {
        InsertKeepsInvariant(entries, nextId, p, now);
      }
    }
  }

  /** After an upsert the row for the payload's key is at least as good as
      the payload and at least as good as the row that was there before:
      a stored result never gets worse. */
  lemma UpsertKeepsBest(entries: seq<Entry>, nextId: nat, p: Payload, now: int)
    requires StoreInvariant(entries, nextId) && WellFormedPayload(p)
    ensures var before := FindEntryByName(entries, p.mode, p.playerName);
      var after := FindEntryByName(Upserted(entries, p, nextId, now), p.mode, p.playerName);
      && after.Some?
      && !IsBetterResult(PayloadMerit(p), Some(EntryMerit(after.value)))
      && (before.Some? ==> !IsBetterResult(EntryMerit(before.value), Some(EntryMerit(after.value))))
  {
    var before := FindEntryByName(entries, p.mode, p.playerName);
    var r := Upserted(entries, p, nextId, now);
    UpsertKeepsInvariant(entries, nextId, p, now);
    if UpsertWrites(entries, p) {
      if before.Some? {
        var k :| 0 <= k < |entries| && entries[k] == before.value;
        PatchInPlace(entries, nextId, k, p);
        FindEntryByNameUnique(r, k);
        BetterTrichotomy(PayloadMerit(p), EntryMerit(before.value));
      } else {
        FindEntryByNameUnique(r, |entries|);
      }
    } else {
      BetterTrichotomy(PayloadMerit(p), EntryMerit(before.value));
    }
  }

  /** Submitting the same payload again changes nothing. */
  lemma UpsertResubmitUnchanged(entries: seq<Entry>, nextId: nat, p: Payload, now: int, later: int)
    requires StoreInvariant(entries, nextId) && WellFormedPayload(p)
    ensures var once := Upserted(entries, p, nextId, now);
      !UpsertWrites(once, p) && Upserted(once, p, NextIdAfter(entries, p, nextId), later) == once
  {
    UpsertKeepsBest(entries, nextId, p, now);
  }

  lemma DistinctTail(entries: seq<Entry>)
    requires entries != [] && DistinctRows(entries)
    ensures DistinctRows(entries[1..])
    ensures forall e :: e in entries[1..] ==> e.id != entries[0].id && !SameKey(e, entries[0])
  {
    var tail := entries[1..];
    forall i, j | 0 <= i < j < |tail|
      ensures tail[i].id != tail[j].id && !SameKey(tail[i], tail[j])
    {
      assert tail[i] == entries[i + 1] && tail[j] == entries[j + 1];
    }
    forall e | e in tail
      ensures e.id != entries[0].id && !SameKey(e, entries[0])
    {
      var m :| 0 <= m < |tail| && tail[m] == e;
      assert entries[m + 1] == e;
    }
  }

  lemma DistinctCons(e: Entry, rest: seq<Entry>)
    requires DistinctRows(rest)
    requires forall x :: x in rest ==> x.id != e.id && !SameKey(x, e)
    ensures DistinctRows([e] + rest)
  {
    var r := [e] + rest;
    forall i, j | 0 <= i < j < |r|
      ensures r[i].id != r[j].id && !SameKey(r[i], r[j])
    {
      assert r[j] == rest[j - 1];
      if i > 0 {
        assert r[i] == rest[i - 1];
      }
    }
  }

  lemma {:induction false} RemoveKeepsDistinct(entries: seq<Entry>, id: nat)
    requires DistinctRows(entries)
    ensures DistinctRows(RemoveById(entries, id))
  {
    if entries != [] {
      var tail := entries[1..];
      DistinctTail(entries);
      RemoveKeepsDistinct(tail, id);
      var rest := RemoveById(tail, id);
      if entries[0].id != id {
        forall x | x in rest
          ensures x.id != entries[0].id && !SameKey(x, entries[0])
        {
          assert x in multiset(rest);
        }
        DistinctCons(entries[0], rest);
      }
    }
  }

  /** Deleting keeps the invariant. */
  lemma RemoveKeepsInvariant(entries: seq<Entry>, nextId: nat, id: nat)
    requires StoreInvariant(entries, nextId)
    ensures StoreInvariant(RemoveById(entries, id), nextId)
  {
    var r := RemoveById(entries, id);
    forall i | 0 <= i < |r|
      ensures 1 <= r[i].id < nextId && WellFormedPayload(PayloadOf(r[i]))
    {
      assert r[i] in multiset(entries);
    }
    RemoveKeepsDistinct(entries, id);
  }
}
