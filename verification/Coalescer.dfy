/** The Event coalescer of internal/pipeline/coalesce.go: a per-sink map that decides
    whether a count bump is worth a row, and sweeps itself opportunistically.
    Instants and durations are integers (nanoseconds). */
module Coalescing {
  import opened Options
  import opened Events

  const SWEEP_FLOOR: nat := 128

  /** The bump-free digest of the row last recorded for an identity, and its stamp. */
  datatype Entry = Entry(hash: Digest, at: int)

  datatype Answer = Answer(flushAfter: int, skip: bool)

  type Entries = map<string, Entry>

  /** entries and sweepAt, as a value. */
  datatype State = State(entries: Entries, sweepAt: nat)

  const ZERO := State(map[], 0)

  function Lookup(entries: Entries, key: string): Option<Entry> {
    if key in entries then Some(entries[key]) else None
  }

  function DecisionOn(last: Option<Entry>, hash: Digest, window: int, now: int): Answer {
    if window <= 0 then Answer(0, false)
    else if last.None? || last.value.hash != hash then Answer(0, false)
    else if now - last.value.at >= window then Answer(0, false)
    else Answer(window - (now - last.value.at), true)
  }

  function Decision(entries: Entries, key: string, hash: Digest, window: int, now: int): Answer {
    DecisionOn(Lookup(entries, key), hash, window, now)
  }

  /** Every entry still young enough to suppress something at this instant. */
  function Live(entries: Entries, now: int, window: int): Entries {
    map key | key in entries && now - entries[key].at < window :: entries[key]
  }

  function Threshold(survivors: nat): (n: nat)
    ensures survivors < n && SWEEP_FLOOR <= n
  {
    if 2 * survivors > SWEEP_FLOOR then 2 * survivors else SWEEP_FLOOR
  }

  function Swept(s: State, now: int, window: int): State {
    if |s.entries| < s.sweepAt then s
    else var kept := Live(s.entries, now, window); State(kept, Threshold(|kept|))
  }

  /** How many entries that sweep walks. */
  function SweepCost(s: State): nat {
    if |s.entries| < s.sweepAt then 0 else |s.entries|
  }

  function Inserted(s: State, key: string, hash: Digest, stampedAt: int): State {
    s.(entries := s.entries[key := Entry(hash, stampedAt)])
  }

  function Remembered(s: State, key: string, hash: Digest, stampedAt: int, window: int): State {
    if window <= 0 then s else Swept(Inserted(s, key, hash, stampedAt), stampedAt, window)
  }

  function Forgotten(entries: Entries, key: string): Entries {
    map k | k in entries && k != key :: entries[k]
  }

  function Without(entries: Entries, prefix: string): Entries {
    map key | key in entries && !(prefix <= key) :: entries[key]
  }

  function Evicted(s: State, prefix: string): State {
    var kept := Without(s.entries, prefix);
    if kept == s.entries then s else State(kept, Threshold(|kept|))
  }

  /** The mutable coalescer. Each method is one critical section of the mutex. */
  class Coalescer {
    var entries: Entries
    var sweepAt: nat

    ghost function Value(): State
      reads this
    {
      State(entries, sweepAt)
    }

    constructor ()
      ensures Value() == ZERO
    {
      entries, sweepAt := map[], 0;
    }

    method Decide(key: string, hash: Digest, window: int, now: int) returns (flushAfter: int, skip: bool)
      ensures Answer(flushAfter, skip) == Decision(entries, key, hash, window, now)
      ensures skip ==> 0 < flushAfter && now + flushAfter == entries[key].at + window
    {
      if window <= 0 {
        return 0, false;
      }
      if key !in entries || entries[key].hash != hash {
        return 0, false;
      }
      var elapsed := now - entries[key].at;
      if elapsed >= window {
        return 0, false;
      }
      return window - elapsed, true;
    }

    method Remember(key: string, hash: Digest, stampedAt: int, window: int) returns (ghost walked: nat)
      modifies this
      ensures Value() == Remembered(old(Value()), key, hash, stampedAt, window)
      ensures walked == if window <= 0 then 0 else SweepCost(Inserted(old(Value()), key, hash, stampedAt))
    {
      if window <= 0 {
        walked := 0;
        return;
      }
      entries := entries[key := Entry(hash, stampedAt)];
      walked := SweepLocked(stampedAt, window);
    }

    /** walked counts the loop's iterations. */
    method SweepLocked(now: int, window: int) returns (ghost walked: nat)
      modifies this
      ensures Value() == Swept(old(Value()), now, window)
      ensures walked == SweepCost(old(Value()))
    {
      walked := 0;
      if |entries| < sweepAt {
        return;
      }
      ghost var before := entries;
      var todo := entries.Keys;
      while todo != {}
        invariant todo <= before.Keys
        invariant entries == map k | k in before && (k in todo || now - before[k].at < window) :: before[k]
        invariant walked + |todo| == |before.Keys|
        decreases todo
      {
        var key :| key in todo;
        if now - entries[key].at >= window {
          entries := map k | k in entries && k != key :: entries[k];
        }
        todo := todo - {key};
        walked := walked + 1;
      }
      assert entries == Live(before, now, window);
      sweepAt := if 2 * |entries| > SWEEP_FLOOR then 2 * |entries| else SWEEP_FLOOR;
    }

    method Forget(key: string)
      modifies this
      ensures Value() == old(Value()).(entries := Forgotten(old(entries), key))
    {
      entries := map k | k in entries && k != key :: entries[k];
    }

    method DeletePrefix(prefix: string) returns (removed: nat)
      modifies this
      ensures Value() == Evicted(old(Value()), prefix)
      ensures removed == |old(entries)| - |entries|
    {
      removed := 0;
      ghost var before := entries;
      var todo := entries.Keys;
      while todo != {}
        invariant todo <= before.Keys
        invariant entries == map k | k in before && (k in todo || !(prefix <= k)) :: before[k]
        invariant removed + |entries.Keys| == |before.Keys|
        invariant removed == 0 ==> entries == before
        invariant sweepAt == old(sweepAt)
        decreases todo
      {
        var key :| key in todo;
        if prefix <= key {
          ghost var previous := entries;
          entries := map k | k in entries && k != key :: entries[k];
          assert entries.Keys == previous.Keys - {key};
          removed := removed + 1;
        }
        todo := todo - {key};
      }
      assert entries == Without(before, prefix);
      assert |entries| + removed == |before|;
      if removed > 0 {
        assert Without(before, prefix) != before;
        sweepAt := if 2 * |entries| > SWEEP_FLOOR then 2 * |entries| else SWEEP_FLOOR;
      }
    }
  }
}
