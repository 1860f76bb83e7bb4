/**
 * The write-ahead log as the store sees it (database/wal.py): a sequence of
 * entries, one appended per `log_operation`, handed back in order by
 * `recover`.  The file, its JSON lines and their timestamps are not modelled.
 */
module WriteAheadLog {
  import opened KeyOrder

  /** One logged operation; `delete` is logged with no value and `clear` with neither key nor value. */
  datatype LogEntry =
    | LogInsert(key: Key, value: Value)
    | LogUpdate(key: Key, value: Value)
    | LogDelete(key: Key)
    | LogClear

  /**
   * One step of `_recover_from_wal`: insert and update write the key, delete
   * removes it when present, and anything else (`clear`) is skipped.
   */
  function Apply(d: map<Key, Value>, e: LogEntry): (r: map<Key, Value>)
    ensures forall k :: k in r <==> Writes(e, k) || (k in d && !Touches(e, k))
    ensures forall k | k in r :: r[k] == if Writes(e, k) then e.value else d[k]
  {
    match e
    case LogInsert(k, v) => d[k := v]
    case LogUpdate(k, v) => d[k := v]
    case LogDelete(k) => if k in d then d - {k} else d
    case LogClear => d
  }

  /** Applying the same entry twice is applying it once: replaying a duplicated line changes nothing. */
  lemma ApplyIdempotent(d: map<Key, Value>, e: LogEntry)
    ensures Apply(Apply(d, e), e) == Apply(d, e)
  {
  }

  /** The dictionary recovery rebuilds: the entries applied left to right to an empty one. */
  function Replay(log: seq<LogEntry>): map<Key, Value>
    decreases |log|
  {
    if log == [] then map[] else Apply(Replay(log[..|log| - 1]), log[|log| - 1])
  }

  lemma ReplayAppend(log: seq<LogEntry>, e: LogEntry)
    ensures Replay(log + [e]) == Apply(Replay(log), e)
  {
    assert (log + [e])[..|log|] == log;
  }

  /** The entry writes key k. */
  ghost predicate Writes(e: LogEntry, k: Key)
  {
    (e.LogInsert? || e.LogUpdate?) && e.key == k
  }

  /** The entry writes or deletes key k. */
  ghost predicate Touches(e: LogEntry, k: Key)
  {
    Writes(e, k) || e == LogDelete(k)
  }

  /** Entry i is the last one in the log that writes or deletes k. */
  ghost predicate LastTouch(log: seq<LogEntry>, k: Key, i: int)
  {
    && 0 <= i < |log|
    && (Writes(log[i], k) || log[i] == LogDelete(k))
    && forall j | i < j < |log| :: !Writes(log[j], k) && log[j] != LogDelete(k)
  }

  /**
   * Last write wins: a key is in the replayed dictionary exactly when the
   * last entry that writes or deletes it writes it, and its value is the one
   * that entry wrote.  `clear` entries have no effect on the result.
   */
  lemma {:induction false} ReplayLastWrite(log: seq<LogEntry>, k: Key)
    ensures k in Replay(log) <==> exists i :: LastTouch(log, k, i) && Writes(log[i], k)
    ensures forall i | LastTouch(log, k, i) && Writes(log[i], k) :: k in Replay(log) && Replay(log)[k] == log[i].value
    decreases |log|
  {
    if log != [] {
      var n := |log| - 1;
      var pre := log[..n];
      ReplayLastWrite(pre, k);
      var e := log[n];
      if Writes(e, k) || e == LogDelete(k) {
        assert LastTouch(log, k, n);
        forall i | LastTouch(log, k, i) ensures i == n {
        }
      } else {
        forall i | LastTouch(log, k, i) ensures LastTouch(pre, k, i) {
          assert pre[i] == log[i];
          forall j | i < j < |pre| ensures !Writes(pre[j], k) && pre[j] != LogDelete(k) {
            assert pre[j] == log[j];
          }
        }
        forall i | LastTouch(pre, k, i) ensures LastTouch(log, k, i) {
          assert pre[i] == log[i];
          forall j | i < j < |log| ensures !Writes(log[j], k) && log[j] != LogDelete(k) {
            if j < n {
              assert pre[j] == log[j];
            }
          }
        }
      }
    }
  }

  /** The log `clear` leaves replays to an empty dictionary. */
  lemma ReplayClear()
    ensures Replay([LogClear]) == map[]
  {
    assert [LogClear][..0] == [];
  }

  /** A log that `clear` truncated and restarted replays as if the `clear` were not there. */
  lemma {:induction false} ReplayAfterClear(rest: seq<LogEntry>)
    ensures Replay([LogClear] + rest) == Replay(rest)
    decreases |rest|
  {
    if rest == [] {
      assert [LogClear] + rest == [LogClear];
      assert [LogClear][..0] == [];
    } else {
      var n := |rest| - 1;
      assert ([LogClear] + rest)[..n + 1] == [LogClear] + rest[..n];
      ReplayAfterClear(rest[..n]);
    }
  }
}
