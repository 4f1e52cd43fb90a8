/**
 * The per-fingerprint password history: a list of `{timestamp, password}`
 * entries, most recent first, bounded on insert.
 */
module History {

  /** One stored entry; `blob` is the encrypted password. */
  datatype Entry = Entry(timestamp: int, blob: string)

  /** The history cap `storePassword` enforces before inserting. */
  const MAX_HISTORY: nat := 5

  /** Timestamps never increase from head to tail. */
  ghost predicate NewestFirst(history: seq<Entry>) {
    forall i, j :: 0 <= i < j < |history| ==> history[i].timestamp >= history[j].timestamp
  }

  /** `a` is `b` with some entries left out, the rest in their original order. */
  ghost predicate Subsequence(a: seq<Entry>, b: seq<Entry>)
    decreases |b|
  {
    if |a| == 0 then true
    else if |b| == 0 then false
    else if a[0] == b[0] then Subsequence(a[1..], b[1..])
    else Subsequence(a, b[1..])
  }

  /** How many entries carry `timestamp`. */
  function Matching(history: seq<Entry>, timestamp: int): (n: nat)
    ensures n <= |history|
    decreases |history|
  {
    if |history| == 0 then 0
    else (if history[0].timestamp == timestamp then 1 else 0) + Matching(history[1..], timestamp)
  }

  /**
   * The list step of `storePassword`: `pop()` the tail when the list already
   * holds `MAX_HISTORY` or more entries, then `unshift` the new entry.
   */
  function Push(history: seq<Entry>, entry: Entry): (r: seq<Entry>)
    ensures |r| >= 1 && r[0] == entry
    ensures |r| == if |history| >= MAX_HISTORY then |history| else |history| + 1
    ensures r[1..] == history[..|r| - 1]
    ensures |history| <= MAX_HISTORY ==> |r| <= MAX_HISTORY
  {
    var kept := if |history| >= MAX_HISTORY then history[..|history| - 1] else history;
    [entry] + kept
  }

  /** The filter of `deleteStoredPassword`: drop every entry with that timestamp. */
  function Remove(history: seq<Entry>, timestamp: int): (r: seq<Entry>)
    ensures forall e :: e in r <==> e in history && e.timestamp != timestamp
    ensures |r| == |history| - Matching(history, timestamp)
    ensures Subsequence(r, history)
    decreases |history|
  {
    if |history| == 0 then []
    else if history[0].timestamp == timestamp then Remove(history[1..], timestamp)
    else [history[0]] + Remove(history[1..], timestamp)
  }

  /** An entry carrying the timestamp counts once towards `Matching`. */
  lemma {:induction false} OneMatch(history: seq<Entry>, timestamp: int, j: nat)
    requires j < |history| && history[j].timestamp == timestamp
    ensures Matching(history, timestamp) >= 1
    decreases j
  {
    if j > 0 {
      OneMatch(history[1..], timestamp, j - 1);
    }
  }

  /** Two positions carrying the timestamp make `Matching` at least two. */
  lemma {:induction false} TwoMatches(history: seq<Entry>, timestamp: int, i: nat, j: nat)
    requires i < j < |history|
    requires history[i].timestamp == timestamp && history[j].timestamp == timestamp
    ensures Matching(history, timestamp) >= 2
    decreases i
  {
    if i > 0 {
      TwoMatches(history[1..], timestamp, i - 1, j - 1);
    } else {
      OneMatch(history[1..], timestamp, j - 1);
    }
  }

  /**
   * The map of `updateStoredPassword`: every entry with that timestamp gets
   * the blob `reseal(i)` for its position `i`; all other entries stay.
   */
  function Reseal(history: seq<Entry>, timestamp: int, reseal: nat -> string): (r: seq<Entry>)
    ensures |r| == |history|
    ensures forall i :: 0 <= i < |r| ==> r[i].timestamp == history[i].timestamp
    ensures forall i :: 0 <= i < |r| && history[i].timestamp != timestamp ==> r[i] == history[i]
    ensures forall i :: 0 <= i < |r| && history[i].timestamp == timestamp ==> r[i].blob == reseal(i)
  {
    seq(|history|, i requires 0 <= i < |history| =>
      if history[i].timestamp == timestamp then history[i].(blob := reseal(i)) else history[i])
  }

  /** Inserting an entry no older than the head keeps the history newest-first. */
  lemma PushNewestFirst(history: seq<Entry>, entry: Entry)
    requires NewestFirst(history)
    requires |history| == 0 || entry.timestamp >= history[0].timestamp
    ensures NewestFirst(Push(history, entry))
  {
    var r := Push(history, entry);
    forall i, j | 0 <= i < j < |r|
      ensures r[i].timestamp >= r[j].timestamp
    {
      assert r[j] == history[j - 1];
      if i > 0 {
        assert r[i] == history[i - 1];
      }
    }
  }

  /** Deleting from a history with no entry of that timestamp changes nothing. */
  lemma {:induction false} RemoveAbsent(history: seq<Entry>, timestamp: int)
    requires forall i :: 0 <= i < |history| ==> history[i].timestamp != timestamp
    ensures Remove(history, timestamp) == history
    decreases |history|
  {
    if |history| > 0 {
      RemoveAbsent(history[1..], timestamp);
      assert history == [history[0]] + history[1..];
    }
  }

  /** Deleting twice is deleting once. */
  lemma RemoveIdempotent(history: seq<Entry>, timestamp: int)
    ensures Remove(Remove(history, timestamp), timestamp) == Remove(history, timestamp)
  {
    var once := Remove(history, timestamp);
    forall i | 0 <= i < |once|
      ensures once[i].timestamp != timestamp
    {
      assert once[i] in once;
    }
    RemoveAbsent(once, timestamp);
  }

  /** A subsequence keeps newest-first order. */
  lemma {:induction false} SubsequenceNewestFirst(a: seq<Entry>, b: seq<Entry>)
    requires Subsequence(a, b)
    requires NewestFirst(b)
    ensures NewestFirst(a)
    decreases |b|
  {
    if |a| > 0 {
      if a[0] == b[0] {
        SubsequenceNewestFirst(a[1..], b[1..]);
        SubsequenceElements(a[1..], b[1..]);
        forall j | 0 < j < |a|
          ensures a[0].timestamp >= a[j].timestamp
        {
          assert a[j] == a[1..][j - 1];
          assert a[j] in b[1..];
        }
      } else {
        SubsequenceNewestFirst(a, b[1..]);
      }
    }
  }

  /** Every element of a subsequence comes from the sequence. */
  lemma {:induction false} SubsequenceElements(a: seq<Entry>, b: seq<Entry>)
    requires Subsequence(a, b)
    ensures forall e :: e in a ==> e in b
    decreases |b|
  {
    if |a| > 0 {
      if a[0] == b[0] {
        SubsequenceElements(a[1..], b[1..]);
        assert a == [a[0]] + a[1..];
      } else {
        SubsequenceElements(a, b[1..]);
      }
    }
  }

  /** Replacing blobs keeps timestamps and hence newest-first order. */
  lemma ResealNewestFirst(history: seq<Entry>, timestamp: int, reseal: nat -> string)
    requires NewestFirst(history)
    ensures NewestFirst(Reseal(history, timestamp, reseal))
  {
  }

  /** A history with no entry of that timestamp is not touched by an update. */
  lemma ResealAbsent(history: seq<Entry>, timestamp: int, reseal: nat -> string)
    requires forall i :: 0 <= i < |history| ==> history[i].timestamp != timestamp
    ensures Reseal(history, timestamp, reseal) == history
  {
  }

  /** The history built by inserting `entries` one after another into `history`. */
  function PushAll(history: seq<Entry>, entries: seq<Entry>): (r: seq<Entry>)
    ensures |history| <= MAX_HISTORY ==> |r| <= MAX_HISTORY
    decreases |entries|
  {
    if |entries| == 0 then history
    else Push(PushAll(history, entries[..|entries| - 1]), entries[|entries| - 1])
  }

  /**
   * Bounded history: starting from nothing, the history after any number of
   * inserts is the last `MAX_HISTORY` entries, most recent first; older ones
   * are evicted.
   */
  lemma {:induction false} PushAllKeepsLatest(entries: seq<Entry>)
    ensures var r := PushAll([], entries);
      && |r| == (if |entries| < MAX_HISTORY then |entries| else MAX_HISTORY)
      && forall i :: 0 <= i < |r| ==> r[i] == entries[|entries| - 1 - i]
    decreases |entries|
  {
    if |entries| > 0 {
      var n := |entries|;
      var before := entries[..n - 1];
      PushAllKeepsLatest(before);
      var p := PushAll([], before);
      var r := PushAll([], entries);
      assert r == Push(p, entries[n - 1]);
      forall i | 0 <= i < |r|
        ensures r[i] == entries[n - 1 - i]
      {
        if i > 0 {
          assert r[i] == r[1..][i - 1] == p[i - 1];
          assert p[i - 1] == before[n - 2 - (i - 1)];
        }
      }
    }
  }
}
