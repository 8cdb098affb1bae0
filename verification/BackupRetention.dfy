/** Backup retention: the cutoff, the keys a pass deletes, and what repeated bounded passes reach. */
module BackupRetention {
  import opened Text
  import opened BackupKeys
  import opened BoundedPasses

  // ---------- one pass ----------

  /** The least second a `SystemTime` holds; subtracting past it is what `checked_sub` refuses. */
  const MIN_SYSTEM_SECS: int := -0x8000_0000_0000_0000

  /** The cutoff in seconds since the epoch, or None where the source panics. */
  function Cutoff(nowNanos: nat, retentionSecs: nat): Option<nat> {
    var edge := nowNanos - retentionSecs * NANOS_PER_SEC;
    if edge / NANOS_PER_SEC < MIN_SYSTEM_SECS then Some(0)
    else if edge < 0 then None
    else Some(edge / NANOS_PER_SEC)
  }

  predicate Prunable(key: string, prefix: string, cutoff: nat) {
    var secs := EmbeddedTimestamp(key, prefix);
    secs.Some? && secs.value < cutoff
  }

  /** The keys of the layout that are strictly older than the cutoff. */
  function Outdated(prefix: string, cutoff: nat): (stale: string -> bool)
    ensures forall k :: stale(k) <==> Prunable(k, prefix, cutoff)
  {
    k => Prunable(k, prefix, cutoff)
  }

  /** `prune_set`, None where it panics. */
  function PruneSet(keys: seq<string>, prefix: string, nowNanos: nat, retentionSecs: nat): Option<seq<string>> {
    if retentionSecs == 0 then Some([])
    else
      var cutoff := Cutoff(nowNanos, retentionSecs);
      if cutoff.None? then None else Some(Select(keys, Outdated(prefix, cutoff.value)))
  }

  lemma {:induction false} NothingBeforeEpoch(keys: seq<string>, prefix: string)
    ensures Select(keys, Outdated(prefix, 0)) == []
  {
    if keys != [] {
      NothingBeforeEpoch(keys[1..], prefix);
    }
  }

  /** The pass panics exactly when the window reaches before the epoch but not before the clock's range. */
  lemma PruneSetPanics(keys: seq<string>, prefix: string, nowNanos: nat, retentionSecs: nat)
    ensures PruneSet(keys, prefix, nowNanos, retentionSecs).None?
            <==> nowNanos < retentionSecs * NANOS_PER_SEC
                 && MIN_SYSTEM_SECS <= (nowNanos - retentionSecs * NANOS_PER_SEC) / NANOS_PER_SEC
    ensures (nowNanos - retentionSecs * NANOS_PER_SEC) / NANOS_PER_SEC < MIN_SYSTEM_SECS ==>
              PruneSet(keys, prefix, nowNanos, retentionSecs) == Some([])
  {
    NothingBeforeEpoch(keys, prefix);
    if nowNanos >= retentionSecs * NANOS_PER_SEC {
      assert (nowNanos - retentionSecs * NANOS_PER_SEC) / NANOS_PER_SEC >= 0;
    }
  }

  /**
   * A backup is deleted exactly when its second is before the second the window begins in: never at or inside the
   * window, always a whole second or more outside it.
   */
  lemma WindowIsExact(keys: seq<string>, prefix: string, taken: nat, nowNanos: nat, retentionSecs: nat)
    requires taken / NANOS_PER_SEC < YEAR_10000_SECS
    requires 0 < retentionSecs && retentionSecs * NANOS_PER_SEC <= nowNanos
    requires ObjectKey(prefix, taken) in keys
    ensures PruneSet(keys, prefix, nowNanos, retentionSecs).Some?
    ensures var deleted := ObjectKey(prefix, taken) in PruneSet(keys, prefix, nowNanos, retentionSecs).value;
            var age := nowNanos - taken;
            && (deleted <==> taken / NANOS_PER_SEC < (nowNanos - retentionSecs * NANOS_PER_SEC) / NANOS_PER_SEC)
            && (age <= retentionSecs * NANOS_PER_SEC ==> !deleted)
            && (age >= (retentionSecs + 1) * NANOS_PER_SEC ==> deleted)
  {
    hide ObjectKey, EmbeddedTimestamp;
    KeyRoundTrips(prefix, taken);
    SelectMember(keys, Outdated(prefix, Cutoff(nowNanos, retentionSecs).value), ObjectKey(prefix, taken));
    var edge := nowNanos - retentionSecs * NANOS_PER_SEC;
    assert Cutoff(nowNanos, retentionSecs) == Some(edge / NANOS_PER_SEC);
    FloorOrder(taken, edge);
    assert taken + NANOS_PER_SEC <= edge ==> taken / NANOS_PER_SEC + 1 <= edge / NANOS_PER_SEC;
  }

  lemma FloorOrder(a: nat, b: nat)
    ensures a / NANOS_PER_SEC < b / NANOS_PER_SEC ==> a < b
    ensures b <= a ==> b / NANOS_PER_SEC <= a / NANOS_PER_SEC
  {
  }

  // ---------- buckets of own keys ----------

  predicate Sorted(keys: seq<string>) {
    forall i, j :: 0 <= i < j < |keys| ==> LexLess(keys[i], keys[j])
  }

  lemma SortedDistinct(keys: seq<string>)
    requires Sorted(keys)
    ensures Distinct(keys)
  {
    forall i, j | 0 <= i < j < |keys| ensures keys[i] != keys[j] {
      LexIrreflexive(keys[i]);
    }
  }

  /** A bucket of nothing but own keys is always unblocked: the outdated keys sort first. */
  lemma OwnBucketUnblocked(bucket: seq<string>, prefix: string, cutoff: nat, cap: nat)
    requires Sorted(bucket) && cap > 0
    requires forall k :: k in bucket ==> Owned(k, prefix)
    ensures Distinct(bucket) && Unblocked(bucket, Outdated(prefix, cutoff), cap)
  {
    SortedDistinct(bucket);
    forall i | 0 <= i < |bucket| && Prunable(bucket[i], prefix, cutoff)
      ensures |Reject(bucket[..i], Outdated(prefix, cutoff))| < cap
    {
      forall j | 0 <= j < i ensures Prunable(bucket[j], prefix, cutoff) {
        OlderSortsFirst(bucket[j], bucket[i], prefix, cutoff);
      }
      NoneKept(bucket[..i], Outdated(prefix, cutoff));
    }
  }

  lemma OlderSortsFirst(a: string, b: string, prefix: string, cutoff: nat)
    requires Owned(a, prefix) && Owned(b, prefix) && LexLess(a, b) && Prunable(b, prefix, cutoff)
    ensures Prunable(a, prefix, cutoff)
  {
    hide ObjectKey, EmbeddedTimestamp, LexLess;
    var x: nat :| x / NANOS_PER_SEC < YEAR_10000_SECS && a == ObjectKey(prefix, x);
    var y: nat :| y / NANOS_PER_SEC < YEAR_10000_SECS && b == ObjectKey(prefix, y);
    KeyRoundTrips(prefix, x);
    KeyRoundTrips(prefix, y);
    KeyOrder(prefix, x, y);
  }

  /**
   * Over a bucket of nothing but own keys, no number of passes deletes a key at or inside the window, and within as many
   * passes as there are outdated keys none is left.
   */
  lemma RetentionConverges(bucket: seq<string>, prefix: string, cutoff: nat, cap: nat) returns (n: nat)
    requires Sorted(bucket) && cap > 0
    requires forall k :: k in bucket ==> Owned(k, prefix)
    ensures n <= StaleCount(bucket, Outdated(prefix, cutoff))
    ensures Pruned(Passes(bucket, Outdated(prefix, cutoff), cap, n), Outdated(prefix, cutoff))
    ensures forall m: nat, k :: k in bucket && !Prunable(k, prefix, cutoff) ==> k in Passes(bucket, Outdated(prefix, cutoff), cap, m)
  {
    var stale := Outdated(prefix, cutoff);
    OwnBucketUnblocked(bucket, prefix, cutoff, cap);
    hide Prunable, Sorted, Owned, Unblocked;
    n := PassesConverge(bucket, stale, cap);
    forall m: nat, k | k in bucket && !Prunable(k, prefix, cutoff) ensures k in Passes(bucket, stale, cap, m) {
      PassesKeep(bucket, stale, cap, m);
      RejectMember(bucket, stale, k);
      RejectMember(Passes(bucket, stale, cap, m), stale, k);
    }
  }

  // ---------- buckets that never converge ----------

  /** A key under the listed prefix that no layout reads: it names no date directory. */
  function ForeignKey(prefix: string, k: nat): string {
    prefix + "/" + Zeros(k)
  }

  /** A page of foreign keys that sort first, then one backup. */
  function StuckBucket(prefix: string, cap: nat, key: string): (bucket: seq<string>)
    ensures |bucket| == cap + 1 && bucket[cap] == key
    ensures forall i :: 0 <= i < cap ==> bucket[i] == ForeignKey(prefix, i + 1)
  {
    seq(cap, i requires i >= 0 => ForeignKey(prefix, i + 1)) + [key]
  }

  /**
   * For every prefix, page size and backup, a bucket in key order with a page of foreign keys in front, all under the
   * listed prefix: no number of passes deletes the backup once it is outdated.
   */
  lemma StuckForever(prefix: string, cap: nat, taken: nat, cutoff: nat, n: nat)
    requires taken / NANOS_PER_SEC < YEAR_10000_SECS && taken / NANOS_PER_SEC < cutoff
    ensures var bucket := StuckBucket(prefix, cap, ObjectKey(prefix, taken));
            && Sorted(bucket)
            && (forall i :: 0 <= i < |bucket| ==> prefix + "/" <= bucket[i])
            && !Pruned(Passes(bucket, Outdated(prefix, cutoff), cap, n), Outdated(prefix, cutoff))
  {
    hide ObjectKey, EmbeddedTimestamp, Passes, Reject, StuckBucket, Sorted, ForeignKey, Distinct, PastZero, Pruned;
    var key := ObjectKey(prefix, taken);
    var bucket := StuckBucket(prefix, cap, key);
    KeyRoundTrips(prefix, taken);
    KeyStartsPastZero(prefix, taken);
    StuckSorted(prefix, cap, key);
    SortedDistinct(bucket);
    StuckInFront(prefix, cap, key, cutoff);
    PassesStayBlocked(bucket, Outdated(prefix, cutoff), cap, cap, n);
  }

  /** A printed key goes on behind the prefix with a digit above zero. */
  predicate PastZero(prefix: string, key: string) {
    prefix + "/" <= key && |key| > |prefix| + 1 && '0' < key[|prefix| + 1]
  }

  lemma KeyStartsPastZero(prefix: string, taken: nat)
    requires taken / NANOS_PER_SEC < YEAR_10000_SECS
    ensures PastZero(prefix, ObjectKey(prefix, taken))
  {
    var st, f := KeyFields(prefix, taken);
    YearDigit(st.date.year);
    hide Fixed, ObjectKey;
    assert f.Directory()[0] == f.y[0];
    var key := KeyText(prefix, f.Directory(), f.Stamp());
    assert key[|prefix| + 1] == f.Directory()[0];
  }

  lemma YearDigit(year: nat)
    requires 1000 <= year < 10000
    ensures '0' < Fixed(year, 4)[0]
  {
    var a, b, c := year / 10, year / 100, year / 1000;
    assert a / 10 == b && b / 10 == c && 1 <= c <= 9;
    assert Fixed(c, 1) == [Digit(c)];
    assert Fixed(b, 2)[0] == Digit(c) && Fixed(a, 3)[0] == Digit(c);
  }

  lemma {:induction false} ZerosGrow(j: nat, k: nat)
    requires j < k
    ensures LexLess(Zeros(j), Zeros(k))
    decreases k
  {
    ZeroFirst(k);
    if j > 0 {
      ZeroFirst(j);
      ZerosGrow(j - 1, k - 1);
    }
  }

  lemma {:induction false} ZeroFirst(k: nat)
    requires k > 0
    ensures Zeros(k) == "0" + Zeros(k - 1)
  {
    if k > 1 {
      ZeroFirst(k - 1);
      assert "0" + Zeros(k - 2) + "0" == "0" + (Zeros(k - 2) + "0");
    }
  }

  lemma StuckSorted(prefix: string, cap: nat, key: string)
    requires PastZero(prefix, key)
    ensures Sorted(StuckBucket(prefix, cap, key))
    ensures forall i :: 0 <= i < cap + 1 ==> prefix + "/" <= StuckBucket(prefix, cap, key)[i]
  {
    hide LexLess;
    var bucket, head := StuckBucket(prefix, cap, key), prefix + "/";
    var rest := key[|head|..];
    assert key == head + rest;
    forall i, j | 0 <= i < j < |bucket| ensures LexLess(bucket[i], bucket[j]) {
      if j < cap {
        ZerosGrow(i + 1, j + 1);
        LexSharedHead(head, Zeros(i + 1), Zeros(j + 1));
      } else {
        ZeroBefore(i + 1, rest);
        LexSharedHead(head, Zeros(i + 1), rest);
      }
    }
  }

  lemma ZeroBefore(k: nat, rest: string)
    requires k > 0 && rest != "" && '0' < rest[0]
    ensures LexLess(Zeros(k), rest)
  {
    ZeroFirst(k);
  }

  lemma ForeignKept(prefix: string, k: nat, cutoff: nat)
    ensures !Prunable(ForeignKey(prefix, k), prefix, cutoff)
  {
    ZeroDigits(k);
    var head := prefix + "/";
    assert ForeignKey(prefix, k)[|head|..] == Zeros(k);
    assert forall i :: OccursAt(Zeros(k), "/", i) ==> Zeros(k)[i] == "/"[0];
  }

  lemma StuckInFront(prefix: string, cap: nat, key: string, cutoff: nat)
    ensures |Reject(StuckBucket(prefix, cap, key)[..cap], Outdated(prefix, cutoff))| == cap
  {
    hide Prunable, StuckBucket, ForeignKey;
    var front := StuckBucket(prefix, cap, key)[..cap];
    forall i | 0 <= i < cap ensures !Prunable(front[i], prefix, cutoff) {
      ForeignKept(prefix, i + 1, cutoff);
    }
    AllKept(front, Outdated(prefix, cutoff));
  }
}
