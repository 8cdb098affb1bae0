/** Repeated passes that each list a bounded page of a bucket and delete the stale members of the page. */
module BoundedPasses {
  import opened Text

  /** The members of a page that the pass deletes, in page order. */
  function Select(keys: seq<string>, stale: string -> bool): seq<string> {
    if keys == [] then [] else (if stale(keys[0]) then [keys[0]] else []) + Select(keys[1..], stale)
  }

  /** The members of a page that the pass leaves, in page order. */
  function Reject(keys: seq<string>, stale: string -> bool): (r: seq<string>)
    ensures |r| <= |keys|
  {
    if keys == [] then [] else (if stale(keys[0]) then [] else [keys[0]]) + Reject(keys[1..], stale)
  }

  lemma {:induction false} SelectMember(keys: seq<string>, stale: string -> bool, k: string)
    ensures k in Select(keys, stale) <==> k in keys && stale(k)
  {
    if keys != [] {
      SelectMember(keys[1..], stale, k);
    }
  }

  lemma {:induction false} RejectMember(keys: seq<string>, stale: string -> bool, k: string)
    ensures k in Reject(keys, stale) <==> k in keys && !stale(k)
  {
    if keys != [] {
      RejectMember(keys[1..], stale, k);
    }
  }

  predicate Distinct(keys: seq<string>) {
    forall i, j :: 0 <= i < j < |keys| ==> keys[i] != keys[j]
  }

  /** Deleting a set of keys from a bucket, which stays in key order. */
  function Delete(bucket: seq<string>, doomed: seq<string>): seq<string> {
    if bucket == [] then []
    else (if bucket[0] in doomed then [] else [bucket[0]]) + Delete(bucket[1..], doomed)
  }

  function Page(bucket: seq<string>, cap: nat): seq<string> {
    if |bucket| <= cap then bucket else bucket[..cap]
  }

  /** One pass: list the first `cap` keys of the bucket and delete the selected ones. */
  function Pass(bucket: seq<string>, stale: string -> bool, cap: nat): seq<string> {
    Delete(bucket, Select(Page(bucket, cap), stale))
  }

  function Passes(bucket: seq<string>, stale: string -> bool, cap: nat, n: nat): seq<string>
    decreases n
  {
    if n == 0 then bucket else Passes(Pass(bucket, stale, cap), stale, cap, n - 1)
  }

  /** Nothing stale is left. */
  predicate Pruned(bucket: seq<string>, stale: string -> bool) {
    forall i :: 0 <= i < |bucket| ==> !stale(bucket[i])
  }

  /** n passes leave nothing stale. */
  predicate Reaches(bucket: seq<string>, stale: string -> bool, cap: nat, n: nat) {
    Pruned(Passes(bucket, stale, cap, n), stale)
  }

  /** Fewer than a page of keys that will never be deleted stand before each key that should be. */
  predicate Unblocked(bucket: seq<string>, stale: string -> bool, cap: nat) {
    forall i :: 0 <= i < |bucket| && stale(bucket[i])
                ==> |Reject(bucket[..i], stale)| < cap
  }

  lemma {:induction false} RejectConcat(a: seq<string>, b: seq<string>, stale: string -> bool)
    ensures Reject(a + b, stale) == Reject(a, stale) + Reject(b, stale)
  {
    if a == [] {
      assert a + b == b;
    } else {
      RejectConcat(a[1..], b, stale);
      var head := if stale(a[0]) then [] else [a[0]];
      TailOfConcat(a, b);
      ConcatAssociates(head, Reject(a[1..], stale), Reject(b, stale));
    }
  }

  lemma {:induction false} DeleteNone(bucket: seq<string>, doomed: seq<string>)
    requires forall i :: 0 <= i < |bucket| ==> bucket[i] !in doomed
    ensures Delete(bucket, doomed) == bucket
  {
    if bucket != [] {
      DeleteNone(bucket[1..], doomed);
    }
  }

  lemma {:induction false} DeleteFromPage(page: seq<string>, rest: seq<string>, stale: string -> bool, doomed: seq<string>)
    requires forall i :: 0 <= i < |page| ==> (page[i] in doomed <==> stale(page[i]))
    requires forall i :: 0 <= i < |rest| ==> rest[i] !in doomed
    ensures Delete(page + rest, doomed) == Reject(page, stale) + rest
  {
    if page == [] {
      assert page + rest == rest;
      DeleteNone(rest, doomed);
    } else {
      DeleteFromPage(page[1..], rest, stale, doomed);
      assert (page + rest)[1..] == page[1..] + rest;
    }
  }

  /** A pass leaves the fresh part of the page, then everything past the page. */
  lemma PassShape(bucket: seq<string>, stale: string -> bool, cap: nat)
    requires Distinct(bucket)
    ensures var page := Page(bucket, cap);
            Pass(bucket, stale, cap) == Reject(page, stale) + bucket[|page|..]
  {
    var page := Page(bucket, cap);
    var rest := bucket[|page|..];
    var doomed := Select(page, stale);
    forall i | 0 <= i < |page| ensures page[i] in doomed <==> stale(page[i]) {
      SelectMember(page, stale, page[i]);
    }
    forall i | 0 <= i < |rest| ensures rest[i] !in doomed {
      SelectMember(page, stale, rest[i]);
      PastPage(bucket, |page|, i);
    }
    assert bucket == page + rest;
    DeleteFromPage(page, rest, stale, doomed);
  }

  lemma PastPage(bucket: seq<string>, m: nat, i: nat)
    requires Distinct(bucket) && m + i < |bucket|
    ensures bucket[m..][i] !in bucket[..m]
  {
    assert bucket[m..][i] == bucket[m + i];
  }

  lemma {:induction false} RejectDistinct(keys: seq<string>, stale: string -> bool)
    requires Distinct(keys)
    ensures Distinct(Reject(keys, stale))
  {
    if keys != [] {
      RejectDistinct(keys[1..], stale);
      RejectMember(keys[1..], stale, keys[0]);
    }
  }

  lemma {:induction false} RejectTwice(keys: seq<string>, stale: string -> bool)
    ensures Reject(Reject(keys, stale), stale) == Reject(keys, stale)
  {
    if keys != [] {
      RejectTwice(keys[1..], stale);
      var head := if stale(keys[0]) then [] else [keys[0]];
      RejectConcat(head, Reject(keys[1..], stale), stale);
    }
  }

  lemma {:induction false} AllKept(keys: seq<string>, stale: string -> bool)
    requires forall i :: 0 <= i < |keys| ==> !stale(keys[i])
    ensures Reject(keys, stale) == keys
  {
    if keys != [] {
      AllKept(keys[1..], stale);
    }
  }

  lemma {:induction false} NoneKept(keys: seq<string>, stale: string -> bool)
    requires forall i :: 0 <= i < |keys| ==> stale(keys[i])
    ensures Reject(keys, stale) == []
  {
    if keys != [] {
      NoneKept(keys[1..], stale);
    }
  }

  lemma DistinctConcat(a: seq<string>, b: seq<string>)
    requires Distinct(a) && Distinct(b) && forall i :: 0 <= i < |b| ==> b[i] !in a
    ensures Distinct(a + b)
  {
  }

  /** A pass keeps the bucket duplicate free and keeps every fresh key, in order. */
  lemma PassKeeps(bucket: seq<string>, stale: string -> bool, cap: nat)
    requires Distinct(bucket)
    ensures Distinct(Pass(bucket, stale, cap))
    ensures Reject(Pass(bucket, stale, cap), stale) == Reject(bucket, stale)
  {
    var page := Page(bucket, cap);
    var rest := bucket[|page|..];
    var kept := Reject(page, stale);
    PassShape(bucket, stale, cap);
    assert bucket == page + rest;
    RejectDistinct(page, stale);
    forall i | 0 <= i < |rest| ensures rest[i] !in kept {
      RejectMember(page, stale, rest[i]);
      PastPage(bucket, |page|, i);
    }
    DistinctConcat(kept, rest);
    RejectConcat(page, rest, stale);
    RejectConcat(kept, rest, stale);
    RejectTwice(page, stale);
  }

  /** Where a key past the page stands after the pass: as many fresh keys stand before it as did. */
  lemma PassMoves(bucket: seq<string>, stale: string -> bool, cap: nat, i: nat) returns (i': nat)
    requires Distinct(bucket) && |Page(bucket, cap)| <= i < |bucket|
    ensures var b' := Pass(bucket, stale, cap);
            && i' < |b'| && b'[i'] == bucket[i]
            && Reject(b'[..i'], stale) == Reject(bucket[..i], stale)
    ensures i' == i - |Page(bucket, cap)| + |Reject(Page(bucket, cap), stale)|
  {
    PassShape(bucket, stale, cap);
    var page := Page(bucket, cap);
    var kept := Reject(page, stale);
    var b' := Pass(bucket, stale, cap);
    i' := i - |page| + |kept|;
    var between := bucket[|page|..i];
    assert bucket[..i] == page + between;
    assert b'[..i'] == kept + between;
    RejectConcat(page, between, stale);
    RejectConcat(kept, between, stale);
    RejectTwice(page, stale);
  }

  /** The number of keys still to delete. */
  function StaleCount(bucket: seq<string>, stale: string -> bool): nat {
    |bucket| - |Reject(bucket, stale)|
  }

  lemma FirstStale(bucket: seq<string>, stale: string -> bool) returns (i: nat)
    requires !Pruned(bucket, stale)
    ensures i < |bucket| && stale(bucket[i])
    ensures Reject(bucket[..i], stale) == bucket[..i]
  {
    i := 0;
    while !stale(bucket[i])
      invariant i < |bucket|
      invariant exists j :: i <= j < |bucket| && stale(bucket[j])
      invariant forall j :: 0 <= j < i ==> !stale(bucket[j])
      decreases |bucket| - i
    {
      i := i + 1;
    }
    AllKept(bucket[..i], stale);
  }

  lemma {:induction false} RejectShrinks(keys: seq<string>, i: nat, stale: string -> bool)
    requires i < |keys| && stale(keys[i])
    ensures |Reject(keys, stale)| < |keys|
  {
    if i > 0 {
      RejectShrinks(keys[1..], i - 1, stale);
    }
  }

  /** While an unblocked bucket holds a stale key, a pass deletes at least one and leaves it unblocked. */
  lemma PassProgresses(bucket: seq<string>, stale: string -> bool, cap: nat)
    requires Distinct(bucket) && Unblocked(bucket, stale, cap) && !Pruned(bucket, stale)
    ensures StaleCount(Pass(bucket, stale, cap), stale) < StaleCount(bucket, stale)
    ensures Unblocked(Pass(bucket, stale, cap), stale, cap)
  {
    var page := Page(bucket, cap);
    var b' := Pass(bucket, stale, cap);
    PassShape(bucket, stale, cap);
    PassKeeps(bucket, stale, cap);
    var first := FirstStale(bucket, stale);
    assert first < |page|;
    RejectShrinks(page, first, stale);
    var kept := Reject(page, stale);
    forall i' | 0 <= i' < |b'| && stale(b'[i'])
      ensures |Reject(b'[..i'], stale)| < cap
    {
      RejectMember(page, stale, b'[i']);
      assert i' >= |kept|;
      var i := i' - |kept| + |page|;
      assert bucket[i] == b'[i'];
      var j := PassMoves(bucket, stale, cap, i);
      assert j == i';
    }
  }

  /** An unblocked bucket is pruned within as many passes as it holds stale keys. */
  lemma {:induction false} PassesConverge(bucket: seq<string>, stale: string -> bool, cap: nat) returns (n: nat)
    requires Distinct(bucket) && Unblocked(bucket, stale, cap)
    ensures Pruned(Passes(bucket, stale, cap, n), stale)
    ensures n <= StaleCount(bucket, stale)
    decreases StaleCount(bucket, stale)
  {
    if Pruned(bucket, stale) {
      n := 0;
    } else {
      PassProgresses(bucket, stale, cap);
      PassKeeps(bucket, stale, cap);
      n := PassesConverge(Pass(bucket, stale, cap), stale, cap);
      n := n + 1;
    }
  }

  /** Every number of passes keeps every fresh key, in order. */
  lemma {:induction false} PassesKeep(bucket: seq<string>, stale: string -> bool, cap: nat, n: nat)
    requires Distinct(bucket)
    ensures Reject(Passes(bucket, stale, cap, n), stale) == Reject(bucket, stale)
    decreases n
  {
    if n > 0 {
      PassKeeps(bucket, stale, cap);
      PassesKeep(Pass(bucket, stale, cap), stale, cap, n - 1);
    }
  }

  lemma BlockedPastPage(bucket: seq<string>, stale: string -> bool, cap: nat, i: nat)
    requires i < |bucket| && |Reject(bucket[..i], stale)| >= cap
    ensures |Page(bucket, cap)| <= i
  {
  }

  /** A key behind a full page of fresh keys is behind it after every number of passes. */
  lemma {:induction false} PassesStayBlocked(bucket: seq<string>, stale: string -> bool, cap: nat, i: nat, n: nat)
    requires Distinct(bucket) && i < |bucket| && stale(bucket[i])
    requires |Reject(bucket[..i], stale)| >= cap
    ensures !Pruned(Passes(bucket, stale, cap, n), stale)
    decreases n
  {
    hide Pass, Reject, Distinct;
    if n > 0 {
      PassKeeps(bucket, stale, cap);
      BlockedPastPage(bucket, stale, cap, i);
      var i' := PassMoves(bucket, stale, cap, i);
      PassesStayBlocked(Pass(bucket, stale, cap), stale, cap, i', n - 1);
    }
  }

  /** Repeated passes prune the bucket exactly when no stale key stands behind a page of keys that stay. */
  lemma PruneConvergesExactly(bucket: seq<string>, stale: string -> bool, cap: nat)
    requires Distinct(bucket)
    ensures (exists n: nat :: Reaches(bucket, stale, cap, n)) <==> Unblocked(bucket, stale, cap)
  {
    if Unblocked(bucket, stale, cap) {
      var n := PassesConverge(bucket, stale, cap);
      assert Reaches(bucket, stale, cap, n);
    } else {
      var i :| 0 <= i < |bucket| && stale(bucket[i]) && |Reject(bucket[..i], stale)| >= cap;
      forall n: nat ensures !Reaches(bucket, stale, cap, n) {
        PassesStayBlocked(bucket, stale, cap, i, n);
      }
    }
  }
}
