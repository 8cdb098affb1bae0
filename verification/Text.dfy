/** Options, substring search, and facts about sequences that the other modules share. */
module Text {

  datatype Option<+T> = None | Some(value: T)

  /** The pattern stands in the text at index i. */
  predicate OccursAt(s: string, p: string, i: int) {
    0 <= i && i + |p| <= |s| && s[i..i + |p|] == p
  }

  /** The pattern stands somewhere in the text. */
  ghost predicate Contains(s: string, p: string) {
    exists i :: OccursAt(s, p, i)
  }

  /** The first index at or after `from` where the pattern stands (Rust's `str::find` on a suffix). */
  function FindFrom(s: string, p: string, from: nat): (r: Option<nat>)
    requires from <= |s|
    ensures r.Some? ==> from <= r.value && OccursAt(s, p, r.value)
    ensures r.Some? ==> forall j :: from <= j < r.value ==> !OccursAt(s, p, j)
    ensures r.None? ==> forall j :: from <= j ==> !OccursAt(s, p, j)
    decreases |s| - from
  {
    if OccursAt(s, p, from) then Some(from)
    else if from == |s| then None
    else FindFrom(s, p, from + 1)
  }

  function Find(s: string, p: string): (r: Option<nat>)
    ensures r.Some? <==> Contains(s, p)
    ensures r.Some? ==> r.value + |p| <= |s|
    ensures r.Some? ==> OccursAt(s, p, r.value) && forall j :: 0 <= j < r.value ==> !OccursAt(s, p, j)
  {
    FindFrom(s, p, 0)
  }

  /** No proper prefix of the pattern is also a suffix, so two occurrences never overlap. */
  ghost predicate Unbordered(p: string) {
    |p| > 0 && forall k :: 0 < k < |p| ==> p[..k] != p[|p| - k..]
  }

  /** A pattern whose first character never comes back has no border. */
  lemma FirstCharUniqueUnbordered(p: string)
    requires |p| > 0 && p[0] !in p[1..]
    ensures Unbordered(p)
  {
    forall k | 0 < k < |p| ensures p[..k] != p[|p| - k..] {
      assert p[|p| - k..][0] == p[1..][|p| - k - 1];
    }
  }

  /** An occurrence that starts inside `a` lies within `a` or makes the pattern overlap itself. */
  lemma OccurrenceBefore(a: string, p: string, b: string, j: int)
    requires 0 <= j < |a| && OccursAt(a + p + b, p, j)
    ensures Contains(a, p) || !Unbordered(p)
  {
    var s := a + p + b;
    if j + |p| <= |a| {
      assert s[j..j + |p|] == a[j..j + |p|];
      assert OccursAt(a, p, j);
    } else {
      var k := j + |p| - |a|;
      assert s[|a|..|a| + k] == p[..k];
      assert p[|p| - k..] == s[j..j + |p|][|p| - k..];
    }
  }

  /** An unbordered pattern is first found right after any text that does not hold it. */
  lemma FindAfter(a: string, p: string, b: string)
    requires Unbordered(p) && !Contains(a, p)
    ensures Find(a + p + b, p) == Some(|a|)
  {
    var s := a + p + b;
    assert s[|a|..|a| + |p|] == p;
    assert OccursAt(s, p, |a|);
    var found := Find(s, p);
    if found.value < |a| {
      OccurrenceBefore(a, p, b, found.value);
    }
  }

  // ---------- sets and sequences ----------

  /** Some member, whichever comes first. */
  method Pick<T(==)>(s: set<T>) returns (x: T)
    requires s != {}
    ensures x in s
  {
    x :| x in s;
  }

  lemma TailOfConcat<T>(a: seq<T>, b: seq<T>)
    requires a != []
    ensures (a + b)[0] == a[0] && (a + b)[1..] == a[1..] + b
  {
  }

  lemma ConcatAssociates<T>(a: seq<T>, b: seq<T>, c: seq<T>)
    ensures (a + b) + c == a + (b + c)
  {
  }

  lemma SlicesJoin<T>(s: seq<T>, i: nat, j: nat)
    requires i <= j <= |s|
    ensures s[..i] + s[i..j] == s[..j]
  {
  }

  // ---------- character order ----------

  predicate LexLess(a: string, b: string) {
    if b == "" then false
    else if a == "" then true
    else a[0] < b[0] || (a[0] == b[0] && LexLess(a[1..], b[1..]))
  }

  /** Texts of equal leading width compare by the leading part, then by the rest. */
  lemma {:induction false} LexConcat(a: string, b: string, x: string, y: string)
    requires |a| == |b|
    ensures LexLess(a + x, b + y) <==> LexLess(a, b) || (a == b && LexLess(x, y))
  {
    if a == "" {
      assert a + x == x && b + y == y;
    } else {
      assert (a + x)[1..] == a[1..] + x && (b + y)[1..] == b[1..] + y;
      assert a == [a[0]] + a[1..] && b == [b[0]] + b[1..];
      LexConcat(a[1..], b[1..], x, y);
    }
  }

  lemma LexSingle(c: char, d: char)
    ensures LexLess([c], [d]) <==> c < d
  {
  }

  lemma {:induction false} LexIrreflexive(a: string)
    ensures !LexLess(a, a)
  {
    if a != "" {
      LexIrreflexive(a[1..]);
    }
  }

  /** Texts with a shared tail of equal leading width compare by the leading part. */
  lemma LexSharedTail(a: string, b: string, x: string)
    requires |a| == |b|
    ensures LexLess(a + x, b + x) <==> LexLess(a, b)
  {
    LexConcat(a, b, x, x);
    LexIrreflexive(x);
  }

  lemma LexSharedHead(x: string, a: string, b: string)
    ensures LexLess(x + a, x + b) <==> LexLess(a, b)
  {
    LexConcat(x, x, a, b);
    LexIrreflexive(x);
  }

  lemma {:induction false} LexAsymmetric(a: string, b: string)
    requires LexLess(a, b)
    ensures !LexLess(b, a)
  {
    if a != "" && b != "" && a[0] == b[0] {
      LexAsymmetric(a[1..], b[1..]);
    }
  }
}
