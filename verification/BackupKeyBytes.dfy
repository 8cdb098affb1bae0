/** Reading keys byte by byte: cutting a stamp inside a character ends the retention pass. */
module BackupKeyBytes {
  import opened Text
  import opened BackupKeys
  import opened BoundedPasses
  import opened BackupRetention

  // ---------- characters and bytes ----------

  /** The bytes a character takes in UTF-8. */
  function Width(c: char): (w: nat)
    ensures 1 <= w <= 4
    ensures (w == 1 <==> c as int <= 0x7F) && (w <= 2 <==> c as int <= 0x7FF) && (w <= 3 <==> c as int <= 0xFFFF)
  {
    if c as int < 0x80 then 1 else if c as int < 0x800 then 2 else if c as int < 0x1_0000 then 3 else 4
  }

  function Size(s: string): nat {
    if s == "" then 0 else Width(s[0]) + Size(s[1..])
  }

  /** How many characters the first n bytes hold; None where they end inside a character, or past the text. */
  function Boundary(s: string, n: nat): (r: Option<nat>)
    ensures r.Some? ==> r.value <= |s|
    decreases s
  {
    if n == 0 then Some(0)
    else if s == "" || Width(s[0]) > n then None
    else
      var rest := Boundary(s[1..], n - Width(s[0]));
      if rest.None? then None else Some(rest.value + 1)
  }

  /** The characters from i to j read as a number. */
  predicate Plain(s: string, i: nat, j: nat) {
    i < j <= |s| && ParseU32(s[i..j]).Some?
  }

  predicate Narrow(s: string, n: nat) {
    n <= |s| && forall i :: 0 <= i < n ==> Width(s[i]) == 1
  }

  lemma PlainIsNarrow(s: string, i: nat, j: nat)
    requires Plain(s, i, j)
    ensures forall k :: i <= k < j ==> Width(s[k]) == 1
  {
    var f := s[i..j];
    var digits := if |f| > 1 && f[0] == '+' then f[1..] else f;
    assert AllDigits(digits);
    forall k | 0 <= k < |f| ensures f[k] == '+' || IsDigit(f[k]) {
      if digits == f {
      } else if k > 0 {
        assert digits[k - 1] == f[k];
      }
    }
    assert forall k :: i <= k < j ==> s[k] == f[k - i];
  }

  /** Behind n narrow characters, bytes and characters count alike. */
  lemma {:induction false} BoundaryBehind(s: string, n: nat, m: nat)
    requires Narrow(s, n)
    ensures Boundary(s, n + m).Some? <==> Boundary(s[n..], m).Some?
    ensures Boundary(s[n..], m).Some? ==> Boundary(s, n + m) == Some(n + Boundary(s[n..], m).value)
    ensures Size(s) == n + Size(s[n..])
    decreases n
  {
    if n == 0 {
      assert s[0..] == s;
    } else {
      BoundaryBehind(s[1..], n - 1, m);
      assert s[1..][n - 1..] == s[n..];
    }
  }

  /** Where the first n bytes hold narrow characters only, they hold n of them. */
  lemma {:induction false} NarrowCount(s: string, n: nat)
    requires Boundary(s, n).Some? && Narrow(s, Boundary(s, n).value)
    ensures Boundary(s, n) == Some(n)
    decreases s
  {
    if n > 0 {
      NarrowCount(s[1..], n - 1);
    }
  }

  // ---------- reading fields ----------

  /** A run of fields: cut inside a character, not all numbers, or read with what follows them. */
  datatype Fielded = Split | Unread | Field(value: nat, rest: string)

  /** Cut n bytes off and read them. */
  function Take(s: string, n: nat): Fielded {
    var k := Boundary(s, n);
    if k.None? then Split
    else
      var value := ParseU32(s[..k.value]);
      if value.None? then Unread else Field(value.value, s[k.value..])
  }

  lemma TakeExactly(s: string, n: nat)
    requires n > 0
    ensures Take(s, n).Split? <==> Boundary(s, n).None?
    ensures Take(s, n).Field? <==> Plain(s, 0, n)
    ensures Plain(s, 0, n) ==> Take(s, n) == Field(ParseU32(s[0..n]).value, s[n..])
  {
    if Plain(s, 0, n) {
      PlainIsNarrow(s, 0, n);
      BoundaryBehind(s, n, 0);
      assert s[..n] == s[0..n];
    }
    if Take(s, n).Field? {
      var k := Boundary(s, n).value;
      assert s[..k] == s[0..k];
      if k > 0 {
        PlainIsNarrow(s, 0, k);
        NarrowCount(s, n);
      }
    }
  }

  datatype Triple = Torn | Unreadable | Triple(a: nat, b: nat, c: nat, rest: string)

  /** A field of n bytes and two of two, each read before the next is cut. */
  function TakeThree(s: string, n: nat): Triple {
    match Take(s, n)
    case Split => Torn
    case Unread => Unreadable
    case Field(a, s1) =>
      match Take(s1, 2)
      case Split => Torn
      case Unread => Unreadable
      case Field(b, s2) =>
        match Take(s2, 2)
        case Split => Torn
        case Unread => Unreadable
        case Field(c, s3) => Triple(a, b, c, s3)
  }

  predicate PlainThree(s: string, i: nat, n: nat) {
    Plain(s, i, i + n) && Plain(s, i + n, i + n + 2) && Plain(s, i + n + 2, i + n + 4)
  }

  /** Reading a field behind narrow characters: torn, read or neither, and what follows it. */
  lemma TakeAt(s: string, i: nat, n: nat)
    requires n > 0 && Narrow(s, i)
    ensures Take(s[i..], n).Split? <==> Boundary(s, i + n).None?
    ensures Take(s[i..], n).Field? <==> Plain(s, i, i + n)
    ensures Plain(s, i, i + n) ==> Narrow(s, i + n) && Take(s[i..], n) == Field(ParseU32(s[i..i + n]).value, s[i + n..])
  {
    hide Take, Boundary, ParseU32, Plain;
    BoundaryBehind(s, i, n);
    TakeExactly(s[i..], n);
    PlainBehind(s, i, n);
    if Plain(s, i, i + n) {
      PlainIsNarrow(s, i, i + n);
    }
  }

  lemma PlainBehind(s: string, i: nat, n: nat)
    requires i <= |s|
    ensures Plain(s[i..], 0, n) <==> Plain(s, i, i + n)
    ensures Plain(s, i, i + n) ==> i + n <= |s| && s[i..][0..n] == s[i..i + n] && s[i..][n..] == s[i + n..]
  {
    if i + n <= |s| {
      assert s[i..][0..n] == s[i..i + n];
    }
  }

  lemma TakeThreeAt(s: string, i: nat, n: nat)
    requires n > 0 && Narrow(s, i)
    ensures TakeThree(s[i..], n).Torn? <==>
            || Boundary(s, i + n).None?
            || (Plain(s, i, i + n) && Boundary(s, i + n + 2).None?)
            || (Plain(s, i, i + n) && Plain(s, i + n, i + n + 2) && Boundary(s, i + n + 4).None?)
    ensures TakeThree(s[i..], n).Triple? <==> PlainThree(s, i, n)
    ensures PlainThree(s, i, n) ==>
              && Narrow(s, i + n + 4)
              && TakeThree(s[i..], n) == Triple(ParseU32(s[i..i + n]).value, ParseU32(s[i + n..i + n + 2]).value,
                                                ParseU32(s[i + n + 2..i + n + 4]).value, s[i + n + 4..])
  {
    hide Take, Boundary, ParseU32, Plain, Narrow;
    TakeAt(s, i, n);
    if Plain(s, i, i + n) {
      TakeAt(s, i + n, 2);
      if Plain(s, i + n, i + n + 2) {
        TakeAt(s, i + n + 2, 2);
      }
    }
  }

  // ---------- a stamp ----------

  datatype Reading = Panics | Foreign | Secs(value: nat)

  /** Sixteen bytes, the ninth a `T`, the last a `Z`; only the letter itself has its byte. */
  predicate Shaped(t: string) {
    && Size(t) == 16 && t[|t| - 1] == 'Z'
    && var k := Boundary(t, 8);
    k.Some? && k.value < |t| && t[k.value] == 'T'
  }

  /** The stamp of a key as the source cuts it, a slice at a time. */
  function ReadStamp(t: string): Reading {
    if t == "" || !Shaped(t) then Foreign
    else
      match TakeThree(t, 4)
      case Torn => Panics
      case Unreadable => Foreign
      case Triple(year, month, day, rest) =>
        if rest == "" then Foreign
        else
          match TakeThree(rest[1..], 2)
          case Torn => Panics
          case Unreadable => Foreign
          case Triple(hour, minute, second, _) =>
            var secs := FieldSecs(Some(year), Some(month), Some(day), Some(hour), Some(minute), Some(second));
            if secs.None? then Foreign else Secs(secs.value)
  }

  lemma {:induction false} LastBoundary(t: string)
    requires t != "" && Width(t[|t| - 1]) == 1
    ensures Size(t) > 0 && Boundary(t, Size(t) - 1) == Some(|t| - 1)
  {
    if |t| > 1 {
      assert t[1..][|t| - 2] == t[|t| - 1];
      LastBoundary(t[1..]);
    }
  }

  /** Cutting the stamp at byte n would split a character. */
  predicate Inside(t: string, n: nat) {
    Boundary(t, n).None?
  }

  /**
   * A stamp ends the pass exactly when it has the shape and a character lies across one of the cuts at bytes 4, 6, 11 and
   * 13 with every field before that cut a number.
   */
  lemma StampPanicsExactly(t: string)
    ensures ReadStamp(t) == Panics <==>
            && t != "" && Shaped(t)
            && (|| Inside(t, 4)
                || (Plain(t, 0, 4) && Inside(t, 6))
                || (PlainThree(t, 0, 4) && Inside(t, 11))
                || (PlainThree(t, 0, 4) && Plain(t, 9, 11) && Inside(t, 13)))
  {
    hide Shaped, TakeThree, Boundary, Plain, ReadStamp, Size;
    if t != "" && Shaped(t) {
      ShapedCuts(t);
      StampCases(t);
      TakeThreeFirst(t);
      if PlainThree(t, 0, 4) {
        TimeAhead(t);
        TakeThreeAt(t, 9, 2);
      }
    } else {
      NotShaped(t);
    }
  }

  lemma NotShaped(t: string)
    requires t == "" || !Shaped(t)
    ensures ReadStamp(t) == Foreign
  {
  }

  lemma ShapedCuts(t: string)
    requires t != "" && Shaped(t)
    ensures !Inside(t, 8) && !Inside(t, 15)
  {
    LastBoundary(t);
  }

  lemma TakeThreeFirst(t: string)
    ensures TakeThree(t, 4).Torn? <==>
            || Inside(t, 4) || (Plain(t, 0, 4) && Inside(t, 6)) || (Plain(t, 0, 4) && Plain(t, 4, 6) && Inside(t, 8))
    ensures TakeThree(t, 4).Triple? <==> PlainThree(t, 0, 4)
    ensures PlainThree(t, 0, 4) ==>
              && Narrow(t, 8)
              && TakeThree(t, 4) == Triple(ParseU32(t[0..4]).value, ParseU32(t[4..6]).value, ParseU32(t[6..8]).value, t[8..])
  {
    hide TakeThree, Boundary, Plain, ParseU32;
    TakeThreeAt(t, 0, 4);
    assert t[0..] == t;
  }

  /** The date first, then the time behind its letter. */
  lemma StampCases(t: string)
    requires t != "" && Shaped(t)
    ensures ReadStamp(t) == Panics <==> TakeThree(t, 4).Torn? || (PlainThree(t, 0, 4) && TakeThree(t[9..], 2).Torn?)
  {
    hide Shaped, TakeThree, Boundary, Plain, ParseU32, FieldSecs, Narrow;
    TakeThreeFirst(t);
    if PlainThree(t, 0, 4) {
      TimeAhead(t);
    }
  }

  /** Behind a date of numbers the `T` is the ninth character. */
  lemma TimeAhead(t: string)
    requires t != "" && Shaped(t) && Narrow(t, 8)
    ensures |t| > 8 && t[8] == 'T' && Narrow(t, 9) && t[8..] != "" && t[8..][1..] == t[9..]
  {
    BoundaryBehind(t, 8, 0);
  }

  /** A stamp is read as a time exactly when the model of plain characters reads it so. */
  lemma StampReadsSame(t: string, n: nat)
    ensures ReadStamp(t) == Secs(n) <==> |t| == 16 && t[8] == 'T' && t[15] == 'Z' && TimestampSecs(t) == Some(n)
  {
    hide Shaped, TakeThree, Boundary, Plain, PlainThree, ReadStamp, Size, TimestampSecs;
    if t == "" || !Shaped(t) {
      NotShaped(t);
    } else if PlainThree(t, 0, 4) && PlainThree(t, 9, 2) {
      PlainReads(t);
    } else {
      NotPlain(t);
    }
    if |t| == 16 && t[8] == 'T' && t[15] == 'Z' && TimestampSecs(t).Some? {
      PlainStamp(t);
    }
  }

  lemma NotPlain(t: string)
    requires t != "" && Shaped(t) && !(PlainThree(t, 0, 4) && PlainThree(t, 9, 2))
    ensures !ReadStamp(t).Secs?
  {
    hide Shaped, TakeThree, Boundary, Plain, PlainThree, FieldSecs, ParseU32;
    TakeThreeFirst(t);
    if PlainThree(t, 0, 4) {
      TimeAhead(t);
      TakeThreeAt(t, 9, 2);
    }
  }

  lemma PlainReads(t: string)
    requires t != "" && Shaped(t) && PlainThree(t, 0, 4) && PlainThree(t, 9, 2)
    ensures |t| == 16 && t[8] == 'T' && t[15] == 'Z'
    ensures ReadStamp(t) == if TimestampSecs(t).None? then Foreign else Secs(TimestampSecs(t).value)
  {
    TimeRead(t);
    hide TakeThree, Boundary, FieldSecs, ParseU32, Shaped, Plain;
    TakeThreeFirst(t);
    TimeAhead(t);
    TakeThreeAt(t, 9, 2);
  }

  lemma TimeRead(t: string)
    requires t != "" && Shaped(t) && PlainThree(t, 0, 4) && PlainThree(t, 9, 2)
    ensures |t| == 16 && t[8] == 'T' && t[15] == 'Z'
    ensures forall x :: x in {t[0..4], t[4..6], t[6..8], t[9..11], t[11..13], t[13..15]} ==> ParseU32(x).Some?
  {
    hide TakeThree, Boundary, ParseU32;
    TakeThreeFirst(t);
    TimeAhead(t);
    TakeThreeAt(t, 9, 2);
    BoundaryBehind(t, 15, 0);
    OneByteLeft(t[15..]);
    assert t[15..][0] == t[15];
  }

  lemma OneByteLeft(s: string)
    requires Size(s) == 1
    ensures |s| == 1
  {
    assert s != "" && Size(s[1..]) == 0;
    assert s[1..] == "";
  }

  lemma PlainStamp(t: string)
    requires |t| == 16 && t[8] == 'T' && t[15] == 'Z' && TimestampSecs(t).Some?
    ensures Shaped(t) && PlainThree(t, 0, 4) && PlainThree(t, 9, 2)
  {
    assert PlainThree(t, 0, 4) && PlainThree(t, 9, 2);
    PlainIsNarrow(t, 0, 4);
    PlainIsNarrow(t, 4, 6);
    PlainIsNarrow(t, 6, 8);
    PlainIsNarrow(t, 9, 11);
    PlainIsNarrow(t, 11, 13);
    PlainIsNarrow(t, 13, 15);
    BoundaryBehind(t, 8, 0);
    BoundaryBehind(t, 16, 0);
  }

  // ---------- keys and passes ----------

  /** `embedded_timestamp_secs`, with the slices it may fail on. */
  function ReadKey(key: string, prefix: string): Reading {
    var head := prefix + "/";
    if !(head <= key) then Foreign
    else
      var rest := key[|head|..];
      var slash := Find(rest, "/");
      if slash.None? then Foreign else ReadDated(rest[..slash.value], rest[slash.value + 1..])
  }

  function ReadDated(date: string, tail: string): Reading {
    if |date| != 8 || !AllDigits(date) || |tail| < 4 || tail[|tail| - 4..] != ".bin" then Foreign
    else ReadStamp(tail[..|tail| - 4])
  }

  /** For every key the two readings agree on the keys that have a time, and on the time. */
  lemma KeyReadsSame(key: string, prefix: string, n: nat)
    ensures ReadKey(key, prefix) == Secs(n) <==> EmbeddedTimestamp(key, prefix) == Some(n)
  {
    hide ReadStamp, TimestampSecs, AllDigits;
    var head := prefix + "/";
    if head <= key {
      var rest := key[|head|..];
      var slash := Find(rest, "/");
      if slash.Some? {
        DatedReadsSame(rest[..slash.value], rest[slash.value + 1..], n);
      }
    }
  }

  lemma DatedReadsSame(date: string, tail: string, n: nat)
    ensures ReadDated(date, tail) == Secs(n) <==> DatedTimestamp(date, tail) == Some(n)
  {
    hide ReadStamp, TimestampSecs, AllDigits;
    if |tail| >= 4 {
      StampReadsSame(tail[..|tail| - 4], n);
    }
  }

  /** A key of the layout is read by its stamp alone, whatever characters it holds. */
  lemma LayoutReads(prefix: string, date: string, t: string)
    requires |date| == 8 && AllDigits(date)
    ensures ReadKey(KeyText(prefix, date, t), prefix) == ReadStamp(t)
  {
    var head := prefix + "/";
    var tail := t + ".bin";
    var rest := date + "/" + tail;
    assert KeyText(prefix, date, t) == head + rest;
    SlashFound(date, tail);
    assert rest[..8] == date && rest[9..] == tail && tail[..|tail| - 4] == t && tail[|tail| - 4..] == ".bin";
    hide ReadStamp;
  }

  /** A key ends the pass exactly when it has the layout under the prefix and its stamp does. */
  lemma KeyPanicsExactly(key: string, prefix: string)
    ensures ReadKey(key, prefix) == Panics <==>
            exists date, t :: |date| == 8 && AllDigits(date) && key == KeyText(prefix, date, t) && ReadStamp(t) == Panics
  {
    hide ReadStamp, AllDigits;
    if ReadKey(key, prefix) == Panics {
      var head := prefix + "/";
      var rest := key[|head|..];
      var slash := Find(rest, "/").value;
      var date, tail := rest[..slash], rest[slash + 1..];
      var t := tail[..|tail| - 4];
      assert OccursAt(rest, "/", slash) && rest == date + "/" + tail && tail == t + ".bin";
      assert key == head + rest;
      assert key == KeyText(prefix, date, t);
    }
    forall date, t | |date| == 8 && AllDigits(date) && key == KeyText(prefix, date, t) && ReadStamp(t) == Panics
      ensures ReadKey(key, prefix) == Panics
    {
      LayoutReads(prefix, date, t);
    }
  }

  /** The keys of a listing a pass deletes, or None where reading one of them ends it. */
  function PruneKeys(keys: seq<string>, prefix: string, cutoff: nat): Option<seq<string>> {
    if keys == [] then Some([])
    else
      var first := ReadKey(keys[0], prefix);
      var rest := PruneKeys(keys[1..], prefix, cutoff);
      if first.Panics? || rest.None? then None
      else Some((if first.Secs? && first.value < cutoff then [keys[0]] else []) + rest.value)
  }

  /** One such key ends the pass over the whole listing; without one the pass deletes what the plain reading says. */
  lemma {:induction false} PassPanicsExactly(keys: seq<string>, prefix: string, cutoff: nat)
    ensures PruneKeys(keys, prefix, cutoff).None? <==> exists i :: 0 <= i < |keys| && ReadKey(keys[i], prefix) == Panics
    ensures PruneKeys(keys, prefix, cutoff).Some? ==> PruneKeys(keys, prefix, cutoff) == Some(Select(keys, Outdated(prefix, cutoff)))
  {
    hide ReadKey, EmbeddedTimestamp;
    if keys != [] {
      PassPanicsExactly(keys[1..], prefix, cutoff);
      PrunableSame(keys[0], prefix, cutoff);
      assert forall i :: 0 < i < |keys| ==> keys[i] == keys[1..][i - 1];
      assert forall i :: 0 <= i < |keys| - 1 ==> keys[1..][i] == keys[i + 1];
    }
  }

  lemma PrunableSame(key: string, prefix: string, cutoff: nat)
    ensures Prunable(key, prefix, cutoff) <==> ReadKey(key, prefix).Secs? && ReadKey(key, prefix).value < cutoff
  {
    hide ReadKey, EmbeddedTimestamp;
    var plain, bytes := EmbeddedTimestamp(key, prefix), ReadKey(key, prefix);
    if plain.Some? {
      KeyReadsSame(key, prefix, plain.value);
    }
    if bytes.Secs? {
      KeyReadsSame(key, prefix, bytes.value);
    }
  }

  /**
   * Under every prefix and date directory, a stamp whose fourth character takes two bytes ends the pass: the first cut
   * is inside it.
   */
  lemma TornStampPanics(prefix: string, date: string, head: string, c: char, tail: string)
    requires |date| == 8 && AllDigits(date)
    requires |head| == 3 && Narrow(head, 3) && Width(c) == 2
    requires |tail| == 11 && Narrow(tail, 11) && tail[3] == 'T' && tail[10] == 'Z'
    ensures ReadKey(KeyText(prefix, date, head + [c] + tail), prefix) == Panics
  {
    hide ReadStamp, Shaped, Inside, ReadKey, KeyText, Plain;
    var t := head + [c] + tail;
    TornLetter(t, head, c, tail);
    StampPanicsExactly(t);
    LayoutReads(prefix, date, t);
  }

  lemma TornLetter(t: string, head: string, c: char, tail: string)
    requires t == head + [c] + tail && |head| == 3 && Narrow(head, 3) && Width(c) == 2
    requires |tail| == 11 && Narrow(tail, 11) && tail[3] == 'T' && tail[10] == 'Z'
    ensures Shaped(t) && Inside(t, 4)
  {
    hide Width;
    var rest := [c] + tail;
    assert t[3..] == rest && rest[1..] == tail && rest[0] == c;
    assert Narrow(t, 3);
    BoundaryBehind(t, 3, 1);
    BoundaryBehind(t, 3, 5);
    BoundaryBehind(tail, 3, 0);
    BoundaryBehind(tail, 11, 0);
    assert Boundary(rest, 1).None? && Boundary(rest, 5) == Some(4) && Size(rest) == 13;
    assert t[7] == tail[3] && t[14] == tail[10];
  }
}
