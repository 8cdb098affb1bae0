/** The keys read out of a `ListObjectsV2` response body. */
module ListingScanner {
  import opened Text

  const CONTENTS: string := "<Contents>"
  const KEY_OPEN: string := "<Key>"
  const KEY_CLOSE: string := "</Key>"

  /** Where one entry is cut out of the text: its key, and the text after it. */
  datatype Cut = NoEntry | Malformed | Entry(key: string, rest: string)

  function NextEntry(text: string): (c: Cut)
    ensures c.Entry? ==> |c.rest| < |text|
    ensures c.NoEntry? <==> !Contains(text, CONTENTS)
  {
    var start := Find(text, CONTENTS);
    if start.None? then NoEntry
    else
      var afterContents := text[start.value + |CONTENTS|..];
      var keyStart := Find(afterContents, KEY_OPEN);
      if keyStart.None? then Malformed
      else
        var afterKey := afterContents[keyStart.value + |KEY_OPEN|..];
        var keyEnd := Find(afterKey, KEY_CLOSE);
        if keyEnd.None? then Malformed
        else Entry(afterKey[..keyEnd.value], afterKey[keyEnd.value + |KEY_CLOSE|..])
  }

  /** The keys of every entry in order, or None when some entry has no closed key. */
  function Scan(text: string): Option<seq<string>>
    decreases |text|
  {
    match NextEntry(text)
    case NoEntry => Some([])
    case Malformed => None
    case Entry(key, rest) => Prepend([key], Scan(rest))
  }

  function Prepend(keys: seq<string>, more: Option<seq<string>>): Option<seq<string>> {
    if more.None? then None else Some(keys + more.value)
  }

  lemma PrependPrepend(a: seq<string>, b: seq<string>, more: Option<seq<string>>)
    ensures Prepend(a, Prepend(b, more)) == Prepend(a + b, more)
    ensures Prepend([], more) == more
  {
    if more.Some? {
      assert a + (b + more.value) == a + b + more.value;
      assert [] + more.value == more.value;
    }
  }

  /** `keys_from_listing` on a body already decoded as UTF-8, or None where decoding failed. */
  method KeysFromListing(body: Option<string>) returns (r: Option<seq<string>>)
    ensures body.None? ==> r.None?
    ensures body.Some? ==> r == if Contains(body.value, CONTENTS) then Scan(body.value) else None
    ensures r.Some? ==> |r.value| > 0
  {
    hide OccursAt;
    if body.None? {
      return None;
    }
    var text := body.value;
    if Find(text, CONTENTS).None? {
      return None;
    }
    var keys: seq<string> := [];
    var rest := text;
    PrependPrepend([], [], Scan(text));
    var start := Find(rest, CONTENTS);
    while start.Some?
      invariant start == Find(rest, CONTENTS)
      invariant keys == [] ==> start.Some?
      invariant Scan(text) == Prepend(keys, Scan(rest))
      decreases |rest|
    {
      var afterContents := rest[start.value + |CONTENTS|..];
      var keyStart := Find(afterContents, KEY_OPEN);
      if keyStart.None? {
        return None;
      }
      var afterKey := afterContents[keyStart.value + |KEY_OPEN|..];
      var keyEnd := Find(afterKey, KEY_CLOSE);
      if keyEnd.None? {
        return None;
      }
      var key := afterKey[..keyEnd.value];
      var next := afterContents[keyStart.value + |key| + |"<Key></Key>"|..];
      assert next == afterKey[keyEnd.value + |KEY_CLOSE|..];
      assert NextEntry(rest) == Entry(key, next);
      PrependPrepend(keys, [key], Scan(next));
      keys := keys + [key];
      rest := next;
      start := Find(rest, CONTENTS);
    }
    assert Scan(rest) == Some([]) && keys + [] == keys;
    r := Some(keys);
  }

  // ---------- rendering ----------

  /** One rendered entry: filler before the entry, filler between the tags, and the key. */
  datatype Rendered = Rendered(before: string, between: string, key: string)

  /** Filler holds no opening tag that would be read first, and the key does not close itself. */
  ghost predicate Clean(e: Rendered) {
    !Contains(e.before, CONTENTS) && !Contains(e.between, KEY_OPEN) && !Contains(e.key, KEY_CLOSE)
  }

  function Render(entries: seq<Rendered>, after: string): string {
    if entries == [] then after
    else
      var e := entries[0];
      e.before + CONTENTS + (e.between + KEY_OPEN + (e.key + KEY_CLOSE + Render(entries[1..], after)))
  }

  function Keys(entries: seq<Rendered>): seq<string> {
    if entries == [] then [] else [entries[0].key] + Keys(entries[1..])
  }

  lemma TagsUnbordered()
    ensures Unbordered(CONTENTS) && Unbordered(KEY_OPEN) && Unbordered(KEY_CLOSE)
  {
    assert CONTENTS[1..] == "Contents>" && KEY_OPEN[1..] == "Key>" && KEY_CLOSE[1..] == "/Key>";
    FirstCharUniqueUnbordered(CONTENTS);
    FirstCharUniqueUnbordered(KEY_OPEN);
    FirstCharUniqueUnbordered(KEY_CLOSE);
  }

  /** The scanner cuts a rendered entry exactly where it was put. */
  lemma EntryFound(e: Rendered, rest: string)
    requires Clean(e)
    ensures NextEntry(e.before + CONTENTS + (e.between + KEY_OPEN + (e.key + KEY_CLOSE + rest))) == Entry(e.key, rest)
  {
    TagsUnbordered();
    var afterKey := e.key + KEY_CLOSE + rest;
    var afterContents := e.between + KEY_OPEN + afterKey;
    FindAfter(e.before, CONTENTS, afterContents);
    FindAfter(e.between, KEY_OPEN, afterKey);
    FindAfter(e.key, KEY_CLOSE, rest);
    assert (e.before + CONTENTS + afterContents)[|e.before| + |CONTENTS|..] == afterContents;
    assert afterContents[|e.between| + |KEY_OPEN|..] == afterKey;
    assert afterKey[..|e.key|] == e.key && afterKey[|e.key| + |KEY_CLOSE|..] == rest;
  }

  /** A rendered list of keys is read back exactly, in order, whatever clean filler stands around it. */
  lemma {:induction false} ListingRoundTrips(entries: seq<Rendered>, after: string)
    requires forall i :: 0 <= i < |entries| ==> Clean(entries[i])
    requires !Contains(after, CONTENTS)
    ensures Scan(Render(entries, after)) == Some(Keys(entries))
    ensures Contains(Render(entries, after), CONTENTS) <==> entries != []
  {
    if entries != [] {
      EntryFound(entries[0], Render(entries[1..], after));
      ListingRoundTrips(entries[1..], after);
    }
  }
}
