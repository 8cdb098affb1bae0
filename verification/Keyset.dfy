/** Listings read a page at a time: rows in (creation time, identifier) order, resumed after the last row read. */
module Keyset {
  import opened Text

  /** Where a row stands in every listing. */
  datatype Position = Position(createdAt: int, id: int)

  predicate Less(a: Position, b: Position) {
    a.createdAt < b.createdAt || (a.createdAt == b.createdAt && a.id < b.id)
  }

  /** Rows are compared by creation time, and by identifier at the same time; any two different ones one way. */
  lemma LessExactly(a: Position, b: Position)
    ensures a.createdAt < b.createdAt ==> Less(a, b) && !Less(b, a)
    ensures a.createdAt == b.createdAt ==> (Less(a, b) <==> a.id < b.id)
  {
  }

  const LIST_HARD_CAP: int := 1000

  /** A listing never returns more than the management cap plus one, nor a negative number of rows. */
  function Clamp(limit: int): nat {
    if limit < 0 then 0 else if limit > LIST_HARD_CAP + 1 then LIST_HARD_CAP + 1 else limit
  }

  predicate Ordered(at: seq<Position>) {
    forall i, j :: 0 <= i < j < |at| ==> Less(at[i], at[j])
  }

  /** How many rows a listing passes over before the first one behind the cursor. */
  function Skipped(at: seq<Position>, after: Option<Position>): (n: nat)
    ensures n <= |at|
  {
    if at == [] || after.None? || Less(after.value, at[0]) then 0 else 1 + Skipped(at[1..], after)
  }

  /** The page of a listing: the first rows behind the cursor. */
  function PageAfter<T>(rows: seq<T>, at: seq<Position>, limit: int, after: Option<Position>): seq<T>
    requires |rows| == |at|
  {
    var from := Skipped(at, after);
    if |rows| - from <= Clamp(limit) then rows[from..] else rows[from..from + Clamp(limit)]
  }

  /** After the i-th row, the next page begins at the i-th index. */
  lemma {:induction false} SkippedTo(at: seq<Position>, i: nat)
    requires Ordered(at) && i <= |at|
    ensures Skipped(at, if i == 0 then None else Some(at[i - 1])) == i
  {
    if i > 0 {
      SkippedPast(at, i, at[i - 1]);
    }
  }

  lemma {:induction false} SkippedPast(at: seq<Position>, i: nat, cursor: Position)
    requires i <= |at|
    requires forall j :: 0 <= j < i ==> !Less(cursor, at[j])
    requires forall j :: i <= j < |at| ==> Less(cursor, at[j])
    ensures Skipped(at, Some(cursor)) == i
    decreases i
  {
    if i > 0 {
      SkippedPast(at[1..], i - 1, cursor);
    }
  }

  /** The page after the i-th row is the next stretch of rows, as long as the limit and the listing allow. */
  lemma PageFrom<T>(rows: seq<T>, at: seq<Position>, limit: int, i: nat)
    requires Ordered(at) && |rows| == |at| && i <= |at|
    ensures var page := PageAfter(rows, at, limit, if i == 0 then None else Some(at[i - 1]));
            && |page| == (if |rows| - i <= Clamp(limit) then |rows| - i else Clamp(limit))
            && page == rows[i..i + |page|]
  {
    SkippedTo(at, i);
    hide Skipped, Ordered;
  }
}
