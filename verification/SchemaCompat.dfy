/** The event registry's compatibility check against what payload schemas accept. */
module SchemaCompat {
  import opened Text

  // ---------- values ----------

  datatype Json =
    | Null
    | Bool(flag: bool)
    | Num(number: real)
    | Str(text: string)
    | Arr(elements: seq<Json>)
    | Obj(fields: map<string, Json>)

  /** Equality as the checking language compares decoded values: true is 1 and false is 0. */
  predicate LooselyEqual(a: Json, b: Json)
    decreases a
  {
    match (a, b)
    case (Bool(x), Num(y)) => y == if x then 1.0 else 0.0
    case (Num(x), Bool(y)) => x == if y then 1.0 else 0.0
    case (Arr(x), Arr(y)) => |x| == |y| && forall i :: 0 <= i < |x| ==> LooselyEqual(x[i], y[i])
    case (Obj(x), Obj(y)) => x.Keys == y.Keys && forall k :: k in x ==> LooselyEqual(x[k], y[k])
    case _ => a == b
  }

  // ---------- schemas ----------

  datatype TypeSpec = One(name: string) | Many(names: seq<string>)

  /** One property's schema, with the keywords the registry uses. */
  datatype Schema = Schema(
    kind: Option<TypeSpec>, enumeration: Option<seq<Json>>,
    minLength: Option<int>, minItems: Option<int>, minimum: Option<real>, maximum: Option<real>,
    items: Option<Schema>)

  /** A value is of a type named as in section 6.1.1 of JSON Schema Validation 2020-12. */
  predicate HasType(v: Json, name: string) {
    match v
    case Null => name == "null"
    case Bool(_) => name == "boolean"
    case Num(x) => name == "number" || (name == "integer" && IsWhole(x))
    case Str(_) => name == "string"
    case Arr(_) => name == "array"
    case Obj(_) => name == "object"
  }

  predicate IsWhole(x: real) {
    x == x.Floor as real
  }

  predicate Admits(kind: Option<TypeSpec>, v: Json) {
    match kind
    case None => true
    case Some(One(name)) => HasType(v, name)
    case Some(Many(names)) => exists i :: 0 <= i < |names| && HasType(v, names[i])
  }

  /** What each type name admits, and that a list of names admits what one of them does. */
  lemma TypesNamed(v: Json, names: seq<string>)
    ensures HasType(v, "null") <==> v.Null?
    ensures HasType(v, "boolean") <==> v.Bool?
    ensures HasType(v, "number") <==> v.Num?
    ensures HasType(v, "integer") <==> v.Num? && v.number.Floor as real == v.number
    ensures HasType(v, "string") <==> v.Str?
    ensures HasType(v, "array") <==> v.Arr?
    ensures HasType(v, "object") <==> v.Obj?
    ensures forall name :: name !in ["null", "boolean", "number", "integer", "string", "array", "object"] ==> !HasType(v, name)
    ensures Admits(Some(Many(names)), v) <==> exists name :: name in names && Admits(Some(One(name)), v)
  {
    if Admits(Some(Many(names)), v) {
      var i :| 0 <= i < |names| && HasType(v, names[i]);
      assert names[i] in names && Admits(Some(One(names[i])), v);
    }
    forall name | name in names && Admits(Some(One(name)), v) ensures Admits(Some(Many(names)), v) {
      var i :| 0 <= i < |names| && names[i] == name;
      assert HasType(v, names[i]);
    }
  }

  predicate AtLeast(bound: Option<int>, n: int) {
    bound.Some? ==> bound.value <= n
  }

  /** What a property schema accepts: every keyword restricts only the values of its own type. */
  predicate Accepts(s: Schema, v: Json)
    decreases s
  {
    && Admits(s.kind, v)
    && (s.enumeration.Some? ==> v in s.enumeration.value)
    && (v.Str? ==> AtLeast(s.minLength, |v.text|))
    && (v.Arr? ==> AtLeast(s.minItems, |v.elements|))
    && (v.Num? && s.minimum.Some? ==> s.minimum.value <= v.number)
    && (v.Num? && s.maximum.Some? ==> v.number <= s.maximum.value)
    && (v.Arr? && s.items.Some? ==> forall i :: 0 <= i < |v.elements| ==> Accepts(s.items.value, v.elements[i]))
  }

  // ---------- the check on one property ----------

  datatype Bound = MinLength | MinItems | Minimum

  /** Where a break is: a property, or the items of its items to a depth. */
  datatype Path = Path(property: string, depth: nat)

  datatype Break =
    | TypeChanged(at: Path)
    | EnumLost(at: Path, lost: seq<Json>)
    | EnumGained(at: Path)
    | BoundRaised(at: Path, bound: Bound)
    | Removed(name: string)
    | BecameRequired(name: string)

  predicate LooselyIn(v: Json, list: seq<Json>) {
    exists i :: 0 <= i < |list| && LooselyEqual(v, list[i])
  }

  function BoundOf(s: Schema, b: Bound): Option<real> {
    match b
    case MinLength => if s.minLength.None? then None else Some(s.minLength.value as real)
    case MinItems => if s.minItems.None? then None else Some(s.minItems.value as real)
    case Minimum => s.minimum
  }

  predicate Raised(before: Schema, after: Schema, b: Bound) {
    var was, now := BoundOf(before, b), BoundOf(after, b);
    now.Some? && (was.None? || now.value > was.value)
  }

  const BOUNDS: seq<Bound> := [MinLength, MinItems, Minimum]

  function Values(list: Option<seq<Json>>): seq<Json> {
    if list.None? then [] else list.value
  }

  /** Nothing the check looks at in these two schemas themselves became narrower. */
  ghost predicate LocallyCompatible(before: Schema, after: Schema) {
    && before.kind == after.kind
    && EnumKept(before, after)
    && (forall b :: !Raised(before, after, b))
  }

  ghost predicate EnumKept(before: Schema, after: Schema) {
    && (before.enumeration.Some? ==> forall v :: v in before.enumeration.value ==> LooselyIn(v, Values(after.enumeration)))
    && (before.enumeration.None? ==> after.enumeration.None?)
  }

  /** Nothing the check looks at became narrower, at any depth both versions describe. */
  ghost predicate Compatible(before: Schema, after: Schema)
    decreases before
  {
    && LocallyCompatible(before, after)
    && (before.items.Some? && after.items.Some? ==> Compatible(before.items.value, after.items.value))
  }

  /** What a raised bound is, on the fields. */
  lemma RaisedFields(before: Schema, after: Schema)
    ensures Raised(before, after, MinLength) <==>
            after.minLength.Some? && (before.minLength.None? || before.minLength.value < after.minLength.value)
    ensures Raised(before, after, MinItems) <==>
            after.minItems.Some? && (before.minItems.None? || before.minItems.value < after.minItems.value)
    ensures Raised(before, after, Minimum) <==>
            after.minimum.Some? && (before.minimum.None? || before.minimum.value < after.minimum.value)
  {
  }

  /** A value with every truth value written as the number it compares equal to. */
  function Numeric(v: Json): Json
    decreases v
  {
    match v
    case Bool(flag) => Num(if flag then 1.0 else 0.0)
    case Arr(elements) => Arr(seq(|elements|, i requires 0 <= i < |elements| => Numeric(elements[i])))
    case Obj(fields) => Obj(map k | k in fields :: Numeric(fields[k]))
    case _ => v
  }

  /** Two values compare equal exactly when they are the same once truth values are written as numbers. */
  lemma {:induction false} LooselyEqualExactly(a: Json, b: Json)
    ensures LooselyEqual(a, b) <==> Numeric(a) == Numeric(b)
    decreases a
  {
    match (a, b)
    case (Arr(x), Arr(y)) =>
      if |x| == |y| {
        forall i | 0 <= i < |x| ensures LooselyEqual(x[i], y[i]) <==> Numeric(x[i]) == Numeric(y[i]) {
          LooselyEqualExactly(x[i], y[i]);
        }
        ArraysNumeric(x, y);
      } else {
        assert |Numeric(a).elements| == |x| && |Numeric(b).elements| == |y|;
      }
    case (Obj(x), Obj(y)) =>
      assert Numeric(a).fields.Keys == x.Keys && Numeric(b).fields.Keys == y.Keys;
      if x.Keys == y.Keys {
        forall k | k in x ensures LooselyEqual(x[k], y[k]) <==> Numeric(x[k]) == Numeric(y[k]) {
          LooselyEqualExactly(x[k], y[k]);
        }
        ObjectsNumeric(x, y);
      }
    case _ =>
  }

  lemma ArraysNumeric(x: seq<Json>, y: seq<Json>)
    requires |x| == |y|
    ensures Numeric(Arr(x)) == Numeric(Arr(y)) <==> forall i :: 0 <= i < |x| ==> Numeric(x[i]) == Numeric(y[i])
  {
    var a, b := Numeric(Arr(x)).elements, Numeric(Arr(y)).elements;
    assert forall i :: 0 <= i < |x| ==> a[i] == Numeric(x[i]) && b[i] == Numeric(y[i]);
    if forall i :: 0 <= i < |x| ==> Numeric(x[i]) == Numeric(y[i]) {
      assert a == b;
    }
  }

  lemma ObjectsNumeric(x: map<string, Json>, y: map<string, Json>)
    requires x.Keys == y.Keys
    ensures Numeric(Obj(x)) == Numeric(Obj(y)) <==> forall k :: k in x ==> Numeric(x[k]) == Numeric(y[k])
  {
    var a, b := Numeric(Obj(x)).fields, Numeric(Obj(y)).fields;
    assert forall k :: k in x ==> a[k] == Numeric(x[k]) && b[k] == Numeric(y[k]);
    if forall k :: k in x ==> Numeric(x[k]) == Numeric(y[k]) {
      assert a == b;
    }
  }

  /** Nothing became narrower in a schema that did not change, at any depth. */
  lemma {:induction false} Unchanged(s: Schema)
    ensures Compatible(s, s)
    decreases s
  {
    if s.enumeration.Some? {
      forall v | v in s.enumeration.value ensures LooselyIn(v, s.enumeration.value) {
        LooselyEqualExactly(v, v);
        var i :| 0 <= i < |s.enumeration.value| && s.enumeration.value[i] == v;
        assert LooselyEqual(v, s.enumeration.value[i]);
      }
    }
    if s.items.Some? {
      Unchanged(s.items.value);
    }
  }

  /** `constraint_breaks`: empty exactly when the two schemas are compatible in every keyword it looks at. */
  method ConstraintBreaks(before: Schema, after: Schema, path: Path) returns (broken: seq<Break>)
    ensures broken == [] <==> Compatible(before, after)
    ensures TypeChanged(path) in broken <==> before.kind != after.kind
    ensures BoundRaised(path, MinLength) in broken <==>
            after.minLength.Some? && (before.minLength.None? || before.minLength.value < after.minLength.value)
    ensures BoundRaised(path, MinItems) in broken <==>
            after.minItems.Some? && (before.minItems.None? || before.minItems.value < after.minItems.value)
    ensures BoundRaised(path, Minimum) in broken <==>
            after.minimum.Some? && (before.minimum.None? || before.minimum.value < after.minimum.value)
    ensures EnumGained(path) in broken <==> before.enumeration.None? && after.enumeration.Some?
    ensures (exists lost :: EnumLost(path, lost) in broken) <==> before.enumeration.Some? && !EnumKept(before, after)
    ensures forall lost :: EnumLost(path, lost) in broken ==>
              lost != [] && forall v :: v in lost <==> v in Values(before.enumeration) && !LooselyIn(v, Values(after.enumeration))
    ensures forall x :: x in broken ==> !x.Removed? && !x.BecameRequired? && x.at.property == path.property && x.at.depth >= path.depth
    ensures before == after ==> broken == []
    ensures TypeChanged(path.(depth := path.depth + 1)) in broken <==>
            before.items.Some? && after.items.Some? && before.items.value.kind != after.items.value.kind
    decreases before
  {
    if before == after {
      Unchanged(before);
    }
    broken := OwnBreaks(before, after, path);
    if before.items.Some? && after.items.Some? {
      var nested := ConstraintBreaks(before.items.value, after.items.value, path.(depth := path.depth + 1));
      assert forall x :: x in nested ==> x.at.depth > path.depth;
      broken := broken + nested;
    }
  }

  /** The part of `constraint_breaks` before it turns to nested items. */
  method OwnBreaks(before: Schema, after: Schema, path: Path) returns (broken: seq<Break>)
    ensures broken == [] <==> LocallyCompatible(before, after)
    ensures TypeChanged(path) in broken <==> before.kind != after.kind
    ensures BoundRaised(path, MinLength) in broken <==>
            after.minLength.Some? && (before.minLength.None? || before.minLength.value < after.minLength.value)
    ensures BoundRaised(path, MinItems) in broken <==>
            after.minItems.Some? && (before.minItems.None? || before.minItems.value < after.minItems.value)
    ensures BoundRaised(path, Minimum) in broken <==>
            after.minimum.Some? && (before.minimum.None? || before.minimum.value < after.minimum.value)
    ensures EnumGained(path) in broken <==> before.enumeration.None? && after.enumeration.Some?
    ensures (exists lost :: EnumLost(path, lost) in broken) <==> before.enumeration.Some? && !EnumKept(before, after)
    ensures forall lost :: EnumLost(path, lost) in broken ==>
              lost != [] && forall v :: v in lost <==> v in Values(before.enumeration) && !LooselyIn(v, Values(after.enumeration))
    ensures forall x :: x in broken ==> !x.Removed? && !x.BecameRequired? && x.at == path
  {
    var typed := if before.kind != after.kind then [TypeChanged(path)] else [];
    var enumerated := EnumBreaks(before, after, path);
    var bounded: seq<Break> := [];
    for i := 0 to 3
      invariant forall x :: x in bounded ==> x.BoundRaised? && x.at == path && Raised(before, after, x.bound)
      invariant forall b :: b in BOUNDS[..i] && Raised(before, after, b) ==> BoundRaised(path, b) in bounded
    {
      if Raised(before, after, BOUNDS[i]) {
        bounded := bounded + [BoundRaised(path, BOUNDS[i])];
      }
    }
    forall b: Bound ensures b in BOUNDS[..3] {
      match b
      case MinLength => assert BOUNDS[..3][0] == b;
      case MinItems => assert BOUNDS[..3][1] == b;
      case Minimum => assert BOUNDS[..3][2] == b;
    }
    broken := typed + enumerated + bounded;
    RaisedFields(before, after);
    assert forall x :: x in broken <==> x in typed || x in enumerated || x in bounded;
    assert bounded != [] ==> Raised(before, after, bounded[0].bound);
  }

  method EnumBreaks(before: Schema, after: Schema, path: Path) returns (broken: seq<Break>)
    ensures broken == [] <==> EnumKept(before, after)
    ensures broken == [] || exists x :: broken == [x]
    ensures EnumGained(path) in broken <==> before.enumeration.None? && after.enumeration.Some?
    ensures (exists lost :: EnumLost(path, lost) in broken) <==> before.enumeration.Some? && !EnumKept(before, after)
    ensures forall x :: x in broken ==> (x.EnumGained? || x.EnumLost?) && x.at == path
    ensures forall lost :: EnumLost(path, lost) in broken ==>
              lost != [] && forall v :: v in lost <==> v in Values(before.enumeration) && !LooselyIn(v, Values(after.enumeration))
  {
    broken := [];
    if before.enumeration.Some? {
      var lost := Lost(before.enumeration.value, Values(after.enumeration));
      if lost != [] {
        assert lost[0] in before.enumeration.value && !LooselyIn(lost[0], Values(after.enumeration));
        broken := [EnumLost(path, lost)];
      } else {
        assert forall v :: v in before.enumeration.value && !LooselyIn(v, Values(after.enumeration)) ==> v in lost;
      }
    } else if after.enumeration.Some? {
      broken := [EnumGained(path)];
    }
  }

  /** The values of a list that another does not hold, in order. */
  method Lost(before: seq<Json>, after: seq<Json>) returns (lost: seq<Json>)
    ensures forall v :: v in lost <==> v in before && !LooselyIn(v, after)
  {
    lost := [];
    for i := 0 to |before|
      invariant forall v :: v in lost <==> v in before[..i] && !LooselyIn(v, after)
    {
      if !LooselyIn(before[i], after) {
        lost := lost + [before[i]];
      }
    }
    assert before[..|before|] == before;
  }

  // ---------- a search for a value the newer schema refuses ----------

  ghost predicate Included(before: Schema, after: Schema) {
    forall v :: Accepts(before, v) ==> Accepts(after, v)
  }

  /** A value one schema accepts and the other does not. */
  predicate Separates(before: Schema, after: Schema, v: Json) {
    Accepts(before, v) && !Accepts(after, v)
  }

  function FirstSeparating(before: Schema, after: Schema, list: seq<Json>): (r: Option<Json>)
    ensures r.Some? ==> Separates(before, after, r.value)
    ensures r.None? ==> forall v :: v in list ==> !Separates(before, after, v)
  {
    if list == [] then None
    else if Separates(before, after, list[0]) then Some(list[0])
    else FirstSeparating(before, after, list[1..])
  }

  /** Accepts every value. */
  const ANY: Schema := Schema(None, None, None, None, None, None, None)

  /** Accepts no value: no type is named. */
  const NOTHING: Schema := Schema(Some(Many([])), None, None, None, None, None, None)

  /** What the elements of an array must be. */
  function ItemsOf(s: Schema): Schema {
    if s.items.Some? then s.items.value else ANY
  }

  function Depth(s: Schema): nat
    decreases s
  {
    if s.items.None? then 0 else 1 + Depth(s.items.value)
  }

  /** The least length a bound allows. */
  function Least(bound: Option<int>): (n: nat)
    ensures AtLeast(bound, n) && forall m: nat :: AtLeast(bound, m) ==> n <= m
  {
    if bound.Some? && bound.value > 0 then bound.value else 0
  }

  // Texts: a shortest one, and one longer than every listed one.

  function Repeat(c: char, n: nat): (r: string)
    ensures |r| == n
  {
    seq(n, _ => c)
  }

  function LongText(list: seq<Json>): (r: string)
    ensures forall v :: v in list && v.Str? ==> |v.text| < |r|
  {
    if list == [] then "x"
    else
      var rest := LongText(list[1..]);
      if list[0].Str? && |list[0].text| >= |rest| then list[0].text + "x" else rest
  }

  function Texts(before: Schema, after: Schema): seq<Json> {
    var least := Repeat('x', Least(before.minLength));
    [Str(least), Str(LongText(Values(after.enumeration)) + least)]
  }

  // Objects: one that is not listed.

  function LongField(list: seq<Json>): (r: string)
    ensures forall v :: v in list && v.Obj? && "" in v.fields && v.fields[""].Str? ==> |v.fields[""].text| < |r|
  {
    if list == [] then "x"
    else
      var rest, v := LongField(list[1..]), list[0];
      if v.Obj? && "" in v.fields && v.fields[""].Str? && |v.fields[""].text| >= |rest| then v.fields[""].text + "x" else rest
  }

  function FreshObject(list: seq<Json>): (r: Json)
    ensures r.Obj? && r !in list
  {
    var r := Obj(map["" := Str(LongField(list))]);
    assert r.fields[""] == Str(LongField(list));
    r
  }

  // Numbers: the ends of the range or numbers past everything listed, one between, and all whole ones of a finite range.

  function WholeAtLeast(x: real): (n: int)
    ensures x <= n as real < x + 1.0
  {
    if IsWhole(x) then x.Floor else x.Floor + 1
  }

  function Smaller(a: real, b: Option<real>): real {
    if b.Some? && b.value < a then b.value else a
  }

  function Larger(a: real, b: Option<real>): real {
    if b.Some? && b.value > a then b.value else a
  }

  function WholeBelow(list: seq<Json>, x: real): (n: int)
    ensures n as real < x && forall v :: v in list && v.Num? ==> n as real < v.number
  {
    if list == [] then x.Floor - 1
    else
      var rest := WholeBelow(list[1..], x);
      if list[0].Num? && list[0].number <= rest as real then list[0].number.Floor - 1 else rest
  }

  function WholeAbove(list: seq<Json>, x: real): (n: int)
    ensures x < n as real && forall v :: v in list && v.Num? ==> v.number < n as real
  {
    if list == [] then x.Floor + 1
    else
      var rest := WholeAbove(list[1..], x);
      if list[0].Num? && rest as real <= list[0].number then list[0].number.Floor + 1 else rest
  }

  /** The least listed number above a, or b where that is less. */
  function NextAbove(list: seq<Json>, a: real, b: real): (r: real)
    requires a < b
    ensures a < r <= b && forall v :: v in list && v.Num? && a < v.number ==> r <= v.number
  {
    if list == [] then b
    else
      var rest := NextAbove(list[1..], a, b);
      if list[0].Num? && a < list[0].number < rest then list[0].number else rest
  }

  /** A number inside the range that is neither listed nor whole. */
  function Between(list: seq<Json>, a: real, b: real): (x: real)
    requires a < b
    ensures a < x < b && Num(x) !in list && !IsWhole(x)
  {
    var floor := a.Floor;
    var top := if b <= floor as real + 1.0 then b else floor as real + 1.0;
    var x := (a + NextAbove(list, a, top)) / 2.0;
    assert floor as real < x < floor as real + 1.0;
    assert x.Floor == floor;
    x
  }

  function Wholes(lo: int, hi: int): seq<Json>
    decreases hi - lo
  {
    if lo > hi then [] else [Num(lo as real)] + Wholes(lo + 1, hi)
  }

  function Lows(before: Schema, after: Schema): seq<Json> {
    if before.minimum.Some? then [Num(before.minimum.value), Num(WholeAtLeast(before.minimum.value) as real)]
    else [Num(WholeBelow(Values(after.enumeration), Smaller(Smaller(0.0, after.minimum), before.maximum)) as real)]
  }

  function Highs(before: Schema, after: Schema): seq<Json> {
    if before.maximum.Some? then [Num(before.maximum.value), Num(before.maximum.value.Floor as real)]
    else [Num(WholeAbove(Values(after.enumeration), Larger(Larger(0.0, after.maximum), before.minimum)) as real)]
  }

  function LowEnd(s: Schema): real {
    if s.minimum.Some? then s.minimum.value else if s.maximum.Some? then s.maximum.value - 1.0 else 0.0
  }

  function HighEnd(s: Schema): real {
    if s.maximum.Some? then s.maximum.value else LowEnd(s) + 1.0
  }

  function Inner(before: Schema, after: Schema): seq<Json> {
    if LowEnd(before) < HighEnd(before) then [Num(Between(Values(after.enumeration), LowEnd(before), HighEnd(before)))] else []
  }

  function AllWholes(s: Schema): seq<Json> {
    if s.minimum.Some? && s.maximum.Some? then Wholes(WholeAtLeast(s.minimum.value), s.maximum.value.Floor) else []
  }

  function Numbers(before: Schema, after: Schema): seq<Json> {
    Lows(before, after) + Highs(before, after) + Inner(before, after) + AllWholes(before)
  }

  // Arrays: the empty one, a shortest one, one longer than every listed one, and one of an element the newer refuses.

  function Copies(v: Json, n: nat): (r: seq<Json>)
    ensures |r| == n && forall i :: 0 <= i < n ==> r[i] == v
  {
    seq(n, _ => v)
  }

  function LongArray(list: seq<Json>): (n: nat)
    ensures n > 0 && forall v :: v in list && v.Arr? ==> |v.elements| < n
  {
    if list == [] then 1
    else
      var rest := LongArray(list[1..]);
      if list[0].Arr? && |list[0].elements| >= rest then |list[0].elements| + 1 else rest
  }

  /** Arrays of copies of an acceptable element, and of an element only the newer schema refuses. */
  function Arrays(before: Schema, after: Schema, sample: Option<Json>, refused: Option<Json>): seq<Json> {
    var n := Least(before.minItems);
    [Arr([])]
    + (if sample.None? then []
       else [Arr(Copies(sample.value, n)), Arr(Copies(sample.value, n + LongArray(Values(after.enumeration))))])
    + (if refused.None? then [] else [Arr(Copies(refused.value, n + 1))])
  }

  /**
   * A value the older schema accepts and the newer refuses: a listed one where the older lists its values, otherwise one
   * of finitely many that stand for all of their type.
   */
  function Witness(before: Schema, after: Schema): (r: Option<Json>)
    ensures r.Some? ==> Separates(before, after, r.value)
    decreases Depth(before) + Depth(after), 1
  {
    if before.enumeration.Some? then FirstSeparating(before, after, before.enumeration.value)
    else
      var scalar := FirstSeparating(before, after, Scalars(before, after));
      if scalar.Some? then scalar
      else
        var refused := if before.items.None? && after.items.None? then None else Witness(ItemsOf(before), ItemsOf(after));
        FirstSeparating(before, after, Arrays(before, after, Sample(before), refused))
  }

  function Scalars(before: Schema, after: Schema): seq<Json> {
    [Null, Bool(true), Bool(false), FreshObject(Values(after.enumeration))] + Texts(before, after) + Numbers(before, after)
  }

  /** An element for the schema's arrays, where there is one. */
  function Sample(s: Schema): Option<Json>
    decreases Depth(s), 0
  {
    if s.items.None? then Some(Null) else Witness(s.items.value, NOTHING)
  }

  // ---------- the search misses nothing ----------

  /** Values of one type, other than numbers, are admitted alike. */
  lemma SameKind(kind: Option<TypeSpec>, v: Json, w: Json)
    requires (v.Str? && w.Str?) || (v.Arr? && w.Arr?) || (v.Obj? && w.Obj?)
    ensures Admits(kind, v) <==> Admits(kind, w)
  {
  }

  /** A type admits a number as it admits a fraction, or it is a whole number and admits it as it admits zero. */
  lemma NumberKinds(kind: Option<TypeSpec>, x: real)
    ensures Admits(kind, Num(x)) <==> Admits(kind, Num(0.5)) || (IsWhole(x) && Admits(kind, Num(0.0)))
  {
  }

  lemma ObjectsComplete(before: Schema, after: Schema, v: Json)
    requires before.enumeration.None? && v.Obj? && Separates(before, after, v)
    ensures Separates(before, after, FreshObject(Values(after.enumeration)))
  {
    var w := FreshObject(Values(after.enumeration));
    SameKind(before.kind, v, w);
    SameKind(after.kind, v, w);
  }

  lemma TextsComplete(before: Schema, after: Schema, v: Json)
    requires before.enumeration.None? && v.Str? && Separates(before, after, v)
    ensures exists w :: w in Texts(before, after) && Separates(before, after, w)
  {
    var list := Texts(before, after);
    SameKind(before.kind, v, list[0]);
    SameKind(after.kind, v, list[0]);
    SameKind(before.kind, v, list[1]);
    if after.enumeration.Some? && v !in after.enumeration.value {
      assert Separates(before, after, list[1]);
    } else {
      assert Separates(before, after, list[0]);
    }
  }

  /** What makes a number one the older accepts and the newer refuses. */
  predicate NumberSeparates(before: Schema, after: Schema, x: real) {
    && Admits(before.kind, Num(x))
    && (before.minimum.Some? ==> before.minimum.value <= x) && (before.maximum.Some? ==> x <= before.maximum.value)
    && (|| !Admits(after.kind, Num(x))
        || (after.enumeration.Some? && Num(x) !in after.enumeration.value)
        || (after.minimum.Some? && x < after.minimum.value)
        || (after.maximum.Some? && after.maximum.value < x))
  }

  lemma NumberSeparatesExactly(before: Schema, after: Schema, x: real)
    requires before.enumeration.None?
    ensures Separates(before, after, Num(x)) <==> NumberSeparates(before, after, x)
  {
  }

  lemma ListedNumber(list: seq<Json>, x: real)
    ensures (forall v :: v in list && v.Num? ==> x != v.number) ==> Num(x) !in list
  {
  }

  /** Where the range is open below, a whole number under all that is listed or bounded stands for every number. */
  lemma LowStands(before: Schema, after: Schema, x: real) returns (y: real)
    requires NumberSeparates(before, after, x) && before.minimum.None?
    requires (after.minimum.Some? && x < after.minimum.value)
             || (!Admits(before.kind, Num(0.5)) && (after.maximum.Some? ==> x <= after.maximum.value))
    ensures Num(y) in Lows(before, after) && NumberSeparates(before, after, y)
  {
    var list := Values(after.enumeration);
    var n := WholeBelow(list, Smaller(Smaller(0.0, after.minimum), before.maximum));
    y := n as real;
    assert Num(y) in Lows(before, after);
    ListedNumber(list, y);
    NumberKinds(before.kind, x);
    NumberKinds(before.kind, y);
    NumberKinds(after.kind, x);
    NumberKinds(after.kind, y);
    assert IsWhole(y);
    hide Admits, IsWhole;
  }

  lemma HighStands(before: Schema, after: Schema, x: real) returns (y: real)
    requires NumberSeparates(before, after, x) && before.maximum.None?
    requires (after.maximum.Some? && after.maximum.value < x)
             || (!Admits(before.kind, Num(0.5)) && (after.minimum.Some? ==> after.minimum.value <= x))
    ensures Num(y) in Highs(before, after) && NumberSeparates(before, after, y)
  {
    var list := Values(after.enumeration);
    var n := WholeAbove(list, Larger(Larger(0.0, after.maximum), before.minimum));
    y := n as real;
    assert Num(y) in Highs(before, after);
    ListedNumber(list, y);
    NumberKinds(before.kind, x);
    NumberKinds(before.kind, y);
    NumberKinds(after.kind, x);
    NumberKinds(after.kind, y);
    assert IsWhole(y);
    hide Admits, IsWhole;
  }

  lemma WholeFigure(x: real)
    requires IsWhole(x)
    ensures x == x.Floor as real
  {
  }

  lemma WholeIsWhole(n: int)
    ensures IsWhole(n as real)
  {
  }

  lemma WholeFromBelow(x: real, bound: real)
    requires x == x.Floor as real && bound <= x
    ensures bound <= WholeAtLeast(bound) as real <= x
  {
    var n, m := WholeAtLeast(bound), x.Floor;
    hide WholeAtLeast;
    assert n as real < (m + 1) as real;
    assert n <= m;
  }

  lemma WholeFromAbove(x: real, bound: real)
    requires x == x.Floor as real && x <= bound
    ensures x <= bound.Floor as real <= bound
  {
    var n, m := bound.Floor, x.Floor;
    assert m as real < (n + 1) as real;
    assert m <= n;
  }

  /** A number below the newer minimum: the least of the older range is one too. */
  lemma LeastStands(before: Schema, after: Schema, x: real) returns (y: real)
    requires NumberSeparates(before, after, x) && before.minimum.Some? && after.minimum.Some? && x < after.minimum.value
    ensures Num(y) in Lows(before, after) && NumberSeparates(before, after, y)
  {
    hide IsWhole, WholeAtLeast;
    var min := before.minimum.value;
    NumberKinds(before.kind, x);
    if Admits(before.kind, Num(0.5)) {
      y := min;
      assert Num(y) == Lows(before, after)[0];
    } else {
      WholeFigure(x);
      WholeFromBelow(x, min);
      WholeIsWhole(WholeAtLeast(min));
      y := WholeAtLeast(min) as real;
      assert Num(y) == Lows(before, after)[1];
    }
    NumberKinds(before.kind, y);
    hide Admits;
  }

  lemma GreatestStands(before: Schema, after: Schema, x: real) returns (y: real)
    requires NumberSeparates(before, after, x) && before.maximum.Some? && after.maximum.Some? && after.maximum.value < x
    ensures Num(y) in Highs(before, after) && NumberSeparates(before, after, y)
  {
    hide IsWhole, WholeAtLeast;
    var max := before.maximum.value;
    NumberKinds(before.kind, x);
    if Admits(before.kind, Num(0.5)) {
      y := max;
      assert Num(y) == Highs(before, after)[0];
    } else {
      WholeFigure(x);
      WholeFromAbove(x, max);
      WholeIsWhole(max.Floor);
      y := max.Floor as real;
      assert Num(y) == Highs(before, after)[1];
    }
    NumberKinds(before.kind, y);
    hide Admits;
  }

  lemma BelowStands(before: Schema, after: Schema, x: real) returns (y: real)
    requires NumberSeparates(before, after, x) && after.minimum.Some? && x < after.minimum.value
    ensures Num(y) in Lows(before, after) && NumberSeparates(before, after, y)
  {
    if before.minimum.None? {
      y := LowStands(before, after, x);
    } else {
      y := LeastStands(before, after, x);
    }
  }

  lemma AboveStands(before: Schema, after: Schema, x: real) returns (y: real)
    requires NumberSeparates(before, after, x) && after.maximum.Some? && after.maximum.value < x
    ensures Num(y) in Highs(before, after) && NumberSeparates(before, after, y)
  {
    if before.maximum.None? {
      y := HighStands(before, after, x);
    } else {
      y := GreatestStands(before, after, x);
    }
  }

  /** Where fractions are admitted, one that is not listed stands for every number inside the range. */
  lemma InnerStands(before: Schema, after: Schema, x: real) returns (y: real)
    requires NumberSeparates(before, after, x) && Admits(before.kind, Num(0.5))
    requires (after.minimum.Some? ==> after.minimum.value <= x) && (after.maximum.Some? ==> x <= after.maximum.value)
    ensures Num(y) in Lows(before, after) + Inner(before, after) && NumberSeparates(before, after, y)
  {
    if LowEnd(before) < HighEnd(before) {
      y := Between(Values(after.enumeration), LowEnd(before), HighEnd(before));
      assert Num(y) in Inner(before, after);
      NumberKinds(before.kind, y);
      NumberKinds(after.kind, x);
      NumberKinds(after.kind, y);
      hide Admits, IsWhole;
    } else {
      y := x;
      assert Num(y) == Lows(before, after)[0];
    }
  }

  lemma NumbersComplete(before: Schema, after: Schema, x: real) returns (y: real)
    requires NumberSeparates(before, after, x)
    ensures Num(y) in Numbers(before, after) && NumberSeparates(before, after, y)
  {
    hide NumberSeparates, Lows, Highs, Inner, Admits;
    if after.minimum.Some? && x < after.minimum.value {
      y := BelowStands(before, after, x);
    } else if after.maximum.Some? && after.maximum.value < x {
      y := AboveStands(before, after, x);
    } else if Admits(before.kind, Num(0.5)) {
      y := InnerStands(before, after, x);
    } else if before.minimum.None? {
      y := LowStands(before, after, x);
    } else if before.maximum.None? {
      y := HighStands(before, after, x);
    } else {
      y := x;
      WholeInRange(before, after, x);
    }
  }

  lemma {:induction false} WholeListed(lo: int, hi: int, n: int)
    requires lo <= n <= hi
    ensures Num(n as real) in Wholes(lo, hi)
    decreases hi - lo
  {
    if lo < n {
      WholeListed(lo + 1, hi, n);
    }
  }

  lemma WholeInRange(before: Schema, after: Schema, x: real)
    requires NumberSeparates(before, after, x) && !Admits(before.kind, Num(0.5))
    requires before.minimum.Some? && before.maximum.Some?
    ensures Num(x) in AllWholes(before)
  {
    NumberKinds(before.kind, x);
    assert x == x.Floor as real;
    assert WholeAtLeast(before.minimum.value) <= x.Floor <= before.maximum.value.Floor;
    WholeListed(WholeAtLeast(before.minimum.value), before.maximum.value.Floor, x.Floor);
  }

  // ---------- arrays, and the whole search ----------

  /** An array of copies of an element the older schema accepts is one it accepts, if long enough. */
  lemma CopiesAccepted(s: Schema, v: Json, n: nat)
    requires s.enumeration.None? && Admits(s.kind, Arr([])) && AtLeast(s.minItems, n) && (n > 0 ==> Accepts(ItemsOf(s), v))
    ensures Accepts(s, Arr(Copies(v, n)))
  {
    SameKind(s.kind, Arr(Copies(v, n)), Arr([]));
  }

  lemma ArraysComplete(before: Schema, after: Schema, v: Json, sample: Option<Json>, refused: Option<Json>)
    requires before.enumeration.None? && v.Arr? && v.elements != [] && Separates(before, after, v)
    requires sample.Some? && Accepts(ItemsOf(before), sample.value)
    requires refused.Some? ==> Separates(ItemsOf(before), ItemsOf(after), refused.value)
    requires refused.None? ==> forall i :: 0 <= i < |v.elements| ==> !Separates(ItemsOf(before), ItemsOf(after), v.elements[i])
    ensures exists w :: w in Arrays(before, after, sample, refused) && Separates(before, after, w)
  {
    var n := Least(before.minItems);
    var list := Values(after.enumeration);
    var short, long := Arr(Copies(sample.value, n)), Arr(Copies(sample.value, n + LongArray(list)));
    var all := Arrays(before, after, sample, refused);
    assert all[1] == short && all[2] == long;
    SameKind(before.kind, v, Arr([]));
    SameKind(after.kind, v, short);
    SameKind(after.kind, v, long);
    CopiesAccepted(before, sample.value, n);
    CopiesAccepted(before, sample.value, n + LongArray(list));
    if after.enumeration.Some? && v !in after.enumeration.value {
      assert Separates(before, after, long);
    } else if !Admits(after.kind, v) || !AtLeast(after.minItems, |v.elements|) {
      assert Separates(before, after, short);
    } else {
      RefusedElement(before, after, v);
      var w := Arr(Copies(refused.value, n + 1));
      CopiesAccepted(before, refused.value, n + 1);
      assert !Accepts(after.items.value, w.elements[0]);
      assert all[3] == w;
      assert Separates(before, after, w);
    }
  }

  lemma RefusedElement(before: Schema, after: Schema, v: Json)
    requires v.Arr? && Separates(before, after, v) && Admits(after.kind, v) && AtLeast(after.minItems, |v.elements|)
    requires after.enumeration.Some? ==> v in after.enumeration.value
    ensures after.items.Some? && exists i :: 0 <= i < |v.elements| && Separates(ItemsOf(before), ItemsOf(after), v.elements[i])
  {
    var i :| 0 <= i < |v.elements| && !Accepts(after.items.value, v.elements[i]);
    ElementAccepted(before, v, i);
  }

  lemma ElementAccepted(s: Schema, v: Json, i: nat)
    requires v.Arr? && Accepts(s, v) && i < |v.elements|
    ensures Accepts(ItemsOf(s), v.elements[i])
  {
  }

  /** The search finds a value whenever there is one. */
  lemma {:induction false} WitnessComplete(before: Schema, after: Schema, v: Json)
    requires Separates(before, after, v)
    ensures Witness(before, after).Some?
    decreases Depth(before) + Depth(after)
  {
    if before.enumeration.None? {
      if v.Arr? {
        ArrayFound(before, after, v);
      } else {
        ScalarFound(before, after, v);
      }
    }
  }

  lemma ScalarFound(before: Schema, after: Schema, v: Json)
    requires before.enumeration.None? && !v.Arr? && Separates(before, after, v)
    ensures FirstSeparating(before, after, Scalars(before, after)).Some?
  {
    var all := Scalars(before, after);
    match v
    case Null => assert all[0] == v;
    case Bool(flag) => assert all[if flag then 1 else 2] == v;
    case Obj(_) =>
      ObjectsComplete(before, after, v);
      assert all[3] == FreshObject(Values(after.enumeration));
    case Str(_) => TextsComplete(before, after, v);
    case Num(x) =>
      NumberSeparatesExactly(before, after, x);
      var y := NumbersComplete(before, after, x);
      NumberSeparatesExactly(before, after, y);
      assert Num(y) in all;
  }

  lemma {:induction false} ArrayFound(before: Schema, after: Schema, v: Json)
    requires before.enumeration.None? && v.Arr? && Separates(before, after, v)
    ensures Witness(before, after).Some?
    decreases Depth(before) + Depth(after), 1
  {
    hide Accepts, Arrays, Scalars, FirstSeparating, Sample;
    var refused := if before.items.None? && after.items.None? then None else Witness(ItemsOf(before), ItemsOf(after));
    if v.elements == [] {
      EmptyListed(before, after, v, Sample(before), refused);
    } else {
      SampleFound(before, v);
      if before.items.Some? || after.items.Some? {
        forall i | 0 <= i < |v.elements| && Separates(ItemsOf(before), ItemsOf(after), v.elements[i]) ensures refused.Some? {
          WitnessComplete(ItemsOf(before), ItemsOf(after), v.elements[i]);
        }
      }
      ArraysComplete(before, after, v, Sample(before), refused);
    }
  }

  lemma EmptyListed(before: Schema, after: Schema, v: Json, sample: Option<Json>, refused: Option<Json>)
    requires v == Arr([])
    ensures v in Arrays(before, after, sample, refused)
  {
    assert v == Arrays(before, after, sample, refused)[0];
  }

  lemma {:induction false} SampleFound(s: Schema, v: Json)
    requires v.Arr? && v.elements != [] && Accepts(s, v)
    ensures Sample(s).Some? && Accepts(ItemsOf(s), Sample(s).value)
    decreases Depth(s), 0
  {
    ElementAccepted(s, v, 0);
    if s.items.Some? {
      WitnessComplete(s.items.value, NOTHING, v.elements[0]);
    }
  }

  /** For every two schemas, the newer accepts all the older did exactly when the search finds nothing. */
  lemma InclusionExact(before: Schema, after: Schema)
    ensures Included(before, after) <==> Witness(before, after).None?
  {
    hide Accepts, Witness;
    if v :| Accepts(before, v) && !Accepts(after, v) {
      WitnessComplete(before, after, v);
    }
  }

  // ---------- what the check overlooks, and what it reports for nothing ----------

  lemma BoundsKept(before: Schema, after: Schema)
    requires LocallyCompatible(before, after)
    ensures after.minLength.Some? ==> before.minLength.Some? && after.minLength.value <= before.minLength.value
    ensures after.minItems.Some? ==> before.minItems.Some? && after.minItems.value <= before.minItems.value
    ensures after.minimum.Some? ==> before.minimum.Some? && after.minimum.value <= before.minimum.value
  {
    assert !Raised(before, after, MinLength) && !Raised(before, after, MinItems) && !Raised(before, after, Minimum);
  }

  /** No maximum was added or lowered, no items were newly described, and no listed value was lost, at any depth. */
  ghost predicate Sheltered(before: Schema, after: Schema)
    decreases before
  {
    && (after.maximum.Some? ==> before.maximum.Some? && before.maximum.value <= after.maximum.value)
    && (before.enumeration.Some? && after.enumeration.Some? ==>
          forall v :: v in before.enumeration.value ==> v in after.enumeration.value)
    && (after.items.Some? ==> before.items.Some? && Sheltered(before.items.value, after.items.value))
  }

  /** Where the newer version tightens none of what the check overlooks, a clean check means inclusion. */
  lemma {:induction false} ShelteredIncludes(before: Schema, after: Schema, v: Json)
    requires Compatible(before, after) && Sheltered(before, after) && Accepts(before, v)
    ensures Accepts(after, v)
    decreases before
  {
    BoundsKept(before, after);
    if v.Arr? && after.items.Some? {
      forall i | 0 <= i < |v.elements| ensures Accepts(after.items.value, v.elements[i]) {
        ShelteredIncludes(before.items.value, after.items.value, v.elements[i]);
      }
    }
  }

  function Plain(kind: string): Schema {
    Schema(Some(One(kind)), None, None, None, None, None, None)
  }

  /** An added maximum, newly described items and a listed 1 that becomes true each pass the check and narrow the schema. */
  lemma CheckOverlooks()
    ensures var number := Plain("integer");
            var capped := number.(maximum := Some(100.0));
            Compatible(number, capped) && Separates(number, capped, Num(101.0))
    ensures var list := Plain("array");
            var described := list.(items := Some(Plain("string")));
            Compatible(list, described) && Separates(list, described, Arr([Null]))
    ensures var one := Schema(None, Some([Num(1.0)]), None, None, None, None, None);
            var yes := one.(enumeration := Some([Bool(true)]));
            Compatible(one, yes) && Separates(one, yes, Num(1.0))
  {
    var one := Schema(None, Some([Num(1.0)]), None, None, None, None, None);
    var yes := one.(enumeration := Some([Bool(true)]));
    assert LooselyEqual(Num(1.0), yes.enumeration.value[0]);
    var described := Plain("array").(items := Some(Plain("string")));
    assert !Accepts(Plain("string"), Arr([Null]).elements[0]);
    assert 101.0 == 101 as real;
    assert IsWhole(101.0);
  }

  /** Dropping a list of values accepts strictly more, and is refused as a break all the same. */
  lemma DroppedEnumFlagged(s: Schema)
    requires s.enumeration.Some? && s.enumeration.value != []
    ensures Included(s, s.(enumeration := None)) && !Compatible(s, s.(enumeration := None))
  {
    assert s.enumeration.value[0] in s.enumeration.value;
  }

  /** A raised least length refuses something exactly when the type admits texts and the older bound allowed a shorter one. */
  lemma RaisedLengthReal(s: Schema, n: int)
    requires s.enumeration.None? && Raised(s, s.(minLength := Some(n)), MinLength)
    ensures Included(s, s.(minLength := Some(n))) <==> !(Admits(s.kind, Str("")) && Least(s.minLength) < n)
  {
    var after := s.(minLength := Some(n));
    var shortest := Str(Repeat('x', Least(s.minLength)));
    SameKind(s.kind, Str(""), shortest);
    if Admits(s.kind, Str("")) && Least(s.minLength) < n {
      assert Separates(s, after, shortest);
    } else {
      forall v | Accepts(s, v) ensures Accepts(after, v) {
        if v.Str? {
          SameKind(s.kind, Str(""), v);
        }
      }
    }
  }

  // ---------- payloads ----------

  datatype PayloadSchema = PayloadSchema(properties: map<string, Schema>, required: seq<string>, closed: bool)

  type Payload = map<string, Json>

  ghost predicate AcceptsPayload(s: PayloadSchema, p: Payload) {
    && (forall name :: name in s.required ==> name in p)
    && (forall name :: name in p && name in s.properties ==> Accepts(s.properties[name], p[name]))
    && (s.closed ==> p.Keys <= s.properties.Keys)
  }

  /** The payload uses only properties the schema declares. */
  ghost predicate Declared(s: PayloadSchema, p: Payload) {
    p.Keys <= s.properties.Keys
  }

  ghost predicate PayloadCompatible(before: PayloadSchema, after: PayloadSchema) {
    && (forall name :: name in before.properties ==>
          name in after.properties && Compatible(before.properties[name], after.properties[name]))
    && (forall name :: name in after.required ==> name in before.required)
  }

  /** `schema_breaks`, with the properties in any order. */
  method SchemaBreaks(before: PayloadSchema, after: PayloadSchema) returns (broken: seq<Break>)
    ensures broken == [] <==> PayloadCompatible(before, after)
    ensures forall name :: Removed(name) in broken <==> name in before.properties && name !in after.properties
    ensures forall name :: BecameRequired(name) in broken <==> name in after.required && name !in before.required
    ensures before == after ==> broken == []
    ensures forall name :: TypeChanged(Path(name, 0)) in broken <==>
              name in before.properties && name in after.properties && before.properties[name].kind != after.properties[name].kind
  {
    if before == after {
      forall name | name in before.properties ensures Compatible(before.properties[name], after.properties[name]) {
        Unchanged(before.properties[name]);
      }
    }
    hide Compatible;
    var properties := PropertyBreaks(before.properties, after.properties);
    var required := RequiredBreaks(before.required, after.required);
    broken := properties + required;
    assert required != [] ==> required[0] in required;
    assert forall name :: name in after.required && name !in before.required ==> BecameRequired(name) in required;
  }

  /** The first loop of `schema_breaks`: every older property is still there and compatible. */
  method PropertyBreaks(before: map<string, Schema>, after: map<string, Schema>) returns (broken: seq<Break>)
    ensures broken == [] <==> forall name :: name in before ==> name in after && Compatible(before[name], after[name])
    ensures forall name :: Removed(name) in broken <==> name in before && name !in after
    ensures forall x :: x in broken ==> !x.BecameRequired?
    ensures forall name :: TypeChanged(Path(name, 0)) in broken <==> name in before && name in after && before[name].kind != after[name].kind
  {
    hide Compatible;
    broken := [];
    var rest := before.Keys;
    while rest != {}
      invariant rest <= before.Keys
      invariant forall x :: x in broken ==> !x.BecameRequired?
      invariant forall name :: Removed(name) in broken <==> name in before && name !in rest && name !in after
      invariant forall name :: TypeChanged(Path(name, 0)) in broken <==>
                  name in before && name !in rest && name in after && before[name].kind != after[name].kind
      invariant broken == [] <==> forall name :: name in before && name !in rest ==> name in after && Compatible(before[name], after[name])
      decreases rest
    {
      var name := Pick(rest);
      rest := rest - {name};
      var found := [Removed(name)];
      if name in after {
        found := ConstraintBreaks(before[name], after[name], Path(name, 0));
        assert forall x :: x in found ==> !x.Removed? && x.at.property == name;
      }
      broken := broken + found;
    }
  }

  /** The second loop of `schema_breaks`: nothing is required that was not. */
  method RequiredBreaks(before: seq<string>, after: seq<string>) returns (broken: seq<Break>)
    ensures forall x :: x in broken <==> x.BecameRequired? && x.name in after && x.name !in before
  {
    broken := [];
    var newly := (set name | name in after) - (set name | name in before);
    ghost var all := newly;
    assert forall name :: name in all <==> name in after && name !in before;
    while newly != {}
      invariant newly <= all
      invariant forall x :: x in broken <==> x.BecameRequired? && x.name in all - newly
      decreases newly
    {
      var name := Pick(newly);
      newly := newly - {name};
      broken := broken + [BecameRequired(name)];
    }
  }

  /** Every payload the older schema accepts, of the properties it declares, the newer accepts too. */
  ghost predicate PayloadsIncluded(before: PayloadSchema, after: PayloadSchema) {
    forall p :: AcceptsPayload(before, p) && Declared(before, p) ==> AcceptsPayload(after, p)
  }

  /** A value the schema accepts, where there is one. */
  function Accepted(s: Schema): (r: Option<Json>)
    ensures r.Some? ==> Accepts(s, r.value)
  {
    Witness(s, NOTHING)
  }

  lemma AcceptedFound(s: Schema, v: Json)
    requires Accepts(s, v)
    ensures Accepted(s).Some?
  {
    assert !Admits(NOTHING.kind, v);
    WitnessComplete(s, NOTHING, v);
  }

  /** Some payload of declared properties is accepted: whatever is required is declared and has a value. */
  ghost predicate Satisfiable(s: PayloadSchema) {
    forall name :: name in s.required ==> name in s.properties && Accepted(s.properties[name]).Some?
  }

  /** The payload of nothing but what is required. */
  ghost function Base(s: PayloadSchema): Payload
    requires Satisfiable(s)
  {
    map name | name in s.required :: Accepted(s.properties[name]).value
  }

  ghost predicate NewlyRequired(before: PayloadSchema, after: PayloadSchema) {
    exists name :: name in after.required && name !in before.required
  }

  ghost predicate PropertyNarrowed(before: PayloadSchema, after: PayloadSchema, name: string) {
    && name in before.properties
    && if name in after.properties then Witness(before.properties[name], after.properties[name]).Some?
       else after.closed && Accepted(before.properties[name]).Some?
  }

  /**
   * For every two payload schemas, whatever the check reports of them: some declared payload of the older is refused by
   * the newer exactly when the older accepts any at all and something became required, or a kept property has a value
   * only the newer refuses, or a removed one has a value at all and the newer schema is closed.
   */
  lemma PayloadInclusionExact(before: PayloadSchema, after: PayloadSchema)
    ensures PayloadsIncluded(before, after)
            <==> !(Satisfiable(before) && (NewlyRequired(before, after) || exists name :: PropertyNarrowed(before, after, name)))
  {
    hide Witness, Accepts;
    if p :| AcceptsPayload(before, p) && Declared(before, p) && !AcceptsPayload(after, p) {
      PayloadSatisfies(before, p);
      if !NewlyRequired(before, after) {
        RefusedProperty(before, after, p);
      }
    }
    if Satisfiable(before) {
      BaseAccepted(before);
      var base := Base(before);
      if NewlyRequired(before, after) {
        assert !AcceptsPayload(after, base);
      }
      if name :| PropertyNarrowed(before, after, name) {
        NarrowedRefused(before, after, name);
      }
    }
  }

  lemma PayloadSatisfies(s: PayloadSchema, p: Payload)
    requires AcceptsPayload(s, p) && Declared(s, p)
    ensures Satisfiable(s)
  {
    hide Witness, Accepts;
    forall name | name in s.required ensures name in s.properties && Accepted(s.properties[name]).Some? {
      AcceptedFound(s.properties[name], p[name]);
    }
  }

  lemma BaseAccepted(s: PayloadSchema)
    requires Satisfiable(s)
    ensures AcceptsPayload(s, Base(s)) && Declared(s, Base(s))
  {
    hide Witness, Accepts;
  }

  lemma RefusedProperty(before: PayloadSchema, after: PayloadSchema, p: Payload)
    requires AcceptsPayload(before, p) && Declared(before, p) && !AcceptsPayload(after, p) && !NewlyRequired(before, after)
    ensures exists name :: PropertyNarrowed(before, after, name)
  {
    hide Witness, Accepts;
    if name :| name in p && name in after.properties && !Accepts(after.properties[name], p[name]) {
      WitnessComplete(before.properties[name], after.properties[name], p[name]);
      assert PropertyNarrowed(before, after, name);
    } else {
      var name :| name in p && name !in after.properties;
      AcceptedFound(before.properties[name], p[name]);
      assert PropertyNarrowed(before, after, name);
    }
  }

  lemma NarrowedRefused(before: PayloadSchema, after: PayloadSchema, name: string)
    requires Satisfiable(before) && PropertyNarrowed(before, after, name)
    ensures !PayloadsIncluded(before, after)
  {
    hide Witness, Accepts;
    BaseAccepted(before);
    var v := if name in after.properties then Witness(before.properties[name], after.properties[name]).value
             else Accepted(before.properties[name]).value;
    var p := Base(before)[name := v];
    assert AcceptsPayload(before, p) && Declared(before, p) && !AcceptsPayload(after, p);
  }
}
