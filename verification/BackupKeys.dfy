/** Backup object keys: printing an instant into a key, parsing it back, and the order of keys. */
module BackupKeys {
  import opened Text
  import opened Calendar

  // ---------- decimal fields ----------

  predicate IsDigit(c: char) {
    '0' <= c <= '9'
  }

  function Digit(v: nat): (c: char)
    requires v < 10
    ensures IsDigit(c) && DigitValue(c) == v
  {
    '0' + v as char
  }

  function DigitValue(c: char): (v: nat)
    requires IsDigit(c)
    ensures v < 10
  {
    (c - '0') as nat
  }

  /** `n` in decimal, no padding. */
  function Decimal(n: nat): string {
    if n < 10 then [Digit(n)] else Decimal(n / 10) + [Digit(n % 10)]
  }

  function Zeros(k: nat): (s: string)
    ensures |s| == k
  {
    if k == 0 then "" else Zeros(k - 1) + "0"
  }

  /** `{n:0w}`: at least w digits, more when the number needs them. */
  function Pad(n: nat, w: nat): string {
    var d := Decimal(n);
    if |d| < w then Zeros(w - |d|) + d else d
  }

  /** The last w decimal digits of n. */
  function Fixed(n: nat, w: nat): (s: string)
    ensures |s| == w
  {
    if w == 0 then "" else Fixed(n / 10, w - 1) + [Digit(n % 10)]
  }

  /** `str::parse::<u32>` on ASCII: one optional `+`, then digits only; at most four characters never overflow. */
  function ParseU32(s: string): Option<nat> {
    var digits := if |s| > 1 && s[0] == '+' then s[1..] else s;
    if |digits| > 0 && AllDigits(digits) then Some(Value(digits)) else None
  }

  /** A field is read exactly when it is digits, or a plus sign and digits; a sign alone and the empty text are not. */
  lemma ParseExactly(s: string, n: nat)
    ensures ParseU32(s) == Some(n) <==>
            || (s != "" && AllDigits(s) && Value(s) == n)
            || (|s| > 1 && s[0] == '+' && AllDigits(s[1..]) && Value(s[1..]) == n)
  {
    assert !IsDigit('+');
    if |s| > 1 && s[0] == '+' {
      assert !AllDigits(s);
    }
  }

  predicate AllDigits(s: string) {
    forall i :: 0 <= i < |s| ==> IsDigit(s[i])
  }

  function Value(s: string): nat
    requires AllDigits(s)
  {
    if s == "" then 0 else 10 * Value(s[..|s| - 1]) + DigitValue(s[|s| - 1])
  }

  function Pow10(k: nat): (p: nat)
    ensures p > 0
  {
    if k == 0 then 1 else 10 * Pow10(k - 1)
  }

  lemma WidthBounds()
    ensures Pow10(2) == 100 && Pow10(4) == 10000
  {
  }

  lemma {:induction false} FixedZeroTail(w: nat)
    ensures Fixed(0, w) == Zeros(w)
  {
    if w > 0 {
      FixedZeroTail(w - 1);
    }
  }

  /** A number that fits is printed with exactly w digits. */
  lemma {:induction false} PadIsFixed(n: nat, w: nat)
    requires w > 0 && n < Pow10(w)
    ensures Pad(n, w) == Fixed(n, w)
  {
    if n < 10 {
      FixedZeroTail(w - 1);
    } else {
      PadIsFixed(n / 10, w - 1);
      PadSnoc(n, w);
    }
  }

  lemma PadSnoc(n: nat, w: nat)
    requires n >= 10 && w > 0
    ensures Pad(n, w) == Pad(n / 10, w - 1) + [Digit(n % 10)]
  {
    var d := Decimal(n / 10);
    if |d| < w - 1 {
      assert Zeros(w - 1 - |d|) + (d + [Digit(n % 10)]) == Zeros(w - 1 - |d|) + d + [Digit(n % 10)];
    }
  }

  /** The last w digits read back to the number modulo 10^w; a number that fits reads back to itself. */
  lemma {:induction false} FixedReads(n: nat, w: nat)
    requires n < Pow10(w)
    ensures AllDigits(Fixed(n, w)) && Value(Fixed(n, w)) == n
  {
    if w > 0 {
      FixedReads(n / 10, w - 1);
      assert Fixed(n, w)[..w - 1] == Fixed(n / 10, w - 1);
    }
  }

  lemma FixedParses(n: nat, w: nat)
    requires w > 0 && n < Pow10(w)
    ensures ParseU32(Fixed(n, w)) == Some(n)
  {
    FixedReads(n, w);
    assert IsDigit(Fixed(n, w)[0]);
  }

  lemma SnocDigit(front: nat, last: nat)
    requires last < 10
    ensures (10 * front + last) / 10 == front && (10 * front + last) % 10 == last
  {
  }

  /** Digit strings are determined by their width and value. */
  lemma {:induction false} DigitsAreFixed(s: string)
    requires AllDigits(s)
    ensures Value(s) < Pow10(|s|) && Fixed(Value(s), |s|) == s
  {
    if s != "" {
      var front := s[..|s| - 1];
      var last := DigitValue(s[|s| - 1]);
      DigitsAreFixed(front);
      assert s == front + [s[|s| - 1]];
      SnocDigit(Value(front), last);
    }
  }

  // ---------- order of fields ----------

  /** Fields of one width compare as their numbers do. */
  lemma {:induction false} FixedOrder(m: nat, n: nat, w: nat)
    requires m < Pow10(w) && n < Pow10(w)
    ensures LexLess(Fixed(m, w), Fixed(n, w)) <==> m < n
    ensures Fixed(m, w) == Fixed(n, w) <==> m == n
  {
    FixedReads(m, w);
    FixedReads(n, w);
    if w > 0 {
      FixedOrder(m / 10, n / 10, w - 1);
      LexConcat(Fixed(m / 10, w - 1), Fixed(n / 10, w - 1), [Digit(m % 10)], [Digit(n % 10)]);
      LexSingle(Digit(m % 10), Digit(n % 10));
      QuotientOrder(m, n);
    }
  }

  lemma QuotientOrder(m: nat, n: nat)
    ensures m < n <==> m / 10 < n / 10 || (m / 10 == n / 10 && m % 10 < n % 10)
  {
  }

  // ---------- instants ----------

  const NANOS_PER_SEC: nat := 1_000_000_000
  const SECS_PER_DAY: nat := 86_400

  /** First second of the year 10000, when the printed year no longer fits four digits. */
  const YEAR_10000_SECS: nat := 253_402_300_800

  datatype Stamp = Stamp(date: Date, hour: nat, minute: nat, second: nat)

  function StampOf(secs: nat): Stamp {
    var rest := secs % SECS_PER_DAY;
    Stamp(CivilFromDays(secs / SECS_PER_DAY), rest / 3600, rest % 3600 / 60, rest % 60)
  }

  /** What a stamp's fields denote, as the parser adds them up; the fields need not be in range. */
  function SecsOf(days: nat, hour: nat, minute: nat, second: nat): nat {
    days * SECS_PER_DAY + hour * 3600 + minute * 60 + second
  }

  lemma ClockSplits(secs: nat)
    ensures var s := StampOf(secs);
            s.hour < 24 && s.minute < 60 && s.second < 60
            && SecsOf(secs / SECS_PER_DAY, s.hour, s.minute, s.second) == secs
  {
    var rest := secs % SECS_PER_DAY;
    assert rest == rest / 3600 * 3600 + rest % 3600;
    assert rest % 3600 == rest % 3600 / 60 * 60 + rest % 60;
  }

  lemma ClockJoins(days: nat, hour: nat, minute: nat, second: nat)
    requires hour < 24 && minute < 60 && second < 60
    ensures var secs := SecsOf(days, hour, minute, second);
            var rest := secs % SECS_PER_DAY;
            secs / SECS_PER_DAY == days && rest / 3600 == hour
            && rest % 3600 / 60 == minute && rest % 60 == second
  {
    var rest := hour * 3600 + minute * 60 + second;
    assert SecsOf(days, hour, minute, second) % SECS_PER_DAY == rest;
    assert rest / 3600 == hour && rest % 3600 == minute * 60 + second;
  }

  /** Days of the years 1970 to 9999, exactly. */
  lemma YearRange(days: int)
    ensures Valid(CivilFromDays(days))
    ensures CivilFromDays(days).year >= 1970 <==> days >= 0
    ensures CivilFromDays(days).year < 10000 <==> days < 2_932_897
  {
    hide *;
    YearStarts();
    CivilThenDays(days);
    YearBound(days, 1970, 0);
    YearBound(days, 10000, 2_932_897);
  }

  lemma YearStarts()
    ensures DaysFromCivil(1970, 1, 1) == Some(0) && DaysFromCivil(10000, 1, 1) == Some(2_932_897)
  {
  }

  lemma YearBound(days: int, year: int, n: int)
    requires DaysFromCivil(year, 1, 1) == Some(n)
    ensures CivilFromDays(days).year < year <==> days < n
  {
    hide CivilFromDays, DaysFromCivil;
    CivilThenDays(days);
    CivilOrdered(days, Date(year, 1, 1), n);
  }

  // ---------- printing ----------

  function DateText(d: Date): string
    requires d.year >= 0 && d.month >= 0 && d.day >= 0
  {
    Pad(d.year, 4) + Pad(d.month, 2) + Pad(d.day, 2)
  }

  function ClockText(s: Stamp): string {
    Pad(s.hour, 2) + Pad(s.minute, 2) + Pad(s.second, 2)
  }

  /** `object_key` for an instant given in nanoseconds since the epoch. */
  function ObjectKey(prefix: string, nanos: nat): string {
    var secs := nanos / NANOS_PER_SEC;
    var stamp := StampOf(secs);
    YearRange(secs / SECS_PER_DAY);
    var date := DateText(stamp.date);
    KeyText(prefix, date, date + "T" + ClockText(stamp) + "Z")
  }

  function KeyText(prefix: string, date: string, timestamp: string): string {
    prefix + "/" + date + "/" + timestamp + ".bin"
  }

  // ---------- parsing ----------

  /** `embedded_timestamp_secs`. */
  function EmbeddedTimestamp(key: string, prefix: string): Option<nat> {
    var head := prefix + "/";
    if !(head <= key) then None
    else
      var rest := key[|head|..];
      var slash := Find(rest, "/");
      if slash.None? then None
      else DatedTimestamp(rest[..slash.value], rest[slash.value + 1..])
  }

  function DatedTimestamp(date: string, tail: string): Option<nat> {
    if |date| != 8 || !AllDigits(date) then None
    else if |tail| < 4 || tail[|tail| - 4..] != ".bin" then None
    else
      var timestamp := tail[..|tail| - 4];
      if |timestamp| != 16 || timestamp[8] != 'T' || timestamp[15] != 'Z' then None
      else TimestampSecs(timestamp)
  }

  function TimestampSecs(t: string): Option<nat>
    requires |t| == 16
  {
    FieldSecs(ParseU32(t[0..4]), ParseU32(t[4..6]), ParseU32(t[6..8]),
              ParseU32(t[9..11]), ParseU32(t[11..13]), ParseU32(t[13..15]))
  }

  function FieldSecs(year: Option<nat>, month: Option<nat>, day: Option<nat>,
                     hour: Option<nat>, minute: Option<nat>, second: Option<nat>): Option<nat> {
    if year.None? || month.None? || day.None? || hour.None? || minute.None? || second.None? then None
    else
      var days := DaysFromCivil(year.value, month.value, day.value);
      if days.None? || days.value < 0 then None
      else Some(SecsOf(days.value, hour.value, minute.value, second.value))
  }

  // ---------- the round trip ----------

  /** A key laid out as prefix, eight-digit directory and sixteen-character stamp is parsed by its stamp alone. */
  lemma LayoutParses(prefix: string, date: string, t: string)
    requires |date| == 8 && AllDigits(date)
    requires |t| == 16 && t[8] == 'T' && t[15] == 'Z'
    ensures EmbeddedTimestamp(KeyText(prefix, date, t), prefix) == TimestampSecs(t)
  {
    var key := KeyText(prefix, date, t);
    var head := prefix + "/";
    var rest := date + "/" + (t + ".bin");
    assert key == head + rest;
    SlashFound(date, t + ".bin");
    assert rest[..8] == date && rest[9..] == t + ".bin";
    assert (t + ".bin")[..16] == t;
  }

  lemma SlashFound(front: string, back: string)
    requires '/' !in front
    ensures Find(front + "/" + back, "/") == Some(|front|)
  {
    forall i ensures !OccursAt(front, "/", i) {
      if 0 <= i < |front| {
        assert front[i..i + 1] == [front[i]];
        assert front[i] in front;
      }
    }
    FirstCharUniqueUnbordered("/");
    FindAfter(front, "/", back);
  }

  /** The six fields of a stamp as text. */
  datatype Fields = Fields(y: string, mo: string, d: string, h: string, mi: string, s: string) {

    predicate Shaped() {
      |y| == 4 && |mo| == |d| == |h| == |mi| == |s| == 2
    }

    predicate Digits() {
      AllDigits(y) && AllDigits(mo) && AllDigits(d) && AllDigits(h) && AllDigits(mi) && AllDigits(s)
    }

    function Directory(): (t: string)
      requires Shaped()
      ensures |t| == 8
    {
      y + mo + d
    }

    function Stamp(): (t: string)
      requires Shaped()
      ensures |t| == 16 && t[8] == 'T' && t[15] == 'Z' && t[..8] == Directory()
    {
      y + mo + d + "T" + (h + mi + s) + "Z"
    }

    function Parsed(): Option<nat> {
      FieldSecs(ParseU32(y), ParseU32(mo), ParseU32(d), ParseU32(h), ParseU32(mi), ParseU32(s))
    }
  }

  /** The fields a sixteen-character stamp is cut into. */
  function Cut(t: string): (f: Fields)
    requires |t| == 16
    ensures f.Shaped()
    ensures t[8] == 'T' && t[15] == 'Z' ==> f.Stamp() == t
  {
    Fields(t[0..4], t[4..6], t[6..8], t[9..11], t[11..13], t[13..15])
  }

  lemma CutStamp(f: Fields)
    requires f.Shaped()
    ensures Cut(f.Stamp()) == f && TimestampSecs(f.Stamp()) == f.Parsed()
  {
    hide FieldSecs, ParseU32;
    var t := f.Stamp();
    assert t[0..4] == f.y;
    assert t[4..6] == f.mo;
    assert t[6..8] == f.d;
    assert t[9..11] == f.h;
    assert t[11..13] == f.mi;
    assert t[13..15] == f.s;
  }

  /** A printed field: right width, digits only, parses back. */
  lemma FieldText(n: nat, w: nat) returns (t: string)
    requires w > 0 && n < Pow10(w)
    ensures t == Pad(n, w) == Fixed(n, w) && |t| == w && AllDigits(t) && ParseU32(t) == Some(n)
  {
    PadIsFixed(n, w);
    FixedReads(n, w);
    FixedParses(n, w);
    t := Fixed(n, w);
  }

  /** The fields an instant before the year 10000 is printed with. */
  lemma KeyFields(prefix: string, nanos: nat) returns (st: Stamp, f: Fields)
    requires nanos / NANOS_PER_SEC < YEAR_10000_SECS
    ensures st == StampOf(nanos / NANOS_PER_SEC)
    ensures 1970 <= st.date.year < 10000 && Valid(st.date) && st.hour < 24 && st.minute < 60 && st.second < 60
    ensures f.Shaped() && f.Digits() && f == FieldsOf(st)
    ensures ObjectKey(prefix, nanos) == KeyText(prefix, f.Directory(), f.Stamp())
    ensures f.Parsed() == FieldSecs(Some(st.date.year), Some(st.date.month), Some(st.date.day),
                                    Some(st.hour), Some(st.minute), Some(st.second))
  {
    st := StampOf(nanos / NANOS_PER_SEC);
    YearRange(nanos / NANOS_PER_SEC / SECS_PER_DAY);
    ClockSplits(nanos / NANOS_PER_SEC);
    WidthBounds();
    hide CivilFromDays, StampOf, FieldSecs, Pad, Pow10, Fixed, ParseU32;
    var y := FieldText(st.date.year, 4);
    var mo := FieldText(st.date.month, 2);
    var d := FieldText(st.date.day, 2);
    var h := FieldText(st.hour, 2);
    var mi := FieldText(st.minute, 2);
    var s := FieldText(st.second, 2);
    f := Fields(y, mo, d, h, mi, s);
  }

  function FieldsOf(st: Stamp): Fields
    requires st.date.year >= 0 && st.date.month >= 0 && st.date.day >= 0
  {
    Fields(Fixed(st.date.year, 4), Fixed(st.date.month, 2), Fixed(st.date.day, 2),
           Fixed(st.hour, 2), Fixed(st.minute, 2), Fixed(st.second, 2))
  }

  /** Parsing the printed key returns the instant floored to seconds, exactly for the years a four-digit field holds. */
  lemma KeyRoundTrips(prefix: string, nanos: nat)
    ensures EmbeddedTimestamp(ObjectKey(prefix, nanos), prefix)
            == if nanos / NANOS_PER_SEC < YEAR_10000_SECS then Some(nanos / NANOS_PER_SEC) else None
  {
    var secs := nanos / NANOS_PER_SEC;
    hide CivilFromDays, DaysFromCivil, EmbeddedTimestamp;
    if secs < YEAR_10000_SECS {
      var st, f := KeyFields(prefix, nanos);
      DirectoryDigits(f);
      LayoutParses(prefix, f.Directory(), f.Stamp());
      CutStamp(f);
      CivilThenDays(secs / SECS_PER_DAY);
      ClockSplits(secs);
    } else {
      LateKeyIsForeign(prefix, nanos);
    }
  }

  lemma DirectoryDigits(f: Fields)
    requires f.Shaped() && f.Digits()
    ensures AllDigits(f.Directory())
  {
  }

  lemma {:induction false} DecimalDigits(n: nat)
    ensures AllDigits(Decimal(n))
    ensures n >= 10000 ==> |Decimal(n)| >= 5
  {
    if n >= 10 {
      DecimalDigits(n / 10);
      if n >= 10000 {
        assert |Decimal(n)| == 1 + |Decimal(n / 10)| == 2 + |Decimal(n / 10 / 10)|;
        assert |Decimal(n / 10 / 10)| == 1 + |Decimal(n / 10 / 10 / 10)|;
      }
    }
  }

  /** From the year 10000 on the directory is longer than eight digits and the key is nobody's. */
  lemma LateKeyIsForeign(prefix: string, nanos: nat)
    requires nanos / NANOS_PER_SEC >= YEAR_10000_SECS
    ensures EmbeddedTimestamp(ObjectKey(prefix, nanos), prefix) == None
  {
    var st := StampOf(nanos / NANOS_PER_SEC);
    YearRange(nanos / NANOS_PER_SEC / SECS_PER_DAY);
    var date := DateText(st.date);
    DecimalDigits(st.date.year);
    PadDigits(st.date.month, 2);
    PadDigits(st.date.day, 2);
    LongDirectory(prefix, date, date + "T" + ClockText(st) + "Z");
  }

  lemma PadDigits(n: nat, w: nat)
    ensures AllDigits(Pad(n, w)) && |Pad(n, w)| >= w
  {
    DecimalDigits(n);
    ZeroDigits(if |Decimal(n)| < w then w - |Decimal(n)| else 0);
  }

  lemma {:induction false} ZeroDigits(k: nat)
    ensures AllDigits(Zeros(k))
  {
    if k > 0 {
      ZeroDigits(k - 1);
    }
  }

  lemma LongDirectory(prefix: string, date: string, t: string)
    requires AllDigits(date) && |date| != 8
    ensures EmbeddedTimestamp(KeyText(prefix, date, t), prefix) == None
  {
    var head := prefix + "/";
    var rest := date + "/" + (t + ".bin");
    assert KeyText(prefix, date, t) == head + rest;
    SlashFound(date, t + ".bin");
    assert rest[..|date|] == date;
  }

  // ---------- the order of keys ----------

  /** Keys under one prefix compare by directory, then by clock text. */
  lemma LayoutOrder(prefix: string, f: Fields, g: Fields)
    requires f.Shaped() && g.Shaped()
    ensures LexLess(KeyText(prefix, f.Directory(), f.Stamp()), KeyText(prefix, g.Directory(), g.Stamp()))
            <==> LexLess(f.Directory(), g.Directory())
                 || (f.Directory() == g.Directory() && LexLess(f.h + f.mi + f.s, g.h + g.mi + g.s))
  {
    hide LexLess;
    var x, y := f.h + f.mi + f.s, g.h + g.mi + g.s;
    var u, v := "/" + f.Stamp() + ".bin", "/" + g.Stamp() + ".bin";
    assert KeyText(prefix, f.Directory(), f.Stamp()) == prefix + "/" + (f.Directory() + u);
    assert KeyText(prefix, g.Directory(), g.Stamp()) == prefix + "/" + (g.Directory() + v);
    LexSharedHead(prefix + "/", f.Directory() + u, g.Directory() + v);
    LexConcat(f.Directory(), g.Directory(), u, v);
    if f.Directory() == g.Directory() {
      var head := "/" + f.Directory() + "T";
      assert u == head + (x + "Z.bin") && v == head + (y + "Z.bin");
      LexSharedHead(head, x + "Z.bin", y + "Z.bin");
      LexSharedTail(x, y, "Z.bin");
    }
  }

  /** Three fields of matching widths compare field by field. */
  lemma TripleOrder(a: string, b: string, c: string, x: string, y: string, z: string)
    requires |a| == |x| && |b| == |y|
    ensures LexLess(a + b + c, x + y + z) <==> LexLess(a, x) || (a == x && (LexLess(b, y) || (b == y && LexLess(c, z))))
    ensures a + b + c == x + y + z <==> a == x && b == y && c == z
  {
    hide LexLess;
    LexConcat(a + b, x + y, c, z);
    LexConcat(a, x, b, y);
    ConcatEqual(a + b, x + y, c, z);
    ConcatEqual(a, x, b, y);
  }

  lemma ConcatEqual(a: string, b: string, x: string, y: string)
    requires |a| == |b|
    ensures a + x == b + y <==> a == b && x == y
  {
    assert (a + x)[..|a|] == a && (b + y)[..|b|] == b;
    assert (a + x)[|a|..] == x && (b + y)[|b|..] == y;
  }

  /** Stamps of instants compare as the instants do. */
  lemma StampOrder(a: nat, b: nat)
    ensures a < b <==>
            var s, t := StampOf(a), StampOf(b);
            Before(s.date, t.date)
            || (s.date == t.date
                && (s.hour < t.hour || (s.hour == t.hour && (s.minute < t.minute || (s.minute == t.minute && s.second < t.second)))))
  {
    ClockSplits(a);
    ClockSplits(b);
    hide CivilFromDays, DaysFromCivil;
    var da, db := a / SECS_PER_DAY, b / SECS_PER_DAY;
    CivilThenDays(da);
    CivilThenDays(db);
    DaysOrdered(CivilFromDays(da), CivilFromDays(db));
    DaysOrdered(CivilFromDays(db), CivilFromDays(da));
  }

  /** Byte order of two keys under one prefix is the order of their seconds. */
  lemma KeyOrder(prefix: string, a: nat, b: nat)
    requires a / NANOS_PER_SEC < YEAR_10000_SECS && b / NANOS_PER_SEC < YEAR_10000_SECS
    ensures LexLess(ObjectKey(prefix, a), ObjectKey(prefix, b)) <==> a / NANOS_PER_SEC < b / NANOS_PER_SEC
  {
    var sa, sb := a / NANOS_PER_SEC, b / NANOS_PER_SEC;
    hide *;
    var s, f := KeyFields(prefix, a);
    var t, g := KeyFields(prefix, b);
    LayoutOrder(prefix, f, g);
    StampOrder(sa, sb);
    FieldsOrder(s, t);
  }

  lemma FieldsOrder(s: Stamp, t: Stamp)
    requires 0 <= s.date.year < 10000 && Valid(s.date) && s.hour < 24 && s.minute < 60 && s.second < 60
    requires 0 <= t.date.year < 10000 && Valid(t.date) && t.hour < 24 && t.minute < 60 && t.second < 60
    ensures var f, g := FieldsOf(s), FieldsOf(t);
            && f.Shaped() && g.Shaped()
            && (LexLess(f.Directory(), g.Directory()) <==> Before(s.date, t.date))
            && (f.Directory() == g.Directory() <==> s.date == t.date)
            && (LexLess(f.h + f.mi + f.s, g.h + g.mi + g.s)
                <==> s.hour < t.hour || (s.hour == t.hour && (s.minute < t.minute || (s.minute == t.minute && s.second < t.second))))
  {
    WidthBounds();
    hide Fixed, LexLess, Pow10;
    var f, g := FieldsOf(s), FieldsOf(t);
    FixedOrder(s.date.year, t.date.year, 4);
    FixedOrder(s.date.month, t.date.month, 2);
    FixedOrder(s.date.day, t.date.day, 2);
    FixedOrder(s.hour, t.hour, 2);
    FixedOrder(s.minute, t.minute, 2);
    FixedOrder(s.second, t.second, 2);
    TripleOrder(f.y, f.mo, f.d, g.y, g.mo, g.d);
    TripleOrder(f.h, f.mi, f.s, g.h, g.mi, g.s);
  }

  // ---------- whose key it is ----------

  /** The key `object_key` prints for some instant it can also parse. */
  ghost predicate Owned(key: string, prefix: string) {
    exists nanos: nat :: nanos / NANOS_PER_SEC < YEAR_10000_SECS && key == ObjectKey(prefix, nanos)
  }

  /** The stamp names a real civil instant in digits alone, and the directory repeats its date. */
  predicate Canonical(date: string, t: string)
    requires |t| == 16
  {
    var f := Cut(t);
    && f.Digits()
    && Valid(Date(Value(f.y), Value(f.mo), Value(f.d)))
    && Value(f.h) < 24 && Value(f.mi) < 60 && Value(f.s) < 60
    && date == t[..8]
  }

  /** Every key the parser accepts has the layout; the directory is checked for digits and never compared. */
  lemma ParsedLayout(key: string, prefix: string) returns (date: string, t: string)
    requires EmbeddedTimestamp(key, prefix).Some?
    ensures |date| == 8 && AllDigits(date) && |t| == 16 && t[8] == 'T' && t[15] == 'Z'
    ensures key == KeyText(prefix, date, t) && EmbeddedTimestamp(key, prefix) == TimestampSecs(t)
  {
    hide TimestampSecs;
    var head := prefix + "/";
    var rest := key[|head|..];
    assert key == head + rest;
    var at := Find(rest, "/").value;
    date := rest[..at];
    var tail := rest[at + 1..];
    assert rest == date + "/" + tail;
    t := tail[..|tail| - 4];
    assert tail == t + ".bin";
  }

  /** A canonical stamp is the stamp its own seconds are printed with. */
  lemma CanonicalReprints(date: string, t: string, secs: nat)
    requires |t| == 16 && t[8] == 'T' && t[15] == 'Z'
    requires Canonical(date, t) && TimestampSecs(t) == Some(secs)
    ensures secs < YEAR_10000_SECS && FieldsOf0(StampOf(secs)) == Cut(t)
  {
    var f := Cut(t);
    var y, mo, d := Value(f.y), Value(f.mo), Value(f.d);
    var h, mi, s := Value(f.h), Value(f.mi), Value(f.s);
    FieldsReprint(f);
    CutStamp(f);
    PlainDigits(f);
    var days := DaysFromCivil(y, mo, d).value;
    hide CivilFromDays, DaysFromCivil;
    assert secs == SecsOf(days, h, mi, s);
    ClockJoins(days, h, mi, s);
    DaysThenCivil(Date(y, mo, d));
    YearRange(days);
  }

  /** The parser reads plain digit fields by value. */
  lemma PlainDigits(f: Fields)
    requires f.Shaped() && f.Digits()
    ensures f.Parsed() == FieldSecs(Some(Value(f.y)), Some(Value(f.mo)), Some(Value(f.d)),
                                    Some(Value(f.h)), Some(Value(f.mi)), Some(Value(f.s)))
  {
    hide FieldSecs;
    assert IsDigit(f.y[0]) && IsDigit(f.mo[0]) && IsDigit(f.d[0]);
    assert IsDigit(f.h[0]) && IsDigit(f.mi[0]) && IsDigit(f.s[0]);
  }

  lemma FieldsReprint(f: Fields)
    requires f.Shaped() && f.Digits()
    ensures Value(f.y) < 10000
    ensures f == Fields(Fixed(Value(f.y), 4), Fixed(Value(f.mo), 2), Fixed(Value(f.d), 2),
                        Fixed(Value(f.h), 2), Fixed(Value(f.mi), 2), Fixed(Value(f.s), 2))
  {
    WidthBounds();
    hide Fixed, Value, Pow10;
    DigitsAreFixed(f.y);
    DigitsAreFixed(f.mo);
    DigitsAreFixed(f.d);
    DigitsAreFixed(f.h);
    DigitsAreFixed(f.mi);
    DigitsAreFixed(f.s);
  }

  ghost function FieldsOf0(st: Stamp): Fields {
    if st.date.year >= 0 && st.date.month >= 0 && st.date.day >= 0 then FieldsOf(st)
    else Fields("", "", "", "", "", "")
  }

  lemma KeyTextInjective(prefix: string, d1: string, t1: string, d2: string, t2: string)
    requires |d1| == |d2| && KeyText(prefix, d1, t1) == KeyText(prefix, d2, t2)
    ensures d1 == d2 && t1 == t2
  {
    var head := prefix + "/";
    assert KeyText(prefix, d1, t1) == head + (d1 + ("/" + t1 + ".bin"));
    assert KeyText(prefix, d2, t2) == head + (d2 + ("/" + t2 + ".bin"));
    ConcatEqual(head, head, d1 + ("/" + t1 + ".bin"), d2 + ("/" + t2 + ".bin"));
    ConcatEqual(d1, d2, "/" + t1 + ".bin", "/" + t2 + ".bin");
    assert ("/" + t1 + ".bin")[1..|t1| + 1] == t1 && ("/" + t2 + ".bin")[1..|t2| + 1] == t2;
  }

  /** Among the keys the retention pass reads, exactly the canonical ones were printed by `object_key`. */
  lemma OwnershipExact(prefix: string, date: string, t: string)
    requires |date| == 8 && |t| == 16 && t[8] == 'T' && t[15] == 'Z'
    requires EmbeddedTimestamp(KeyText(prefix, date, t), prefix).Some?
    ensures Owned(KeyText(prefix, date, t), prefix) <==> Canonical(date, t)
  {
    hide *;
    var key := KeyText(prefix, date, t);
    var date', t' := ParsedLayout(key, prefix);
    KeyTextInjective(prefix, date, t, date', t');
    if Canonical(date, t) {
      CanonicalIsOwned(prefix, date, t);
    }
    if Owned(key, prefix) {
      OwnedIsCanonical(prefix, date, t);
    }
  }

  lemma CanonicalIsOwned(prefix: string, date: string, t: string)
    requires |date| == 8 && |t| == 16 && t[8] == 'T' && t[15] == 'Z'
    requires TimestampSecs(t).Some? && Canonical(date, t)
    ensures Owned(KeyText(prefix, date, t), prefix)
  {
    var secs := TimestampSecs(t).value;
    CanonicalReprints(date, t, secs);
    var nanos := secs * NANOS_PER_SEC;
    assert nanos / NANOS_PER_SEC == secs;
    assert date == t[..8] && Cut(t).Stamp() == t;
    KeyOfFields(prefix, nanos, Cut(t));
  }

  lemma KeyOfFields(prefix: string, nanos: nat, f: Fields)
    requires nanos / NANOS_PER_SEC < YEAR_10000_SECS && f.Shaped()
    requires FieldsOf0(StampOf(nanos / NANOS_PER_SEC)) == f
    ensures ObjectKey(prefix, nanos) == KeyText(prefix, f.Directory(), f.Stamp())
  {
    hide StampOf, Fixed, ObjectKey, KeyText, FieldSecs;
    var st, g := KeyFields(prefix, nanos);
  }

  lemma OwnedIsCanonical(prefix: string, date: string, t: string)
    requires |date| == 8 && |t| == 16
    requires Owned(KeyText(prefix, date, t), prefix)
    ensures Canonical(date, t)
  {
    var nanos: nat :| nanos / NANOS_PER_SEC < YEAR_10000_SECS && KeyText(prefix, date, t) == ObjectKey(prefix, nanos);
    hide StampOf, Fixed, ObjectKey, TimestampSecs, FieldSecs, ParseU32;
    var st, f := KeyFields(prefix, nanos);
    KeyTextInjective(prefix, date, t, f.Directory(), f.Stamp());
    CutStamp(f);
    FieldsValues(st, f);
  }

  lemma FieldsValues(st: Stamp, f: Fields)
    requires 0 <= st.date.year < 10000 && Valid(st.date) && st.hour < 24 && st.minute < 60 && st.second < 60
    requires f == FieldsOf(st) && f.Digits()
    ensures Date(Value(f.y), Value(f.mo), Value(f.d)) == st.date
    ensures Value(f.h) == st.hour && Value(f.mi) == st.minute && Value(f.s) == st.second
  {
    WidthBounds();
    hide Fixed, Value, Pow10;
    FixedReads(st.date.year, 4);
    FixedReads(st.date.month, 2);
    FixedReads(st.date.day, 2);
    FixedReads(st.hour, 2);
    FixedReads(st.minute, 2);
    FixedReads(st.second, 2);
  }

  /** Under any other eight-digit directory the stamp of an instant still parses, though nobody printed that key. */
  lemma LookalikeAccepted(prefix: string, nanos: nat, f: Fields, directory: string)
    requires nanos / NANOS_PER_SEC < YEAR_10000_SECS && f.Shaped()
    requires ObjectKey(prefix, nanos) == KeyText(prefix, f.Directory(), f.Stamp())
    requires |directory| == 8 && AllDigits(directory) && directory != f.Directory()
    ensures EmbeddedTimestamp(KeyText(prefix, directory, f.Stamp()), prefix) == Some(nanos / NANOS_PER_SEC)
    ensures !Owned(KeyText(prefix, directory, f.Stamp()), prefix)
  {
    var secs := nanos / NANOS_PER_SEC;
    hide *;
    KeyRoundTrips(prefix, nanos);
    var date, t := ParsedLayout(ObjectKey(prefix, nanos), prefix);
    KeyTextInjective(prefix, date, t, f.Directory(), f.Stamp());
    LayoutParses(prefix, directory, f.Stamp());
    OwnershipExact(prefix, directory, f.Stamp());
    CanonicalDirectory(directory, f);
  }

  lemma CanonicalDirectory(directory: string, f: Fields)
    requires f.Shaped() && directory != f.Directory()
    ensures !Canonical(directory, f.Stamp())
  {
  }
}
