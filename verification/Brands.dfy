/** The brand ingest wall: sanitizing to a fixed point, the slot rules, and the promotion check. */
module Brands {
  import opened Text

  // ---------- the sanitizer ----------

  const MAX_SANITIZE_PASSES: nat := 6

  /** The value after passes of an arbitrary cleaning step, stopping where a pass changes nothing, or empty. */
  function SanitizeWithin(clean: string -> string, text: string, passes: nat): string
    decreases passes
  {
    if passes == 0 then ""
    else if clean(text) == text then text
    else SanitizeWithin(clean, clean(text), passes - 1)
  }

  function Sanitize(clean: string -> string, text: string): string {
    SanitizeWithin(clean, text, MAX_SANITIZE_PASSES)
  }

  /** `sanitize_to_fixed_point`. */
  method SanitizeToFixedPoint(clean: string -> string, text: string, passes: nat) returns (r: string)
    ensures r == SanitizeWithin(clean, text, passes)
    ensures r == "" || clean(r) == r
  {
    var current := text;
    for i := 0 to passes
      invariant SanitizeWithin(clean, current, passes - i) == SanitizeWithin(clean, text, passes)
    {
      var next := clean(current);
      if next == current {
        return current;
      }
      current := next;
    }
    return "";
  }

  /** The text after a number of cleanings. */
  function Cleaned(clean: string -> string, text: string, times: nat): string
    decreases times
  {
    if times == 0 then text else Cleaned(clean, clean(text), times - 1)
  }

  predicate LeftAlone(clean: string -> string, text: string) {
    clean(text) == text
  }

  /** The result is the first text that cleaning leaves alone, where one is reached within the budget. */
  lemma {:induction false} FirstFixedPoint(clean: string -> string, text: string, passes: nat, k: nat)
    requires k < passes && LeftAlone(clean, Cleaned(clean, text, k))
    requires forall j :: 0 <= j < k ==> !LeftAlone(clean, Cleaned(clean, text, j))
    ensures SanitizeWithin(clean, text, passes) == Cleaned(clean, text, k)
    decreases passes
  {
    if k > 0 {
      assert !LeftAlone(clean, Cleaned(clean, text, 0));
      forall j | 0 <= j < k - 1 ensures !LeftAlone(clean, Cleaned(clean, clean(text), j)) {
        assert !LeftAlone(clean, Cleaned(clean, text, j + 1));
      }
      FirstFixedPoint(clean, clean(text), passes - 1, k - 1);
    }
  }

  /** Where none is, nothing is kept. */
  lemma {:induction false} NoFixedPoint(clean: string -> string, text: string, passes: nat)
    requires forall j :: 0 <= j < passes ==> !LeftAlone(clean, Cleaned(clean, text, j))
    ensures SanitizeWithin(clean, text, passes) == ""
    decreases passes
  {
    if passes > 0 {
      assert !LeftAlone(clean, Cleaned(clean, text, 0));
      forall j | 0 <= j < passes - 1 ensures !LeftAlone(clean, Cleaned(clean, clean(text), j)) {
        assert !LeftAlone(clean, Cleaned(clean, text, j + 1));
      }
      NoFixedPoint(clean, clean(text), passes - 1);
    }
  }

  lemma {:induction false} SanitizedIsFixed(clean: string -> string, text: string, passes: nat)
    ensures var r := SanitizeWithin(clean, text, passes); r == "" || clean(r) == r
    decreases passes
  {
    if passes > 0 && clean(text) != text {
      SanitizedIsFixed(clean, clean(text), passes - 1);
    }
  }

  /** Sanitizing twice is sanitizing once, for every cleaning step that leaves the empty text empty, and every budget. */
  lemma SanitizeIdempotent(clean: string -> string, text: string)
    requires clean("") == ""
    ensures Sanitize(clean, Sanitize(clean, text)) == Sanitize(clean, text)
  {
    SanitizedIsFixed(clean, text, MAX_SANITIZE_PASSES);
  }

  // ---------- slots ----------

  const SLOTS: set<string> := {"footer_legal", "login_help", "consent_notice"}
  const MAX_SLOT_BYTES: nat := 8192

  /** What the wall is built from: the cleaning step, the encoded size, the token grammar and host names. */
  datatype Rules = Rules(
    clean: string -> string, size: string -> nat, tokensValid: string -> bool, canonicalHost: string -> Option<string>)

  predicate SlotAllowed(r: Rules, key: string, value: string) {
    key in SLOTS && r.size(value) <= MAX_SLOT_BYTES
  }

  /** `checked_slots`: every key known and every value within the cap, or nothing. */
  method CheckedSlots(r: Rules, raw: map<string, string>) returns (checked: Option<seq<(string, string)>>)
    ensures checked.Some? <==> forall key :: key in raw ==> SlotAllowed(r, key, raw[key])
    ensures checked.Some? ==> |checked.value| == |raw| && forall p :: p in checked.value <==> p.0 in raw && raw[p.0] == p.1
  {
    var list: seq<(string, string)> := [];
    var rest := raw.Keys;
    while rest != {}
      invariant rest <= raw.Keys && |list| + |rest| == |raw|
      invariant forall key :: key in raw && key !in rest ==> SlotAllowed(r, key, raw[key])
      invariant forall p :: p in list <==> p.0 in raw && p.0 !in rest && raw[p.0] == p.1
      decreases rest
    {
      var key := Pick(rest);
      if key !in SLOTS {
        return None;
      }
      if r.size(raw[key]) > MAX_SLOT_BYTES {
        return None;
      }
      rest := rest - {key};
      list := list + [(key, raw[key])];
    }
    return Some(list);
  }

  /** What the management door stores: the sanitized values, without the empty ones. None where it refuses. */
  ghost function Stored(r: Rules, raw: map<string, string>): Option<map<string, string>> {
    if forall key :: key in raw ==> SlotAllowed(r, key, raw[key])
    then Some(map key | key in raw && Sanitize(r.clean, raw[key]) != "" :: Sanitize(r.clean, raw[key]))
    else None
  }

  /** `validated_slots`. */
  method ValidatedSlots(r: Rules, raw: map<string, string>) returns (stored: Option<map<string, string>>)
    ensures stored == Stored(r, raw)
  {
    var checked := CheckedSlots(r, raw);
    if checked.None? {
      return None;
    }
    var slots: map<string, string> := map[];
    for i := 0 to |checked.value|
      invariant forall key :: key in slots ==>
                  key in raw && slots[key] == Sanitize(r.clean, raw[key]) && slots[key] != ""
      invariant forall j :: 0 <= j < i && Sanitize(r.clean, checked.value[j].1) != "" ==> checked.value[j].0 in slots
    {
      var (key, value) := checked.value[i];
      assert (key, value) in checked.value;
      var clean := Sanitized(r.clean, value);
      if clean != "" {
        slots := slots[key := clean];
      }
    }
    forall key | key in raw && Sanitize(r.clean, raw[key]) != "" ensures key in slots {
      assert (key, raw[key]) in checked.value;
    }
    assert slots == Stored(r, raw).value;
    return Some(slots);
  }

  /** The slots pass the promotion wall: allowed, and already what the sanitizer leaves alone. */
  predicate SlotsPass(r: Rules, slots: map<string, string>) {
    forall key :: key in slots ==> SlotAllowed(r, key, slots[key]) && Sanitize(r.clean, slots[key]) == slots[key]
  }

  /**
   * What the management door stores passes the promotion wall exactly when sanitizing did not push any value over the
   * size cap: only the submitted value is measured at the door.
   */
  lemma StoredPassesWall(r: Rules, raw: map<string, string>)
    requires r.clean("") == "" && Stored(r, raw).Some?
    ensures SlotsPass(r, Stored(r, raw).value)
            <==> forall key :: key in raw && Sanitize(r.clean, raw[key]) != "" ==> r.size(Sanitize(r.clean, raw[key])) <= MAX_SLOT_BYTES
  {
    var stored := Stored(r, raw).value;
    assert forall key :: key in raw && Sanitize(r.clean, raw[key]) != "" ==> key in stored;
    forall key | key in stored ensures Sanitize(r.clean, stored[key]) == stored[key] {
      SanitizeIdempotent(r.clean, raw[key]);
    }
    hide Sanitize;
  }

  // ---------- the promotion wall ----------

  /** A brand of a promotion document; `slots` is None where they are not an object of texts. */
  datatype Brand = Brand(
    slug: string, tokens: string, tokensDark: Option<string>, slots: Option<map<string, string>>,
    host: Option<string>, isDefault: bool)

  datatype Fault =
    | BadTokens(slug: string)
    | BadDarkTokens(slug: string)
    | BadSlots(slug: string)
    | Unsanitized(slug: string, slot: string)
    | HostClash(other: string, slug: string, host: string)
    | TwoDefaults(other: string, slug: string)

  function HostOf(r: Rules, b: Brand): Option<string> {
    if b.host.None? then None else r.canonicalHost(b.host.value)
  }

  predicate BrandPasses(r: Rules, b: Brand) {
    && r.tokensValid(b.tokens)
    && (b.tokensDark.Some? ==> r.tokensValid(b.tokensDark.value))
    && b.slots.Some? && SlotsPass(r, b.slots.value)
  }

  predicate HostsDistinct(r: Rules, brands: seq<Brand>) {
    forall i, j :: 0 <= i < j < |brands| && HostOf(r, brands[i]).Some? ==> HostOf(r, brands[i]) != HostOf(r, brands[j])
  }

  predicate OneDefault(brands: seq<Brand>) {
    forall i, j :: 0 <= i < j < |brands| ==> !(brands[i].isDefault && brands[j].isDefault)
  }

  /** The document can be stored as it was written. */
  predicate Storable(r: Rules, brands: seq<Brand>) {
    (forall i :: 0 <= i < |brands| ==> BrandPasses(r, brands[i])) && HostsDistinct(r, brands) && OneDefault(brands)
  }

  /** The faults of one brand on its own. */
  method BrandFaults(r: Rules, b: Brand) returns (faults: seq<Fault>)
    ensures faults == [] <==> BrandPasses(r, b)
    ensures forall f :: f in faults ==> f.slug == b.slug && !f.HostClash? && !f.TwoDefaults?
  {
    faults := [];
    if !r.tokensValid(b.tokens) {
      faults := faults + [BadTokens(b.slug)];
    }
    if b.tokensDark.Some? && !r.tokensValid(b.tokensDark.value) {
      faults := faults + [BadDarkTokens(b.slug)];
    }
    var slots := SlotFaults(r, b);
    faults := faults + slots;
  }

  /** The faults of a brand's slots. */
  method SlotFaults(r: Rules, b: Brand) returns (faults: seq<Fault>)
    ensures faults == [] <==> b.slots.Some? && SlotsPass(r, b.slots.value)
    ensures forall f :: f in faults ==> f.slug == b.slug && !f.HostClash? && !f.TwoDefaults?
  {
    hide Sanitize;
    if b.slots.None? {
      return [BadSlots(b.slug)];
    }
    var checked := CheckedSlots(r, b.slots.value);
    if checked.None? {
      return [BadSlots(b.slug)];
    }
    faults := [];
    for i := 0 to |checked.value|
      invariant forall f :: f in faults ==> f.slug == b.slug && !f.HostClash? && !f.TwoDefaults?
      invariant faults == [] <==> forall j :: 0 <= j < i ==> Sanitize(r.clean, checked.value[j].1) == checked.value[j].1
    {
      var (slot, value) := checked.value[i];
      var clean := Sanitized(r.clean, value);
      if clean != value {
        faults := faults + [Unsanitized(b.slug, slot)];
      }
    }
    AllSanitized(r, b.slots.value, checked.value);
  }

  method Sanitized(clean: string -> string, text: string) returns (r: string)
    ensures r == Sanitize(clean, text)
  {
    r := SanitizeToFixedPoint(clean, text, MAX_SANITIZE_PASSES);
  }

  lemma AllSanitized(r: Rules, slots: map<string, string>, list: seq<(string, string)>)
    requires forall p :: p in list <==> p.0 in slots && slots[p.0] == p.1
    ensures (forall j :: 0 <= j < |list| ==> Sanitize(r.clean, list[j].1) == list[j].1)
            <==> forall key :: key in slots ==> Sanitize(r.clean, slots[key]) == slots[key]
  {
    hide Sanitize;
    forall key | key in slots ensures exists j :: 0 <= j < |list| && list[j] == (key, slots[key]) {
      assert (key, slots[key]) in list;
    }
  }

  /** A clash names two brands of the document that clash, the earlier one first. */
  ghost predicate Real(r: Rules, brands: seq<Brand>, f: Fault) {
    match f
    case HostClash(other, slug, host) =>
      exists i, j :: 0 <= i < j < |brands| && HostOf(r, brands[i]) == HostOf(r, brands[j]) == Some(host)
                     && brands[i].slug == other && brands[j].slug == slug
    case TwoDefaults(other, slug) =>
      exists i, j :: 0 <= i < j < |brands| && brands[i].isDefault && brands[j].isDefault
                     && brands[i].slug == other && brands[j].slug == slug
    case _ => true
  }

  lemma RealGrows(r: Rules, brands: seq<Brand>, b: Brand, f: Fault)
    requires Real(r, brands, f)
    ensures Real(r, brands + [b], f)
  {
    var all := brands + [b];
    assert forall i :: 0 <= i < |brands| ==> all[i] == brands[i];
  }

  lemma NewFaultsReal(r: Rules, brands: seq<Brand>, b: Brand, hosts: map<string, string>, claimant: map<string, int>,
                      slug: Option<string>, last: int)
    requires Claims(r, brands, hosts, claimant) && Defaults(brands, slug, last)
    ensures HostOf(r, b).Some? && HostOf(r, b).value in hosts ==>
              Real(r, brands + [b], HostClash(hosts[HostOf(r, b).value], b.slug, HostOf(r, b).value))
    ensures b.isDefault && slug.Some? ==> Real(r, brands + [b], TwoDefaults(slug.value, b.slug))
  {
    var all := brands + [b];
    assert all[|brands|] == b && forall i :: 0 <= i < |brands| ==> all[i] == brands[i];
  }

  lemma ClaimsSnoc(r: Rules, brands: seq<Brand>, b: Brand, hosts: map<string, string>, claimant: map<string, int>,
                   slug: Option<string>, last: int)
    requires Claims(r, brands, hosts, claimant) && Defaults(brands, slug, last)
    ensures var host := HostOf(r, b);
            if host.Some? then Claims(r, brands + [b], hosts[host.value := b.slug], claimant[host.value := |brands|])
            else Claims(r, brands + [b], hosts, claimant)
    ensures if b.isDefault then Defaults(brands + [b], Some(b.slug), |brands|) else Defaults(brands + [b], slug, last)
  {
    var all := brands + [b];
    assert all[|brands|] == b && forall i :: 0 <= i < |brands| ==> all[i] == brands[i];
  }

  /** `promoted_brand_faults`: empty exactly when the document is storable, and every clash it names is real. */
  method PromotedBrandFaults(r: Rules, brands: seq<Brand>) returns (faults: seq<Fault>)
    ensures faults == [] <==> Storable(r, brands)
    ensures forall f :: f in faults ==> Real(r, brands, f)
  {
    hide Storable, Claims, Defaults, Real, BrandPasses;
    faults := [];
    var hosts: map<string, string> := map[];
    var defaultSlug: Option<string> := None;
    ghost var claimant: map<string, int> := map[];
    ghost var lastDefault := -1;
    NothingYet(r);
    for i := 0 to |brands|
      invariant faults == [] <==> Storable(r, brands[..i])
      invariant Claims(r, brands[..i], hosts, claimant)
      invariant Defaults(brands[..i], defaultSlug, lastDefault)
      invariant forall f :: f in faults ==> Real(r, brands[..i], f)
    {
      var brand := brands[i];
      assert brands[..i + 1] == brands[..i] + [brand];
      var own := BrandFaults(r, brand);
      var host := HostOf(r, brand);
      StorableSnoc(r, brands[..i], brand, hosts, claimant, defaultSlug, lastDefault);
      NewFaultsReal(r, brands[..i], brand, hosts, claimant, defaultSlug, lastDefault);
      ClaimsSnoc(r, brands[..i], brand, hosts, claimant, defaultSlug, lastDefault);
      forall f | f in faults ensures Real(r, brands[..i + 1], f) {
        RealGrows(r, brands[..i], brand, f);
      }
      forall f | f in own ensures Real(r, brands[..i + 1], f) {
        OwnFaultsReal(r, brands[..i + 1], f);
      }
      faults := faults + own;
      if host.Some? {
        if host.value in hosts {
          faults := faults + [HostClash(hosts[host.value], brand.slug, host.value)];
        }
        hosts := hosts[host.value := brand.slug];
        claimant := claimant[host.value := i];
      }
      if brand.isDefault {
        if defaultSlug.Some? {
          faults := faults + [TwoDefaults(defaultSlug.value, brand.slug)];
        }
        defaultSlug := Some(brand.slug);
        lastDefault := i;
      }
    }
    assert brands[..|brands|] == brands;
  }

  lemma NothingYet(r: Rules)
    ensures Storable(r, []) && Claims(r, [], map[], map[]) && Defaults([], None, -1)
  {
  }

  lemma OwnFaultsReal(r: Rules, brands: seq<Brand>, f: Fault)
    requires !f.HostClash? && !f.TwoDefaults?
    ensures Real(r, brands, f)
  {
  }

  /** The hosts claimed so far, each with its latest claimant. */
  ghost predicate Claims(r: Rules, brands: seq<Brand>, hosts: map<string, string>, claimant: map<string, int>) {
    && hosts.Keys == claimant.Keys
    && (forall h :: h in hosts ==>
          0 <= claimant[h] < |brands| && HostOf(r, brands[claimant[h]]) == Some(h) && brands[claimant[h]].slug == hosts[h])
    && (forall i :: 0 <= i < |brands| && HostOf(r, brands[i]).Some? ==> HostOf(r, brands[i]).value in hosts)
  }

  /** The latest default so far. */
  ghost predicate Defaults(brands: seq<Brand>, slug: Option<string>, last: int) {
    && (slug.Some? ==> 0 <= last < |brands| && brands[last].isDefault && brands[last].slug == slug.value)
    && (slug.None? ==> forall i :: 0 <= i < |brands| ==> !brands[i].isDefault)
  }

  lemma StorableSnoc(r: Rules, brands: seq<Brand>, b: Brand, hosts: map<string, string>, claimant: map<string, int>,
                     slug: Option<string>, last: int)
    requires Claims(r, brands, hosts, claimant) && Defaults(brands, slug, last)
    ensures Storable(r, brands + [b]) <==>
            && Storable(r, brands) && BrandPasses(r, b)
            && !(HostOf(r, b).Some? && HostOf(r, b).value in hosts)
            && !(b.isDefault && slug.Some?)
  {
    hide BrandPasses, HostOf;
    var all := brands + [b];
    assert forall i :: 0 <= i < |brands| ==> all[i] == brands[i];
    assert all[|brands|] == b;
  }
}
