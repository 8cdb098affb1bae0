/** Turning one expiry notice into mail: paging through contacts, the message ledger, and redelivery. */
module CertificateNotices {
  import opened Text
  import opened Keyset

  // ---------- contacts and pages ----------

  datatype Contact = Contact(at: Position, category: string, email: string)

  predicate Beyond(c: Contact, after: Option<Position>) {
    after.None? || Less(after.value, c.at)
  }

  const NOTIFIED_CATEGORY: string := "technical"
  const NOTICE_KIND: string := "saml_certificate_expiring"

  function Positions(contacts: seq<Contact>): (at: seq<Position>)
    ensures |at| == |contacts| && forall i :: 0 <= i < |at| ==> at[i] == contacts[i].at
  {
    seq(|contacts|, i requires 0 <= i < |contacts| => contacts[i].at)
  }

  predicate InOrder(contacts: seq<Contact>) {
    Ordered(Positions(contacts))
  }

  /** One page of the contact listing. */
  function ContactPage(contacts: seq<Contact>, limit: int, after: Option<Position>): seq<Contact> {
    PageAfter(contacts, Positions(contacts), limit, after)
  }

  // ---------- the message ledger ----------

  type Recipient = string

  /** The deduplication key: the digest of kind, normalized recipient and discriminator, taken as collision free. */
  datatype Key = Key(kind: string, recipient: Recipient, discriminator: nat)

  datatype Message = Message(key: Key, at: nat)

  datatype Budget = Budget(limit: nat, window: nat, perKind: bool)

  datatype Enqueued = Accepted | Collapsed | Suppressed | RateLimited

  datatype Ledger = Ledger(messages: seq<Message>, suppressed: set<Recipient>) {

    predicate Holds(k: Key) {
      exists i :: 0 <= i < |messages| && messages[i].key == k
    }

    /** No key is accepted twice. */
    ghost predicate Valid() {
      forall i, j :: 0 <= i < j < |messages| ==> messages[i].key != messages[j].key
    }
  }

  /** Sends to the recipient inside the window (now - window, now], of the one kind when the budget says so. */
  function Used(messages: seq<Message>, k: Key, b: Budget, now: nat): nat {
    if messages == [] then 0
    else
      var m := messages[0];
      var cutoff := if now < b.window then 0 else now - b.window;
      var counts := m.key.recipient == k.recipient && cutoff < m.at <= now && (b.perKind ==> m.key.kind == k.kind);
      (if counts then 1 else 0) + Used(messages[1..], k, b, now)
  }

  /** Suppression first, then the budget, and only then the deduplication key. */
  function Answer(l: Ledger, k: Key, b: Budget, now: nat): Enqueued {
    if k.recipient in l.suppressed then Suppressed
    else if Used(l.messages, k, b, now) >= b.limit then RateLimited
    else if l.Holds(k) then Collapsed
    else Accepted
  }

  function Enqueue(l: Ledger, k: Key, b: Budget, now: nat): Ledger {
    if Answer(l, k, b, now) == Accepted then l.(messages := l.messages + [Message(k, now)]) else l
  }

  /** A message of the kind, to the recipient, under the discriminator. */
  ghost predicate Sent(messages: seq<Message>, kind: string, recipient: Recipient, discriminator: nat) {
    exists i :: 0 <= i < |messages|
                && messages[i].key.kind == kind && messages[i].key.recipient == recipient && messages[i].key.discriminator == discriminator
  }

  /** What the budget counts, message by message: each to the recipient inside the window, of the kind where it says so. */
  lemma {:induction false} UsedCounts(messages: seq<Message>, m: Message, k: Key, b: Budget, now: nat)
    ensures Used([], k, b, now) == 0
    ensures Used(messages + [m], k, b, now)
            == Used(messages, k, b, now)
               + if && m.key.recipient == k.recipient && (!b.perKind || m.key.kind == k.kind)
                    && m.at <= now && 0 < m.at && now < m.at + b.window
                 then 1 else 0
  {
    if messages == [] {
      assert (messages + [m])[1..] == [];
    } else {
      TailOfConcat(messages, [m]);
      UsedCounts(messages[1..], m, k, b, now);
    }
  }

  /** The four answers, on the messages: who is mailed, who was mailed already, who must not be, and who has to wait. */
  lemma AnswerExactly(l: Ledger, k: Key, b: Budget, now: nat)
    ensures var answer := Answer(l, k, b, now);
            var listed, room := k.recipient in l.suppressed, Used(l.messages, k, b, now) < b.limit;
            && (answer == Accepted <==> !listed && room && !Sent(l.messages, k.kind, k.recipient, k.discriminator))
            && (answer == Collapsed <==> !listed && room && Sent(l.messages, k.kind, k.recipient, k.discriminator))
            && (answer == Suppressed <==> listed)
            && (answer == RateLimited <==> !listed && !room)
    ensures var after := Enqueue(l, k, b, now);
            && after.suppressed == l.suppressed
            && after.messages == l.messages + if Answer(l, k, b, now) == Accepted then [Message(k, now)] else []
  {
  }

  lemma EnqueueKeepsValid(l: Ledger, k: Key, b: Budget, now: nat)
    requires l.Valid()
    ensures Enqueue(l, k, b, now).Valid()
    ensures l.messages <= Enqueue(l, k, b, now).messages
    ensures Enqueue(l, k, b, now).Holds(k) <==> l.Holds(k) || Answer(l, k, b, now) == Accepted
  {
    if Answer(l, k, b, now) == Accepted {
      assert Enqueue(l, k, b, now).messages[|l.messages|].key == k;
    }
  }

  // ---------- the notice ----------

  /** What every contact is told, and how its parts are keyed. `head` is the truncated digest, an arbitrary function. */
  datatype Notice = Notice(certificate: seq<nat>, lead: int)

  datatype Setup = Setup(normalize: string -> Option<Recipient>, head: seq<nat> -> nat, budget: Budget)

  function Pow256(k: nat): (p: nat)
    ensures p > 0
  {
    if k == 0 then 1 else 256 * Pow256(k - 1)
  }

  /** The last k bytes of a number, most significant first. */
  function BigEndian(n: nat, k: nat): (b: seq<nat>)
    ensures |b| == k
  {
    if k == 0 then [] else BigEndian(n / 256, k - 1) + [n % 256]
  }

  /** A 64-bit value as its eight bytes, in two's complement when negative. */
  function Word(n: int): (b: seq<nat>)
    ensures |b| == 8
  {
    BigEndian(n % WORD, 8)
  }

  /** The bytes the discriminator hashes: length, certificate, lead. */
  function Preimage(n: Notice): seq<nat> {
    Word(|n.certificate|) + n.certificate + Word(n.lead)
  }

  const WORD: int := 0x1_0000_0000_0000_0000

  predicate Fits(n: int) {
    -WORD / 2 <= n < WORD / 2
  }

  lemma WordInjective(a: int, b: int)
    requires Fits(a) && Fits(b) && Word(a) == Word(b)
    ensures a == b
  {
    assert Pow256(4) == 0x1_0000_0000 && Pow256(8) == WORD;
    hide BigEndian;
    BigEndianInjective(a % WORD, b % WORD, 8);
  }

  lemma {:induction false} BigEndianInjective(a: nat, b: nat, k: nat)
    requires a < Pow256(k) && b < Pow256(k) && BigEndian(a, k) == BigEndian(b, k)
    ensures a == b
  {
    if k > 0 {
      var x, y := BigEndian(a, k), BigEndian(b, k);
      assert x[..k - 1] == BigEndian(a / 256, k - 1) && y[..k - 1] == BigEndian(b / 256, k - 1);
      assert x[k - 1] == a % 256 && y[k - 1] == b % 256;
      BigEndianInjective(a / 256, b / 256, k - 1);
    }
  }

  /** Two different notices never hash the same bytes. */
  lemma PreimageInjective(a: Notice, b: Notice)
    requires Fits(a.lead) && Fits(b.lead) && Preimage(a) == Preimage(b)
    ensures a == b
  {
    hide Word, Fits;
    var x, y := Preimage(a), Preimage(b);
    assert |a.certificate| == |b.certificate|;
    assert x[8..|x| - 8] == a.certificate && y[8..|y| - 8] == b.certificate;
    assert x[|x| - 8..] == Word(a.lead) && y[|y| - 8..] == Word(b.lead);
    WordInjective(a.lead, b.lead);
  }

  function KeyOf(s: Setup, n: Notice, r: Recipient): Key {
    Key(NOTICE_KIND, r, s.head(Preimage(n)))
  }

  /** A technical contact with an address the ledger can key on. */
  predicate Mailable(s: Setup, c: Contact) {
    c.category == NOTIFIED_CATEGORY && s.normalize(c.email).Some?
  }

  function RecipientOf(s: Setup, c: Contact): Recipient
    requires Mailable(s, c)
  {
    s.normalize(c.email).value
  }

  // ---------- one delivery over a list that does not change ----------

  datatype Failure = ReadFailed | EnqueueFailed | NoticeRateLimited

  datatype Delivery = Delivery(ledger: Ledger, deferred: nat, tried: seq<Contact>, failed: bool)

  /** Try contacts in order, stopping only where the store itself fails. */
  function Mail(s: Setup, n: Notice, now: nat, d: Delivery, contacts: seq<Contact>, storeFails: Contact -> bool): Delivery
    decreases contacts
  {
    if contacts == [] || d.failed then d
    else Mail(s, n, now, MailOne(s, n, now, d, contacts[0], storeFails), contacts[1..], storeFails)
  }

  function MailOne(s: Setup, n: Notice, now: nat, d: Delivery, c: Contact, storeFails: Contact -> bool): Delivery {
    if !Mailable(s, c) then d
    else if storeFails(c) then d.(failed := true)
    else
      var k := KeyOf(s, n, RecipientOf(s, c));
      Delivery(Enqueue(d.ledger, k, s.budget, now),
               d.deferred + if Answer(d.ledger, k, s.budget, now) == RateLimited then 1 else 0,
               d.tried + [c], false)
  }

  lemma {:induction false} MailConcat(s: Setup, n: Notice, now: nat, d: Delivery, a: seq<Contact>, b: seq<Contact>,
                                      storeFails: Contact -> bool)
    ensures Mail(s, n, now, d, a + b, storeFails) == Mail(s, n, now, Mail(s, n, now, d, a, storeFails), b, storeFails)
    decreases a
  {
    if a == [] {
      assert a + b == b;
    } else if !d.failed {
      assert (a + b)[1..] == a[1..] + b;
      MailConcat(s, n, now, MailOne(s, n, now, d, a[0], storeFails), a[1..], b, storeFails);
    }
  }

  /** The contacts of a list that can be mailed, in order. */
  function MailableOf(s: Setup, contacts: seq<Contact>): seq<Contact> {
    if contacts == [] then []
    else (if Mailable(s, contacts[0]) then [contacts[0]] else []) + MailableOf(s, contacts[1..])
  }

  /** Every mailable contact is tried once, in order, whatever was answered for those before it. */
  lemma {:induction false} EveryContactTried(s: Setup, n: Notice, now: nat, d: Delivery, contacts: seq<Contact>,
                                             storeFails: Contact -> bool)
    requires !d.failed && forall c :: c in contacts ==> !storeFails(c)
    ensures var e := Mail(s, n, now, d, contacts, storeFails);
            !e.failed && e.tried == d.tried + MailableOf(s, contacts)
    decreases contacts
  {
    if contacts != [] {
      EveryContactTried(s, n, now, MailOne(s, n, now, d, contacts[0], storeFails), contacts[1..], storeFails);
    }
  }

  /** The contact was told, or must not be told. */
  predicate Settled(s: Setup, n: Notice, l: Ledger, c: Contact)
    requires Mailable(s, c)
  {
    l.Holds(KeyOf(s, n, RecipientOf(s, c))) || RecipientOf(s, c) in l.suppressed
  }

  /** A delivery that deferred nobody settled every mailable contact of its list. */
  lemma {:induction false} UndeferredMeansSettled(s: Setup, n: Notice, now: nat, d: Delivery, contacts: seq<Contact>,
                                                  storeFails: Contact -> bool)
    requires d.ledger.Valid() && !d.failed
    ensures var e := Mail(s, n, now, d, contacts, storeFails);
            && e.ledger.Valid() && e.ledger.suppressed == d.ledger.suppressed
            && d.ledger.messages <= e.ledger.messages && d.deferred <= e.deferred
            && (!e.failed && e.deferred == d.deferred ==>
                  forall c :: c in contacts && Mailable(s, c) ==> Settled(s, n, e.ledger, c))
    decreases contacts
  {
    if contacts != [] {
      var c := contacts[0];
      var d1 := MailOne(s, n, now, d, c, storeFails);
      if Mailable(s, c) && !storeFails(c) {
        var k := KeyOf(s, n, RecipientOf(s, c));
        EnqueueKeepsValid(d.ledger, k, s.budget, now);
      }
      if !d1.failed {
        UndeferredMeansSettled(s, n, now, d1, contacts[1..], storeFails);
        var e := Mail(s, n, now, d, contacts, storeFails);
        if !e.failed && e.deferred == d.deferred {
          forall x | x in contacts && Mailable(s, x) ensures Settled(s, n, e.ledger, x) {
            if RecipientOf(s, x) in d.ledger.suppressed {
            } else if x == c {
              HoldsMonotone(d1.ledger, e.ledger, KeyOf(s, n, RecipientOf(s, c)));
            } else {
              assert x in contacts[1..];
            }
          }
        }
      }
    }
  }

  /** The messages of a delivery: each new one is to a technical contact of the list, of this kind and this notice, now. */
  lemma {:induction false} NewMessages(s: Setup, n: Notice, now: nat, d: Delivery, contacts: seq<Contact>,
                                       storeFails: Contact -> bool, i: nat)
    requires |d.ledger.messages| <= i < |Mail(s, n, now, d, contacts, storeFails).ledger.messages|
    ensures var m := Mail(s, n, now, d, contacts, storeFails).ledger.messages[i];
            && m.at == now && m.key.kind == "saml_certificate_expiring" && m.key.discriminator == s.head(Preimage(n))
            && exists c :: c in contacts && c.category == "technical" && s.normalize(c.email) == Some(m.key.recipient)
    decreases contacts
  {
    if contacts != [] && !d.failed {
      var c := contacts[0];
      var d1 := MailOne(s, n, now, d, c, storeFails);
      assert contacts == [c] + contacts[1..];
      if Mailable(s, c) && !storeFails(c) {
        AnswerExactly(d.ledger, KeyOf(s, n, RecipientOf(s, c)), s.budget, now);
      }
      var e := Mail(s, n, now, d1, contacts[1..], storeFails);
      OnlyAdds(s, n, now, d1, contacts[1..], storeFails);
      if i >= |d1.ledger.messages| {
        NewMessages(s, n, now, d1, contacts[1..], storeFails, i);
      } else {
        assert e.ledger.messages[i] == d1.ledger.messages[i];
      }
    }
  }

  lemma {:induction false} OnlyAdds(s: Setup, n: Notice, now: nat, d: Delivery, contacts: seq<Contact>, storeFails: Contact -> bool)
    ensures d.ledger.messages <= Mail(s, n, now, d, contacts, storeFails).ledger.messages
    decreases contacts
  {
    if contacts != [] && !d.failed {
      OnlyAdds(s, n, now, MailOne(s, n, now, d, contacts[0], storeFails), contacts[1..], storeFails);
    }
  }

  /** A technical contact with a usable address was told this notice, or must not be. */
  ghost predicate ToldOf(messages: seq<Message>, excused: set<Recipient>, s: Setup, n: Notice, c: Contact) {
    c.category == "technical" && s.normalize(c.email).Some? ==>
      || Sent(messages, "saml_certificate_expiring", s.normalize(c.email).value, s.head(Preimage(n)))
      || s.normalize(c.email).value in excused
  }

  /** A delivery without failures that deferred nobody: on the messages, everyone in the list was told or is suppressed. */
  lemma UndeferredToldEveryone(s: Setup, n: Notice, now: nat, l: Ledger, contacts: seq<Contact>, storeFails: Contact -> bool, c: Contact)
    requires l.Valid() && c in contacts && Verdict(Mail(s, n, now, Delivery(l, 0, [], false), contacts, storeFails)) == None
    ensures var e := Mail(s, n, now, Delivery(l, 0, [], false), contacts, storeFails);
            ToldOf(e.ledger.messages, l.suppressed, s, n, c)
  {
    UndeferredMeansSettled(s, n, now, Delivery(l, 0, [], false), contacts, storeFails);
    hide Mail;
    var e := Mail(s, n, now, Delivery(l, 0, [], false), contacts, storeFails);
    if Mailable(s, c) {
      assert Settled(s, n, e.ledger, c);
    }
  }

  lemma HoldsMonotone(a: Ledger, b: Ledger, k: Key)
    requires a.messages <= b.messages && a.Holds(k)
    ensures b.Holds(k)
  {
    var i :| 0 <= i < |a.messages| && a.messages[i].key == k;
    assert b.messages[i].key == k;
  }

  // ---------- the paging loop ----------

  class MessageStore {
    var ledger: Ledger
    var contacts: seq<Contact>

    /** `mail_page`: None where the store fails; otherwise how many contacts were rate limited. */
    method MailPage(s: Setup, n: Notice, now: nat, page: seq<Contact>, storeFails: Contact -> bool, ghost d: Delivery)
      returns (deferred: Option<nat>)
      requires !d.failed && ledger == d.ledger
      modifies this`ledger
      ensures var e := Mail(s, n, now, d, page, storeFails);
              && ledger == e.ledger
              && (deferred.None? <==> e.failed)
              && (deferred.Some? ==> d.deferred + deferred.value == e.deferred)
    {
      var count := 0;
      ghost var e := d;
      assert page[0..] == page;
      for i := 0 to |page|
        invariant !e.failed && ledger == e.ledger && d.deferred + count == e.deferred
        invariant Mail(s, n, now, e, page[i..], storeFails) == Mail(s, n, now, d, page, storeFails)
      {
        var contact := page[i];
        assert page[i..][1..] == page[i + 1..] && page[i..][0] == contact;
        e := MailOne(s, n, now, e, contact, storeFails);
        if contact.category != NOTIFIED_CATEGORY {
          continue;
        }
        var recipient := s.normalize(contact.email);
        if recipient.None? {
          continue;
        }
        if storeFails(contact) {
          return None;
        }
        var key := KeyOf(s, n, recipient.value);
        var outcome := Answer(ledger, key, s.budget, now);
        ledger := Enqueue(ledger, key, s.budget, now);
        if outcome == RateLimited {
          count := count + 1;
        }
      }
      return Some(count);
    }

    /** `send` past its payload checks, over a contact list nobody edits meanwhile; a page read may fail at any cursor. */
    method Send(s: Setup, n: Notice, now: nat, pageSize: int, storeFails: Contact -> bool, readFails: Option<Position> -> bool)
      returns (r: Option<Failure>)
      requires InOrder(contacts) && pageSize >= 1
      modifies this`ledger
      ensures BadRead(contacts, pageSize, readFails, 0).None? ==>
                var e := Mail(s, n, now, Delivery(old(ledger), 0, [], false), Reached(contacts, pageSize), storeFails);
                ledger == e.ledger && r == Verdict(e)
      ensures BadRead(contacts, pageSize, readFails, 0).Some? ==>
                var read := contacts[..BadRead(contacts, pageSize, readFails, 0).value];
                var e := Mail(s, n, now, Delivery(old(ledger), 0, [], false), read, storeFails);
                ledger == e.ledger && r == Some(if e.failed then EnqueueFailed else ReadFailed)
    {
      hide Mail, MailFirst, ContactPage, Clamp, Reached, InOrder, Positions, PageAfter, Skipped, Ordered, BadRead;
      var list := contacts;
      var deferred := 0;
      var after: Option<Position> := None;
      ghost var all := Reading(list, pageSize, readFails);
      ghost var start := Delivery(ledger, 0, [], false);
      ghost var d := start;
      ghost var i: nat := 0;
      MailFirstEnds(s, n, now, start, all, storeFails);
      ReadingStarts(list, pageSize, readFails);
      while true
        invariant contacts == list
        invariant i <= |all| <= |list| && d == MailFirst(s, n, now, start, all, i, storeFails)
        invariant after == CursorAt(list, i)
        invariant !d.failed && ledger == d.ledger && deferred == d.deferred
        invariant pageSize > LIST_HARD_CAP + 1 ==> i == 0
        invariant BadRead(list, pageSize, readFails, i) == BadRead(list, pageSize, readFails, 0)
        decreases |list| - i
      {
        BadReadStep(list, pageSize, readFails, i);
        if readFails(after) {
          return Some(ReadFailed);
        }
        NextPage(list, pageSize, readFails, i);
        var page := ContactPage(list, pageSize, after);
        if page == [] {
          break;
        }
        var next := page[|page| - 1].at;
        var exhausted := |page| < pageSize;
        NextDelivery(s, n, now, start, list, pageSize, all, i, storeFails);
        i := i + |page|;
        var more := MailPage(s, n, now, page, storeFails, d);
        d := Mail(s, n, now, d, page, storeFails);
        if more.None? {
          FailureStops(s, n, now, start, i, all, storeFails);
          return Some(EnqueueFailed);
        }
        deferred := deferred + more.value;
        if exhausted {
          break;
        }
        after := Some(next);
      }
      if deferred > 0 {
        return Some(NoticeRateLimited);
      }
      return None;
    }
  }

  /** The cursor with which the loop asks for what is behind the first i contacts. */
  function CursorAt(contacts: seq<Contact>, i: nat): Option<Position>
    requires i <= |contacts|
  {
    if i == 0 then None else Some(contacts[i - 1].at)
  }

  /** How many contacts the loop, having read i, has read when a page read fails; None where none does. */
  function BadRead(contacts: seq<Contact>, pageSize: int, readFails: Option<Position> -> bool, i: nat): (r: Option<nat>)
    requires pageSize >= 1 && i <= |contacts|
    ensures r.Some? ==> i <= r.value <= |contacts| && readFails(CursorAt(contacts, r.value))
    decreases |contacts| - i
  {
    if readFails(CursorAt(contacts, i)) then Some(i)
    else if pageSize > LIST_HARD_CAP + 1 || i + pageSize > |contacts| then None
    else BadRead(contacts, pageSize, readFails, i + pageSize)
  }

  lemma BadReadStep(contacts: seq<Contact>, pageSize: int, readFails: Option<Position> -> bool, i: nat)
    requires pageSize >= 1 && i <= |contacts|
    ensures BadRead(contacts, pageSize, readFails, i)
            == if readFails(CursorAt(contacts, i)) then Some(i)
               else if pageSize > LIST_HARD_CAP + 1 || i + pageSize > |contacts| then None
               else BadRead(contacts, pageSize, readFails, i + pageSize)
  {
  }

  /** The contacts the loop comes to read. */
  function Reading(contacts: seq<Contact>, pageSize: int, readFails: Option<Position> -> bool): seq<Contact>
    requires pageSize >= 1
  {
    var bad := BadRead(contacts, pageSize, readFails, 0);
    if bad.Some? then contacts[..bad.value] else Reached(contacts, pageSize)
  }

  lemma ReadingStarts(contacts: seq<Contact>, pageSize: int, readFails: Option<Position> -> bool)
    requires pageSize >= 1
    ensures Reading(contacts, pageSize, readFails) <= contacts
    ensures BadRead(contacts, pageSize, readFails, 0).Some? ==>
              |Reading(contacts, pageSize, readFails)| == BadRead(contacts, pageSize, readFails, 0).value
  {
  }

  function Verdict(d: Delivery): Option<Failure> {
    if d.failed then Some(EnqueueFailed) else if d.deferred > 0 then Some(NoticeRateLimited) else None
  }

  /** The part of a list the loop reads: all of it, unless a page larger than the store's cap comes back short. */
  function Reached(contacts: seq<Contact>, pageSize: int): seq<Contact> {
    if pageSize > LIST_HARD_CAP + 1 && |contacts| > LIST_HARD_CAP + 1 then contacts[..LIST_HARD_CAP + 1] else contacts
  }

  lemma PageLength(contacts: seq<Contact>, pageSize: int, i: nat)
    requires InOrder(contacts) && pageSize >= 1 && i <= |contacts|
    ensures var page := ContactPage(contacts, pageSize, CursorAt(contacts, i));
            && |page| == (if |contacts| - i <= Clamp(pageSize) then |contacts| - i else Clamp(pageSize))
            && (|page| > 0 ==> page[|page| - 1] == contacts[i + |page| - 1])
  {
    hide PageAfter, Ordered, Positions, Clamp;
    PageFrom(contacts, Positions(contacts), pageSize, i);
  }

  lemma PageIsSlice(contacts: seq<Contact>, pageSize: int, i: nat)
    requires InOrder(contacts) && pageSize >= 1 && i <= |contacts|
    ensures var page := ContactPage(contacts, pageSize, CursorAt(contacts, i));
            i + |page| <= |contacts| && page == contacts[i..i + |page|]
  {
    hide PageAfter, Ordered, Positions, Clamp;
    PageFrom(contacts, Positions(contacts), pageSize, i);
  }

  /** One turn of the loop: a short page is the last, a full one leads to the next read. */
  lemma NextPage(contacts: seq<Contact>, pageSize: int, readFails: Option<Position> -> bool, i: nat)
    requires InOrder(contacts) && pageSize >= 1 && i <= |Reading(contacts, pageSize, readFails)| <= |contacts|
    requires pageSize > LIST_HARD_CAP + 1 ==> i == 0
    requires BadRead(contacts, pageSize, readFails, i) == BadRead(contacts, pageSize, readFails, 0)
    requires !readFails(CursorAt(contacts, i))
    ensures var all := Reading(contacts, pageSize, readFails);
            var page := ContactPage(contacts, pageSize, CursorAt(contacts, i));
            && i + |page| <= |all|
            && (|page| < pageSize ==> i + |page| == |all| && BadRead(contacts, pageSize, readFails, 0).None?)
            && (|page| >= pageSize ==>
                  && |page| > 0 && CursorAt(contacts, i + |page|) == Some(page[|page| - 1].at)
                  && pageSize <= LIST_HARD_CAP + 1
                  && BadRead(contacts, pageSize, readFails, i + |page|) == BadRead(contacts, pageSize, readFails, 0))
  {
    hide ContactPage, Clamp, BadRead, InOrder;
    PageLength(contacts, pageSize, i);
    ClampOf(pageSize);
    BadReadStep(contacts, pageSize, readFails, i);
  }

  lemma ClampOf(limit: int)
    requires limit >= 1
    ensures Clamp(limit) == if limit > LIST_HARD_CAP + 1 then LIST_HARD_CAP + 1 else limit
  {
  }

  /** The delivery over the first i contacts of a list. */
  function MailFirst(s: Setup, n: Notice, now: nat, start: Delivery, all: seq<Contact>, i: nat, storeFails: Contact -> bool): Delivery
    requires i <= |all|
  {
    Mail(s, n, now, start, all[..i], storeFails)
  }

  lemma MailFirstEnds(s: Setup, n: Notice, now: nat, start: Delivery, all: seq<Contact>, storeFails: Contact -> bool)
    ensures MailFirst(s, n, now, start, all, 0, storeFails) == start
    ensures MailFirst(s, n, now, start, all, |all|, storeFails) == Mail(s, n, now, start, all, storeFails)
  {
    assert all[..|all|] == all;
  }

  /** The loop's next page takes the delivery over a prefix of the list to the delivery over a longer one. */
  lemma NextDelivery(s: Setup, n: Notice, now: nat, start: Delivery, contacts: seq<Contact>, pageSize: int, all: seq<Contact>,
                     i: nat, storeFails: Contact -> bool)
    requires InOrder(contacts) && pageSize >= 1 && all <= contacts && i <= |all|
    requires i + |ContactPage(contacts, pageSize, CursorAt(contacts, i))| <= |all|
    ensures var page := ContactPage(contacts, pageSize, CursorAt(contacts, i));
            Mail(s, n, now, MailFirst(s, n, now, start, all, i, storeFails), page, storeFails)
            == MailFirst(s, n, now, start, all, i + |page|, storeFails)
  {
    hide Mail, ContactPage, InOrder;
    PageIsSlice(contacts, pageSize, i);
    var page := ContactPage(contacts, pageSize, CursorAt(contacts, i));
    PrefixSlice(all, contacts, i, i + |page|);
    SlicesJoin(all, i, i + |page|);
    MailConcat(s, n, now, start, all[..i], page, storeFails);
  }

  lemma PrefixSlice<T>(a: seq<T>, b: seq<T>, i: nat, j: nat)
    requires a <= b && i <= j <= |a|
    ensures a[i..j] == b[i..j]
  {
  }

  /** A store failure inside a prefix is the failure of the whole list. */
  lemma FailureStops(s: Setup, n: Notice, now: nat, start: Delivery, i: nat, all: seq<Contact>,
                     storeFails: Contact -> bool)
    requires i <= |all| && MailFirst(s, n, now, start, all, i, storeFails).failed
    ensures Mail(s, n, now, start, all, storeFails) == MailFirst(s, n, now, start, all, i, storeFails)
  {
    assert all == all[..i] + all[i..];
    MailConcat(s, n, now, start, all[..i], all[i..], storeFails);
  }

  lemma {:induction false} MailableConcat(s: Setup, a: seq<Contact>, b: seq<Contact>)
    ensures MailableOf(s, a + b) == MailableOf(s, a) + MailableOf(s, b)
  {
    if a == [] {
      assert a + b == b;
    } else {
      MailableConcat(s, a[1..], b);
      TailOfConcat(a, b);
      ConcatAssociates(if Mailable(s, a[0]) then [a[0]] else [], MailableOf(s, a[1..]), MailableOf(s, b));
    }
  }

  lemma {:induction false} NoneMailable(s: Setup, contacts: seq<Contact>)
    ensures MailableOf(s, contacts) == [] <==> forall c :: c in contacts ==> !Mailable(s, c)
  {
    if contacts != [] {
      assert contacts == [contacts[0]] + contacts[1..];
      NoneMailable(s, contacts[1..]);
    }
  }

  /**
   * A delivery that no failure stops tries every mailable contact of the list, once and in order, exactly when its pages
   * fit the store's cap or nobody listed past the cap can be mailed.
   */
  lemma SendTriesAll(s: Setup, n: Notice, now: nat, l: Ledger, contacts: seq<Contact>, pageSize: int, storeFails: Contact -> bool)
    requires forall c :: c in contacts ==> !storeFails(c)
    ensures Mail(s, n, now, Delivery(l, 0, [], false), Reached(contacts, pageSize), storeFails).tried == MailableOf(s, contacts)
            <==> pageSize <= LIST_HARD_CAP + 1
                 || forall i :: LIST_HARD_CAP + 1 <= i < |contacts| ==> !Mailable(s, contacts[i])
  {
    var all := Reached(contacts, pageSize);
    EveryContactTried(s, n, now, Delivery(l, 0, [], false), all, storeFails);
    var rest := contacts[|all|..];
    assert contacts == all + rest;
    hide Mail, MailableOf, Mailable;
    MailableConcat(s, all, rest);
    NoneMailable(s, rest);
    assert [] + MailableOf(s, all) == MailableOf(s, all);
    assert forall i :: |all| <= i < |contacts| ==> contacts[i] == rest[i - |all|];
  }

  /** The recipient's budget has room for one more. */
  predicate HasRoom(s: Setup, n: Notice, now: nat, l: Ledger, c: Contact)
    requires Mailable(s, c)
  {
    Used(l.messages, KeyOf(s, n, RecipientOf(s, c)), s.budget, now) < s.budget.limit
  }

  /** The contacts a redelivery is to defer: not suppressed, and their budget used up. */
  function UsedUp(s: Setup, n: Notice, now: nat, l: Ledger, contacts: seq<Contact>): seq<Contact> {
    if contacts == [] then []
    else
      var c := contacts[0];
      (if Mailable(s, c) && RecipientOf(s, c) !in l.suppressed && !HasRoom(s, n, now, l, c) then [c] else [])
      + UsedUp(s, n, now, l, contacts[1..])
  }

  /**
   * Redelivering a notice to contacts who were all mailed leaves the ledger alone and defers exactly those whose budget
   * is used up, so it completes if and only if every one that is not suppressed has room.
   */
  lemma {:induction false} RedeliveryExactly(s: Setup, n: Notice, now: nat, d: Delivery, contacts: seq<Contact>,
                                             storeFails: Contact -> bool)
    requires !d.failed && forall c :: c in contacts ==> !storeFails(c)
    requires forall c :: c in contacts && Mailable(s, c) ==> d.ledger.Holds(KeyOf(s, n, RecipientOf(s, c)))
    ensures var e := Mail(s, n, now, d, contacts, storeFails);
            && !e.failed && e.ledger == d.ledger
            && e.deferred == d.deferred + |UsedUp(s, n, now, d.ledger, contacts)|
            && (d.deferred == 0 ==>
                  (Verdict(e) == None <==> forall c :: c in contacts && Mailable(s, c) && RecipientOf(s, c) !in d.ledger.suppressed ==>
                                             HasRoom(s, n, now, d.ledger, c)))
    decreases contacts
  {
    UsedUpNobody(s, n, now, d.ledger, contacts);
    if contacts != [] {
      RedeliveryStep(s, n, now, d, contacts[0], storeFails);
      RedeliveryExactly(s, n, now, MailOne(s, n, now, d, contacts[0], storeFails), contacts[1..], storeFails);
      hide MailOne, HasRoom;
    }
  }

  lemma RedeliveryStep(s: Setup, n: Notice, now: nat, d: Delivery, c: Contact, storeFails: Contact -> bool)
    requires !d.failed && !storeFails(c) && (Mailable(s, c) ==> d.ledger.Holds(KeyOf(s, n, RecipientOf(s, c))))
    ensures var e := MailOne(s, n, now, d, c, storeFails);
            && !e.failed && e.ledger == d.ledger
            && e.deferred == d.deferred
                 + if Mailable(s, c) && RecipientOf(s, c) !in d.ledger.suppressed && !HasRoom(s, n, now, d.ledger, c) then 1 else 0
  {
  }

  lemma {:induction false} UsedUpNobody(s: Setup, n: Notice, now: nat, l: Ledger, contacts: seq<Contact>)
    ensures UsedUp(s, n, now, l, contacts) == [] <==>
            forall c :: c in contacts && Mailable(s, c) && RecipientOf(s, c) !in l.suppressed ==> HasRoom(s, n, now, l, c)
  {
    hide HasRoom;
    if contacts != [] {
      assert contacts == [contacts[0]] + contacts[1..];
      UsedUpNobody(s, n, now, l, contacts[1..]);
    }
  }

  /** With a budget of one, redelivering in the same second a notice that reached its only contact is deferred again. */
  lemma RedeliveryDefersMailedContact(s: Setup, n: Notice, now: nat, c: Contact)
    requires Mailable(s, c) && s.budget.limit == 1 && 0 < now && s.budget.window > 0
    ensures var start := Delivery(Ledger([], {}), 0, [], false);
            var first := Mail(s, n, now, start, [c], x => false);
            var again := Mail(s, n, now, Delivery(first.ledger, 0, [], false), [c], x => false);
            && Verdict(first) == None && Settled(s, n, first.ledger, c)
            && Verdict(again) == Some(NoticeRateLimited) && again.ledger == first.ledger
  {
    var k := KeyOf(s, n, RecipientOf(s, c));
    var l := Ledger([Message(k, now)], {});
    assert Enqueue(Ledger([], {}), k, s.budget, now) == l;
    assert l.messages[0].key == k;
    assert Used(l.messages, k, s.budget, now) == 1;
    assert [c][1..] == [];
  }

  // ---------- the text ----------

  const MS_PER_DAY: int := 24 * 60 * 60 * 1000

  datatype Body = HasExpired | LessThanADay | About(days: int)

  function NoticeBody(notAfterMs: int, nowMs: int): Body {
    var remaining := notAfterMs - nowMs;
    if remaining <= 0 then HasExpired
    else if remaining < MS_PER_DAY then LessThanADay
    else About((remaining + MS_PER_DAY / 2) / MS_PER_DAY)
  }

  /** The stated number of days is the nearest whole number of days left, at least one; the other two sentences say less. */
  lemma BodyStatesTimeLeft(notAfterMs: int, nowMs: int)
    ensures var left := notAfterMs - nowMs;
            match NoticeBody(notAfterMs, nowMs)
            case HasExpired => left <= 0
            case LessThanADay => 0 < left < MS_PER_DAY
            case About(days) => days >= 1 && -MS_PER_DAY <= 2 * (left - days * MS_PER_DAY) < MS_PER_DAY
  {
  }

  // ---------- every run of deliveries, crashes and edits ----------

  datatype Phase =
    | Idle
    | Paging(after: Option<Position>)
    | Mailing(page: seq<Contact>, next: nat, last: Position, exhausted: bool)

  /**
   * `steady` are the contacts listed since the delivery began; `excused` the recipients that were suppressed when
   * this delivery reached them.
   */
  datatype System = System(live: set<Contact>, ledger: Ledger, phase: Phase, now: nat, deferred: nat,
                           steady: set<Contact>, excused: set<Recipient>)

  datatype Step =
    | Begin(now: nat)
    | ReadPage(page: seq<Contact>)
    | MailNext
    | FinishPage
    | Crash
    | AddContact(contact: Contact)
    | RemoveContact(contact: Contact)
    | Suppress(recipient: Recipient)
    | Unsuppress(recipient: Recipient)
    | OtherSend(key: Key, budget: Budget, at: nat)

  /** The page holds live contacts after the cursor, and misses one only when full and only behind its own. */
  ghost predicate IsPage(page: seq<Contact>, live: set<Contact>, after: Option<Position>, size: nat) {
    && |page| <= size
    && InOrder(page)
    && (forall i :: 0 <= i < |page| ==> page[i] in live && Beyond(page[i], after))
    && (forall c :: c in live && Beyond(c, after) && c !in page ==>
          |page| == size && forall i :: 0 <= i < |page| ==> Less(page[i].at, c.at))
  }

  ghost predicate Enabled(size: nat, s: System, step: Step) {
    match step
    case Begin(_) => s.phase.Idle?
    case ReadPage(page) => s.phase.Paging? && IsPage(page, s.live, s.phase.after, size)
    case MailNext => s.phase.Mailing? && s.phase.next < |s.phase.page|
    case FinishPage => s.phase.Mailing? && s.phase.next == |s.phase.page|
    case AddContact(c) => forall x :: x in s.live ==> x.at != c.at  // the identifier is part of the position
    case _ => true
  }

  ghost function Next(setup: Setup, n: Notice, size: nat, s: System, step: Step): System {
    if !Enabled(size, s, step) then s
    else
      match step
      case Begin(now) => s.(phase := Paging(None), now := now, deferred := 0, steady := s.live, excused := {})
      case ReadPage(page) =>
        if page == [] then s.(phase := Idle)
        else s.(phase := Mailing(page, 0, page[|page| - 1].at, |page| < size))
      case MailNext =>
        var c := s.phase.page[s.phase.next];
        var moved := s.(phase := s.phase.(next := s.phase.next + 1));
        if !Mailable(setup, c) then moved
        else
          var k := KeyOf(setup, n, RecipientOf(setup, c));
          var answer := Answer(s.ledger, k, setup.budget, s.now);
          moved.(ledger := Enqueue(s.ledger, k, setup.budget, s.now),
                 deferred := s.deferred + (if answer == RateLimited then 1 else 0),
                 excused := if answer == Suppressed then s.excused + {k.recipient} else s.excused)
      case FinishPage => s.(phase := if s.phase.exhausted then Idle else Paging(Some(s.phase.last)))
      case Crash => s.(phase := Idle)
      case AddContact(c) => s.(live := s.live + {c})
      case RemoveContact(c) => s.(live := s.live - {c}, steady := s.steady - {c})
      case Suppress(r) => s.(ledger := s.ledger.(suppressed := s.ledger.suppressed + {r}))
      case Unsuppress(r) => s.(ledger := s.ledger.(suppressed := s.ledger.suppressed - {r}))
      case OtherSend(k, b, at) => s.(ledger := Enqueue(s.ledger, k, b, at))
  }

  /** The step with which `send` returns Ok, provided nobody was deferred. */
  ghost predicate Completes(size: nat, s: System, step: Step) {
    && Enabled(size, s, step)
    && ((step.ReadPage? && step.page == []) || (step.FinishPage? && s.phase.exhausted))
  }

  /** The contact was told, or was suppressed when its turn came. */
  ghost predicate Told(setup: Setup, n: Notice, s: System, c: Contact)
    requires Mailable(setup, c)
  {
    s.ledger.Holds(KeyOf(setup, n, RecipientOf(setup, c))) || RecipientOf(setup, c) in s.excused
  }

  /** The delivery has still to come to the contact. */
  ghost predicate Ahead(p: Phase, c: Contact) {
    match p
    case Idle => false
    case Paging(after) => Beyond(c, after)
    case Mailing(page, next, last, exhausted) =>
      next <= |page| && (c in page[next..] || (!exhausted && Less(last, c.at)))
  }

  ghost predicate Inv(setup: Setup, n: Notice, s: System) {
    && s.ledger.Valid()
    && s.steady <= s.live
    && (s.phase.Mailing? ==> s.phase.next <= |s.phase.page|)
    && (!s.phase.Idle? ==>
          forall c :: c in s.steady && Mailable(setup, c) ==>
            s.deferred > 0 || Told(setup, n, s, c) || Ahead(s.phase, c))
  }

  ghost function Run(setup: Setup, n: Notice, size: nat, s: System, steps: seq<Step>): System
    decreases steps
  {
    if steps == [] then s else Run(setup, n, size, Next(setup, n, size, s, steps[0]), steps[1..])
  }

  /** What was told stays told: messages only accumulate. */
  lemma ToldStays(setup: Setup, n: Notice, s: System, t: System, c: Contact)
    requires Mailable(setup, c) && s.ledger.messages <= t.ledger.messages && s.excused <= t.excused
    requires Told(setup, n, s, c)
    ensures Told(setup, n, t, c)
  {
    var k := KeyOf(setup, n, RecipientOf(setup, c));
    if s.ledger.Holds(k) {
      HoldsMonotone(s.ledger, t.ledger, k);
    }
  }

  lemma MailNextKeepsInv(setup: Setup, n: Notice, size: nat, s: System)
    requires Inv(setup, n, s) && Enabled(size, s, MailNext)
    ensures Inv(setup, n, Next(setup, n, size, s, MailNext))
  {
    var t := Next(setup, n, size, s, MailNext);
    var page, i := s.phase.page, s.phase.next;
    if Mailable(setup, page[i]) {
      EnqueueKeepsValid(s.ledger, KeyOf(setup, n, RecipientOf(setup, page[i])), setup.budget, s.now);
    }
    forall c | c in t.steady && Mailable(setup, c)
      ensures t.deferred > 0 || Told(setup, n, t, c) || Ahead(t.phase, c)
    {
      if Told(setup, n, s, c) {
        ToldStays(setup, n, s, t, c);
      } else if Ahead(s.phase, c) && c in page[i..] && c != page[i] {
        assert page[i..] == [page[i]] + page[i + 1..];
      }
    }
  }

  lemma ReadPageKeepsInv(setup: Setup, n: Notice, size: nat, s: System, page: seq<Contact>)
    requires Inv(setup, n, s) && Enabled(size, s, ReadPage(page))
    ensures Inv(setup, n, Next(setup, n, size, s, ReadPage(page)))
  {
    var t := Next(setup, n, size, s, ReadPage(page));
    if page != [] {
      assert page[0..] == page;
      forall c | c in t.steady && Mailable(setup, c)
        ensures t.deferred > 0 || Told(setup, n, t, c) || Ahead(t.phase, c)
      {
        if Told(setup, n, s, c) {
          ToldStays(setup, n, s, t, c);
        } else if Ahead(s.phase, c) {
          assert c in s.live && Beyond(c, s.phase.after);
        }
      }
    }
  }

  /** Steps that leave the phase alone, and only add messages. */
  lemma SideStepKeepsInv(setup: Setup, n: Notice, s: System, t: System)
    requires Inv(setup, n, s)
    requires t.phase == s.phase && t.deferred == s.deferred && t.excused == s.excused
    requires t.ledger.Valid() && s.ledger.messages <= t.ledger.messages
    requires t.steady <= s.steady && t.steady <= t.live
    ensures Inv(setup, n, t)
  {
    forall c | c in t.steady && Mailable(setup, c) && !t.phase.Idle?
      ensures t.deferred > 0 || Told(setup, n, t, c) || Ahead(t.phase, c)
    {
      if Told(setup, n, s, c) {
        ToldStays(setup, n, s, t, c);
      }
    }
  }

  lemma StepKeepsInv(setup: Setup, n: Notice, size: nat, s: System, step: Step)
    requires Inv(setup, n, s)
    ensures Inv(setup, n, Next(setup, n, size, s, step))
    ensures s.ledger.messages <= Next(setup, n, size, s, step).ledger.messages
  {
    var t := Next(setup, n, size, s, step);
    if Enabled(size, s, step) {
      match step
      case ReadPage(page) => ReadPageKeepsInv(setup, n, size, s, page);
      case MailNext => MailNextKeepsInv(setup, n, size, s);
      case FinishPage => FinishPageKeepsInv(setup, n, size, s);
      case Begin(_) =>
      case Crash =>
      case OtherSend(k, b, at) =>
        EnqueueKeepsValid(s.ledger, k, b, at);
        SideStepKeepsInv(setup, n, s, t);
      case _ => SideStepKeepsInv(setup, n, s, t);
    }
  }

  lemma FinishPageKeepsInv(setup: Setup, n: Notice, size: nat, s: System)
    requires Inv(setup, n, s) && Enabled(size, s, FinishPage)
    ensures Inv(setup, n, Next(setup, n, size, s, FinishPage))
  {
    var t := Next(setup, n, size, s, FinishPage);
    forall c | c in t.steady && Mailable(setup, c) && !t.phase.Idle?
      ensures t.deferred > 0 || Told(setup, n, t, c) || Ahead(t.phase, c)
    {
      if Told(setup, n, s, c) {
        ToldStays(setup, n, s, t, c);
      }
    }
  }

  lemma {:induction false} RunKeepsInv(setup: Setup, n: Notice, size: nat, s: System, steps: seq<Step>)
    requires Inv(setup, n, s)
    ensures Inv(setup, n, Run(setup, n, size, s, steps))
    ensures s.ledger.messages <= Run(setup, n, size, s, steps).ledger.messages
    decreases steps
  {
    if steps != [] {
      StepKeepsInv(setup, n, size, s, steps[0]);
      RunKeepsInv(setup, n, size, Next(setup, n, size, s, steps[0]), steps[1..]);
    }
  }

  /** Before any delivery: some contacts, nobody mailed. */
  function Initial(live: set<Contact>, suppressed: set<Recipient>): System {
    System(live, Ledger([], suppressed), Idle, 0, 0, {}, {})
  }

  /** In every run of deliveries, crashes, redeliveries and edits no recipient is accepted twice under one key. */
  lemma NobodyMailedTwice(setup: Setup, n: Notice, size: nat, live: set<Contact>, suppressed: set<Recipient>,
                          steps: seq<Step>, i: nat, j: nat)
    requires var end := Run(setup, n, size, Initial(live, suppressed), steps); i < j < |end.ledger.messages|
    ensures var m := Run(setup, n, size, Initial(live, suppressed), steps).ledger.messages; m[i].key != m[j].key
  {
    RunKeepsInv(setup, n, size, Initial(live, suppressed), steps);
  }

  /**
   * In every run, when a delivery completes with nobody deferred, every mailable contact that was listed from its
   * beginning to its end is in the ledger under this notice's key, or was suppressed when its turn came.
   */
  lemma CompletionToldEveryone(setup: Setup, n: Notice, size: nat, live: set<Contact>, suppressed: set<Recipient>,
                               steps: seq<Step>, step: Step, c: Contact)
    requires var s := Run(setup, n, size, Initial(live, suppressed), steps);
             Completes(size, s, step) && s.deferred == 0 && c in s.steady
    requires size > 0
    ensures var s := Run(setup, n, size, Initial(live, suppressed), steps); ToldOf(s.ledger.messages, s.excused, setup, n, c)
  {
    RunKeepsInv(setup, n, size, Initial(live, suppressed), steps);
    var s := Run(setup, n, size, Initial(live, suppressed), steps);
    hide Run;
    if Mailable(setup, c) {
      assert Told(setup, n, s, c);
    }
  }

  /** Where the truncated digest separates two notices, mail accepted for one is not mail for the other. */
  lemma MailNamesItsNotice(setup: Setup, a: Notice, b: Notice, r: Recipient)
    requires Fits(a.lead) && Fits(b.lead)
    requires setup.head(Preimage(a)) == setup.head(Preimage(b)) ==> Preimage(a) == Preimage(b)
    ensures KeyOf(setup, a, r) == KeyOf(setup, b, r) <==> a == b
  {
    if KeyOf(setup, a, r) == KeyOf(setup, b, r) {
      PreimageInjective(a, b);
    }
  }

  // ---------- the steps of a run, and the loop they come from ----------

  /** Nothing but its own condition keeps a step from happening, and what it changes is what it is for. */
  lemma StepEffects(setup: Setup, n: Notice, size: nat, s: System, c: Contact, r: Recipient, k: Key, b: Budget, at: nat)
    ensures s.phase.Idle? ==>
              Next(setup, n, size, s, Begin(at)) == s.(phase := Paging(None), now := at, deferred := 0, steady := s.live, excused := {})
    ensures !s.phase.Idle? ==> Next(setup, n, size, s, Begin(at)) == s
    ensures Next(setup, n, size, s, Crash) == s.(phase := Idle)
    ensures (forall x :: x in s.live ==> x.at != c.at) ==> Next(setup, n, size, s, AddContact(c)) == s.(live := s.live + {c})
    ensures Next(setup, n, size, s, RemoveContact(c)) == s.(live := s.live - {c}, steady := s.steady - {c})
    ensures Next(setup, n, size, s, Suppress(r)).ledger == Ledger(s.ledger.messages, s.ledger.suppressed + {r})
    ensures Next(setup, n, size, s, Unsuppress(r)).ledger == Ledger(s.ledger.messages, s.ledger.suppressed - {r})
    ensures Next(setup, n, size, s, OtherSend(k, b, at)) == s.(ledger := Enqueue(s.ledger, k, b, at))
  {
  }

  function MailNexts(k: nat): (steps: seq<Step>)
    ensures |steps| == k && forall i :: 0 <= i < k ==> steps[i] == MailNext
  {
    seq(k, _ => MailNext)
  }

  /** Mailing some contacts of a page one step at a time does what the page loop does over them. */
  lemma {:induction false} StepsAreTheLoop(setup: Setup, n: Notice, size: nat, s: System, k: nat, d: Delivery)
    requires s.phase.Mailing? && s.phase.next + k <= |s.phase.page|
    requires d.ledger == s.ledger && d.deferred == s.deferred && !d.failed
    ensures var t := Run(setup, n, size, s, MailNexts(k));
            var e := Mail(setup, n, s.now, d, s.phase.page[s.phase.next..s.phase.next + k], x => false);
            && t.ledger == e.ledger && t.deferred == e.deferred && t.live == s.live && t.steady == s.steady
            && t.phase == s.phase.(next := s.phase.next + k)
    decreases k
  {
    var page, i := s.phase.page, s.phase.next;
    if k > 0 {
      OneStep(setup, n, size, s, d);
      hide Next, MailOne;
      var t := Next(setup, n, size, s, MailNext);
      var e := MailOne(setup, n, s.now, d, page[i], x => false);
      StepsAreTheLoop(setup, n, size, t, k - 1, e);
      var now := page[i..i + k];
      assert now[0] == page[i] && now[1..] == page[i + 1..i + 1 + (k - 1)];
      assert MailNexts(k)[0] == MailNext && MailNexts(k)[1..] == MailNexts(k - 1);
    }
  }

  lemma OneStep(setup: Setup, n: Notice, size: nat, s: System, d: Delivery)
    requires s.phase.Mailing? && s.phase.next < |s.phase.page| && d.ledger == s.ledger && d.deferred == s.deferred && !d.failed
    ensures var t := Next(setup, n, size, s, MailNext);
            var e := MailOne(setup, n, s.now, d, s.phase.page[s.phase.next], x => false);
            && t.ledger == e.ledger && t.deferred == e.deferred && !e.failed
            && t.live == s.live && t.steady == s.steady && t.now == s.now && t.phase == s.phase.(next := s.phase.next + 1)
  {
    hide Answer, Enqueue;
  }

  /** The rows a listing skips are those at or before the cursor. */
  lemma {:induction false} SkippedSplits(contacts: seq<Contact>, at: seq<Position>, after: Option<Position>, i: nat)
    requires |at| == |contacts| && (forall k :: 0 <= k < |at| ==> at[k] == contacts[k].at) && Ordered(at) && i < |contacts|
    ensures Beyond(contacts[i], after) <==> i >= Skipped(at, after)
    decreases at
  {
    if !(after.None? || Less(after.value, at[0])) {
      if i > 0 {
        SkippedSplits(contacts[1..], at[1..], after, i - 1);
      }
    } else if i > 0 {
      assert Less(at[0], at[i]);
    }
  }

  /** What is left of a listing behind a cursor. */
  function Remaining(all: seq<Contact>, after: Option<Position>): seq<Contact> {
    all[Skipped(Positions(all), after)..]
  }

  lemma RemainingExactly(all: seq<Contact>, after: Option<Position>)
    requires InOrder(all)
    ensures InOrder(Remaining(all, after))
    ensures forall c :: c in Remaining(all, after) <==> c in all && Beyond(c, after)
  {
    hide Skipped, Beyond, Remaining, InOrder;
    RemainingInOrder(all, after);
    forall c ensures c in Remaining(all, after) <==> c in all && Beyond(c, after) {
      RemainingMember(all, after, c);
    }
  }

  lemma RemainingInOrder(all: seq<Contact>, after: Option<Position>)
    requires InOrder(all)
    ensures InOrder(Remaining(all, after))
  {
    hide Skipped;
    var from := Skipped(Positions(all), after);
    assert Positions(Remaining(all, after)) == Positions(all)[from..];
    OrderedSuffix(Positions(all), from);
  }

  lemma OrderedSuffix(at: seq<Position>, from: nat)
    requires Ordered(at) && from <= |at|
    ensures Ordered(at[from..])
  {
    hide Less;
    var rest := at[from..];
    forall i, j | 0 <= i < j < |rest| ensures Less(rest[i], rest[j]) {
      assert Less(at[from + i], at[from + j]);
    }
  }

  lemma RemainingMember(all: seq<Contact>, after: Option<Position>, c: Contact)
    requires InOrder(all)
    ensures c in Remaining(all, after) <==> c in all && Beyond(c, after)
  {
    hide Skipped, Beyond, Less;
    var at, rest := Positions(all), Remaining(all, after);
    var from := Skipped(at, after);
    forall i | 0 <= i < |all| ensures Beyond(all[i], after) <==> i >= from {
      SkippedSplits(all, at, after, i);
    }
    if c in rest {
      var i :| 0 <= i < |rest| && rest[i] == c;
      assert all[from + i] == c;
    }
    if c in all && Beyond(c, after) {
      var i :| 0 <= i < |all| && all[i] == c;
      assert rest[i - from] == c;
    }
  }

  /** A page of a run is exactly the store's page of the listing: the two descriptions agree. */
  lemma PageIsListed(all: seq<Contact>, page: seq<Contact>, live: set<Contact>, after: Option<Position>, size: nat)
    requires InOrder(all) && size <= LIST_HARD_CAP + 1 && live == set c | c in all
    ensures IsPage(page, live, after, size) <==> page == ContactPage(all, size, after)
  {
    RemainingExactly(all, after);
    var rest := Remaining(all, after);
    var m := if |rest| <= size then |rest| else size;
    assert ContactPage(all, size, after) == rest[..m];
    hide Remaining, ContactPage, Beyond;
    FirstIsPage(rest, live, after, size, all);
    if IsPage(page, live, after, size) {
      PageIsFirst(rest, page, live, after, size);
    }
  }

  lemma FirstIsPage(rest: seq<Contact>, live: set<Contact>, after: Option<Position>, size: nat, all: seq<Contact>)
    requires InOrder(rest) && (forall c :: c in rest <==> c in live && Beyond(c, after))
    ensures IsPage(rest[..if |rest| <= size then |rest| else size], live, after, size)
  {
    hide Beyond;
    var m := if |rest| <= size then |rest| else size;
    var page := rest[..m];
    forall c | c in live && Beyond(c, after) && c !in page
      ensures |page| == size && forall i :: 0 <= i < |page| ==> Less(page[i].at, c.at)
    {
      var j :| 0 <= j < |rest| && rest[j] == c;
      assert forall i :: 0 <= i < m ==> page[i] == rest[i];
      assert forall i :: 0 <= i < m ==> Less(Positions(rest)[i], Positions(rest)[j]);
    }
    assert forall i, j :: 0 <= i < j < m ==> Less(Positions(rest)[i], Positions(rest)[j]);
  }

  lemma PageIsFirst(rest: seq<Contact>, page: seq<Contact>, live: set<Contact>, after: Option<Position>, size: nat)
    requires InOrder(rest) && (forall c :: c in rest <==> c in live && Beyond(c, after)) && IsPage(page, live, after, size)
    ensures page == rest[..if |rest| <= size then |rest| else size]
  {
    hide Beyond;
    forall i | 0 <= i < |page| ensures i < |rest| && page[i] == rest[i] {
      PageAt(rest, page, live, after, size, i);
    }
    if page != [] {
      PageAt(rest, page, live, after, size, |page| - 1);
    }
    assert page == rest[..|page|];
    if |page| < |rest| {
      NotAmong(rest, |page|);
      assert rest[|page|] in rest;
    }
  }

  lemma NotAmong(rest: seq<Contact>, i: nat)
    requires InOrder(rest) && i < |rest|
    ensures rest[i] !in rest[..i]
  {
    assert forall k :: 0 <= k < i ==> Less(Positions(rest)[k], Positions(rest)[i]);
  }

  lemma {:induction false} PageAt(rest: seq<Contact>, page: seq<Contact>, live: set<Contact>, after: Option<Position>, size: nat, i: nat)
    requires InOrder(rest) && (forall c :: c in rest <==> c in live && Beyond(c, after)) && IsPage(page, live, after, size) && i < |page|
    ensures i < |rest| && page[i] == rest[i]
    decreases i
  {
    hide Beyond;
    forall k | 0 <= k < i ensures k < |rest| && page[k] == rest[k] {
      PageAt(rest, page, live, after, size, k);
    }
    assert page[i] in rest;
    var j :| 0 <= j < |rest| && rest[j] == page[i];
    NoneSkipped(rest, page, i, j);
    assert rest[i] in rest;
  }

  /** In two orderings that agree so far, the row the second takes next is the first's next, or the second never takes that. */
  lemma NoneSkipped(rest: seq<Contact>, page: seq<Contact>, i: nat, j: nat)
    requires InOrder(rest) && InOrder(page) && i < |page| && j < |rest| && rest[j] == page[i]
    requires forall k :: 0 <= k < i ==> k < |rest| && page[k] == rest[k]
    ensures i <= j
    ensures i < j ==> rest[i] !in page && !Less(page[i].at, rest[i].at)
  {
    assert forall k :: 0 <= k < i ==> Less(Positions(page)[k], Positions(page)[i]);
    if i < j {
      assert Less(Positions(rest)[i], Positions(rest)[j]);
      forall k | 0 <= k < |page| ensures page[k] != rest[i] {
        if k < i {
          assert Less(Positions(rest)[k], Positions(rest)[i]);
        } else if k > i {
          assert Less(Positions(page)[i], Positions(page)[k]);
        }
      }
    }
  }
}
