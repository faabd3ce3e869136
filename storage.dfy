/**
 * `DatabaseStorage`: the queries, as functions of the table contents, and the
 * class that holds the four tables and performs the inserts and updates.
 */
module Storage {
  import opened Options
  import opened Queries
  import opened Schema
  import Encoding

  /** A constraint violation reported by the database, which the handlers turn into a 400 answer. */
  datatype DbError = UniqueViolation(constraint: string) | ForeignKeyViolation(table: string, constraint: string)

  function DbErrorText(e: DbError): string {
    match e
    case UniqueViolation(c) => "duplicate key value violates unique constraint \"" + c + "\""
    case ForeignKeyViolation(t, c) => "insert or update on table \"" + t + "\" violates foreign key constraint \"" + c + "\""
  }

  /** The two errors `deleteMessage` throws. */
  datatype DeleteError = MessageNotFound | Unauthorized

  function DeleteErrorText(e: DeleteError): string {
    match e
    case MessageNotFound => "Message not found"
    case Unauthorized => "Unauthorized"
  }

  // ---------------------------------------------------------------- users

  function GetUser(users: seq<User>, id: Id): (r: Option<User>)
    ensures r.Some? ==> r.value in users && r.value.id == id
    ensures r.None? <==> !UserExists(users, id)
  {
    First(users, (u: User) => u.id == id)
  }

  function GetUserByEmail(users: seq<User>, email: string): (r: Option<User>)
    ensures r.Some? ==> r.value in users && r.value.email == email
    ensures r.None? <==> forall u :: u in users ==> u.email != email
  {
    First(users, (u: User) => u.email == email)
  }

  function GetUserByUsername(users: seq<User>, username: string): (r: Option<User>)
    ensures r.Some? ==> r.value in users && r.value.username == username
    ensures r.None? <==> forall u :: u in users ==> u.username != username
  {
    First(users, (u: User) => u.username == username)
  }

  function GetUserByInvitationCode(users: seq<User>, code: string): (r: Option<User>)
    ensures r.Some? ==> r.value in users && r.value.invitationCode == code
    ensures r.None? <==> forall u :: u in users ==> u.invitationCode != code
  {
    First(users, (u: User) => u.invitationCode == code)
  }

  // ---------------------------------------------------- verification codes

  /** A row that `getVerificationCode(email, code)` may return: matching, and not yet used. Expiry is not looked at. */
  predicate Redeemable(c: VerificationCode, email: string, code: string) {
    c.email == email && c.code == code && !c.used
  }

  function GetVerificationCode(codes: seq<VerificationCode>, email: string, code: string): (r: Option<VerificationCode>)
    ensures r.Some? ==> r.value in codes && Redeemable(r.value, email, code)
    ensures r.None? <==> forall c :: c in codes ==> !Redeemable(c, email, code)
  {
    First(codes, (c: VerificationCode) => Redeemable(c, email, code))
  }

  /** The table after `update verificationCodes set used = true where id = id`. */
  function MarkUsed(codes: seq<VerificationCode>, id: Id): (r: seq<VerificationCode>)
    ensures |r| == |codes|
    ensures forall i :: 0 <= i < |r| ==> r[i].used == (codes[i].used || codes[i].id == id)
    ensures forall i :: 0 <= i < |r| ==> r[i].(used := codes[i].used) == codes[i]
  {
    seq(|codes|, i requires 0 <= i < |codes| => if codes[i].id == id then codes[i].(used := true) else codes[i])
  }

  /**
   * Redemption consumes the row it found: afterwards no lookup returns that
   * row again, and replaying the same (email, code) fails exactly when that
   * row was the only unused match.
   */
  lemma ConsumedCodeNotReturned(codes: seq<VerificationCode>, email: string, code: string)
    requires Pairwise(codes, DistinctCodes)
    requires GetVerificationCode(codes, email, code).Some?
    ensures var vc := GetVerificationCode(codes, email, code).value;
            var replay := GetVerificationCode(MarkUsed(codes, vc.id), email, code);
            && (replay.Some? ==> replay.value.id != vc.id)
            && (replay.None? <==> forall c :: c in codes && Redeemable(c, email, code) ==> c.id == vc.id)
  {
    var vc := GetVerificationCode(codes, email, code).value;
    var after := MarkUsed(codes, vc.id);
    var replay := GetVerificationCode(after, email, code);
    if replay.Some? {
      var k :| 0 <= k < |after| && after[k] == replay.value;
      assert codes[k].id != vc.id;
      assert codes[k] == after[k] && codes[k] in codes;
    }
    if replay.None? {
      forall c | c in codes && Redeemable(c, email, code) ensures c.id == vc.id {
        var k :| 0 <= k < |codes| && codes[k] == c;
        assert after[k] in after;
      }
    } else {
      var k :| 0 <= k < |after| && after[k] == replay.value;
      assert codes[k] in codes && Redeemable(codes[k], email, code) && codes[k].id != vc.id;
    }
  }

  // -------------------------------------------------------------- contacts

  function GetContacts(contacts: seq<Contact>, userId: Id): (r: seq<Contact>)
    ensures forall c :: multiset(r)[c] == if c.userId == userId then multiset(contacts)[c] else 0
  {
    Where(contacts, (c: Contact) => c.userId == userId)
  }

  /** A contact edge together with the peer's user row, as the inner join produces it. */
  datatype ContactWithUser = ContactWithUser(id: Id, userId: Id, contactId: Id, createdAt: Time, contact: User)

  function Joined(c: Contact, u: User): ContactWithUser {
    ContactWithUser(c.id, c.userId, c.contactId, c.createdAt, u)
  }

  /** The edge columns of a joined row, without the peer. */
  function EdgeOf(e: ContactWithUser): Contact {
    Contact(e.id, e.userId, e.contactId, e.createdAt)
  }

  function Edges(r: seq<ContactWithUser>): seq<Contact> {
    if r == [] then [] else [EdgeOf(r[0])] + Edges(r[1..])
  }

  /**
   * What the inner join keeps of the edge table: the edges leaving `userId`
   * whose peer has a user row, in table order.
   */
  function OutgoingEdges(contacts: seq<Contact>, users: seq<User>, userId: Id): seq<Contact> {
    Where(contacts, (c: Contact) => c.userId == userId && UserExists(users, c.contactId))
  }

  /**
   * The caller's outgoing edges joined with the peer (`innerJoin(users, contactId = users.id)`):
   * one row per outgoing edge whose peer exists, in table order, each carrying that peer's row.
   */
  function GetContactWithUser(contacts: seq<Contact>, users: seq<User>, userId: Id): (r: seq<ContactWithUser>)
    ensures Edges(r) == OutgoingEdges(contacts, users, userId)
    ensures forall e :: e in r ==>
      && e.userId == userId
      && Contact(e.id, e.userId, e.contactId, e.createdAt) in contacts
      && e.contact in users && e.contact.id == e.contactId
    ensures forall c :: c in contacts && c.userId == userId && UserExists(users, c.contactId) ==>
      exists u :: u in users && Joined(c, u) in r
    decreases |contacts|
  {
    if contacts == [] then []
    else
      var c := contacts[0];
      var rest := GetContactWithUser(contacts[1..], users, userId);
      assert forall x :: x in contacts <==> x == c || x in contacts[1..];
      OutgoingEdgesStep(contacts, users, userId);
      if c.userId == userId then
        match GetUser(users, c.contactId)
        case Some(u) =>
          EdgesStep(Joined(c, u), rest);
          [Joined(c, u)] + rest
        case None => rest
      else rest
  }

  /** Helper: OutgoingEdges one row at a time. */
  lemma OutgoingEdgesStep(contacts: seq<Contact>, users: seq<User>, userId: Id)
    requires contacts != []
    ensures OutgoingEdges(contacts, users, userId) ==
      (if contacts[0].userId == userId && UserExists(users, contacts[0].contactId) then [contacts[0]] else [])
      + OutgoingEdges(contacts[1..], users, userId)
  {
  }

  /** Helper: Edges of a row put in front. */
  lemma EdgesStep(e: ContactWithUser, rest: seq<ContactWithUser>)
    ensures Edges([e] + rest) == [EdgeOf(e)] + Edges(rest)
  {
    assert ([e] + rest)[1..] == rest;
  }

  /** True iff the directed edge userId -> contactId is stored. */
  function CheckContactExists(contacts: seq<Contact>, userId: Id, contactId: Id): (r: bool)
    ensures r <==> exists c :: c in contacts && c.userId == userId && c.contactId == contactId
  {
    First(contacts, (c: Contact) => c.userId == userId && c.contactId == contactId).Some?
  }

  /** Inserting one edge makes the edge test true for that edge's pair and changes it for no other pair. */
  lemma CheckAfterInsert(contacts: seq<Contact>, edge: Contact, a: Id, b: Id)
    ensures CheckContactExists(contacts + [edge], a, b) ==
            (CheckContactExists(contacts, a, b) || (edge.userId == a && edge.contactId == b))
  {
    var after := contacts + [edge];
    if CheckContactExists(after, a, b) {
      var c :| c in after && c.userId == a && c.contactId == b;
      assert c in contacts || c == edge;
    }
    if CheckContactExists(contacts, a, b) {
      var c :| c in contacts && c.userId == a && c.contactId == b;
      assert c in after;
    }
    assert edge in after;
  }

  /** The edge test is directed: the edge b -> a alone does not give a -> b. */
  lemma ContactsAreDirected(a: Id, b: Id, edge: Contact)
    requires a != b && edge.userId == b && edge.contactId == a
    ensures CheckContactExists([edge], b, a)
    ensures !CheckContactExists([edge], a, b)
  {
    assert edge in [edge];
  }

  // -------------------------------------------------------------- messages

  /** The visibility filter of `getMessages(userId, contactId)`, for the viewer `userId`. */
  predicate Visible(m: Message, userId: Id, contactId: Id) {
    || (m.senderId == userId && m.receiverId == contactId && !m.deletedForSender)
    || (m.senderId == contactId && m.receiverId == userId && !m.deletedForReceiver)
  }

  ghost predicate SortedBySentAt(s: seq<Message>) {
    forall i, j :: 0 <= i < j < |s| ==> s[i].sentAt <= s[j].sentAt
  }

  /** Places `m` before the first row that is not sent earlier, so ties keep their table order. */
  function InsertBySentAt(m: Message, s: seq<Message>): (r: seq<Message>)
    requires SortedBySentAt(s)
    ensures SortedBySentAt(r)
    ensures multiset(r) == multiset(s) + multiset{m}
  {
    if s == [] || m.sentAt <= s[0].sentAt then [m] + s
    else
      var rest := InsertBySentAt(m, s[1..]);
      HeadPrecedes(m, s, rest);
      [s[0]] + rest
  }

  /** Helper: the head of a sorted list goes before a sorted rearrangement of its tail plus a later row. */
  lemma HeadPrecedes(m: Message, s: seq<Message>, rest: seq<Message>)
    requires SortedBySentAt(s) && s != [] && s[0].sentAt < m.sentAt
    requires SortedBySentAt(rest) && multiset(rest) == multiset(s[1..]) + multiset{m}
    ensures SortedBySentAt([s[0]] + rest)
    ensures multiset([s[0]] + rest) == multiset(s) + multiset{m}
  {
    assert s == [s[0]] + s[1..];
    forall j | 0 <= j < |rest| ensures s[0].sentAt <= rest[j].sentAt {
      var x := rest[j];
      assert x in multiset(rest);
      if x != m {
        assert x in multiset(s[1..]);
        var k :| 0 <= k < |s[1..]| && s[1..][k] == x;
        assert s[k + 1] == x;
      }
    }
    var r := [s[0]] + rest;
    forall i, j | 0 <= i < j < |r| ensures r[i].sentAt <= r[j].sentAt {
      if i == 0 {
        assert r[j] == rest[j - 1];
      } else {
        assert r[i] == rest[i - 1] && r[j] == rest[j - 1];
      }
    }
  }

  /** `orderBy(sentAt)`: ascending send time, ties in table order. */
  function SortBySentAt(s: seq<Message>): (r: seq<Message>)
    ensures SortedBySentAt(r)
    ensures multiset(r) == multiset(s)
  {
    if s == [] then []
    else
      assert s == [s[0]] + s[1..];
      InsertBySentAt(s[0], SortBySentAt(s[1..]))
  }

  /** The conversation the viewer `userId` sees with `contactId`: exactly the visible rows, by send time. */
  function GetMessages(messages: seq<Message>, userId: Id, contactId: Id): (r: seq<Message>)
    ensures SortedBySentAt(r)
    ensures forall m :: multiset(r)[m] == if Visible(m, userId, contactId) then multiset(messages)[m] else 0
    ensures forall m :: m in r <==> m in messages && Visible(m, userId, contactId)
  {
    var r := SortBySentAt(Where(messages, (m: Message) => Visible(m, userId, contactId)));
    assert forall m :: m in r <==> m in multiset(r);
    r
  }

  function FindMessage(messages: seq<Message>, id: Id): (r: Option<Message>)
    ensures r.Some? ==> r.value in messages && r.value.id == id
    ensures r.None? <==> forall m :: m in messages ==> m.id != id
  {
    First(messages, (m: Message) => m.id == id)
  }

  /** The table after `update messages set deletedForSender (or deletedForReceiver) = true where id = id`. */
  function SetDeleted(messages: seq<Message>, id: Id, forSender: bool): (r: seq<Message>)
    ensures |r| == |messages|
    ensures forall k :: 0 <= k < |r| ==>
      r[k].(deletedForSender := messages[k].deletedForSender, deletedForReceiver := messages[k].deletedForReceiver) == messages[k]
    ensures forall k :: 0 <= k < |r| ==>
      r[k].deletedForSender == (messages[k].deletedForSender || (forSender && messages[k].id == id))
    ensures forall k :: 0 <= k < |r| ==>
      r[k].deletedForReceiver == (messages[k].deletedForReceiver || (!forSender && messages[k].id == id))
  {
    seq(|messages|, k requires 0 <= k < |messages| =>
      if messages[k].id != id then messages[k]
      else if forSender then messages[k].(deletedForSender := true)
      else messages[k].(deletedForReceiver := true))
  }

  /** `deleteMessage(messageId, userId)` as a function of the table: the new table, or the error thrown. */
  function SoftDelete(messages: seq<Message>, messageId: Id, userId: Id): (r: Result<seq<Message>, DeleteError>)
    ensures r == Err(MessageNotFound) <==> forall m :: m in messages ==> m.id != messageId
  {
    match FindMessage(messages, messageId)
    case None => Err(MessageNotFound)
    case Some(m) =>
      if m.senderId == userId then Ok(SetDeleted(messages, messageId, true))
      else if m.receiverId == userId then Ok(SetDeleted(messages, messageId, false))
      else Err(Unauthorized)
  }

  /**
   * What deleting the message at index i does: the sender sets only
   * `deletedForSender`, else the receiver sets only `deletedForReceiver`,
   * anyone else is refused; no other row and no other column changes.
   */
  lemma SoftDeleteEffect(messages: seq<Message>, i: nat, userId: Id)
    requires Pairwise(messages, DistinctMessages)
    requires i < |messages|
    ensures var m := messages[i];
            var r := SoftDelete(messages, m.id, userId);
            && (m.senderId != userId && m.receiverId != userId <==> r == Err(Unauthorized))
            && (r.Ok? ==>
                  && |r.value| == |messages|
                  && r.value[i] == (if m.senderId == userId then m.(deletedForSender := true) else m.(deletedForReceiver := true))
                  && forall k :: 0 <= k < |messages| && k != i ==> r.value[k] == messages[k])
  {
    var m := messages[i];
    var found := FindMessage(messages, m.id);
    assert m in messages;
    var j :| 0 <= j < |messages| && messages[j] == found.value;
    MessageIndexUnique(messages, j, i);
    forall k | 0 <= k < |messages| ensures k != i ==> messages[k].id != m.id {
      MessageIndexUnique(messages, k, i);
    }
  }

  /** Setting deletion flags keeps message ids, so it keeps the primary key. */
  lemma SetDeletedKeepsKeys(messages: seq<Message>, id: Id, forSender: bool)
    requires Pairwise(messages, DistinctMessages)
    ensures Pairwise(SetDeleted(messages, id, forSender), DistinctMessages)
  {
    var r := SetDeleted(messages, id, forSender);
    forall a, b | 0 <= a < b < |r| ensures DistinctMessages(r[a], r[b]) {
      assert r[a].id == messages[a].id && r[b].id == messages[b].id;
      assert DistinctMessages(messages[a], messages[b]);
    }
  }

  /** Deleting again, by the same party, changes nothing and does not fail. */
  lemma SoftDeleteIdempotent(messages: seq<Message>, messageId: Id, userId: Id)
    requires Pairwise(messages, DistinctMessages)
    requires SoftDelete(messages, messageId, userId).Ok?
    ensures var once := SoftDelete(messages, messageId, userId).value;
            SoftDelete(once, messageId, userId) == Ok(once)
  {
    var m := FindMessage(messages, messageId).value;
    var forSender := m.senderId == userId;
    var once := SetDeleted(messages, messageId, forSender);
    assert SoftDelete(messages, messageId, userId).value == once;
    FoundAfterSetDeleted(messages, messageId, forSender);
    SetDeletedTwice(messages, messageId, forSender);
  }

  /** Helper: after setting a flag, the lookup by id finds a row with the same sender and receiver. */
  lemma FoundAfterSetDeleted(messages: seq<Message>, id: Id, forSender: bool)
    requires Pairwise(messages, DistinctMessages)
    requires FindMessage(messages, id).Some?
    ensures var again := FindMessage(SetDeleted(messages, id, forSender), id);
            && again.Some?
            && again.value.senderId == FindMessage(messages, id).value.senderId
            && again.value.receiverId == FindMessage(messages, id).value.receiverId
  {
    var m := FindMessage(messages, id).value;
    var i :| 0 <= i < |messages| && messages[i] == m;
    var once := SetDeleted(messages, id, forSender);
    SetDeletedKeepsKeys(messages, id, forSender);
    assert once[i] in once;
    var again := FindMessage(once, id).value;
    var j :| 0 <= j < |once| && once[j] == again;
    MessageIndexUnique(once, j, i);
  }

  /** Helper: setting the same flag twice is setting it once. */
  lemma SetDeletedTwice(messages: seq<Message>, id: Id, forSender: bool)
    ensures var once := SetDeleted(messages, id, forSender);
            SetDeleted(once, id, forSender) == once
  {
    var once := SetDeleted(messages, id, forSender);
    var twice := SetDeleted(once, id, forSender);
    forall k | 0 <= k < |once| ensures twice[k] == once[k] {
      assert twice[k].deletedForSender == once[k].deletedForSender;
      assert twice[k].deletedForReceiver == once[k].deletedForReceiver;
    }
  }

  function IdsOf(s: seq<Message>): set<Id> {
    set m | m in s :: m.id
  }

  /**
   * A soft delete hides the message from the deleting party's conversation
   * view only: the peer's view keeps exactly the messages it had.
   */
  lemma DeleteHidesOnlyFromRequester(messages: seq<Message>, i: nat, requester: Id)
    requires Pairwise(messages, DistinctMessages)
    requires i < |messages|
    requires messages[i].senderId != messages[i].receiverId
    requires SoftDelete(messages, messages[i].id, requester).Ok?
    ensures var m := messages[i];
            var after := SoftDelete(messages, m.id, requester).value;
            var peer := if requester == m.senderId then m.receiverId else m.senderId;
            && IdsOf(GetMessages(after, requester, peer)) == IdsOf(GetMessages(messages, requester, peer)) - {m.id}
            && IdsOf(GetMessages(after, peer, requester)) == IdsOf(GetMessages(messages, peer, requester))
  {
    var m := messages[i];
    SoftDeleteEffect(messages, i, requester);
    var after := SoftDelete(messages, m.id, requester).value;
    var peer := if requester == m.senderId then m.receiverId else m.senderId;
    assert requester == m.senderId || requester == m.receiverId;
    assert forall k :: 0 <= k < |messages| && k != i ==> messages[k].id != m.id by {
      forall k | 0 <= k < |messages| && k != i ensures messages[k].id != m.id {
        if k < i { assert DistinctMessages(messages[k], messages[i]); }
        else { assert DistinctMessages(messages[i], messages[k]); }
      }
    }
    assert !Visible(after[i], requester, peer);
    assert Visible(after[i], peer, requester) == Visible(m, peer, requester);
    ViewAfterRowChange(messages, after, i, requester, peer);
    ViewAfterRowChange(messages, after, i, peer, requester);
  }

  /** Helper: changing row i only moves row i's id in or out of a view. */
  lemma ViewAfterRowChange(before: seq<Message>, after: seq<Message>, i: nat, u: Id, c: Id)
    requires |before| == |after| && i < |before| && after[i].id == before[i].id
    requires forall k :: 0 <= k < |before| && k != i ==> after[k] == before[k] && before[k].id != before[i].id
    ensures !Visible(after[i], u, c) ==>
      IdsOf(GetMessages(after, u, c)) == IdsOf(GetMessages(before, u, c)) - {before[i].id}
    ensures Visible(after[i], u, c) == Visible(before[i], u, c) ==>
      IdsOf(GetMessages(after, u, c)) == IdsOf(GetMessages(before, u, c))
  {
    ViewIdsAreVisibleIds(before, u, c);
    ViewIdsAreVisibleIds(after, u, c);
    VisibleIdsOutside(before, after, i, u, c);
    SameOutside(VisibleIds(after, u, c), VisibleIds(before, u, c), before[i].id);
  }

  /** Helper: two sets that agree off one element. */
  lemma SameOutside(a: set<Id>, b: set<Id>, x: Id)
    requires a - {x} == b - {x}
    ensures x !in a ==> a == b - {x}
    ensures (x in a <==> x in b) ==> a == b
  {
    if x !in a {
      assert a == a - {x};
    }
    if x in a <==> x in b {
      forall y | y in a ensures y in b {
        if y != x { assert y in a - {x}; }
      }
      forall y | y in b ensures y in a {
        if y != x { assert y in b - {x}; }
      }
    }
  }

  /** The ids of the rows of `ms` that `u` sees in the conversation with `c`. */
  function VisibleIds(ms: seq<Message>, u: Id, c: Id): set<Id> {
    set k | 0 <= k < |ms| && Visible(ms[k], u, c) :: ms[k].id
  }

  /** Helper: the conversation view holds exactly the visible ids. */
  lemma ViewIdsAreVisibleIds(ms: seq<Message>, u: Id, c: Id)
    ensures IdsOf(GetMessages(ms, u, c)) == VisibleIds(ms, u, c)
  {
    var v := GetMessages(ms, u, c);
    forall y | y in IdsOf(v) ensures y in VisibleIds(ms, u, c) {
      var x :| x in v && x.id == y;
      var k :| 0 <= k < |ms| && ms[k] == x;
    }
    forall y | y in VisibleIds(ms, u, c) ensures y in IdsOf(v) {
      var k :| 0 <= k < |ms| && Visible(ms[k], u, c) && ms[k].id == y;
      assert ms[k] in v;
    }
  }

  /** Helper: two tables equal except at row i see the same ids, except possibly row i's. */
  lemma VisibleIdsOutside(before: seq<Message>, after: seq<Message>, i: nat, u: Id, c: Id)
    requires |before| == |after| && i < |before| && after[i].id == before[i].id
    requires forall k :: 0 <= k < |before| && k != i ==> after[k] == before[k] && before[k].id != before[i].id
    ensures VisibleIds(after, u, c) - {before[i].id} == VisibleIds(before, u, c) - {before[i].id}
    ensures before[i].id in VisibleIds(after, u, c) <==> Visible(after[i], u, c)
    ensures before[i].id in VisibleIds(before, u, c) <==> Visible(before[i], u, c)
  {
    var id := before[i].id;
    forall y | y in VisibleIds(after, u, c) && y != id ensures y in VisibleIds(before, u, c) {
      var k :| 0 <= k < |after| && Visible(after[k], u, c) && after[k].id == y;
    }
    forall y | y in VisibleIds(before, u, c) && y != id ensures y in VisibleIds(after, u, c) {
      var k :| 0 <= k < |before| && Visible(before[k], u, c) && before[k].id == y;
      assert after[k].id == y;
    }
    if id in VisibleIds(after, u, c) {
      var k :| 0 <= k < |after| && Visible(after[k], u, c) && after[k].id == id;
      assert k == i;
    }
    if id in VisibleIds(before, u, c) {
      var k :| 0 <= k < |before| && Visible(before[k], u, c) && before[k].id == id;
      assert k == i;
    }
  }

  // ------------------------------------------------------------ the store

  /** Every row id was issued by the store's counter before `n`. */
  ghost predicate IssuedBelow(t: Tables, n: nat) {
    && (forall u :: u in t.users ==> u.id != "" && Encoding.ParseDecimal(u.id) < n)
    && (forall c :: c in t.codes ==> c.id != "" && Encoding.ParseDecimal(c.id) < n)
    && (forall c :: c in t.contacts ==> c.id != "" && Encoding.ParseDecimal(c.id) < n)
    && (forall m :: m in t.messages ==> m.id != "" && Encoding.ParseDecimal(m.id) < n)
  }

  /** Marking codes used changes no id, so the constraints and the issued ids still hold. */
  lemma MarkUsedKeepsInvariant(t: Tables, n: nat, id: Id)
    requires WellFormed(t) && IssuedBelow(t, n)
    ensures WellFormed(t.(codes := MarkUsed(t.codes, id)))
    ensures IssuedBelow(t.(codes := MarkUsed(t.codes, id)), n)
  {
    var after := MarkUsed(t.codes, id);
    forall a, b | 0 <= a < b < |after| ensures DistinctCodes(after[a], after[b]) {
      assert DistinctCodes(t.codes[a], t.codes[b]);
    }
    forall c | c in after ensures c.id != "" && Encoding.ParseDecimal(c.id) < n {
      var k :| 0 <= k < |after| && after[k] == c;
      assert t.codes[k] in t.codes;
    }
  }

  /** Setting deletion flags changes no id and no end of a message, so the constraints and the issued ids still hold. */
  lemma SetDeletedKeepsInvariant(t: Tables, n: nat, id: Id, forSender: bool)
    requires WellFormed(t) && IssuedBelow(t, n)
    ensures WellFormed(t.(messages := SetDeleted(t.messages, id, forSender)))
    ensures IssuedBelow(t.(messages := SetDeleted(t.messages, id, forSender)), n)
  {
    var after := SetDeleted(t.messages, id, forSender);
    SetDeletedKeepsKeys(t.messages, id, forSender);
    forall m | m in after
      ensures UserExists(t.users, m.senderId) && UserExists(t.users, m.receiverId)
      ensures m.id != "" && Encoding.ParseDecimal(m.id) < n
    {
      var k :| 0 <= k < |after| && after[k] == m;
      assert t.messages[k] in t.messages;
    }
  }

  /** An existing user that shares a unique column with the one being inserted. */
  predicate Clashes(u: User, ins: InsertUser, invitationCode: string) {
    u.email == ins.email || u.username == ins.username || u.invitationCode == invitationCode
  }

  class DatabaseStorage {
    var users: seq<User>
    var codes: seq<VerificationCode>
    var contacts: seq<Contact>
    var messages: seq<Message>
    /** Stands in for `gen_random_uuid()`: row ids are the decimal renderings of 0, 1, 2, ... */
    var nextId: nat

    function State(): Tables
      reads this
    {
      Tables(users, codes, contacts, messages)
    }

    ghost predicate Valid()
      reads this
    {
      WellFormed(State()) && IssuedBelow(State(), nextId)
    }

    constructor ()
      ensures Valid()
      ensures users == [] && codes == [] && contacts == [] && messages == []
    {
      users, codes, contacts, messages := [], [], [], [];
      nextId := 0;
    }

    /** A primary key no row holds yet. */
    method FreshId() returns (id: Id)
      requires Valid()
      modifies `nextId
      ensures Valid() && nextId == old(nextId) + 1
      ensures id == Encoding.DecimalString(old(nextId)) && id != ""
      ensures Encoding.ParseDecimal(id) == old(nextId)
      ensures forall u :: u in users ==> u.id != id
      ensures forall c :: c in codes ==> c.id != id
      ensures forall c :: c in contacts ==> c.id != id
      ensures forall m :: m in messages ==> m.id != id
    {
      id := Encoding.DecimalString(nextId);
      Encoding.DecimalRoundTrip(nextId);
      nextId := nextId + 1;
    }

    /** `createUser`: the unique columns email, username and invitation code are enforced by the database. */
    method CreateUser(ins: InsertUser, invitationCode: string, now: Time) returns (r: Result<User, DbError>)
      requires Valid()
      modifies this
      ensures Valid()
      ensures codes == old(codes) && contacts == old(contacts) && messages == old(messages)
      ensures r.Err? <==> exists u :: u in old(users) && Clashes(u, ins, invitationCode)
      ensures (exists u :: u in old(users) && u.email == ins.email) ==> r == Err(UniqueViolation("users_email_unique"))
      ensures (forall u :: u in old(users) ==> u.email != ins.email) && (exists u :: u in old(users) && u.username == ins.username) ==>
        r == Err(UniqueViolation("users_username_unique"))
      ensures (forall u :: u in old(users) ==> u.email != ins.email && u.username != ins.username) &&
              (exists u :: u in old(users) && u.invitationCode == invitationCode) ==>
        r == Err(UniqueViolation("users_invitation_code_unique"))
      ensures r.Err? ==> unchanged(this)
      ensures r.Ok? ==> && users == old(users) + [r.value]
                        && r.value == UserRow(ins, r.value.id, invitationCode, now)
                        && forall u :: u in old(users) ==> u.id != r.value.id
    {
      if GetUserByEmail(users, ins.email).Some? {
        return Err(UniqueViolation("users_email_unique"));
      }
      if GetUserByUsername(users, ins.username).Some? {
        return Err(UniqueViolation("users_username_unique"));
      }
      if GetUserByInvitationCode(users, invitationCode).Some? {
        return Err(UniqueViolation("users_invitation_code_unique"));
      }
      var id := FreshId();
      var user := UserRow(ins, id, invitationCode, now);
      AddUserKeepsWellFormed(State(), user);
      users := users + [user];
      r := Ok(user);
    }

    /** `createVerificationCode`: always inserts; `used` defaults to false. */
    method CreateVerificationCode(ins: InsertVerificationCode, now: Time) returns (code: VerificationCode)
      requires Valid()
      modifies this
      ensures Valid()
      ensures users == old(users) && contacts == old(contacts) && messages == old(messages)
      ensures codes == old(codes) + [code]
      ensures code == CodeRow(ins, code.id, now)
      ensures forall c :: c in old(codes) ==> c.id != code.id
    {
      var id := FreshId();
      code := CodeRow(ins, id, now);
      AddCodeKeepsWellFormed(State(), code);
      codes := codes + [code];
    }

    /** `markCodeAsUsed`: sets `used` on the rows with that id, one by one. */
    method MarkCodeAsUsed(id: Id)
      requires Valid()
      modifies this`codes
      ensures Valid()
      ensures codes == MarkUsed(old(codes), id)
    {
      ghost var before := codes;
      ghost var start := State();
      var i := 0;
      while i < |codes|
        invariant 0 <= i <= |codes| == |before|
        invariant forall k :: 0 <= k < i ==> codes[k] == MarkUsed(before, id)[k]
        invariant forall k :: i <= k < |codes| ==> codes[k] == before[k]
      {
        if codes[i].id == id {
          codes := codes[i := codes[i].(used := true)];
        }
        i := i + 1;
      }
      assert codes == MarkUsed(before, id);
      MarkUsedKeepsInvariant(start, nextId, id);
      assert State() == start.(codes := MarkUsed(start.codes, id));
    }

    /** `createContact`: both foreign keys must name existing users. */
    method CreateContact(ins: InsertContact, now: Time) returns (r: Result<Contact, DbError>)
      requires Valid()
      modifies this
      ensures Valid()
      ensures users == old(users) && codes == old(codes) && messages == old(messages)
      ensures r.Err? <==> !(UserExists(old(users), ins.userId) && UserExists(old(users), ins.contactId))
      ensures !UserExists(old(users), ins.userId) ==> r == Err(ForeignKeyViolation("contacts", "contacts_user_id_users_id_fk"))
      ensures UserExists(old(users), ins.userId) && !UserExists(old(users), ins.contactId) ==>
        r == Err(ForeignKeyViolation("contacts", "contacts_contact_id_users_id_fk"))
      ensures r.Err? ==> unchanged(this)
      ensures r.Ok? ==> && contacts == old(contacts) + [r.value]
                        && r.value == ContactRow(ins, r.value.id, now)
                        && forall c :: c in old(contacts) ==> c.id != r.value.id
    {
      if !UserExists(users, ins.userId) {
        return Err(ForeignKeyViolation("contacts", "contacts_user_id_users_id_fk"));
      }
      if !UserExists(users, ins.contactId) {
        return Err(ForeignKeyViolation("contacts", "contacts_contact_id_users_id_fk"));
      }
      var id := FreshId();
      var contact := ContactRow(ins, id, now);
      AddContactKeepsWellFormed(State(), contact);
      contacts := contacts + [contact];
      r := Ok(contact);
    }

    /** `createMessage`: both foreign keys must name existing users; the flags start false. */
    method CreateMessage(ins: InsertMessage, now: Time) returns (r: Result<Message, DbError>)
      requires Valid()
      modifies this
      ensures Valid()
      ensures users == old(users) && codes == old(codes) && contacts == old(contacts)
      ensures r.Err? <==> !(UserExists(old(users), ins.senderId) && UserExists(old(users), ins.receiverId))
      ensures !UserExists(old(users), ins.senderId) ==> r == Err(ForeignKeyViolation("messages", "messages_sender_id_users_id_fk"))
      ensures UserExists(old(users), ins.senderId) && !UserExists(old(users), ins.receiverId) ==>
        r == Err(ForeignKeyViolation("messages", "messages_receiver_id_users_id_fk"))
      ensures r.Err? ==> unchanged(this)
      ensures r.Ok? ==> && messages == old(messages) + [r.value]
                        && r.value == MessageRow(ins, r.value.id, now)
                        && !r.value.deletedForSender && !r.value.deletedForReceiver
                        && forall m :: m in old(messages) ==> m.id != r.value.id
    {
      if !UserExists(users, ins.senderId) {
        return Err(ForeignKeyViolation("messages", "messages_sender_id_users_id_fk"));
      }
      if !UserExists(users, ins.receiverId) {
        return Err(ForeignKeyViolation("messages", "messages_receiver_id_users_id_fk"));
      }
      var id := FreshId();
      var message := MessageRow(ins, id, now);
      AddMessageKeepsWellFormed(State(), message);
      messages := messages + [message];
      r := Ok(message);
    }

    /** The update half of `deleteMessage`: sets one side's flag on the rows with that id, one by one. */
    method SetDeletedFlag(id: Id, forSender: bool)
      requires Valid()
      modifies this`messages
      ensures Valid()
      ensures messages == SetDeleted(old(messages), id, forSender)
    {
      ghost var before := messages;
      ghost var start := State();
      var i := 0;
      while i < |messages|
        invariant 0 <= i <= |messages| == |before|
        invariant forall k :: 0 <= k < i ==> messages[k] == SetDeleted(before, id, forSender)[k]
        invariant forall k :: i <= k < |messages| ==> messages[k] == before[k]
      {
        if messages[i].id == id {
          if forSender {
            messages := messages[i := messages[i].(deletedForSender := true)];
          } else {
            messages := messages[i := messages[i].(deletedForReceiver := true)];
          }
        }
        i := i + 1;
      }
      assert messages == SetDeleted(before, id, forSender);
      SetDeletedKeepsInvariant(start, nextId, id, forSender);
      assert State() == start.(messages := SetDeleted(start.messages, id, forSender));
    }

    /** `deleteMessage`: look the message up, then set the requester's own flag, or fail. */
    method DeleteMessage(messageId: Id, userId: Id) returns (r: Result<(), DeleteError>)
      requires Valid()
      modifies this`messages
      ensures Valid()
      ensures r.Err? ==> messages == old(messages)
      ensures SoftDelete(old(messages), messageId, userId) == if r.Ok? then Ok(messages) else Err(r.error)
    {
      var found := FindMessage(messages, messageId);
      if found.None? {
        return Err(MessageNotFound);
      }
      var message := found.value;
      if message.senderId == userId {
        SetDeletedFlag(messageId, true);
      } else if message.receiverId == userId {
        SetDeletedFlag(messageId, false);
      } else {
        return Err(Unauthorized);
      }
      r := Ok(());
    }
  }
}
