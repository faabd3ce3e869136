/**
 * The four tables of the messaging service: row shapes, the insert shapes that
 * leave server-set columns out, the column defaults, and the declared
 * constraints (primary keys, unique columns, foreign keys with cascade delete).
 */
module Schema {
  import opened Options
  import opened Queries

  /** A primary-key value (`varchar`). */
  type Id = string

  /** A timestamp, in milliseconds, as JavaScript `Date` values compare. */
  type Time = int

  datatype User = User(
    id: Id,
    email: string,
    username: string,
    password: string,            // the stored password hash
    avatarUrl: Option<string>,
    status: Option<string>,
    invitationCode: string,
    createdAt: Time)

  datatype VerificationCode = VerificationCode(
    id: Id,
    email: string,
    code: string,
    expiresAt: Time,
    used: bool,
    createdAt: Time)

  /** A directed edge: `userId` may message `contactId`. */
  datatype Contact = Contact(
    id: Id,
    userId: Id,
    contactId: Id,
    createdAt: Time)

  datatype Message = Message(
    id: Id,
    senderId: Id,
    receiverId: Id,
    content: string,
    deletedForSender: bool,
    deletedForReceiver: bool,
    sentAt: Time)

  /** `insertUserSchema`: no id, creation time or invitation code. */
  datatype InsertUser = InsertUser(
    email: string,
    username: string,
    password: string,
    avatarUrl: Option<string>,
    status: Option<string>)

  /** `insertVerificationCodeSchema`: no id or creation time; `used` may be left to its default. */
  datatype InsertVerificationCode = InsertVerificationCode(
    email: string,
    code: string,
    expiresAt: Time,
    used: Option<bool>)

  /** `insertContactSchema`: no id or creation time. */
  datatype InsertContact = InsertContact(userId: Id, contactId: Id)

  /** `insertMessageSchema`: no id, send time or deletion flags, so a caller cannot set them. */
  datatype InsertMessage = InsertMessage(senderId: Id, receiverId: Id, content: string)

  // The row an insert produces once the database fills in its own columns.

  function UserRow(ins: InsertUser, id: Id, invitationCode: string, createdAt: Time): User {
    User(id, ins.email, ins.username, ins.password, ins.avatarUrl, ins.status, invitationCode, createdAt)
  }

  function CodeRow(ins: InsertVerificationCode, id: Id, createdAt: Time): VerificationCode {
    VerificationCode(id, ins.email, ins.code, ins.expiresAt, if ins.used.Some? then ins.used.value else false, createdAt)
  }

  function ContactRow(ins: InsertContact, id: Id, createdAt: Time): Contact {
    Contact(id, ins.userId, ins.contactId, createdAt)
  }

  function MessageRow(ins: InsertMessage, id: Id, sentAt: Time): Message {
    Message(id, ins.senderId, ins.receiverId, ins.content, false, false, sentAt)
  }

  /** The whole database. */
  datatype Tables = Tables(
    users: seq<User>,
    codes: seq<VerificationCode>,
    contacts: seq<Contact>,
    messages: seq<Message>)

  // Unique constraints, as relations every two rows of a table must satisfy.

  /** Primary key `id` and the unique columns `email`, `username`, `invitationCode`. */
  predicate DistinctUsers(a: User, b: User) {
    a.id != b.id && a.email != b.email && a.username != b.username && a.invitationCode != b.invitationCode
  }

  predicate DistinctCodes(a: VerificationCode, b: VerificationCode) { a.id != b.id }

  predicate DistinctContacts(a: Contact, b: Contact) { a.id != b.id }

  predicate DistinctMessages(a: Message, b: Message) { a.id != b.id }

  predicate UserExists(users: seq<User>, id: Id) {
    exists u :: u in users && u.id == id
  }

  /** Both foreign keys of every contact and every message name an existing user. */
  ghost predicate ReferencesHold(t: Tables) {
    && (forall c :: c in t.contacts ==> UserExists(t.users, c.userId) && UserExists(t.users, c.contactId))
    && (forall m :: m in t.messages ==> UserExists(t.users, m.senderId) && UserExists(t.users, m.receiverId))
  }

  /** Every constraint the schema declares. */
  ghost predicate WellFormed(t: Tables) {
    && Pairwise(t.users, DistinctUsers)
    && Pairwise(t.codes, DistinctCodes)
    && Pairwise(t.contacts, DistinctContacts)
    && Pairwise(t.messages, DistinctMessages)
    && ReferencesHold(t)
  }

  // Inserting a row that meets the constraints keeps the database well-formed.

  lemma AddUserKeepsWellFormed(t: Tables, u: User)
    requires WellFormed(t)
    requires forall x :: x in t.users ==> DistinctUsers(x, u)
    ensures WellFormed(t.(users := t.users + [u]))
  {
    PairwiseAppend(t.users, u, DistinctUsers);
    var t' := t.(users := t.users + [u]);
    forall id | UserExists(t.users, id) ensures UserExists(t'.users, id) {
      var x :| x in t.users && x.id == id;
      assert x in t'.users;
    }
  }

  lemma AddCodeKeepsWellFormed(t: Tables, c: VerificationCode)
    requires WellFormed(t)
    requires forall x :: x in t.codes ==> x.id != c.id
    ensures WellFormed(t.(codes := t.codes + [c]))
  {
    PairwiseAppend(t.codes, c, DistinctCodes);
  }

  lemma AddContactKeepsWellFormed(t: Tables, c: Contact)
    requires WellFormed(t)
    requires forall x :: x in t.contacts ==> x.id != c.id
    requires UserExists(t.users, c.userId) && UserExists(t.users, c.contactId)
    ensures WellFormed(t.(contacts := t.contacts + [c]))
  {
    PairwiseAppend(t.contacts, c, DistinctContacts);
  }

  lemma AddMessageKeepsWellFormed(t: Tables, m: Message)
    requires WellFormed(t)
    requires forall x :: x in t.messages ==> x.id != m.id
    requires UserExists(t.users, m.senderId) && UserExists(t.users, m.receiverId)
    ensures WellFormed(t.(messages := t.messages + [m]))
  {
    PairwiseAppend(t.messages, m, DistinctMessages);
  }

  /** Two rows of a message table with the same id are the same row. */
  lemma MessageIndexUnique(s: seq<Message>, a: nat, b: nat)
    requires Pairwise(s, DistinctMessages)
    requires a < |s| && b < |s|
    ensures a != b ==> s[a].id != s[b].id
  {
    if a < b {
      assert DistinctMessages(s[a], s[b]);
    } else if b < a {
      assert DistinctMessages(s[b], s[a]);
    }
  }

  predicate Involves(c: Contact, userId: Id) { c.userId == userId || c.contactId == userId }

  predicate Concerns(m: Message, userId: Id) { m.senderId == userId || m.receiverId == userId }

  /**
   * Deleting a user: `onDelete: "cascade"` on all four foreign keys removes
   * every contact and every message that names the user; verification codes
   * have no foreign key and stay.
   */
  function DeleteUser(t: Tables, userId: Id): (r: Tables)
    ensures forall u :: u in r.users <==> u in t.users && u.id != userId
    ensures r.codes == t.codes
    ensures forall c :: c in r.contacts <==> c in t.contacts && !Involves(c, userId)
    ensures forall m :: m in r.messages <==> m in t.messages && !Concerns(m, userId)
  {
    Tables(
      Where(t.users, (u: User) => u.id != userId),
      t.codes,
      Where(t.contacts, (c: Contact) => !Involves(c, userId)),
      Where(t.messages, (m: Message) => !Concerns(m, userId)))
  }

  /** The cascade leaves a database that still satisfies every constraint: no dangling reference remains. */
  lemma CascadeKeepsWellFormed(t: Tables, userId: Id)
    requires WellFormed(t)
    ensures WellFormed(DeleteUser(t, userId))
    ensures !UserExists(DeleteUser(t, userId).users, userId)
  {
    var r := DeleteUser(t, userId);
    WherePairwise(t.users, (u: User) => u.id != userId, DistinctUsers);
    WherePairwise(t.contacts, (c: Contact) => !Involves(c, userId), DistinctContacts);
    WherePairwise(t.messages, (m: Message) => !Concerns(m, userId), DistinctMessages);
    forall id | id != userId && UserExists(t.users, id) ensures UserExists(r.users, id) {
      var u :| u in t.users && u.id == id;
      assert u in r.users;
    }
  }
}
