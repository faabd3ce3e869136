/**
 * The request handlers of the HTTP API, without the HTTP plumbing: each one
 * takes the store, the session record and the already-decoded request
 * fields, and yields a status with a body (and, where the handler writes
 * the session, the new session).
 */
module Routes {
  import opened Options
  import opened Schema
  import opened Storage
  import opened Realtime
  import Encoding

  /** `req.session`: the signed-in user and the email that passed verification, either possibly absent. */
  datatype Session = Session(userId: Option<Id>, email: Option<string>)

  /** The JSON bodies the handlers send. */
  datatype Body =
    | ErrorBody(error: string)
    /** A request body the zod schema rejected; the text is the library's own and is not modelled. */
    | ValidationError
    | Notice(text: string)
    | CodeChecked(needsProfile: bool, account: Option<User>)
    | Registered(user: User)
    | UserJson(user: User)
    | ContactsJson(contacts: seq<ContactWithUser>)
    | ContactJson(contact: Contact)
    | MessagesJson(messages: seq<Message>)
    | MessageJson(message: Message)

  datatype Response = Response(status: int, body: Body)

  function Fail(status: int, text: string): Response {
    Response(status, ErrorBody(text))
  }

  const NotSignedIn: Response := Fail(401, "Unauthorized")

  /** How long a code stays redeemable: 10 minutes, in milliseconds. */
  const CodeLifetime: int := 10 * 60 * 1000

  /** An optional string as JavaScript's truthiness test sees it: absent and empty are both false. */
  function Truthy(v: Option<string>): (r: Option<string>)
    ensures r.Some? <==> v.Some? && v.value != ""
    ensures r.Some? ==> r == v
  {
    if v.Some? && v.value != "" then v else None
  }

  /** `requireAuth`: the user the request acts for, or none, in which case the answer is 401. */
  function SignedIn(session: Session): (r: Option<Id>)
    ensures r.None? <==> session.userId.None? || session.userId.value == ""
    ensures r.Some? ==> session.userId == Some(r.value)
  {
    Truthy(session.userId)
  }

  /**
   * No stored edge leads from a user to that same user, and no stored
   * message is addressed to its own sender. The store accepts both; the
   * handlers never write either (adding oneself is refused, and a message
   * needs an edge), which every state-changing handler below states.
   */
  ghost predicate NoSelfLoops(t: Tables) {
    && (forall c :: c in t.contacts ==> c.userId != c.contactId)
    && (forall m :: m in t.messages ==> m.senderId != m.receiverId)
  }

  /** Storing an edge between two different users keeps the tables free of self-loops. */
  lemma EdgeKeepsNoSelfLoops(t: Tables, c: Contact)
    requires NoSelfLoops(t)
    requires c.userId != c.contactId
    ensures NoSelfLoops(t.(contacts := t.contacts + [c]))
  {
  }

  // ------------------------------------------------------------------ auth

  /** The texts send-code answers with. */
  function SendCodeNotice(registered: bool): string {
    if registered then "User already registered. Please verify to login." else "Verification code sent"
  }

  /**
   * POST /api/auth/send-code. `generated` is the value of
   * `Math.floor(100000 + Math.random() * 900000)`. A code is stored for the
   * email whether or not an account exists; earlier codes are untouched.
   */
  method SendCode(db: DatabaseStorage, isEmail: string -> bool, email: string, generated: int, now: Time)
    returns (r: Response)
    requires db.Valid()
    requires 100000 <= generated <= 999999
    modifies db
    ensures db.Valid()
    ensures !isEmail(email) ==> r == Response(400, ValidationError) && unchanged(db)
    ensures NoSelfLoops(old(db.State())) ==> NoSelfLoops(db.State())
    ensures isEmail(email) ==>
      && db.users == old(db.users) && db.contacts == old(db.contacts) && db.messages == old(db.messages)
      && |db.codes| == |old(db.codes)| + 1 && db.codes[..|old(db.codes)|] == old(db.codes)
      && var c := db.codes[|old(db.codes)|];
         && c.email == email && c.code == Encoding.DecimalString(generated) && |c.code| == 6
         && c.expiresAt == now + CodeLifetime && !c.used && c.createdAt == now
         && (forall o :: o in old(db.codes) ==> o.id != c.id)
         && r == Response(200, Notice(SendCodeNotice(GetUserByEmail(old(db.users), email).Some?)))
  {
    if !isEmail(email) {
      return Response(400, ValidationError);
    }
    var existing := GetUserByEmail(db.users, email);
    var code := Encoding.DecimalString(generated);
    Encoding.SixDigitCode(generated);
    var row := db.CreateVerificationCode(InsertVerificationCode(email, code, now + CodeLifetime, Some(false)), now);
    r := Response(200, Notice(SendCodeNotice(existing.Some?)));
  }

  /**
   * POST /api/auth/verify-code: not found, expired, or consumed; a consumed
   * code signs in the account with that email, or asks for a profile.
   */
  method VerifyCode(db: DatabaseStorage, isEmail: string -> bool, session: Session, email: string, code: string, now: Time)
    returns (r: Response, s: Session)
    requires db.Valid()
    modifies db`codes
    ensures db.Valid()
    ensures NoSelfLoops(old(db.State())) ==> NoSelfLoops(db.State())
    ensures !(isEmail(email) && |code| == 6) ==>
      r == Response(400, ValidationError) && s == session && db.codes == old(db.codes)
    ensures isEmail(email) && |code| == 6 && GetVerificationCode(old(db.codes), email, code).None? ==>
      r == Fail(400, "Invalid or expired verification code") && s == session && db.codes == old(db.codes)
    ensures isEmail(email) && |code| == 6 && GetVerificationCode(old(db.codes), email, code).Some? ==>
      var vc := GetVerificationCode(old(db.codes), email, code).value;
      && (now > vc.expiresAt ==>
            r == Fail(400, "Verification code expired") && s == session && db.codes == old(db.codes))
      && (now <= vc.expiresAt ==>
            && db.codes == MarkUsed(old(db.codes), vc.id)
            && (var replay := GetVerificationCode(db.codes, email, code);
                && (replay.Some? ==> replay.value.id != vc.id)
                && (replay.None? <==> forall c :: c in old(db.codes) && Redeemable(c, email, code) ==> c.id == vc.id))
            && r.status == 200
            && match GetUserByEmail(db.users, email)
               case Some(u) =>
                 && s == Session(Some(u.id), Some(email)) && SignedIn(s) == Some(u.id)
                 && r.body == CodeChecked(false, Some(u))
               case None => s == session.(email := Some(email)) && r.body == CodeChecked(true, None))
  {
    if !(isEmail(email) && |code| == 6) {
      return Response(400, ValidationError), session;
    }
    var found := GetVerificationCode(db.codes, email, code);
    if found.None? {
      return Fail(400, "Invalid or expired verification code"), session;
    }
    var vc := found.value;
    if now > vc.expiresAt {
      return Fail(400, "Verification code expired"), session;
    }
    ConsumedCodeNotReturned(db.codes, email, code);
    db.MarkCodeAsUsed(vc.id);
    var existing := GetUserByEmail(db.users, email);
    if existing.Some? {
      s := Session(Some(existing.value.id), Some(email));
      r := Response(200, CodeChecked(false, existing));
    } else {
      s := session.(email := Some(email));
      r := Response(200, CodeChecked(true, None));
    }
  }

  /** The length rules of the complete-registration body; only the lengths are checked. */
  predicate RegistrationFieldsOk(isEmail: string -> bool, email: string, username: string, password: string, status: Option<string>) {
    && isEmail(email)
    && 3 <= |username| <= 20
    && 8 <= |password|
    && (status.None? || |status.value| <= 100)
  }

  /**
   * POST /api/auth/complete-registration. `hash` stands for bcrypt and
   * `bytes` for `randomBytes(8)`, whose hex rendering is the invitation code.
   */
  method CompleteRegistration(db: DatabaseStorage, isEmail: string -> bool, hash: string -> string, session: Session,
                              email: string, username: string, password: string, status: Option<string>,
                              bytes: seq<Encoding.byte>, now: Time)
    returns (r: Response, s: Session)
    requires db.Valid()
    requires |bytes| == 8
    modifies db
    ensures db.Valid()
    ensures r.status != 200 ==> unchanged(db) && s == session
    ensures NoSelfLoops(old(db.State())) ==> NoSelfLoops(db.State())
    ensures !RegistrationFieldsOk(isEmail, email, username, password, status) ==> r == Response(400, ValidationError)
    ensures RegistrationFieldsOk(isEmail, email, username, password, status) ==>
      && (Truthy(session.email) != Some(email) ==> r == Fail(401, "Email not verified"))
      && (Truthy(session.email) == Some(email) && GetUserByUsername(old(db.users), username).Some? ==>
            r == Fail(400, "Username already taken"))
    ensures RegistrationFieldsOk(isEmail, email, username, password, status) && Truthy(session.email) == Some(email)
            && GetUserByUsername(old(db.users), username).None? ==>
      && ((exists u :: u in old(db.users) && u.email == email) ==>
            r == Fail(400, DbErrorText(UniqueViolation("users_email_unique"))))
      && ((forall u :: u in old(db.users) ==> u.email != email) &&
          (exists u :: u in old(db.users) && u.invitationCode == Encoding.Hex(bytes)) ==>
            r == Fail(400, DbErrorText(UniqueViolation("users_invitation_code_unique"))))
    ensures r.status == 200 <==>
      && RegistrationFieldsOk(isEmail, email, username, password, status)
      && Truthy(session.email) == Some(email)
      && !exists u :: u in old(db.users) && Clashes(u, InsertUser(email, username, hash(password), None, Truthy(status)), Encoding.Hex(bytes))
    ensures r.status == 200 ==>
      && r.body.Registered?
      && var u := r.body.user;
         && db.users == old(db.users) + [u]
         && db.codes == old(db.codes) && db.contacts == old(db.contacts) && db.messages == old(db.messages)
         && u.email == email && u.username == username && u.password == hash(password)
         && u.avatarUrl.None? && u.status == Truthy(status)
         && u.invitationCode == Encoding.Hex(bytes) && u.createdAt == now
         && (forall o :: o in old(db.users) ==> o.id != u.id)
         && s == session.(userId := Some(u.id)) && SignedIn(s) == Some(u.id)
  {
    if !RegistrationFieldsOk(isEmail, email, username, password, status) {
      return Response(400, ValidationError), session;
    }
    if Truthy(session.email) != Some(email) {
      return Fail(401, "Email not verified"), session;
    }
    if GetUserByUsername(db.users, username).Some? {
      return Fail(400, "Username already taken"), session;
    }
    var ins := InsertUser(email, username, hash(password), None, Truthy(status));
    var created := db.CreateUser(ins, Encoding.Hex(bytes), now);
    if created.Err? {
      return Fail(400, DbErrorText(created.error)), session;
    }
    s := session.(userId := Some(created.value.id));
    r := Response(200, Registered(created.value));
  }

  /** GET /api/auth/me. */
  function Me(t: Tables, session: Session): (r: Response)
    ensures SignedIn(session).None? ==> r == NotSignedIn
    ensures SignedIn(session).Some? ==>
      && (r == Fail(404, "User not found") <==> !UserExists(t.users, SignedIn(session).value))
      && (r.status == 200 <==> UserExists(t.users, SignedIn(session).value))
      && (r.status == 200 ==> r.body.UserJson? && r.body.user in t.users && r.body.user.id == SignedIn(session).value)
  {
    match SignedIn(session)
    case None => NotSignedIn
    case Some(caller) =>
      match GetUser(t.users, caller)
      case None => Fail(404, "User not found")
      case Some(u) => Response(200, UserJson(u))
  }

  // -------------------------------------------------------------- contacts

  /** GET /api/contacts: the caller's outgoing edges joined with each peer's row. */
  function ListContacts(t: Tables, session: Session): (r: Response)
    ensures SignedIn(session).None? <==> r == NotSignedIn
    ensures SignedIn(session).Some? ==> r.status == 200
    ensures r.status == 200 ==>
      var caller := SignedIn(session).value;
      && r.body.ContactsJson?
      && Edges(r.body.contacts) == OutgoingEdges(t.contacts, t.users, caller)
      && (forall e :: e in r.body.contacts ==>
           && e.userId == caller
           && CheckContactExists(t.contacts, e.userId, e.contactId)
           && e.contact in t.users && e.contact.id == e.contactId)
      && (forall c :: c in t.contacts && c.userId == caller && UserExists(t.users, c.contactId) ==>
           exists u :: u in t.users && Joined(c, u) in r.body.contacts)
  {
    match SignedIn(session)
    case None => NotSignedIn
    case Some(caller) => Response(200, ContactsJson(GetContactWithUser(t.contacts, t.users, caller)))
  }

  /**
   * POST /api/contacts: find the invitation code's owner, refuse oneself and
   * an edge that already exists, then add the forward edge and the reverse
   * one if it is missing.
   */
  method AddContact(db: DatabaseStorage, session: Session, invitationCode: string, now: Time) returns (r: Response)
    requires db.Valid()
    modifies db
    ensures db.Valid()
    ensures r.status != 200 ==> unchanged(db)
    ensures SignedIn(session).None? ==> r == NotSignedIn
    ensures NoSelfLoops(old(db.State())) ==> NoSelfLoops(db.State())
    ensures SignedIn(session).Some? ==>
      var caller := SignedIn(session).value;
      var target := GetUserByInvitationCode(old(db.users), invitationCode);
      && (target.None? ==> r == Fail(404, "Invalid invitation code"))
      && (target.Some? && target.value.id == caller ==> r == Fail(400, "Cannot add yourself as a contact"))
      && (target.Some? && target.value.id != caller && CheckContactExists(old(db.contacts), caller, target.value.id) ==>
            r == Fail(400, "Contact already exists"))
      && (r.status == 200 <==>
            target.Some? && target.value.id != caller && !CheckContactExists(old(db.contacts), caller, target.value.id)
            && UserExists(old(db.users), caller))
      && (target.Some? && target.value.id != caller && !CheckContactExists(old(db.contacts), caller, target.value.id)
          && !UserExists(old(db.users), caller) ==>
            r == Fail(400, DbErrorText(ForeignKeyViolation("contacts", "contacts_user_id_users_id_fk"))))
      && (r.status == 200 ==>
            var other := target.value.id;
            && r.body.ContactJson? && r.body.contact.userId == caller && r.body.contact.contactId == other
            && db.users == old(db.users) && db.codes == old(db.codes) && db.messages == old(db.messages)
            && CheckContactExists(db.contacts, caller, other) && CheckContactExists(db.contacts, other, caller)
            && (CheckContactExists(old(db.contacts), other, caller) ==> db.contacts == old(db.contacts) + [r.body.contact])
            && (!CheckContactExists(old(db.contacts), other, caller) ==>
                  && |db.contacts| == |old(db.contacts)| + 2
                  && db.contacts[..|old(db.contacts)| + 1] == old(db.contacts) + [r.body.contact]
                  && db.contacts[|old(db.contacts)| + 1].userId == other
                  && db.contacts[|old(db.contacts)| + 1].contactId == caller))
  {
    var signedIn := SignedIn(session);
    if signedIn.None? {
      return NotSignedIn;
    }
    var caller := signedIn.value;
    var target := GetUserByInvitationCode(db.users, invitationCode);
    if target.None? {
      return Fail(404, "Invalid invitation code");
    }
    var other := target.value.id;
    if other == caller {
      return Fail(400, "Cannot add yourself as a contact");
    }
    if CheckContactExists(db.contacts, caller, other) {
      return Fail(400, "Contact already exists");
    }
    var forward, _ := Link(db, caller, other, now);
    if forward.Err? {
      return Fail(400, DbErrorText(forward.error));
    }
    r := Response(200, ContactJson(forward.value));
  }

  /**
   * The writes of POST /api/contacts: the forward edge, then the reverse one
   * unless it is there; `added` is the reverse edge when one was inserted.
   */
  method Link(db: DatabaseStorage, caller: Id, other: Id, now: Time) returns (r: Result<Contact, DbError>, added: Option<Contact>)
    requires db.Valid()
    requires caller != other
    modifies db
    ensures db.Valid()
    ensures NoSelfLoops(old(db.State())) ==> NoSelfLoops(db.State())
    ensures r.Err? ==> unchanged(db)
    ensures r.Err? <==> !(UserExists(old(db.users), caller) && UserExists(old(db.users), other))
    ensures !UserExists(old(db.users), caller) ==> r == Err(ForeignKeyViolation("contacts", "contacts_user_id_users_id_fk"))
    ensures r.Ok? ==>
      && r.value.userId == caller && r.value.contactId == other
      && db.users == old(db.users) && db.codes == old(db.codes) && db.messages == old(db.messages)
      && (added.Some? <==> !CheckContactExists(old(db.contacts), other, caller))
      && (added.Some? ==> added.value.userId == other && added.value.contactId == caller)
      && db.contacts == old(db.contacts) + [r.value] + (if added.Some? then [added.value] else [])
      && CheckContactExists(db.contacts, caller, other) && CheckContactExists(db.contacts, other, caller)
  {
    ghost var before := db.contacts;
    ghost var start := db.State();
    added := None;
    r := db.CreateContact(InsertContact(caller, other), now);
    if r.Err? {
      return;
    }
    if NoSelfLoops(start) {
      EdgeKeepsNoSelfLoops(start, r.value);
      assert db.State() == start.(contacts := start.contacts + [r.value]);
    }
    ghost var withForward := db.contacts;
    CheckAfterInsert(before, r.value, caller, other);
    CheckAfterInsert(before, r.value, other, caller);
    added := AddMissingEdge(db, other, caller, now);
    if added.Some? {
      CheckAfterInsert(withForward, added.value, caller, other);
    } else {
      assert db.contacts == withForward;
    }
  }

  /** Inserts the edge from -> to unless it is already stored; `added` is the new row, if any. */
  method AddMissingEdge(db: DatabaseStorage, from: Id, to: Id, now: Time) returns (added: Option<Contact>)
    requires db.Valid()
    requires UserExists(db.users, from) && UserExists(db.users, to)
    requires from != to
    modifies db
    ensures db.Valid()
    ensures NoSelfLoops(old(db.State())) ==> NoSelfLoops(db.State())
    ensures db.users == old(db.users) && db.codes == old(db.codes) && db.messages == old(db.messages)
    ensures added.Some? <==> !CheckContactExists(old(db.contacts), from, to)
    ensures added.Some? ==> added.value.userId == from && added.value.contactId == to
    ensures db.contacts == old(db.contacts) + (if added.Some? then [added.value] else [])
    ensures CheckContactExists(db.contacts, from, to)
  {
    if CheckContactExists(db.contacts, from, to) {
      return None;
    }
    ghost var before := db.contacts;
    ghost var start := db.State();
    var created := db.CreateContact(InsertContact(from, to), now);
    assert created.Ok?;
    if NoSelfLoops(start) {
      EdgeKeepsNoSelfLoops(start, created.value);
      assert db.State() == start.(contacts := start.contacts + [created.value]);
    }
    CheckAfterInsert(before, created.value, from, to);
    added := Some(created.value);
  }

  // -------------------------------------------------------------- messages

  /** GET /api/messages/:contactId: the conversation, for contacts only. */
  function ReadMessages(t: Tables, session: Session, contactId: Id): (r: Response)
    ensures SignedIn(session).None? <==> r == NotSignedIn
    ensures SignedIn(session).Some? ==>
      var caller := SignedIn(session).value;
      && (r == Fail(403, "Not a contact") <==> !CheckContactExists(t.contacts, caller, contactId))
      && (r.status == 200 <==> CheckContactExists(t.contacts, caller, contactId))
      && (r.status == 200 ==>
            && r.body.MessagesJson?
            && SortedBySentAt(r.body.messages)
            && (forall m :: multiset(r.body.messages)[m] == if Visible(m, caller, contactId) then multiset(t.messages)[m] else 0)
            && (forall m :: m in r.body.messages <==> m in t.messages && Visible(m, caller, contactId)))
  {
    match SignedIn(session)
    case None => NotSignedIn
    case Some(caller) =>
      if !CheckContactExists(t.contacts, caller, contactId) then Fail(403, "Not a contact")
      else Response(200, MessagesJson(GetMessages(t.messages, caller, contactId)))
  }

  /**
   * POST /api/messages: store the message if the caller has an edge to the
   * receiver, then push it to every open socket.
   */
  method SendMessage(db: DatabaseStorage, clients: seq<Client>, session: Session, receiverId: Id, content: string, now: Time)
    returns (r: Response)
    requires db.Valid()
    requires DistinctClients(clients)
    modifies db, set c | c in clients
    ensures db.Valid()
    ensures forall c :: c in clients ==> c.readyState == old(c.readyState)
    ensures r.status != 200 ==> unchanged(db) && forall c :: c in clients ==> c.outbox == old(c.outbox)
    ensures NoSelfLoops(old(db.State())) ==> NoSelfLoops(db.State())
    ensures SignedIn(session).None? ==> r == NotSignedIn
    ensures SignedIn(session).Some? ==>
      var caller := SignedIn(session).value;
      && (|content| < 1 ==> r == Response(400, ValidationError))
      && (|content| >= 1 && !CheckContactExists(old(db.contacts), caller, receiverId) ==> r == Fail(403, "Not a contact"))
      && (r.status == 200 <==> |content| >= 1 && CheckContactExists(old(db.contacts), caller, receiverId))
      && (r.status == 200 ==>
            && r.body.MessageJson?
            && var m := r.body.message;
               && db.messages == old(db.messages) + [m]
               && db.users == old(db.users) && db.codes == old(db.codes) && db.contacts == old(db.contacts)
               && m.senderId == caller && m.receiverId == receiverId && m.content == content && m.sentAt == now
               && !m.deletedForSender && !m.deletedForReceiver
               && (forall o :: o in old(db.messages) ==> o.id != m.id)
               && forall c :: c in clients ==> c.outbox == old(c.outbox) + Delivery(old(c.readyState), NewMessageEvent(m)))
  {
    var signedIn := SignedIn(session);
    if signedIn.None? {
      return NotSignedIn;
    }
    var caller := signedIn.value;
    if |content| < 1 {
      return Response(400, ValidationError);
    }
    if !CheckContactExists(db.contacts, caller, receiverId) {
      return Fail(403, "Not a contact");
    }
    var message := Post(db, caller, receiverId, content, now);
    Broadcast(clients, NewMessageEvent(message));
    r := Response(200, MessageJson(message));
  }

  /** The insert of POST /api/messages, which cannot fail once the edge caller -> receiver exists. */
  method Post(db: DatabaseStorage, caller: Id, receiverId: Id, content: string, now: Time) returns (m: Message)
    requires db.Valid()
    requires CheckContactExists(db.contacts, caller, receiverId)
    modifies db
    ensures db.Valid()
    ensures NoSelfLoops(old(db.State())) ==> NoSelfLoops(db.State())
    ensures db.messages == old(db.messages) + [m]
    ensures db.users == old(db.users) && db.codes == old(db.codes) && db.contacts == old(db.contacts)
    ensures m.senderId == caller && m.receiverId == receiverId && m.content == content && m.sentAt == now
    ensures !m.deletedForSender && !m.deletedForReceiver
    ensures forall o :: o in old(db.messages) ==> o.id != m.id
  {
    EdgeEndsExist(db.State(), caller, receiverId);
    var created := db.CreateMessage(InsertMessage(caller, receiverId, content), now);
    assert created.Ok?;
    m := created.value;
  }

  /** Helper: both ends of a stored edge are users, by the foreign keys. */
  lemma EdgeEndsExist(t: Tables, a: Id, b: Id)
    requires WellFormed(t)
    requires CheckContactExists(t.contacts, a, b)
    ensures UserExists(t.users, a) && UserExists(t.users, b)
  {
    var edge :| edge in t.contacts && edge.userId == a && edge.contactId == b;
  }

  /** DELETE /api/messages/:messageId: hide the message from the caller's side. */
  method DeleteMessage(db: DatabaseStorage, session: Session, messageId: Id) returns (r: Response)
    requires db.Valid()
    modifies db`messages
    ensures db.Valid()
    ensures NoSelfLoops(old(db.State())) ==> NoSelfLoops(db.State())
    ensures SignedIn(session).None? ==> r == NotSignedIn && db.messages == old(db.messages)
    ensures SignedIn(session).Some? ==>
      match SoftDelete(old(db.messages), messageId, SignedIn(session).value)
      case Ok(after) => db.messages == after && r == Response(200, Notice("Message deleted"))
      case Err(e) => db.messages == old(db.messages) && r == Fail(400, DeleteErrorText(e))
  {
    var signedIn := SignedIn(session);
    if signedIn.None? {
      return NotSignedIn;
    }
    ghost var before := db.State();
    var done := db.DeleteMessage(messageId, signedIn.value);
    if done.Err? {
      return Fail(400, DeleteErrorText(done.error));
    }
    if NoSelfLoops(before) {
      SoftDeleteKeepsNoSelfLoops(before, messageId, signedIn.value);
    }
    r := Response(200, Notice("Message deleted"));
  }

  /** A soft delete changes only deletion flags, so it keeps every message's two ends. */
  lemma SoftDeleteKeepsNoSelfLoops(t: Tables, messageId: Id, userId: Id)
    requires NoSelfLoops(t)
    requires SoftDelete(t.messages, messageId, userId).Ok?
    ensures NoSelfLoops(t.(messages := SoftDelete(t.messages, messageId, userId).value))
  {
    var after := SoftDelete(t.messages, messageId, userId).value;
    forall m | m in after ensures m.senderId != m.receiverId {
      var k :| 0 <= k < |after| && after[k] == m;
      assert t.messages[k] in t.messages;
    }
  }
}
