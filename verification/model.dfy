/**
 * The world the sentinel transition reads and changes: contact documents,
 * user accounts, the outgoing message queue, the per-document info records
 * and the settings. Stores are maps keyed by document id or username.
 */
module Model {
  import opened Common

  type Id = string

  /** Status of one `user_for_contact.replace` entry; any other string acts like PENDING. */
  datatype Status = Pending | Ready | Complete

  /** One `user_for_contact.replace[username]` entry of a contact. */
  datatype ReplaceEntry = ReplaceEntry(username: string, replacementId: Option<Id>, status: Status)

  /** Why replacing one user failed. */
  datatype Failure =
    | NoReplacementId
    | ReplacementNotFound
    | MissingName
    | MissingPhone
    | InvalidPhone
    | UserNotFound
    | UsernameGenerationFailed

  /** An entry of a document's `errors` list: a stable code and the failure it reports. */
  datatype ContactError = ContactError(code: string, failure: Failure)

  /**
   * A contact document. `replace` is the `user_for_contact.replace` map, kept
   * as a sequence in the document's key order; `None` when the contact has no
   * such map.
   */
  datatype Contact = Contact(
    rev: nat,
    kind: string,
    name: Option<string>,
    phone: Option<string>,
    parent: Option<Id>,
    replace: Option<seq<ReplaceEntry>>,
    errors: seq<ContactError>)

  /** A credential: a password someone knows, or one reset to a value nobody knows. */
  datatype Credential = Password(secret: string) | Locked

  /** A user account (the user document and its user-settings merged). */
  datatype User = User(
    name: string,
    roles: seq<string>,
    facility: Option<Id>,
    contactId: Id,
    phone: Option<string>,
    fullname: Option<string>,
    tokenLoginActive: bool,
    credential: Credential)

  datatype MessageKind = TokenLogin

  /** A queued message: its type, the `_id` of the account it is for and the recipient phone. */
  datatype Message = Message(kind: MessageKind, user: string, to: string)

  /** The outcome a transition recorded for a document, with the revision it ran on. */
  datatype Outcome = Outcome(ok: bool, lastRev: nat)

  /** The info record of one document: outcomes keyed by transition name. */
  datatype Info = Info(transitions: map<string, Outcome>)

  datatype Settings = Settings(createUserForContacts: bool, tokenLoginEnabled: bool, appUrl: string)

  /** The accounts and the message queue, the part a replacement changes. */
  datatype Accounts = Accounts(users: map<string, User>, messages: seq<Message>)

  datatype World = World(
    contacts: map<Id, Contact>,
    accounts: Accounts,
    infos: map<Id, Info>,
    settings: Settings)

  /** A login with `password` succeeds (302) rather than being refused (401). */
  predicate CanLogin(users: map<string, User>, name: string, password: string) {
    name in users && users[name].credential == Password(password)
  }

  /** The administrator's password update; an unknown username changes nothing. */
  function SetPassword(users: map<string, User>, name: string, password: string): (r: map<string, User>)
    ensures r.Keys == users.Keys
    ensures forall p :: CanLogin(r, name, p) <==> name in users && p == password
    ensures forall n :: n in users && n != name ==> r[n] == users[n]
    ensures name in users ==> r[name] == users[name].(credential := Password(password))
  {
    if name in users then users[name := users[name].(credential := Password(password))] else users
  }

  /** Names of the accounts linked to contact `contactId`. */
  function UsersOfContact(users: map<string, User>, contactId: Id): set<string> {
    set n | n in users && users[n].contactId == contactId
  }
}
