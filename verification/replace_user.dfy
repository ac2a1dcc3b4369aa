/**
 * The replace-user-for-contact algorithm: every READY entry of a person's
 * `user_for_contact.replace` map is validated, and on success a new account
 * linked to the replacement contact is created, a `token_login` message is
 * queued for it and the old account's password is reset. Entries are
 * independent: a failing entry records an error and the others still run.
 */
module ReplaceUser {
  import opened Common
  import opened Usernames
  import opened Model

  /** The error code written on the contact, as the system spells it (trailing apostrophe included). */
  const ErrorCode: string := "create_user_for_contacts_error'"

  /** How many random suffixes are tried before username generation gives up. */
  const MaxUsernameAttempts: nat := 10

  /** The phone-number parser's verdict on a phone string. */
  type PhoneCheck = string -> bool

  /** The random source: the suffix drawn on the `k`-th attempt for old username `oldName`. */
  type Draws = (string, nat) -> nat

  /** A field that JavaScript treats as absent: undefined or the empty string. */
  predicate IsMissing(s: Option<string>) {
    s.None? || s.value == ""
  }

  /** Whether failure `f` genuinely holds for entry `e`. */
  predicate Fails(f: Failure, contacts: map<Id, Contact>, users: map<string, User>, e: ReplaceEntry, validPhone: PhoneCheck) {
    var found := e.replacementId.Some? && e.replacementId.value in contacts;
    match f
    case NoReplacementId => e.replacementId.None?
    case ReplacementNotFound => e.replacementId.Some? && e.replacementId.value !in contacts
    case MissingName => found && IsMissing(contacts[e.replacementId.value].name)
    case MissingPhone => found && IsMissing(contacts[e.replacementId.value].phone)
    case InvalidPhone =>
      found && !IsMissing(contacts[e.replacementId.value].phone)
      && !validPhone(contacts[e.replacementId.value].phone.value)
    case UserNotFound => e.username !in users
    case UsernameGenerationFailed => false
  }

  /** The order in which the checks are made. */
  function Rank(f: Failure): nat {
    match f
    case NoReplacementId => 0
    case ReplacementNotFound => 1
    case MissingName => 2
    case MissingPhone => 3
    case InvalidPhone => 4
    case UserNotFound => 5
    case UsernameGenerationFailed => 6
  }

  /** What validation hands to account creation. */
  datatype Checked = Checked(replacementId: Id, replacement: Contact, name: string, phone: string, previous: User)

  /**
   * Validation of one entry: the replacement id, the replacement contact,
   * its name and phone, and the account being replaced.
   */
  function Validate(contacts: map<Id, Contact>, users: map<string, User>, e: ReplaceEntry, validPhone: PhoneCheck): (r: Result<Checked, Failure>)
    ensures r.Err? ==> Fails(r.error, contacts, users, e, validPhone)
    ensures r.Ok? <==> forall f :: !Fails(f, contacts, users, e, validPhone)
    ensures r.Err? ==> forall f :: Rank(f) < Rank(r.error) ==> !Fails(f, contacts, users, e, validPhone)
    ensures r.Ok? ==>
      && e.replacementId == Some(r.value.replacementId)
      && r.value.replacementId in contacts
      && r.value.replacement == contacts[r.value.replacementId]
      && r.value.replacement.name == Some(r.value.name) && r.value.name != ""
      && r.value.replacement.phone == Some(r.value.phone) && validPhone(r.value.phone)
      && e.username in users && r.value.previous == users[e.username]
  {
    if e.replacementId.None? then
      assert Fails(NoReplacementId, contacts, users, e, validPhone);
      Err(NoReplacementId)
    else if e.replacementId.value !in contacts then
      assert Fails(ReplacementNotFound, contacts, users, e, validPhone);
      Err(ReplacementNotFound)
    else
      var id := e.replacementId.value;
      var c := contacts[id];
      if IsMissing(c.name) then
        assert Fails(MissingName, contacts, users, e, validPhone);
        Err(MissingName)
      else if IsMissing(c.phone) then
        assert Fails(MissingPhone, contacts, users, e, validPhone);
        Err(MissingPhone)
      else if !validPhone(c.phone.value) then
        assert Fails(InvalidPhone, contacts, users, e, validPhone);
        Err(InvalidPhone)
      else if e.username !in users then
        assert Fails(UserNotFound, contacts, users, e, validPhone);
        Err(UserNotFound)
      else Ok(Checked(id, c, c.name.value, c.phone.value, users[e.username]))
  }

  /** The username tried on attempt `k`. */
  function Candidate(name: string, oldName: string, rng: Draws, k: nat): string {
    MakeUsername(Slug(name), rng(oldName, k))
  }

  /**
   * Entry `e` passes validation against `users`, yet every candidate
   * username for its replacement's name is taken: the cause of a username
   * failure.
   */
  predicate UsernamesExhausted(contacts: map<Id, Contact>, users: map<string, User>, e: ReplaceEntry, validPhone: PhoneCheck, rng: Draws) {
    && (forall f :: !Fails(f, contacts, users, e, validPhone))
    && e.replacementId.Some? && e.replacementId.value in contacts
    && contacts[e.replacementId.value].name.Some?
    && forall k :: 0 <= k < MaxUsernameAttempts ==>
         Candidate(contacts[e.replacementId.value].name.value, e.username, rng, k) in users
  }

  /**
   * A recorded failure is explained for entry `e`: it holds against the
   * accounts `before`, or it is the username failure and every candidate is
   * taken among the accounts `after`.
   */
  predicate Explained(f: Failure, contacts: map<Id, Contact>, before: map<string, User>, after: map<string, User>,
                      e: ReplaceEntry, validPhone: PhoneCheck, rng: Draws) {
    || Fails(f, contacts, before, e, validPhone)
    || (f == UsernameGenerationFailed && UsernamesExhausted(contacts, after, e, validPhone, rng))
  }

  /** Attempt `k` is the first one from `attempt` on whose candidate is free. */
  predicate FirstFree(users: map<string, User>, name: string, oldName: string, rng: Draws, attempt: nat, k: nat) {
    && attempt <= k < MaxUsernameAttempts
    && Candidate(name, oldName, rng, k) !in users
    && forall k' :: attempt <= k' < k ==> Candidate(name, oldName, rng, k') in users
  }

  /**
   * Username generation: draw suffixes until the username is free, giving up after
   * `MaxUsernameAttempts` draws.
   */
  function PickUsername(users: map<string, User>, name: string, oldName: string, rng: Draws, attempt: nat): (r: Option<string>)
    requires attempt <= MaxUsernameAttempts
    decreases MaxUsernameAttempts - attempt
    ensures r.Some? ==> r.value !in users && IsGeneratedFor(r.value, name)
    ensures r.Some? ==> exists k :: FirstFree(users, name, oldName, rng, attempt, k) && r.value == Candidate(name, oldName, rng, k)
    ensures r.None? <==> forall k :: attempt <= k < MaxUsernameAttempts ==> Candidate(name, oldName, rng, k) in users
  {
    if attempt == MaxUsernameAttempts then None
    else
      var u := Candidate(name, oldName, rng, attempt);
      if u !in users then
        MakeUsernameShape(name, rng(oldName, attempt));
        Some(u)
      else
        PickUsername(users, name, oldName, rng, attempt + 1)
  }

  /** The account a replacement creates: roles from the old account, everything else from the replacement contact. */
  predicate IsNewAccount(nu: User, u: string, previous: User, rid: Id, repl: Contact) {
    && nu.name == u
    && nu.roles == previous.roles
    && nu.facility == repl.parent
    && nu.contactId == rid
    && nu.phone == repl.phone
    && nu.fullname == repl.name
    && nu.tokenLoginActive
    && nu.credential == Locked
    && repl.name.Some?
    && IsGeneratedFor(u, repl.name.value)
  }

  /** The effect of replacing account `e.username` by the new account `u`. */
  predicate ReplacedBy(before: Accounts, after: Accounts, contacts: map<Id, Contact>, e: ReplaceEntry, u: string) {
    && e.replacementId.Some?
    && e.replacementId.value in contacts
    && e.username in before.users
    && u !in before.users
    && contacts[e.replacementId.value].phone.Some?
    && after.users.Keys == before.users.Keys + {u}
    && IsNewAccount(after.users[u], u, before.users[e.username], e.replacementId.value, contacts[e.replacementId.value])
    && after.users[e.username] == before.users[e.username].(credential := Locked)
    && (forall n :: n in before.users && n != e.username ==> after.users[n] == before.users[n])
    && after.messages == before.messages + [Message(TokenLogin, UserDocId(u), contacts[e.replacementId.value].phone.value)]
  }

  datatype Replacement = Replacement(accounts: Accounts, newUsername: string)

  /** Replacement of one entry: validation, username generation, the new account, its message and the old account's reset. */
  function ReplaceOne(contacts: map<Id, Contact>, acc: Accounts, e: ReplaceEntry, validPhone: PhoneCheck, rng: Draws): (r: Result<Replacement, Failure>)
    ensures r.Ok? <==>
      && (forall f :: !Fails(f, contacts, acc.users, e, validPhone))
      && e.replacementId.Some? && e.replacementId.value in contacts
      && contacts[e.replacementId.value].name.Some?
      && exists k :: 0 <= k < MaxUsernameAttempts
           && Candidate(contacts[e.replacementId.value].name.value, e.username, rng, k) !in acc.users
    ensures r.Ok? ==> ReplacedBy(acc, r.value.accounts, contacts, e, r.value.newUsername)
    ensures r.Err? && r.error != UsernameGenerationFailed ==>
      && Fails(r.error, contacts, acc.users, e, validPhone)
      && forall f :: Rank(f) < Rank(r.error) ==> !Fails(f, contacts, acc.users, e, validPhone)
    ensures r.Err? && r.error == UsernameGenerationFailed ==> UsernamesExhausted(contacts, acc.users, e, validPhone, rng)
  {
    match Validate(contacts, acc.users, e, validPhone)
    case Err(f) => Err(f)
    case Ok(c) =>
      match PickUsername(acc.users, c.name, e.username, rng, 0)
      case None => Err(UsernameGenerationFailed)
      case Some(u) =>
        var nu := User(u, c.previous.roles, c.replacement.parent, c.replacementId, Some(c.phone), Some(c.name), true, Locked);
        var users := acc.users[e.username := c.previous.(credential := Locked)][u := nu];
        Ok(Replacement(Accounts(users, acc.messages + [Message(TokenLogin, UserDocId(u), c.phone)]), u))
  }

  /** Number of READY entries. */
  function CountReady(entries: seq<ReplaceEntry>): nat {
    if entries == [] then 0
    else (if entries[0].status == Ready then 1 else 0) + CountReady(entries[1..])
  }

  /** Whether `n` is the key of a READY entry. */
  predicate IsReadyKey(entries: seq<ReplaceEntry>, n: string) {
    exists i :: 0 <= i < |entries| && entries[i].status == Ready && entries[i].username == n
  }

  /**
   * The result of one pass over the replace map: the accounts afterwards,
   * the entries with their new statuses, the errors to add to the contact
   * and, for each, the index of the entry that failed, the usernames created
   * in order and, for each, the index of the entry that created it.
   */
  datatype Pass = Pass(accounts: Accounts, entries: seq<ReplaceEntry>, errors: seq<ContactError>, failedAt: seq<nat>,
                       created: seq<string>, sources: seq<nat>)

  function Shift(s: seq<nat>): (r: seq<nat>)
    ensures |r| == |s|
    ensures forall j :: 0 <= j < |s| ==> r[j] == s[j] + 1
  {
    seq(|s|, j requires 0 <= j < |s| => s[j] + 1)
  }

  /**
   * Runs every READY entry in key order as an independent sub-transaction;
   * a successful entry becomes COMPLETE, a failed one stays READY and adds
   * one error.
   */
  function RunEntries(contacts: map<Id, Contact>, acc: Accounts, entries: seq<ReplaceEntry>, validPhone: PhoneCheck, rng: Draws): (p: Pass)
    decreases |entries|
    // the entries keep their keys and ids; only READY ones change status
    ensures |p.entries| == |entries|
    ensures forall i :: 0 <= i < |entries| ==>
      p.entries[i] == entries[i] || (entries[i].status == Ready && p.entries[i] == entries[i].(status := Complete))
    // every READY entry either creates one account or records one error
    ensures |p.created| + |p.errors| == CountReady(entries)
    ensures forall j :: 0 <= j < |p.errors| ==> p.errors[j].code == ErrorCode
    ensures |p.sources| == |p.created|
    ensures |p.failedAt| == |p.errors|
    ensures |p.accounts.messages| == |acc.messages| + |p.created|
  {
    if entries == [] then Pass(acc, [], [], [], [], [])
    else
      var e := entries[0];
      if e.status != Ready then
        var rest := RunEntries(contacts, acc, entries[1..], validPhone, rng);
        Pass(rest.accounts, [e] + rest.entries, rest.errors, Shift(rest.failedAt), rest.created, Shift(rest.sources))
      else
        match ReplaceOne(contacts, acc, e, validPhone, rng)
        case Err(f) =>
          var rest := RunEntries(contacts, acc, entries[1..], validPhone, rng);
          Pass(rest.accounts, [e] + rest.entries, [ContactError(ErrorCode, f)] + rest.errors, [0] + Shift(rest.failedAt),
               rest.created, Shift(rest.sources))
        case Ok(rep) =>
          var rest := RunEntries(contacts, rep.accounts, entries[1..], validPhone, rng);
          Pass(rest.accounts, [e.(status := Complete)] + rest.entries, rest.errors, Shift(rest.failedAt),
               [rep.newUsername] + rest.created, [0] + Shift(rest.sources))
  }

  /** The accounts a pass creates are fresh, distinct and exactly the new keys. */
  lemma {:induction false} RunEntriesCreatesFreshAccounts(contacts: map<Id, Contact>, acc: Accounts, entries: seq<ReplaceEntry>, validPhone: PhoneCheck, rng: Draws, p: Pass)
    requires p == RunEntries(contacts, acc, entries, validPhone, rng)
    ensures forall j :: 0 <= j < |p.created| ==> p.created[j] !in acc.users
    ensures forall j, k :: 0 <= j < k < |p.created| ==> p.created[j] != p.created[k]
    ensures forall n :: n in p.accounts.users <==> n in acc.users || n in p.created
    decreases |entries|
  {
    if entries != [] {
      var e := entries[0];
      if e.status != Ready {
        RunEntriesCreatesFreshAccounts(contacts, acc, entries[1..], validPhone, rng, RunEntries(contacts, acc, entries[1..], validPhone, rng));
      } else {
        match ReplaceOne(contacts, acc, e, validPhone, rng)
        case Err(_) =>
          RunEntriesCreatesFreshAccounts(contacts, acc, entries[1..], validPhone, rng, RunEntries(contacts, acc, entries[1..], validPhone, rng));
        case Ok(rep) =>
          RunEntriesCreatesFreshAccounts(contacts, rep.accounts, entries[1..], validPhone, rng, RunEntries(contacts, rep.accounts, entries[1..], validPhone, rng));
      }
    }
  }

  lemma ReadyKeyOfTail(entries: seq<ReplaceEntry>)
    requires entries != []
    ensures forall n :: IsReadyKey(entries[1..], n) ==> IsReadyKey(entries, n)
  {
    forall n | IsReadyKey(entries[1..], n) ensures IsReadyKey(entries, n) {
      var i :| 0 <= i < |entries[1..]| && entries[1..][i].status == Ready && entries[1..][i].username == n;
      assert entries[i + 1] == entries[1..][i];
    }
  }

  /**
   * Accounts that existed before the pass are all kept; at most their
   * password is reset, and accounts not named by a READY entry are untouched.
   */
  lemma {:induction false} RunEntriesKeepsExistingAccounts(contacts: map<Id, Contact>, acc: Accounts, entries: seq<ReplaceEntry>, validPhone: PhoneCheck, rng: Draws, p: Pass)
    requires p == RunEntries(contacts, acc, entries, validPhone, rng)
    ensures forall n :: n in acc.users ==>
      && n in p.accounts.users
      && (p.accounts.users[n] == acc.users[n] || p.accounts.users[n] == acc.users[n].(credential := Locked))
    ensures forall n :: n in acc.users && !IsReadyKey(entries, n) ==> p.accounts.users[n] == acc.users[n]
    decreases |entries|
  {
    if entries != [] {
      var e := entries[0];
      var tail := entries[1..];
      ReadyKeyOfTail(entries);
      if e.status != Ready {
        RunEntriesKeepsExistingAccounts(contacts, acc, tail, validPhone, rng, RunEntries(contacts, acc, tail, validPhone, rng));
      } else {
        assert IsReadyKey(entries, e.username) by { assert entries[0] == e; }
        match ReplaceOne(contacts, acc, e, validPhone, rng)
        case Err(_) =>
          RunEntriesKeepsExistingAccounts(contacts, acc, tail, validPhone, rng, RunEntries(contacts, acc, tail, validPhone, rng));
        case Ok(rep) =>
          RunEntriesKeepsExistingAccounts(contacts, rep.accounts, tail, validPhone, rng, RunEntries(contacts, rep.accounts, tail, validPhone, rng));
      }
    }
  }

  /** A pass only appends to the message queue. */
  lemma {:induction false} RunEntriesAppendsMessages(contacts: map<Id, Contact>, acc: Accounts, entries: seq<ReplaceEntry>, validPhone: PhoneCheck, rng: Draws, p: Pass)
    requires p == RunEntries(contacts, acc, entries, validPhone, rng)
    ensures p.accounts.messages[..|acc.messages|] == acc.messages
    decreases |entries|
  {
    if entries != [] {
      var e := entries[0];
      if e.status != Ready {
        RunEntriesAppendsMessages(contacts, acc, entries[1..], validPhone, rng, RunEntries(contacts, acc, entries[1..], validPhone, rng));
      } else {
        match ReplaceOne(contacts, acc, e, validPhone, rng)
        case Err(_) =>
          RunEntriesAppendsMessages(contacts, acc, entries[1..], validPhone, rng, RunEntries(contacts, acc, entries[1..], validPhone, rng));
        case Ok(rep) =>
          var rest := RunEntries(contacts, rep.accounts, entries[1..], validPhone, rng);
          RunEntriesAppendsMessages(contacts, rep.accounts, entries[1..], validPhone, rng, rest);
          assert rep.accounts.messages[..|acc.messages|] == acc.messages;
          assert rest.accounts.messages[..|acc.messages|] == rest.accounts.messages[..|rep.accounts.messages|][..|acc.messages|];
      }
    }
  }

  /** The message at position `base + j` announces the `j`-th account the pass created. */
  predicate Announces(p: Pass, base: nat, j: nat) {
    && j < |p.created|
    && base + j < |p.accounts.messages|
    && p.created[j] in p.accounts.users
    && p.accounts.messages[base + j].kind == TokenLogin
    && p.accounts.messages[base + j].user == UserDocId(p.created[j])
    && p.accounts.users[p.created[j]].phone == Some(p.accounts.messages[base + j].to)
  }

  /** Announcing depends only on the accounts and the created usernames. */
  lemma AnnouncesSameOutcome(p: Pass, q: Pass, base: nat)
    requires p.accounts == q.accounts && p.created == q.created
    requires forall j :: 0 <= j < |q.created| ==> Announces(q, base, j)
    ensures forall j :: 0 <= j < |p.created| ==> Announces(p, base, j)
  {
    forall j | 0 <= j < |p.created| ensures Announces(p, base, j) {
      assert Announces(q, base, j);
    }
  }

  /** A successful first entry announces its account first, then the rest of the pass's. */
  lemma AnnouncesAfterReplacement(acc: Accounts, rep: Replacement, rest: Pass, p: Pass, contacts: map<Id, Contact>, e: ReplaceEntry)
    requires ReplacedBy(acc, rep.accounts, contacts, e, rep.newUsername)
    requires p.accounts == rest.accounts && p.created == [rep.newUsername] + rest.created
    requires |rest.accounts.messages| == |rep.accounts.messages| + |rest.created|
    requires rest.accounts.messages[..|rep.accounts.messages|] == rep.accounts.messages
    requires rep.newUsername in rest.accounts.users
    requires rest.accounts.users[rep.newUsername] == rep.accounts.users[rep.newUsername]
    requires forall j :: 0 <= j < |rest.created| ==> Announces(rest, |rep.accounts.messages|, j)
    ensures forall j :: 0 <= j < |p.created| ==> Announces(p, |acc.messages|, j)
  {
    var k := |acc.messages|;
    assert |rep.accounts.messages| == k + 1;
    assert rest.accounts.messages[k] == rest.accounts.messages[..k + 1][k] == rep.accounts.messages[k];
    assert Announces(p, k, 0);
    forall j | 1 <= j < |p.created| ensures Announces(p, k, j) {
      assert Announces(rest, k + 1, j - 1);
    }
  }

  /**
   * The `j`-th message a pass queues is the token_login message of the
   * `j`-th account it creates, addressed to that account's phone.
   */
  lemma {:induction false} RunEntriesPairsMessages(contacts: map<Id, Contact>, acc: Accounts, entries: seq<ReplaceEntry>, validPhone: PhoneCheck, rng: Draws, p: Pass)
    requires p == RunEntries(contacts, acc, entries, validPhone, rng)
    ensures forall j :: 0 <= j < |p.created| ==> Announces(p, |acc.messages|, j)
    decreases |entries|
  {
    if entries != [] {
      var e := entries[0];
      if e.status != Ready {
        var rest := RunEntries(contacts, acc, entries[1..], validPhone, rng);
        RunEntriesPairsMessages(contacts, acc, entries[1..], validPhone, rng, rest);
        AnnouncesSameOutcome(p, rest, |acc.messages|);
      } else {
        match ReplaceOne(contacts, acc, e, validPhone, rng)
        case Err(_) =>
          var rest := RunEntries(contacts, acc, entries[1..], validPhone, rng);
          RunEntriesPairsMessages(contacts, acc, entries[1..], validPhone, rng, rest);
          AnnouncesSameOutcome(p, rest, |acc.messages|);
        case Ok(rep) =>
          var rest := RunEntries(contacts, rep.accounts, entries[1..], validPhone, rng);
          RunEntriesPairsMessages(contacts, rep.accounts, entries[1..], validPhone, rng, rest);
          RunEntriesKeepsExistingAccounts(contacts, rep.accounts, entries[1..], validPhone, rng, rest);
          RunEntriesAppendsMessages(contacts, rep.accounts, entries[1..], validPhone, rng, rest);
          AnnouncesAfterReplacement(acc, rep, rest, p, contacts, e);
      }
    }
  }

  /**
   * The `j`-th account a pass created comes from entry `p.sources[j]`: a
   * READY entry, now COMPLETE, whose replacement contact and old account
   * the new account was built from.
   */
  predicate CreatedFrom(p: Pass, contacts: map<Id, Contact>, entries: seq<ReplaceEntry>, j: nat) {
    && j < |p.created| && j < |p.sources|
    && |p.entries| == |entries|
    && var i := p.sources[j];
    && i < |entries|
    && entries[i].status == Ready
    && p.entries[i].status == Complete
    && entries[i].replacementId.Some?
    && entries[i].replacementId.value in contacts
    && entries[i].username in p.accounts.users
    && p.created[j] in p.accounts.users
    && IsNewAccount(p.accounts.users[p.created[j]], p.created[j], p.accounts.users[entries[i].username],
                    entries[i].replacementId.value, contacts[entries[i].replacementId.value])
  }

  lemma CreatedFromSkipped(p: Pass, rest: Pass, contacts: map<Id, Contact>, entries: seq<ReplaceEntry>, e': ReplaceEntry)
    requires entries != []
    requires |rest.entries| == |entries| - 1
    requires p == Pass(rest.accounts, [e'] + rest.entries, p.errors, p.failedAt, rest.created, Shift(rest.sources))
    requires forall j :: 0 <= j < |rest.created| ==> CreatedFrom(rest, contacts, entries[1..], j)
    requires forall j, k :: 0 <= j < k < |rest.sources| ==> rest.sources[j] < rest.sources[k]
    ensures forall j :: 0 <= j < |p.created| ==> CreatedFrom(p, contacts, entries, j)
    ensures forall j, k :: 0 <= j < k < |p.sources| ==> p.sources[j] < p.sources[k]
  {
    forall j | 0 <= j < |p.created| ensures CreatedFrom(p, contacts, entries, j) {
      assert CreatedFrom(rest, contacts, entries[1..], j);
      var i := rest.sources[j];
      assert p.sources[j] == i + 1;
      assert entries[i + 1] == entries[1..][i];
      assert p.entries[i + 1] == rest.entries[i];
    }
  }

  lemma CreatedFromAfterReplacement(acc: Accounts, rep: Replacement, rest: Pass, p: Pass, contacts: map<Id, Contact>, entries: seq<ReplaceEntry>)
    requires entries != [] && entries[0].status == Ready
    requires ReplacedBy(acc, rep.accounts, contacts, entries[0], rep.newUsername)
    requires |rest.entries| == |entries| - 1
    requires p == Pass(rest.accounts, [entries[0].(status := Complete)] + rest.entries, p.errors, p.failedAt,
                       [rep.newUsername] + rest.created, [0] + Shift(rest.sources))
    requires forall n :: n in rep.accounts.users ==>
      && n in rest.accounts.users
      && (rest.accounts.users[n] == rep.accounts.users[n] || rest.accounts.users[n] == rep.accounts.users[n].(credential := Locked))
    requires forall j :: 0 <= j < |rest.created| ==> CreatedFrom(rest, contacts, entries[1..], j)
    requires forall j, k :: 0 <= j < k < |rest.sources| ==> rest.sources[j] < rest.sources[k]
    ensures forall j :: 0 <= j < |p.created| ==> CreatedFrom(p, contacts, entries, j)
    ensures forall j, k :: 0 <= j < k < |p.sources| ==> p.sources[j] < p.sources[k]
  {
    var e := entries[0];
    var u := rep.newUsername;
    assert rest.accounts.users[u] == rep.accounts.users[u];
    assert rest.accounts.users[e.username].roles == acc.users[e.username].roles;
    assert CreatedFrom(p, contacts, entries, 0);
    forall j | 1 <= j < |p.created| ensures CreatedFrom(p, contacts, entries, j) {
      assert CreatedFrom(rest, contacts, entries[1..], j - 1);
      var i := rest.sources[j - 1];
      assert p.sources[j] == i + 1;
      assert entries[i + 1] == entries[1..][i];
      assert p.entries[i + 1] == rest.entries[i];
    }
  }

  /** Every account a pass creates is traced to its own READY entry, which is now COMPLETE. */
  lemma {:induction false} RunEntriesTracesCreatedAccounts(contacts: map<Id, Contact>, acc: Accounts, entries: seq<ReplaceEntry>, validPhone: PhoneCheck, rng: Draws, p: Pass)
    requires p == RunEntries(contacts, acc, entries, validPhone, rng)
    ensures forall j :: 0 <= j < |p.created| ==> CreatedFrom(p, contacts, entries, j)
    ensures forall j, k :: 0 <= j < k < |p.sources| ==> p.sources[j] < p.sources[k]
    decreases |entries|
  {
    if entries != [] {
      var e := entries[0];
      if e.status != Ready {
        var rest := RunEntries(contacts, acc, entries[1..], validPhone, rng);
        RunEntriesTracesCreatedAccounts(contacts, acc, entries[1..], validPhone, rng, rest);
        CreatedFromSkipped(p, rest, contacts, entries, e);
      } else {
        match ReplaceOne(contacts, acc, e, validPhone, rng)
        case Err(_) =>
          var rest := RunEntries(contacts, acc, entries[1..], validPhone, rng);
          RunEntriesTracesCreatedAccounts(contacts, acc, entries[1..], validPhone, rng, rest);
          CreatedFromSkipped(p, rest, contacts, entries, e);
        case Ok(rep) =>
          var rest := RunEntries(contacts, rep.accounts, entries[1..], validPhone, rng);
          RunEntriesTracesCreatedAccounts(contacts, rep.accounts, entries[1..], validPhone, rng, rest);
          RunEntriesKeepsExistingAccounts(contacts, rep.accounts, entries[1..], validPhone, rng, rest);
          CreatedFromAfterReplacement(acc, rep, rest, p, contacts, entries);
      }
    }
  }

  /** Every entry of `entries` that `after` marks COMPLETE has a locked old account in `users`. */
  predicate LocksCompleted(entries: seq<ReplaceEntry>, after: seq<ReplaceEntry>, users: map<string, User>) {
    forall i :: 0 <= i < |entries| && i < |after| && entries[i].status == Ready && after[i].status == Complete ==>
      entries[i].username in users && users[entries[i].username].credential == Locked
  }

  lemma LocksCompletedShifted(entries: seq<ReplaceEntry>, e': ReplaceEntry, rest: seq<ReplaceEntry>, users: map<string, User>)
    requires entries != [] && |rest| == |entries| - 1
    requires LocksCompleted(entries[1..], rest, users)
    requires entries[0].status == Ready && e'.status == Complete ==>
      entries[0].username in users && users[entries[0].username].credential == Locked
    ensures LocksCompleted(entries, [e'] + rest, users)
  {
    forall i | 1 <= i < |entries| ensures entries[i] == entries[1..][i - 1] && ([e'] + rest)[i] == rest[i - 1] { }
  }

  /** The old account of every entry a pass completed can no longer log in with any password. */
  lemma {:induction false} RunEntriesLocksReplacedAccounts(contacts: map<Id, Contact>, acc: Accounts, entries: seq<ReplaceEntry>, validPhone: PhoneCheck, rng: Draws, p: Pass)
    requires p == RunEntries(contacts, acc, entries, validPhone, rng)
    ensures forall i :: 0 <= i < |entries| && entries[i].status == Ready && p.entries[i].status == Complete ==>
      entries[i].username in p.accounts.users && p.accounts.users[entries[i].username].credential == Locked
    decreases |entries|
  {
    if entries != [] {
      var e := entries[0];
      var tail := entries[1..];
      if e.status != Ready {
        var rest := RunEntries(contacts, acc, tail, validPhone, rng);
        RunEntriesLocksReplacedAccounts(contacts, acc, tail, validPhone, rng, rest);
        LocksCompletedShifted(entries, e, rest.entries, rest.accounts.users);
      } else {
        match ReplaceOne(contacts, acc, e, validPhone, rng)
        case Err(_) =>
          var rest := RunEntries(contacts, acc, tail, validPhone, rng);
          RunEntriesLocksReplacedAccounts(contacts, acc, tail, validPhone, rng, rest);
          LocksCompletedShifted(entries, e, rest.entries, rest.accounts.users);
        case Ok(rep) =>
          var rest := RunEntries(contacts, rep.accounts, tail, validPhone, rng);
          RunEntriesLocksReplacedAccounts(contacts, rep.accounts, tail, validPhone, rng, rest);
          RunEntriesKeepsExistingAccounts(contacts, rep.accounts, tail, validPhone, rng, rest);
          assert e.username in rep.accounts.users;
          LocksCompletedShifted(entries, e.(status := Complete), rest.entries, rest.accounts.users);
      }
      assert LocksCompleted(entries, p.entries, p.accounts.users);
    }
  }

  /** Only the account lookup depends on the accounts, and a failed lookup still fails with fewer accounts. */
  lemma FailsWithFewerUsers(f: Failure, contacts: map<Id, Contact>, fewer: map<string, User>, more: map<string, User>, e: ReplaceEntry, validPhone: PhoneCheck)
    requires fewer.Keys <= more.Keys
    requires Fails(f, contacts, more, e, validPhone)
    ensures Fails(f, contacts, fewer, e, validPhone)
  {
  }

  /**
   * The `j`-th error of a pass comes from entry `p.failedAt[j]`: a READY
   * entry the pass left as it was, whose recorded failure holds against the
   * accounts the pass started from or, for the username failure, whose
   * candidates are all taken among the accounts after the pass.
   */
  predicate FailedFrom(p: Pass, contacts: map<Id, Contact>, acc: Accounts, entries: seq<ReplaceEntry>, validPhone: PhoneCheck, rng: Draws, j: nat) {
    && j < |p.errors| && j < |p.failedAt|
    && |p.entries| == |entries|
    && var i := p.failedAt[j];
    && i < |entries|
    && entries[i].status == Ready
    && p.entries[i] == entries[i]
    && Explained(p.errors[j].failure, contacts, acc.users, p.accounts.users, entries[i], validPhone, rng)
  }

  lemma FailedFromShifted(p: Pass, rest: Pass, contacts: map<Id, Contact>, acc: Accounts, accRest: Accounts, entries: seq<ReplaceEntry>, validPhone: PhoneCheck,
                          rng: Draws, e': ReplaceEntry, first: seq<ContactError>, firstAt: seq<nat>)
    requires entries != []
    requires p.accounts == rest.accounts
    requires acc.users.Keys <= accRest.users.Keys
    requires |rest.entries| == |entries| - 1 && |rest.failedAt| == |rest.errors| && |firstAt| == |first|
    requires p.entries == [e'] + rest.entries
    requires p.errors == first + rest.errors && p.failedAt == firstAt + Shift(rest.failedAt)
    requires forall j :: 0 <= j < |rest.errors| ==> FailedFrom(rest, contacts, accRest, entries[1..], validPhone, rng, j)
    requires firstAt == [] || firstAt == [0]
    requires forall j, k :: 0 <= j < k < |rest.failedAt| ==> rest.failedAt[j] < rest.failedAt[k]
    ensures forall j :: |first| <= j < |p.errors| ==> FailedFrom(p, contacts, acc, entries, validPhone, rng, j)
    ensures forall j, k :: 0 <= j < k < |p.failedAt| ==> p.failedAt[j] < p.failedAt[k]
  {
    var d := |first|;
    forall j | d <= j < |p.errors| ensures FailedFrom(p, contacts, acc, entries, validPhone, rng, j) {
      assert FailedFrom(rest, contacts, accRest, entries[1..], validPhone, rng, j - d);
      var i := rest.failedAt[j - d];
      assert p.failedAt[j] == i + 1;
      assert entries[i + 1] == entries[1..][i];
      assert p.entries[i + 1] == rest.entries[i];
      assert p.errors[j] == rest.errors[j - d];
      if Fails(rest.errors[j - d].failure, contacts, accRest.users, entries[i + 1], validPhone) {
        FailsWithFewerUsers(rest.errors[j - d].failure, contacts, acc.users, accRest.users, entries[i + 1], validPhone);
      }
    }
  }

  /** Only the account lookup and the candidates depend on the accounts, and both stay put when accounts are added. */
  lemma ExhaustedWithMoreUsers(contacts: map<Id, Contact>, fewer: map<string, User>, more: map<string, User>, e: ReplaceEntry, validPhone: PhoneCheck, rng: Draws)
    requires fewer.Keys <= more.Keys
    requires UsernamesExhausted(contacts, fewer, e, validPhone, rng)
    ensures UsernamesExhausted(contacts, more, e, validPhone, rng)
  {
    forall f
      ensures !Fails(f, contacts, more, e, validPhone)
    {
      assert !Fails(f, contacts, fewer, e, validPhone);
    }
  }

  /** The failure `ReplaceOne` reports for `e` stays explained once the rest of the pass has added accounts. */
  lemma FirstFailureExplained(contacts: map<Id, Contact>, acc: Accounts, after: Accounts, e: ReplaceEntry, validPhone: PhoneCheck, rng: Draws, f: Failure)
    requires ReplaceOne(contacts, acc, e, validPhone, rng) == Err(f)
    requires forall n :: n in acc.users ==> n in after.users
    ensures Explained(f, contacts, acc.users, after.users, e, validPhone, rng)
  {
    if f == UsernameGenerationFailed {
      ExhaustedWithMoreUsers(contacts, acc.users, after.users, e, validPhone, rng);
    }
  }

  /**
   * Every error a pass records is traced to its own READY entry, left READY,
   * whose failure genuinely holds; the entries are met in key order.
   */
  lemma {:induction false} RunEntriesTracesErrors(contacts: map<Id, Contact>, acc: Accounts, entries: seq<ReplaceEntry>, validPhone: PhoneCheck, rng: Draws, p: Pass)
    requires p == RunEntries(contacts, acc, entries, validPhone, rng)
    ensures forall j :: 0 <= j < |p.errors| ==> FailedFrom(p, contacts, acc, entries, validPhone, rng, j)
    ensures forall j, k :: 0 <= j < k < |p.failedAt| ==> p.failedAt[j] < p.failedAt[k]
    decreases |entries|
  {
    if entries != [] {
      var e := entries[0];
      var tail := entries[1..];
      if e.status != Ready {
        var rest := RunEntries(contacts, acc, tail, validPhone, rng);
        RunEntriesTracesErrors(contacts, acc, tail, validPhone, rng, rest);
        FailedFromShifted(p, rest, contacts, acc, acc, entries, validPhone, rng, e, [], []);
      } else {
        match ReplaceOne(contacts, acc, e, validPhone, rng)
        case Err(f) =>
          var rest := RunEntries(contacts, acc, tail, validPhone, rng);
          RunEntriesTracesErrors(contacts, acc, tail, validPhone, rng, rest);
          FailedFromShifted(p, rest, contacts, acc, acc, entries, validPhone, rng, e, [ContactError(ErrorCode, f)], [0]);
          RunEntriesKeepsExistingAccounts(contacts, acc, tail, validPhone, rng, rest);
          FirstFailureExplained(contacts, acc, rest.accounts, e, validPhone, rng, f);
          assert FailedFrom(p, contacts, acc, entries, validPhone, rng, 0);
        case Ok(rep) =>
          var rest := RunEntries(contacts, rep.accounts, tail, validPhone, rng);
          RunEntriesTracesErrors(contacts, rep.accounts, tail, validPhone, rng, rest);
          FailedFromShifted(p, rest, contacts, acc, rep.accounts, entries, validPhone, rng, e.(status := Complete), [], []);
      }
    }
  }

  /** Entry `i` created one of the pass's accounts. */
  predicate HasCreated(p: Pass, i: nat) {
    exists j :: 0 <= j < |p.sources| && p.sources[j] == i
  }

  /** Entry `i` recorded one of the pass's errors. */
  predicate HasFailed(p: Pass, i: nat) {
    exists j :: 0 <= j < |p.failedAt| && p.failedAt[j] == i
  }

  /** Entry `i` of the pass is accounted for by its new status. */
  predicate Settled(p: Pass, i: nat) {
    && i < |p.entries|
    && (p.entries[i].status == Complete ==> HasCreated(p, i))
    && (p.entries[i].status == Ready ==> HasFailed(p, i))
  }

  lemma SettledShifted(p: Pass, rest: Pass, entries: seq<ReplaceEntry>, e': ReplaceEntry, firstSource: seq<nat>, firstAt: seq<nat>)
    requires entries != []
    requires |rest.entries| == |entries| - 1
    requires p.entries == [e'] + rest.entries
    requires p.sources == firstSource + Shift(rest.sources)
    requires p.failedAt == firstAt + Shift(rest.failedAt)
    requires forall i :: 0 <= i < |entries| - 1 && entries[1..][i].status == Ready ==> Settled(rest, i)
    ensures forall i :: 1 <= i < |entries| && entries[i].status == Ready ==> Settled(p, i)
  {
    var ds, df := |firstSource|, |firstAt|;
    forall i | 1 <= i < |entries| && entries[i].status == Ready ensures Settled(p, i) {
      assert entries[1..][i - 1] == entries[i];
      assert p.entries[i] == rest.entries[i - 1];
      assert Settled(rest, i - 1);
      if p.entries[i].status == Complete {
        var j :| 0 <= j < |rest.sources| && rest.sources[j] == i - 1;
        assert p.sources[ds + j] == i;
      }
      if p.entries[i].status == Ready {
        var j :| 0 <= j < |rest.failedAt| && rest.failedAt[j] == i - 1;
        assert p.failedAt[df + j] == i;
      }
    }
  }

  lemma {:induction false} RunEntriesSettlesReadyEntries(contacts: map<Id, Contact>, acc: Accounts, entries: seq<ReplaceEntry>, validPhone: PhoneCheck, rng: Draws, p: Pass)
    requires p == RunEntries(contacts, acc, entries, validPhone, rng)
    ensures forall i :: 0 <= i < |entries| && entries[i].status == Ready ==> Settled(p, i)
    decreases |entries|
  {
    if entries != [] {
      var e := entries[0];
      var tail := entries[1..];
      if e.status != Ready {
        var rest := RunEntries(contacts, acc, tail, validPhone, rng);
        RunEntriesSettlesReadyEntries(contacts, acc, tail, validPhone, rng, rest);
        SettledShifted(p, rest, entries, e, [], []);
      } else {
        match ReplaceOne(contacts, acc, e, validPhone, rng)
        case Err(f) =>
          var rest := RunEntries(contacts, acc, tail, validPhone, rng);
          RunEntriesSettlesReadyEntries(contacts, acc, tail, validPhone, rng, rest);
          SettledShifted(p, rest, entries, e, [], [0]);
          assert p.failedAt[0] == 0;
        case Ok(rep) =>
          var rest := RunEntries(contacts, rep.accounts, tail, validPhone, rng);
          RunEntriesSettlesReadyEntries(contacts, rep.accounts, tail, validPhone, rng, rest);
          SettledShifted(p, rest, entries, e.(status := Complete), [0], []);
          assert p.sources[0] == 0;
      }
    }
  }

  /**
   * Every READY entry ends in exactly one of two ways: COMPLETE, and then it
   * created one of the pass's accounts, or still READY, and then it recorded
   * one of the pass's errors.
   */
  lemma RunEntriesAccountsForEveryEntry(contacts: map<Id, Contact>, acc: Accounts, entries: seq<ReplaceEntry>, validPhone: PhoneCheck, rng: Draws, p: Pass)
    requires p == RunEntries(contacts, acc, entries, validPhone, rng)
    ensures forall i :: 0 <= i < |entries| && entries[i].status == Ready ==>
      && (p.entries[i].status == Complete || p.entries[i].status == Ready)
      && (p.entries[i].status == Complete <==> HasCreated(p, i))
      && (p.entries[i].status == Ready <==> HasFailed(p, i))
  {
    RunEntriesSettlesReadyEntries(contacts, acc, entries, validPhone, rng, p);
    RunEntriesTracesCreatedAccounts(contacts, acc, entries, validPhone, rng, p);
    RunEntriesTracesErrors(contacts, acc, entries, validPhone, rng, p);
    forall i | 0 <= i < |entries| && entries[i].status == Ready
      ensures HasCreated(p, i) ==> p.entries[i].status == Complete
      ensures HasFailed(p, i) ==> p.entries[i].status == Ready
    {
      if HasCreated(p, i) {
        var j :| 0 <= j < |p.sources| && p.sources[j] == i;
        assert CreatedFrom(p, contacts, entries, j);
      }
      if HasFailed(p, i) {
        var j :| 0 <= j < |p.failedAt| && p.failedAt[j] == i;
        assert FailedFrom(p, contacts, acc, entries, validPhone, rng, j);
      }
    }
  }

  /** No two entries of the replace map share a key, as in the stored object. */
  predicate DistinctKeys(entries: seq<ReplaceEntry>) {
    forall i, k :: 0 <= i < k < |entries| ==> entries[i].username != entries[k].username
  }

  /** Whether `n` is the key of an entry the pass turned COMPLETE. */
  predicate IsCompletedKey(entries: seq<ReplaceEntry>, after: seq<ReplaceEntry>, n: string) {
    exists i :: 0 <= i < |entries| && i < |after| && entries[i].status == Ready && after[i].status == Complete && entries[i].username == n
  }

  lemma CompletedKeyShifted(entries: seq<ReplaceEntry>, e': ReplaceEntry, rest: seq<ReplaceEntry>)
    requires entries != [] && |rest| == |entries| - 1
    ensures forall n :: IsCompletedKey(entries[1..], rest, n) ==> IsCompletedKey(entries, [e'] + rest, n)
  {
    forall n | IsCompletedKey(entries[1..], rest, n) ensures IsCompletedKey(entries, [e'] + rest, n) {
      var i :| 0 <= i < |entries[1..]| && i < |rest| && entries[1..][i].status == Ready && rest[i].status == Complete && entries[1..][i].username == n;
      assert entries[i + 1] == entries[1..][i] && ([e'] + rest)[i + 1] == rest[i];
    }
  }

  /** An account that is not the key of an entry the pass completed is left exactly as it was. */
  lemma {:induction false} RunEntriesKeepsUncompletedAccounts(contacts: map<Id, Contact>, acc: Accounts, entries: seq<ReplaceEntry>, validPhone: PhoneCheck, rng: Draws, p: Pass)
    requires p == RunEntries(contacts, acc, entries, validPhone, rng)
    ensures forall n :: n in acc.users && !IsCompletedKey(entries, p.entries, n) ==>
      n in p.accounts.users && p.accounts.users[n] == acc.users[n]
    decreases |entries|
  {
    if entries != [] {
      var e := entries[0];
      var tail := entries[1..];
      if e.status != Ready {
        var rest := RunEntries(contacts, acc, tail, validPhone, rng);
        RunEntriesKeepsUncompletedAccounts(contacts, acc, tail, validPhone, rng, rest);
        CompletedKeyShifted(entries, e, rest.entries);
      } else {
        match ReplaceOne(contacts, acc, e, validPhone, rng)
        case Err(_) =>
          var rest := RunEntries(contacts, acc, tail, validPhone, rng);
          RunEntriesKeepsUncompletedAccounts(contacts, acc, tail, validPhone, rng, rest);
          CompletedKeyShifted(entries, e, rest.entries);
        case Ok(rep) =>
          var rest := RunEntries(contacts, rep.accounts, tail, validPhone, rng);
          RunEntriesKeepsUncompletedAccounts(contacts, rep.accounts, tail, validPhone, rng, rest);
          CompletedKeyShifted(entries, e.(status := Complete), rest.entries);
          assert IsCompletedKey(entries, p.entries, e.username) by { assert entries[0] == e; }
      }
    }
  }

  /**
   * With distinct keys, the old account of an entry that failed is left
   * exactly as it was: a failed replacement does not reset its password.
   */
  lemma RunEntriesKeepsFailedEntriesAccounts(contacts: map<Id, Contact>, acc: Accounts, entries: seq<ReplaceEntry>, validPhone: PhoneCheck, rng: Draws, p: Pass)
    requires p == RunEntries(contacts, acc, entries, validPhone, rng)
    requires DistinctKeys(entries)
    ensures forall i :: 0 <= i < |entries| && entries[i].status == Ready && p.entries[i].status == Ready && entries[i].username in acc.users ==>
      && entries[i].username in p.accounts.users
      && p.accounts.users[entries[i].username] == acc.users[entries[i].username]
  {
    RunEntriesKeepsUncompletedAccounts(contacts, acc, entries, validPhone, rng, p);
    forall i | 0 <= i < |entries| && entries[i].status == Ready && p.entries[i].status == Ready
      ensures !IsCompletedKey(entries, p.entries, entries[i].username)
    {
    }
  }

  /**
   * Every entry a pass left READY has a recorded error explained for it:
   * the failure holds, or validation passed and every candidate username
   * was taken.
   */
  lemma RunEntriesRecordsEveryFailure(contacts: map<Id, Contact>, acc: Accounts, entries: seq<ReplaceEntry>, validPhone: PhoneCheck, rng: Draws, p: Pass)
    requires p == RunEntries(contacts, acc, entries, validPhone, rng)
    ensures forall i :: 0 <= i < |entries| && entries[i].status == Ready && p.entries[i].status == Ready ==>
      exists j ::
        && 0 <= j < |p.errors|
        && Explained(p.errors[j].failure, contacts, acc.users, p.accounts.users, entries[i], validPhone, rng)
  {
    RunEntriesAccountsForEveryEntry(contacts, acc, entries, validPhone, rng, p);
    RunEntriesTracesErrors(contacts, acc, entries, validPhone, rng, p);
    forall i | 0 <= i < |entries| && entries[i].status == Ready && p.entries[i].status == Ready
      ensures exists j ::
        && 0 <= j < |p.errors|
        && Explained(p.errors[j].failure, contacts, acc.users, p.accounts.users, entries[i], validPhone, rng)
    {
      assert HasFailed(p, i);
      var j :| 0 <= j < |p.failedAt| && p.failedAt[j] == i;
      assert FailedFrom(p, contacts, acc, entries, validPhone, rng, j);
    }
  }
}
