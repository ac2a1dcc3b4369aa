/**
 * Processing of one contact change by the sentinel: the applicability
 * check, the run of the replace-user transition, the single save of the
 * contact with its new errors, and the info record that stops the same
 * revision from being processed twice.
 */
module Dispatcher {
  import opened Common
  import opened Usernames
  import opened Model
  import opened Config
  import opened ReplaceUser

  predicate HasReadyEntry(entries: seq<ReplaceEntry>) {
    exists i :: 0 <= i < |entries| && entries[i].status == Ready
  }

  /** The transition applies to a person carrying at least one READY replace entry. */
  predicate Applies(c: Contact) {
    c.kind == "person" && c.replace.Some? && HasReadyEntry(c.replace.value)
  }

  /** A map has a READY entry exactly when its READY count is positive. */
  lemma {:induction false} HasReadyEntryIffCount(entries: seq<ReplaceEntry>)
    ensures HasReadyEntry(entries) <==> CountReady(entries) > 0
  {
    if entries != [] {
      HasReadyEntryIffCount(entries[1..]);
      if HasReadyEntry(entries[1..]) {
        var i :| 0 <= i < |entries[1..]| && entries[1..][i].status == Ready;
        assert entries[i + 1].status == Ready;
      }
      if HasReadyEntry(entries) && entries[0].status != Ready {
        var i :| 0 <= i < |entries| && entries[i].status == Ready;
        assert entries[1..][i - 1].status == Ready;
      }
    }
  }

  /** The info record of a document; a document never processed has an empty one. */
  function InfoOf(w: World, id: Id): Info {
    if id in w.infos then w.infos[id] else Info(map[])
  }

  /** The transition already ran on this revision of the document. */
  predicate AlreadyRan(info: Info, c: Contact) {
    TransitionName in info.transitions && info.transitions[TransitionName].lastRev == c.rev
  }

  /**
   * Handles the change of document `id`. A revision the transition already
   * ran on is skipped; an inapplicable document only gets its info record;
   * otherwise every READY entry is processed, the contact is saved once
   * with the entries' new statuses and errors, and the outcome is recorded
   * against the saved revision, so the engine's own save does not trigger
   * the transition again.
   */
  function ProcessChange(w: World, id: Id, validPhone: PhoneCheck, rng: Draws): (w': World)
    ensures w'.settings == w.settings
    ensures w'.contacts.Keys == w.contacts.Keys
    ensures forall other :: other in w.contacts && other != id ==> w'.contacts[other] == w.contacts[other]
    ensures forall other :: other != id ==> (other in w'.infos <==> other in w.infos)
    ensures forall other :: other != id && other in w.infos ==> w'.infos[other] == w.infos[other]
    ensures id in w.contacts ==> id in w'.infos
    ensures forall n :: n in w.accounts.users ==> n in w'.accounts.users && w'.accounts.users[n].contactId == w.accounts.users[n].contactId
    ensures |w'.accounts.messages| >= |w.accounts.messages|
    ensures w'.accounts.messages[..|w.accounts.messages|] == w.accounts.messages
  {
    if id !in w.contacts then w
    else
      var doc := w.contacts[id];
      var info := InfoOf(w, id);
      if AlreadyRan(info, doc) then w
      else if !TransitionActive(w.settings) || !Applies(doc) then w.(infos := w.infos[id := info])
      else
        var p := RunEntries(w.contacts, w.accounts, doc.replace.value, validPhone, rng);
        RunEntriesKeepsExistingAccounts(w.contacts, w.accounts, doc.replace.value, validPhone, rng, p);
        RunEntriesAppendsMessages(w.contacts, w.accounts, doc.replace.value, validPhone, rng, p);
        var saved := doc.(rev := doc.rev + 1, replace := Some(p.entries), errors := doc.errors + p.errors);
        var outcome := Outcome(p.errors == [], saved.rev);
        w.(contacts := w.contacts[id := saved], accounts := p.accounts,
           infos := w.infos[id := Info(info.transitions[TransitionName := outcome])])
  }

  /** Delivering the same change twice has the effect of delivering it once. */
  lemma ProcessChangeIdempotent(w: World, id: Id, validPhone: PhoneCheck, rng: Draws)
    ensures ProcessChange(ProcessChange(w, id, validPhone, rng), id, validPhone, rng) == ProcessChange(w, id, validPhone, rng)
  {
    var w1 := ProcessChange(w, id, validPhone, rng);
    if id in w.contacts {
      var doc := w.contacts[id];
      var info := InfoOf(w, id);
      if !AlreadyRan(info, doc) && TransitionActive(w.settings) && Applies(doc) {
        assert AlreadyRan(InfoOf(w1, id), w1.contacts[id]);
      }
    }
  }

  /**
   * A PENDING-only map, a contact without a replace map, a non-person
   * document, a disabled transition or an invalid configuration: the change
   * adds no outcome, no error, no account and no message.
   */
  lemma InapplicableChangeIsNoOp(w: World, id: Id, validPhone: PhoneCheck, rng: Draws)
    requires id in w.contacts
    requires || !w.settings.createUserForContacts
             || ConfigErrors(w.settings) != []
             || w.contacts[id].kind != "person"
             || w.contacts[id].replace.None?
             || (forall i :: 0 <= i < |w.contacts[id].replace.value| ==> w.contacts[id].replace.value[i].status != Ready)
    ensures var w' := ProcessChange(w, id, validPhone, rng);
      && w'.contacts == w.contacts
      && w'.accounts == w.accounts
      && id in w'.infos && w'.infos[id] == InfoOf(w, id)
  {
  }

  /** Replace maps with a single READY entry, the shape of most tested contacts. */
  predicate SingleReadyEntry(w: World, id: Id, e: ReplaceEntry) {
    && id in w.contacts
    && w.contacts[id].kind == "person"
    && w.contacts[id].replace == Some([e])
    && e.status == Ready
  }

  /** An entry that fails validation: the outcome is not ok, one error is recorded, no account or message appears. */
  lemma FailedReplacementRecordsOneError(w: World, id: Id, validPhone: PhoneCheck, rng: Draws, e: ReplaceEntry, f: Failure)
    requires TransitionActive(w.settings)
    requires SingleReadyEntry(w, id, e)
    requires !AlreadyRan(InfoOf(w, id), w.contacts[id])
    requires Fails(f, w.contacts, w.accounts.users, e, validPhone)
    ensures var w' := ProcessChange(w, id, validPhone, rng);
      && TransitionName in w'.infos[id].transitions
      && w'.infos[id].transitions[TransitionName].ok == false
      && |w'.contacts[id].errors| == |w.contacts[id].errors| + 1
      && w'.contacts[id].errors[..|w.contacts[id].errors|] == w.contacts[id].errors
      && w'.contacts[id].errors[|w.contacts[id].errors|].code == ErrorCode
      && Fails(w'.contacts[id].errors[|w.contacts[id].errors|].failure, w.contacts, w.accounts.users, e, validPhone)
      && w'.accounts == w.accounts
  {
    assert Applies(w.contacts[id]) by { assert w.contacts[id].replace.value[0] == e; }
    assert [e][1..] == [];
    var r := ReplaceOne(w.contacts, w.accounts, e, validPhone, rng);
    assert r.Err?;
    var p := RunEntries(w.contacts, w.accounts, [e], validPhone, rng);
    assert RunEntries(w.contacts, w.accounts, [], validPhone, rng) == Pass(w.accounts, [], [], [], [], []);
    assert p.accounts == w.accounts && p.errors == [ContactError(ErrorCode, r.error)];
  }

  /** The world after entry `e` of contact `id` replaced `e.username` by the new account `u`. */
  predicate ReplacedOnce(w: World, w': World, id: Id, e: ReplaceEntry, u: string) {
    && id in w.contacts && id in w'.contacts && id in w'.infos
    && e.replacementId.Some? && e.replacementId.value in w.contacts
    && var rid := e.replacementId.value;
    && var repl := w.contacts[rid];
    && repl.phone.Some?
    // the transition is recorded as successful, and the contact gains no error
    && TransitionName in w'.infos[id].transitions
    && w'.infos[id].transitions[TransitionName].ok
    && w'.contacts[id].errors == w.contacts[id].errors
    // exactly one new account, linked to the replacement contact
    && u !in w.accounts.users
    && w'.accounts.users.Keys == w.accounts.users.Keys + {u}
    && UsersOfContact(w'.accounts.users, rid) == UsersOfContact(w.accounts.users, rid) + {u}
    && e.username in w.accounts.users
    && IsNewAccount(w'.accounts.users[u], u, w.accounts.users[e.username], rid, repl)
    // exactly one token_login message, for the new account, to the replacement's phone
    && w'.accounts.messages == w.accounts.messages + [Message(TokenLogin, UserDocId(u), repl.phone.value)]
    // the old account is kept but its password no longer works; every other account is untouched
    && e.username in w'.accounts.users
    && w'.accounts.users[e.username] == w.accounts.users[e.username].(credential := Locked)
    && (forall n :: n in w.accounts.users && n != e.username ==> w'.accounts.users[n] == w.accounts.users[n])
  }

  /**
   * A READY entry whose replacement contact exists with a name and a valid
   * phone, for an existing account, when a free username can be drawn.
   */
  predicate ReplaceableEntry(w: World, e: ReplaceEntry, validPhone: PhoneCheck, rng: Draws) {
    && e.status == Ready
    && e.replacementId.Some?
    && e.replacementId.value in w.contacts
    && var repl := w.contacts[e.replacementId.value];
    && repl.name.Some? && repl.name.value != ""
    && repl.phone.Some? && repl.phone.value != "" && validPhone(repl.phone.value)
    && e.username in w.accounts.users
    && exists k :: 0 <= k < MaxUsernameAttempts && Candidate(repl.name.value, e.username, rng, k) !in w.accounts.users
  }

  /** What processing a change the transition runs on does, in terms of the pass `p` over its entries. */
  lemma RunChange(w: World, id: Id, validPhone: PhoneCheck, rng: Draws, w': World, p: Pass)
    requires w' == ProcessChange(w, id, validPhone, rng)
    requires id in w.contacts && TransitionActive(w.settings) && Applies(w.contacts[id])
    requires !AlreadyRan(InfoOf(w, id), w.contacts[id])
    requires p == RunEntries(w.contacts, w.accounts, w.contacts[id].replace.value, validPhone, rng)
    ensures w'.accounts == p.accounts
    ensures id in w'.contacts && w'.contacts[id].errors == w.contacts[id].errors + p.errors
    ensures w'.contacts[id].replace == Some(p.entries)
    ensures id in w'.infos && TransitionName in w'.infos[id].transitions
    ensures w'.infos[id].transitions[TransitionName] == Outcome(p.errors == [], w.contacts[id].rev + 1)
  {
  }

  /** A single-entry pass whose entry is replaced adds no error and has the entry's replacement effect. */
  lemma SingleEntryPass(contacts: map<Id, Contact>, acc: Accounts, e: ReplaceEntry, validPhone: PhoneCheck, rng: Draws, p: Pass)
    requires e.status == Ready
    requires p == RunEntries(contacts, acc, [e], validPhone, rng)
    ensures ReplaceOne(contacts, acc, e, validPhone, rng).Ok? ==>
      && p.errors == []
      && ReplacedBy(acc, p.accounts, contacts, e, ReplaceOne(contacts, acc, e, validPhone, rng).value.newUsername)
  {
    var r := ReplaceOne(contacts, acc, e, validPhone, rng);
    if r.Ok? {
      assert [e][1..] == [];
      assert RunEntries(contacts, r.value.accounts, [], validPhone, rng) == Pass(r.value.accounts, [], [], [], [], []);
    }
  }

  /** Replacing an account links exactly one more account, the new one, to the replacement contact. */
  lemma ReplacedByLinksNewAccount(before: Accounts, after: Accounts, contacts: map<Id, Contact>, e: ReplaceEntry, u: string)
    requires ReplacedBy(before, after, contacts, e, u)
    ensures UsersOfContact(after.users, e.replacementId.value) == UsersOfContact(before.users, e.replacementId.value) + {u}
  {
  }

  /** A replaceable entry passes validation and gets a username, so its replacement succeeds. */
  lemma ReplaceableEntryReplaces(w: World, e: ReplaceEntry, validPhone: PhoneCheck, rng: Draws)
    requires ReplaceableEntry(w, e, validPhone, rng)
    ensures ReplaceOne(w.contacts, w.accounts, e, validPhone, rng).Ok?
  {
    assert forall f :: !Fails(f, w.contacts, w.accounts.users, e, validPhone);
  }

  /** A saved contact without new errors whose pass replaced `e.username` by `u` is a world where `e` was replaced once. */
  lemma ReplacedOnceFromPass(w: World, w': World, id: Id, e: ReplaceEntry, u: string, p: Pass)
    requires id in w.contacts && id in w'.contacts && id in w'.infos
    requires w'.accounts == p.accounts && p.errors == []
    requires w'.contacts[id].errors == w.contacts[id].errors + p.errors
    requires TransitionName in w'.infos[id].transitions && w'.infos[id].transitions[TransitionName].ok
    requires ReplacedBy(w.accounts, p.accounts, w.contacts, e, u)
    ensures ReplacedOnce(w, w', id, e, u)
  {
    ReplacedByLinksNewAccount(w.accounts, w'.accounts, w.contacts, e, u);
  }

  /** The tested successful replacement, with every field the test inspects. */
  lemma SuccessfulReplacement(w: World, id: Id, validPhone: PhoneCheck, rng: Draws, e: ReplaceEntry)
    requires TransitionActive(w.settings)
    requires SingleReadyEntry(w, id, e)
    requires !AlreadyRan(InfoOf(w, id), w.contacts[id])
    requires ReplaceableEntry(w, e, validPhone, rng)
    ensures var w' := ProcessChange(w, id, validPhone, rng);
      && (exists u :: ReplacedOnce(w, w', id, e, u))
      && (forall pw :: !CanLogin(w'.accounts.users, e.username, pw))
      && (forall pw :: CanLogin(SetPassword(w'.accounts.users, e.username, pw), e.username, pw))
  {
    var w' := ProcessChange(w, id, validPhone, rng);
    assert Applies(w.contacts[id]) by { assert w.contacts[id].replace.value[0] == e; }
    ReplaceableEntryReplaces(w, e, validPhone, rng);
    var u := ReplaceOne(w.contacts, w.accounts, e, validPhone, rng).value.newUsername;
    var p := RunEntries(w.contacts, w.accounts, [e], validPhone, rng);
    SingleEntryPass(w.contacts, w.accounts, e, validPhone, rng, p);
    RunChange(w, id, validPhone, rng, w', p);
    ReplacedOnceFromPass(w, w', id, e, u, p);
  }

  /** Accounts not named by a READY entry keep their contact link and their password. */
  lemma UnlistedAccountsUntouched(w: World, id: Id, validPhone: PhoneCheck, rng: Draws, w': World, n: string)
    requires w' == ProcessChange(w, id, validPhone, rng)
    requires id in w.contacts && n in w.accounts.users
    requires w.contacts[id].replace.None? || !IsReadyKey(w.contacts[id].replace.value, n)
    ensures n in w'.accounts.users && w'.accounts.users[n] == w.accounts.users[n]
    ensures w'.accounts.users[n].contactId == w.accounts.users[n].contactId
    ensures forall pw :: CanLogin(w'.accounts.users, n, pw) <==> CanLogin(w.accounts.users, n, pw)
  {
    var doc := w.contacts[id];
    if !AlreadyRan(InfoOf(w, id), doc) && TransitionActive(w.settings) && Applies(doc) {
      var p := RunEntries(w.contacts, w.accounts, doc.replace.value, validPhone, rng);
      RunEntriesKeepsExistingAccounts(w.contacts, w.accounts, doc.replace.value, validPhone, rng, p);
    }
  }

  /** A sequence without repetitions has as many distinct elements as positions. */
  lemma {:induction false} DistinctCard(s: seq<string>)
    requires forall j, k :: 0 <= j < k < |s| ==> s[j] != s[k]
    ensures |set x | x in s| == |s|
  {
    if s != [] {
      DistinctCard(s[1..]);
      assert (set x | x in s) == (set x | x in s[1..]) + {s[0]};
      assert s[0] !in s[1..] by {
        forall k | 0 <= k < |s[1..]| ensures s[1..][k] != s[0] { assert s[1..][k] == s[k + 1]; }
      }
    }
  }

  /**
   * Every message queued between `before` and `after` is a token_login
   * message for an account that did not exist before, addressed to that
   * account's phone, and no two of them are for the same account.
   */
  predicate AnnouncesNewAccounts(before: Accounts, after: Accounts) {
    && |before.messages| <= |after.messages|
    && (forall k :: |before.messages| <= k < |after.messages| ==>
         && after.messages[k].kind == TokenLogin
         && exists u ::
              && u in after.users && u !in before.users
              && after.messages[k].user == UserDocId(u)
              && after.users[u].phone == Some(after.messages[k].to))
    && (forall k1, k2 :: |before.messages| <= k1 < k2 < |after.messages| ==>
         after.messages[k1].user != after.messages[k2].user)
  }

  lemma PassAnnouncesNewAccounts(acc: Accounts, p: Pass)
    requires |p.accounts.messages| == |acc.messages| + |p.created|
    requires forall j :: 0 <= j < |p.created| ==> Announces(p, |acc.messages|, j)
    requires forall j :: 0 <= j < |p.created| ==> p.created[j] !in acc.users
    requires forall j, k :: 0 <= j < k < |p.created| ==> p.created[j] != p.created[k]
    ensures AnnouncesNewAccounts(acc, p.accounts)
  {
    var base := |acc.messages|;
    forall k | base <= k < |p.accounts.messages|
      ensures p.accounts.messages[k].kind == TokenLogin
      ensures exists u ::
        && u in p.accounts.users && u !in acc.users
        && p.accounts.messages[k].user == UserDocId(u)
        && p.accounts.users[u].phone == Some(p.accounts.messages[k].to)
    {
      assert Announces(p, base, k - base);
      var u := p.created[k - base];
      assert u in p.accounts.users && u !in acc.users;
    }
    forall k1, k2 | base <= k1 < k2 < |p.accounts.messages|
      ensures p.accounts.messages[k1].user != p.accounts.messages[k2].user
    {
      assert Announces(p, base, k1 - base) && Announces(p, base, k2 - base);
      UserDocIdInjective(p.created[k1 - base], p.created[k2 - base]);
    }
  }

  /** What a pass adds: one account and one message per created account, each message announcing a distinct new account. */
  lemma PassTotals(contacts: map<Id, Contact>, acc: Accounts, entries: seq<ReplaceEntry>, validPhone: PhoneCheck, rng: Draws, p: Pass)
    requires p == RunEntries(contacts, acc, entries, validPhone, rng)
    ensures |p.accounts.users| == |acc.users| + |p.created|
    ensures |p.accounts.messages| == |acc.messages| + |p.created|
    ensures AnnouncesNewAccounts(acc, p.accounts)
  {
    RunEntriesCreatesFreshAccounts(contacts, acc, entries, validPhone, rng, p);
    RunEntriesPairsMessages(contacts, acc, entries, validPhone, rng, p);
    PassAnnouncesNewAccounts(acc, p);
    DistinctCard(p.created);
    var made := set x | x in p.created;
    assert p.accounts.users.Keys == acc.users.Keys + made;
    assert acc.users.Keys !! made;
    assert |p.accounts.users.Keys| == |acc.users.Keys| + |made|;
  }

  /**
   * For N READY entries: each either creates one account or adds one error;
   * the outcome is ok exactly when no error was added, and then there are N
   * new accounts and N new messages, each for a distinct new account.
   */
  lemma ReadyEntriesCount(w: World, id: Id, validPhone: PhoneCheck, rng: Draws, w': World)
    requires w' == ProcessChange(w, id, validPhone, rng)
    requires id in w.contacts && TransitionActive(w.settings) && Applies(w.contacts[id])
    requires !AlreadyRan(InfoOf(w, id), w.contacts[id])
    ensures id in w'.contacts && id in w'.infos && TransitionName in w'.infos[id].transitions
    ensures |w'.accounts.users| >= |w.accounts.users|
    ensures (|w'.accounts.users| - |w.accounts.users|) + (|w'.contacts[id].errors| - |w.contacts[id].errors|)
      == CountReady(w.contacts[id].replace.value)
    ensures |w'.accounts.messages| == |w.accounts.messages| + (|w'.accounts.users| - |w.accounts.users|)
    ensures w'.infos[id].transitions[TransitionName].ok <==> |w'.contacts[id].errors| == |w.contacts[id].errors|
    ensures w'.infos[id].transitions[TransitionName].ok ==>
      && |w'.accounts.users| == |w.accounts.users| + CountReady(w.contacts[id].replace.value)
      && |w'.accounts.messages| == |w.accounts.messages| + CountReady(w.contacts[id].replace.value)
    ensures AnnouncesNewAccounts(w.accounts, w'.accounts)
    ensures CountReady(w.contacts[id].replace.value) > 0
  {
    var entries := w.contacts[id].replace.value;
    var p := RunEntries(w.contacts, w.accounts, entries, validPhone, rng);
    RunChange(w, id, validPhone, rng, w', p);
    PassTotals(w.contacts, w.accounts, entries, validPhone, rng, p);
    HasReadyEntryIffCount(entries);
  }

  /**
   * What a pass says about the entries it left READY, once its errors are
   * appended to the errors the contact already had: each has one of the new
   * errors, whose failure holds for it and, with distinct keys, its old
   * account is exactly as it was.
   */
  lemma PassFailedEntries(contacts: map<Id, Contact>, acc: Accounts, entries: seq<ReplaceEntry>, validPhone: PhoneCheck, rng: Draws, p: Pass,
                          before: seq<ContactError>)
    requires p == RunEntries(contacts, acc, entries, validPhone, rng)
    requires DistinctKeys(entries)
    ensures |p.entries| == |entries|
    ensures forall i :: 0 <= i < |entries| && entries[i].status == Ready && p.entries[i].status == Ready ==>
      && (exists k ::
           && |before| <= k < |before + p.errors|
           && Explained((before + p.errors)[k].failure, contacts, acc.users, p.accounts.users, entries[i], validPhone, rng))
      && (entries[i].username in acc.users ==>
           entries[i].username in p.accounts.users && p.accounts.users[entries[i].username] == acc.users[entries[i].username])
  {
    RunEntriesRecordsEveryFailure(contacts, acc, entries, validPhone, rng, p);
    RunEntriesKeepsFailedEntriesAccounts(contacts, acc, entries, validPhone, rng, p);
    forall i | 0 <= i < |entries| && entries[i].status == Ready && p.entries[i].status == Ready
      ensures exists k ::
        && |before| <= k < |before + p.errors|
        && Explained((before + p.errors)[k].failure, contacts, acc.users, p.accounts.users, entries[i], validPhone, rng)
    {
      var j :| 0 <= j < |p.errors| && Explained(p.errors[j].failure, contacts, acc.users, p.accounts.users, entries[i], validPhone, rng);
      assert (before + p.errors)[|before| + j] == p.errors[j];
    }
  }

  /**
   * An entry still READY after the change has one of the contact's new
   * errors, whose failure holds for it; with distinct keys its old account
   * is unchanged and still logs in with the same passwords.
   */
  lemma FailedEntriesKeepTheirAccounts(w: World, id: Id, validPhone: PhoneCheck, rng: Draws, w': World)
    requires w' == ProcessChange(w, id, validPhone, rng)
    requires id in w.contacts && TransitionActive(w.settings) && Applies(w.contacts[id])
    requires !AlreadyRan(InfoOf(w, id), w.contacts[id])
    requires DistinctKeys(w.contacts[id].replace.value)
    ensures id in w'.contacts && w'.contacts[id].replace.Some?
    ensures |w'.contacts[id].replace.value| == |w.contacts[id].replace.value|
    ensures |w'.contacts[id].errors| >= |w.contacts[id].errors|
    ensures forall i :: 0 <= i < |w.contacts[id].replace.value| && w.contacts[id].replace.value[i].status == Ready
                        && w'.contacts[id].replace.value[i].status == Ready ==>
      && (exists k ::
           && |w.contacts[id].errors| <= k < |w'.contacts[id].errors|
           && Explained(w'.contacts[id].errors[k].failure, w.contacts, w.accounts.users, w'.accounts.users,
                        w.contacts[id].replace.value[i], validPhone, rng))
      && (w.contacts[id].replace.value[i].username in w.accounts.users ==>
           && w.contacts[id].replace.value[i].username in w'.accounts.users
           && w'.accounts.users[w.contacts[id].replace.value[i].username] == w.accounts.users[w.contacts[id].replace.value[i].username])
  {
    var entries := w.contacts[id].replace.value;
    var p := RunEntries(w.contacts, w.accounts, entries, validPhone, rng);
    RunChange(w, id, validPhone, rng, w', p);
    PassFailedEntries(w.contacts, w.accounts, entries, validPhone, rng, p, w.contacts[id].errors);
  }

  /**
   * The tested contact: a replacement named "New Person" gets a username of
   * the form `new-person-dddd`.
   */
  lemma NewPersonUsername(w: World, id: Id, validPhone: PhoneCheck, rng: Draws, e: ReplaceEntry, name: string)
    requires name == "New Person"
    requires TransitionActive(w.settings)
    requires SingleReadyEntry(w, id, e)
    requires !AlreadyRan(InfoOf(w, id), w.contacts[id])
    requires ReplaceableEntry(w, e, validPhone, rng)
    requires w.contacts[e.replacementId.value].name == Some(name)
    ensures var w' := ProcessChange(w, id, validPhone, rng);
      exists u :: ReplacedOnce(w, w', id, e, u) && |u| == 15 && u[..11] == "new-person-" && IsFourDigits(u[11..])
  {
    var w' := ProcessChange(w, id, validPhone, rng);
    SuccessfulReplacement(w, id, validPhone, rng, e);
    var u :| ReplacedOnce(w, w', id, e, u);
    NewPersonShape(u);
  }
}
