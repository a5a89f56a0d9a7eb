/** What the account operations guarantee: the store invariant each of them
    keeps, their no-op and error cases, and the state of the mirror after
    each. */
module Properties {
  import opened Common
  import opened Text
  import opened Tables
  import opened Mirror
  import opened Switcher

  /** The store invariant: e-mails are unique, at most one account is active,
      and the key rows are exactly the account rows. */
  predicate Inv(w: World) {
    && UniqueEmails(w.accounts)
    && AtMostOneActive(w.accounts)
    && w.sshKeys.Keys == Emails(w.accounts)
  }

  /** Account `x` is the active row and the mirror holds exactly its identity
      and its stored key pair. */
  predicate Mirrors(w: World, x: Row) {
    && x in w.accounts
    && x.isActive
    && x.email in w.sshKeys
    && w.mirror == MirrorState(Some(x.name), Some(x.email),
                               Some(w.sshKeys[x.email].privateKey),
                               Some(w.sshKeys[x.email].publicKey))
  }

  /** `activateAccount` keeps the invariant, and afterwards the activated
      e-mail is the only active one (none is active when it has no row). */
  lemma ActivatePreservesInv(w: World, email: Email, name: string)
    requires Inv(w)
    ensures Inv(ActivateAccount(w, email, name))
    ensures email in Emails(w.accounts) ==> ActiveEmails(ActivateAccount(w, email, name).accounts) == {email}
    ensures email !in Emails(w.accounts) ==> ActiveEmails(ActivateAccount(w, email, name).accounts) == {}
  {
    ActivateRows(w.accounts, email);
  }

  /** Activating an existing account by its stored name mirrors it. */
  lemma ActivateMirrors(w: World, x: Row)
    requires Inv(w) && x in w.accounts
    ensures Mirrors(ActivateAccount(w, x.email, x.name), x.(isActive := true))
  {
    var r := ActivateAccount(w, x.email, x.name);
    var i :| 0 <= i < |w.accounts| && w.accounts[i] == x;
    assert r.accounts[i] == x.(isActive := true);
  }

  /** Activating an account twice leaves the world as activating it once. */
  lemma ActivateIdempotent(w: World, email: Email, name: string)
    ensures ActivateAccount(ActivateAccount(w, email, name), email, name) == ActivateAccount(w, email, name)
  {
    var once := ActivateAccount(w, email, name);
    var twice := ActivateAccount(once, email, name);
    assert twice.accounts == once.accounts;
  }

  /** A successful switch makes its target, an account that was inactive, the
      only active account and mirrors it; every outcome keeps the invariant. */
  lemma SwitchSpec(w: World, sel: Selection)
    requires Inv(w) && ValidSelection(sel)
    ensures Inv(SwitchAccount(w, sel).world)
    ensures SwitchAccount(w, sel).status == Done ==>
      exists x :: x in w.accounts && !x.isActive
        && ActiveEmails(SwitchAccount(w, sel).world.accounts) == {x.email}
        && Mirrors(SwitchAccount(w, sel).world, x.(isActive := true))
    ensures SelectInactive(w.accounts) != [] && sel.Auto? ==> SwitchAccount(w, sel).status == Done
  {
    var s := SwitchAccount(w, sel);
    if s.status == Done {
      var x :| x in w.accounts && !x.isActive && s.world == ActivateAccount(w, x.email, x.name);
      ActivatePreservesInv(w, x.email, x.name);
      ActivateMirrors(w, x);
    }
  }

  /** The manual pick activates exactly the e-mail the prompt returned when
      it names an inactive account, and changes nothing otherwise. */
  lemma ManualSwitchSpec(w: World, email: Email)
    requires Inv(w)
    ensures (exists x :: x in w.accounts && !x.isActive && x.email == email) ==>
      SwitchAccount(w, Manual(email)).status == Done
      && ActiveEmails(SwitchAccount(w, Manual(email)).world.accounts) == {email}
    ensures !(exists x :: x in w.accounts && !x.isActive && x.email == email) ==>
      SwitchAccount(w, Manual(email)).world == w
  {
    var inactive := SelectInactive(w.accounts);
    if x :| x in w.accounts && !x.isActive && x.email == email {
      assert x in inactive;
      SelectInactivePreservesUnique(w.accounts);
      FindUnique(inactive, x);
      ActivatePreservesInv(w, email, x.name);
    } else {
      assert Find(inactive, email).None?;
    }
  }

  /** A successful add: the new e-mail is the only active account, its key row
      and both key files hold the generated bytes, git names the new account,
      every earlier account is still there (inactive), and the invariant
      holds. */
  lemma AddSucceeds(w: World, name: string, email: Email, faults: UnlinkFaults, kp: KeyPair)
    requires Inv(w) && email !in Emails(w.accounts)
    ensures AddAccount(w, name, email, faults, Some(kp)).status == Done
    ensures Inv(AddAccount(w, name, email, faults, Some(kp)).world)
    ensures ActiveEmails(AddAccount(w, name, email, faults, Some(kp)).world.accounts) == {email}
    ensures Row(email, name, true) in AddAccount(w, name, email, faults, Some(kp)).world.accounts
    ensures AddAccount(w, name, email, faults, Some(kp)).world.sshKeys == w.sshKeys[email := kp]
    ensures AddAccount(w, name, email, faults, Some(kp)).world.mirror
            == MirrorState(Some(name), Some(email), Some(kp.privateKey), Some(kp.publicKey))
    ensures forall x :: x in w.accounts ==>
      x.(isActive := false) in AddAccount(w, name, email, faults, Some(kp)).world.accounts
  {
    AddRows(w.accounts, Row(email, name, true));
  }

  /** A failed key generation whose clear removed both files: the read
      throws, no table is written, git is untouched and the key files are
      gone. */
  lemma AddKeygenFailure(w: World, name: string, email: Email)
    requires email !in Emails(w.accounts)
    ensures AddAccount(w, name, email, NoFaults, None)
            == Step(w.(mirror := w.mirror.(privateKeyFile := None, publicKeyFile := None)), KeyReadFailed)
  {
  }

  /** When neither stale key file could be unlinked and `ssh-keygen` failed,
      the read-back finds the previous account's files and the new account
      is stored with those bytes. */
  lemma AddAdoptsStaleKeys(w: World, name: string, email: Email, kp: KeyPair)
    requires email !in Emails(w.accounts)
    requires w.mirror.privateKeyFile == Some(kp.privateKey) && w.mirror.publicKeyFile == Some(kp.publicKey)
    ensures AddAccount(w, name, email, UnlinkFaults(true, true), None).status == Done
    ensures email !in w.sshKeys ==>
      AddAccount(w, name, email, UnlinkFaults(true, true), None).world.sshKeys[email] == kp
  {
  }

  /** Every outcome of `addAccount` keeps the invariant. */
  lemma AddPreservesInv(w: World, name: string, email: Email, faults: UnlinkFaults, keygen: Option<KeyPair>)
    requires Inv(w)
    ensures Inv(AddAccount(w, name, email, faults, keygen).world)
  {
    if AddAccount(w, name, email, faults, keygen).status == Done {
      AddRows(w.accounts, Row(email, name, true));
    }
  }

  /** Deleting the rows of `email` keeps the invariant. */
  lemma DeletePreservesInv(w: World, email: Email)
    requires Inv(w)
    ensures Inv(World(DeleteWhere(w.accounts, email), w.sshKeys - {email}, w.mirror))
  {
    DeleteWherePreservesUnique(w.accounts, email);
  }

  /** After the active account's rows are deleted, every remaining account is
      inactive, so the automatic switch can pick any of them. */
  lemma DeleteActiveLeavesAllInactive(w: World, row: Row)
    requires Inv(w) && row in w.accounts && row.isActive
    ensures forall x :: x in DeleteWhere(w.accounts, row.email) ==> !x.isActive
    ensures SelectInactive(DeleteWhere(w.accounts, row.email)) == [] <==> DeleteWhere(w.accounts, row.email) == []
  {
    var rest := DeleteWhere(w.accounts, row.email);
    if rest != [] {
      assert rest[0] in rest;
      assert rest[0] in SelectInactive(rest);
    }
  }

  /** Removal. An unknown e-mail changes nothing. Otherwise the e-mail's rows
      in both tables are gone, every other key row is unchanged, and the
      invariant holds. When the account was not both active and the current
      git e-mail, the account table is the old one minus that row and the
      mirror is untouched. */
  lemma RemoveSpec(w: World, email: Email, faults: UnlinkFaults, random: real)
    requires Inv(w) && ValidRandom(random)
    ensures email !in Emails(w.accounts) ==> RemoveAccountByEmail(w, email, faults, random).world == w
    ensures Inv(RemoveAccountByEmail(w, email, faults, random).world)
    ensures Emails(RemoveAccountByEmail(w, email, faults, random).world.accounts) == Emails(w.accounts) - {email}
    ensures RemoveAccountByEmail(w, email, faults, random).world.sshKeys == w.sshKeys - {email}
    ensures (email in Emails(w.accounts)
             && !(Find(w.accounts, email).value.isActive && CurrentGitEmail(w.mirror) == Some(email))) ==>
        RemoveAccountByEmail(w, email, faults, random).world
        == World(DeleteWhere(w.accounts, email), w.sshKeys - {email}, w.mirror)
  {
    var s := RemoveAccountByEmail(w, email, faults, random);
    if email in Emails(w.accounts) {
      var row := Find(w.accounts, email).value;
      DeletePreservesInv(w, email);
      var deleted := World(DeleteWhere(w.accounts, email), w.sshKeys - {email}, w.mirror);
      if row.isActive && CurrentGitEmail(w.mirror) == Some(email) {
        var cleared := deleted.(mirror := ClearSshKeys(UnsetGitCredentials(w.mirror), faults));
        SwitchSpec(cleared, Auto(random));
        var t := SwitchAccount(cleared, Auto(random));
        if t.status == Done {
          var x :| x in cleared.accounts && !x.isActive && t.world == ActivateAccount(cleared, x.email, x.name);
          SameEmails(cleared.accounts, t.world.accounts);
        }
      }
    }
  }

  /** The world after the two DELETEs, `unsetGitCredentials` and
      `clearSshKeys`, which is where the automatic switch starts from. */
  function DeletedAndCleared(w: World, email: Email, faults: UnlinkFaults): World {
    World(DeleteWhere(w.accounts, email), w.sshKeys - {email},
          ClearSshKeys(UnsetGitCredentials(w.mirror), faults))
  }

  /** Removing the active account that git names is the automatic switch
      from the deleted-and-cleared world. */
  lemma RemoveMirroredActiveUnfolds(w: World, email: Email, faults: UnlinkFaults, random: real)
    requires ValidRandom(random)
    requires email in Emails(w.accounts)
    requires Find(w.accounts, email).value.isActive && CurrentGitEmail(w.mirror) == Some(email)
    ensures RemoveAccountByEmail(w, email, faults, random).world
            == SwitchAccount(DeletedAndCleared(w, email, faults), Auto(random)).world
  {
  }

  /** The last account removed while git names it: empty tables, git unset,
      key files cleared. */
  lemma RemoveLastAccount(w: World, email: Email, faults: UnlinkFaults, random: real)
    requires Inv(w) && ValidRandom(random)
    requires Emails(w.accounts) == {email}
    requires Find(w.accounts, email).value.isActive && CurrentGitEmail(w.mirror) == Some(email)
    ensures RemoveAccountByEmail(w, email, faults, random).world
            == World([], map[], ClearSshKeys(UnsetGitCredentials(w.mirror), faults))
  {
    RemoveMirroredActiveUnfolds(w, email, faults, random);
    var cleared := DeletedAndCleared(w, email, faults);
    assert Emails(cleared.accounts) == {};
    EmailsEmpty(cleared.accounts);
    assert cleared.sshKeys == map[];
  }

  /** The active account removed while git names it, with others left: one of
      them becomes the only active account and is mirrored. */
  lemma RemoveActiveSwitches(w: World, email: Email, faults: UnlinkFaults, random: real)
    requires Inv(w) && ValidRandom(random)
    requires email in Emails(w.accounts) && Emails(w.accounts) != {email}
    requires Find(w.accounts, email).value.isActive && CurrentGitEmail(w.mirror) == Some(email)
    ensures exists x: Row ::
      && x.email != email
      && ActiveEmails(RemoveAccountByEmail(w, email, faults, random).world.accounts) == {x.email}
      && Mirrors(RemoveAccountByEmail(w, email, faults, random).world, x)
  {
    RemoveMirroredActiveUnfolds(w, email, faults, random);
    var cleared := DeletedAndCleared(w, email, faults);
    var rest := cleared.accounts;
    DeletePreservesInv(w, email);
    DeleteActiveLeavesAllInactive(w, Find(w.accounts, email).value);
    var e :| e in Emails(w.accounts) && e != email;
    assert e in Emails(rest);
    assert rest != [];
    SwitchSpec(cleared, Auto(random));
    var t := SwitchAccount(cleared, Auto(random));
    var x :| x in cleared.accounts && !x.isActive
      && ActiveEmails(t.world.accounts) == {x.email} && Mirrors(t.world, x.(isActive := true));
    assert x.(isActive := true).email != email;
  }

  /** Removing the active account that git currently names: git is unset and
      the key files are cleared; if no account remains that is the end state,
      otherwise one of the remaining accounts is the only active one and is
      mirrored. */
  lemma RemoveMirroredActive(w: World, email: Email, faults: UnlinkFaults, random: real)
    requires Inv(w) && ValidRandom(random)
    requires email in Emails(w.accounts)
    requires Find(w.accounts, email).value.isActive && CurrentGitEmail(w.mirror) == Some(email)
    ensures Emails(w.accounts) == {email} ==>
      RemoveAccountByEmail(w, email, faults, random).world
      == World([], map[], ClearSshKeys(UnsetGitCredentials(w.mirror), faults))
    ensures Emails(w.accounts) != {email} ==>
      exists x: Row :: x.email != email
        && ActiveEmails(RemoveAccountByEmail(w, email, faults, random).world.accounts) == {x.email}
        && Mirrors(RemoveAccountByEmail(w, email, faults, random).world, x)
  {
    if Emails(w.accounts) == {email} {
      RemoveLastAccount(w, email, faults, random);
    } else {
      RemoveActiveSwitches(w, email, faults, random);
    }
  }

  /** Removing every account (confirmed) keeps the invariant and leaves no
      git identity; with no failing unlink it leaves no key files either. A
      declined confirmation changes nothing. */
  lemma RemoveAllSpec(w: World, confirm: bool, faults: UnlinkFaults)
    ensures confirm ==> Inv(RemoveAllAccounts(w, confirm, faults).world)
    ensures confirm && faults == NoFaults ==>
      RemoveAllAccounts(w, confirm, faults).world == World([], map[], Cleared)
    ensures RemoveAllAccounts(RemoveAllAccounts(w, true, faults).world, true, faults)
            == RemoveAllAccounts(w, true, faults)
  {
  }

  /** The account just added is mirrored, so removing it again (when its
      e-mail has no surrounding whitespace) takes its identity out of git:
      git ends up either unset or naming another account. */
  lemma AddThenRemove(w: World, name: string, email: Email, faults: UnlinkFaults,
                      kp: KeyPair, faults2: UnlinkFaults, random: real)
    requires Inv(w) && email !in Emails(w.accounts) && IsTrimmed(email) && ValidRandom(random)
    ensures var added := AddAccount(w, name, email, faults, Some(kp)).world;
      var removed := RemoveAccountByEmail(added, email, faults2, random).world;
      && email !in Emails(removed.accounts)
      && removed.mirror.userEmail != Some(email)
  {
    var added := AddAccount(w, name, email, faults, Some(kp)).world;
    AddSucceeds(w, name, email, faults, kp);
    FindUnique(added.accounts, Row(email, name, true));
    SetThenGet(added.mirror, name, email);
    assert CurrentGitEmail(added.mirror) == Some(email);
    RemoveSpec(added, email, faults2, random);
    RemoveMirroredActive(added, email, faults2, random);
  }

  /** `getCurrentGitUser` trims what git reports, so an account whose e-mail
      has surrounding whitespace (say "a@x ") is never recognised as the git
      user: removing it right after adding it deletes both of its rows but
      leaves its identity and key files in place, with no account active. */
  lemma PaddedEmailSurvivesRemoval(w: World, name: string, email: Email, faults: UnlinkFaults,
                                   kp: KeyPair, faults2: UnlinkFaults, random: real)
    requires Inv(w) && email !in Emails(w.accounts) && !IsTrimmed(email) && ValidRandom(random)
    ensures var added := AddAccount(w, name, email, faults, Some(kp)).world;
      var removed := RemoveAccountByEmail(added, email, faults2, random).world;
      && email !in Emails(removed.accounts)
      && ActiveEmails(removed.accounts) == {}
      && removed.mirror == MirrorState(Some(name), Some(email), Some(kp.privateKey), Some(kp.publicKey))
  {
    var added := AddAccount(w, name, email, faults, Some(kp)).world;
    AddSucceeds(w, name, email, faults, kp);
    assert CurrentGitEmail(added.mirror) != Some(email);
    RemoveSpec(added, email, faults2, random);
    var removed := RemoveAccountByEmail(added, email, faults2, random).world;
    assert removed.accounts == DeleteWhere(added.accounts, email);
    forall x | x in removed.accounts ensures !x.isActive {
      assert x in added.accounts && x.email != email;
    }
  }

  /** Such e-mails exist: a trailing space is enough. */
  lemma PaddedEmailExists()
    ensures !IsTrimmed("a@x ")
  {
  }

  /** Two adds in a row: the second account is active, the first inactive,
      and the key files hold the second account's bytes. */
  lemma AddTwice(w: World, nameA: string, a: Email, kpA: KeyPair, nameB: string, b: Email, kpB: KeyPair)
    requires Inv(w) && a !in Emails(w.accounts) && b !in Emails(w.accounts) && a != b
    ensures var w1 := AddAccount(w, nameA, a, NoFaults, Some(kpA)).world;
      var w2 := AddAccount(w1, nameB, b, NoFaults, Some(kpB)).world;
      && Row(a, nameA, false) in w2.accounts
      && ActiveEmails(w2.accounts) == {b}
      && w2.mirror.privateKeyFile == Some(kpB.privateKey)
      && w2.mirror.publicKeyFile == Some(kpB.publicKey)
  {
    AddSucceeds(w, nameA, a, NoFaults, kpA);
    var w1 := AddAccount(w, nameA, a, NoFaults, Some(kpA)).world;
    AddSucceeds(w1, nameB, b, NoFaults, kpB);
  }

  /** Removing the active account while git names someone else (or nobody):
      both rows go, the mirror is untouched and no account is left active, so
      "at most one active" does not strengthen to "exactly one". */
  lemma RemoveActiveUnmirrored(w: World, email: Email, faults: UnlinkFaults, random: real)
    requires Inv(w) && ValidRandom(random)
    requires email in Emails(w.accounts)
    requires Find(w.accounts, email).value.isActive && CurrentGitEmail(w.mirror) != Some(email)
    ensures ActiveEmails(RemoveAccountByEmail(w, email, faults, random).world.accounts) == {}
    ensures RemoveAccountByEmail(w, email, faults, random).world.mirror == w.mirror
  {
    RemoveSpec(w, email, faults, random);
    DeleteActiveLeavesAllInactive(w, Find(w.accounts, email).value);
  }

  /** The key `showSSHKey` finds right after an add is the generated public
      key (none when it is empty). */
  lemma ShowAfterAdd(w: World, name: string, email: Email, faults: UnlinkFaults, kp: KeyPair)
    requires Inv(w) && email !in Emails(w.accounts)
    ensures ShowSshKey(AddAccount(w, name, email, faults, Some(kp)).world, email)
            == (if |kp.publicKey| > 0 then Some(kp.publicKey) else None)
  {
    AddSucceeds(w, name, email, faults, kp);
  }

  /** After a removal `showSSHKey` finds no key for the removed e-mail. */
  lemma ShowAfterRemove(w: World, email: Email, faults: UnlinkFaults, random: real)
    requires Inv(w) && ValidRandom(random)
    ensures ShowSshKey(RemoveAccountByEmail(w, email, faults, random).world, email) == None
  {
    RemoveSpec(w, email, faults, random);
  }
}
