/** The account operations of the switcher, each one atomic transition of the
    whole world: the two tables plus the mirror. */
module Switcher {
  import opened Common
  import opened Tables
  import opened Mirror

  datatype World = World(accounts: Rows, sshKeys: KeyTable, mirror: MirrorState)

  /** How an operation ended. `KeyReadFailed` and `SelectionInvalid` are
      exceptions the program does not catch; the others are the messages it
      prints. */
  datatype Status =
    | Done
    | DuplicateEmail     // "An account with email ... already exists."
    | NotFound           // "No account found with email ..."
    | NoOtherAccounts    // "No other accounts available."
    | Cancelled          // "Operation cancelled."
    | KeyReadFailed      // readFileSync of a key file that is not there
    | SelectionInvalid   // `accounts.find` returned undefined

  datatype Step = Step(world: World, status: Status)

  /** The two ways `switchAccount` picks its target: the automatic pick draws
      `Math.random()` (a number in [0, 1)), the manual one is the e-mail the
      prompt returned. */
  datatype Selection = Auto(random: real) | Manual(email: Email)

  predicate ValidRandom(r: real) {
    0.0 <= r < 1.0
  }

  predicate ValidSelection(sel: Selection) {
    sel.Auto? ==> ValidRandom(sel.random)
  }

  /** `Math.floor(Math.random() * n)`, exactly (no floating-point rounding):
      always an index into a list of length `n`. */
  function RandomIndex(random: real, n: nat): (i: nat)
    requires ValidRandom(random) && n > 0
    ensures i < n
  {
    var x := random * n as real;
    assert 0.0 <= x < n as real;
    x.Floor
  }

  /** Every index can be drawn, so the automatic pick may land on any
      inactive account. */
  lemma RandomIndexReachesAll(n: nat, i: nat)
    requires i < n
    ensures ValidRandom(i as real / n as real)
    ensures RandomIndex(i as real / n as real, n) == i
  {
    var r := i as real / n as real;
    assert r * n as real == i as real;
  }

  /** `activateAccount(email, name)`: every row inactive, then `email`'s row
      active. When `ssh_keys` has a row for `email`, the key files are
      rewritten from it and the git identity set to (name, email); otherwise
      the mirror is untouched. */
  function ActivateAccount(w: World, email: Email, name: string): (r: World)
    ensures |r.accounts| == |w.accounts|
    ensures forall i :: 0 <= i < |w.accounts| ==>
      r.accounts[i].email == w.accounts[i].email && r.accounts[i].name == w.accounts[i].name
      && (r.accounts[i].isActive <==> w.accounts[i].email == email)
    ensures r.sshKeys == w.sshKeys
    ensures email in w.sshKeys ==>
      r.mirror == MirrorState(Some(name), Some(email),
                              Some(w.sshKeys[email].privateKey), Some(w.sshKeys[email].publicKey))
    ensures email !in w.sshKeys ==> r.mirror == w.mirror
    ensures Emails(r.accounts) == Emails(w.accounts)
  {
    var accounts := SetActiveWhere(SetAllInactive(w.accounts), email);
    SameEmails(w.accounts, accounts);
    if email in w.sshKeys
    then World(accounts, w.sshKeys, ApplyAccount(w.mirror, name, email, w.sshKeys[email]))
    else World(accounts, w.sshKeys, w.mirror)
  }

  /** `switchAccount(autoSwitch)`: with no inactive account nothing changes;
      otherwise the target is taken from the inactive rows (by the random
      index, or the row the prompt's answer names) and activated with its
      stored name. */
  function SwitchAccount(w: World, sel: Selection): (s: Step)
    requires ValidSelection(sel)
    ensures SelectInactive(w.accounts) == [] ==> s == Step(w, NoOtherAccounts)
    ensures s.status == Done ==>
      exists x :: x in w.accounts && !x.isActive && s.world == ActivateAccount(w, x.email, x.name)
    ensures s.status != Done ==> s.world == w
  {
    var inactive := SelectInactive(w.accounts);
    if |inactive| == 0 then Step(w, NoOtherAccounts)
    else
      match sel
      case Auto(random) =>
        var x := inactive[RandomIndex(random, |inactive|)];
        Step(ActivateAccount(w, x.email, x.name), Done)
      case Manual(email) =>
        match Find(inactive, email)
        case Some(x) => Step(ActivateAccount(w, x.email, x.name), Done)
        case None => Step(w, SelectionInvalid)
  }

  /** `addAccount(name, email)`. A taken e-mail changes nothing. Otherwise the
      key files are regenerated and read back; if either cannot be read the
      uncaught exception ends the operation before any table is written. Then
      every account is deactivated, the new one inserted active with the read
      bytes as its keys, and the git identity set to it. */
  function AddAccount(w: World, name: string, email: Email,
                      faults: UnlinkFaults, keygen: Option<KeyPair>): (s: Step)
    ensures email in Emails(w.accounts) ==> s == Step(w, DuplicateEmail)
    ensures s.status in {Done, DuplicateEmail, KeyReadFailed}
    ensures s.status != Done ==> s.world.accounts == w.accounts && s.world.sshKeys == w.sshKeys
    ensures s.status == Done ==>
      Emails(s.world.accounts) == Emails(w.accounts) + {email}
      && s.world.mirror.userName == Some(name) && s.world.mirror.userEmail == Some(email)
    ensures s.status == KeyReadFailed <==>
      email !in Emails(w.accounts) && ReadKeyFiles(GenerateSshKey(w.mirror, faults, keygen)).None?
    ensures s.status == KeyReadFailed ==> s.world == w.(mirror := GenerateSshKey(w.mirror, faults, keygen))
  {
    if Find(w.accounts, email).Some? then Step(w, DuplicateEmail)
    else
      var generated := GenerateSshKey(w.mirror, faults, keygen);
      match ReadKeyFiles(generated)
      case None => Step(w.(mirror := generated), KeyReadFailed)
      case Some(kp) =>
        var accounts := Insert(SetAllInactive(w.accounts), Row(email, name, true));
        Step(World(accounts, InsertKey(w.sshKeys, email, kp), SetGitCredentials(generated, name, email)), Done)
  }

  /** `removeAccountByEmail(email)`. An unknown e-mail changes nothing.
      Otherwise both rows are deleted; if the deleted account was active and
      the current git e-mail equals it, the git identity is unset, the key
      files cleared and an automatic switch drawn with `random`. In every
      other case the mirror is left alone. */
  function RemoveAccountByEmail(w: World, email: Email, faults: UnlinkFaults, random: real): (s: Step)
    requires ValidRandom(random)
    ensures email !in Emails(w.accounts) ==> s == Step(w, NotFound)
    ensures email in Emails(w.accounts) ==> s.status == Done
    ensures Emails(s.world.accounts) == Emails(w.accounts) - {email}
    ensures email in Emails(w.accounts) ==> s.world.sshKeys == w.sshKeys - {email}
  {
    match Find(w.accounts, email)
    case None => Step(w, NotFound)
    case Some(row) =>
      var deleted := World(DeleteWhere(w.accounts, email), w.sshKeys - {email}, w.mirror);
      if row.isActive && CurrentGitEmail(w.mirror) == Some(email) then
        var cleared := deleted.(mirror := ClearSshKeys(UnsetGitCredentials(w.mirror), faults));
        Step(SwitchAccount(cleared, Auto(random)).world, Done)
      else
        Step(deleted, Done)
  }

  /** `removeAllAccounts` given the answer to its confirmation prompt. */
  function RemoveAllAccounts(w: World, confirm: bool, faults: UnlinkFaults): (s: Step)
    ensures !confirm ==> s == Step(w, Cancelled)
    ensures confirm ==>
      s.status == Done && s.world.accounts == [] && s.world.sshKeys == map[]
      && s.world.mirror.userName.None? && s.world.mirror.userEmail.None?
      && s.world.mirror.privateKeyFile == ClearSshKeys(w.mirror, faults).privateKeyFile
      && s.world.mirror.publicKeyFile == ClearSshKeys(w.mirror, faults).publicKeyFile
  {
    if confirm then
      Step(World([], map[], UnsetGitCredentials(ClearSshKeys(w.mirror, faults))), Done)
    else
      Step(w, Cancelled)
  }

  /** The lookup of `showSSHKey`: the stored public key, or none when there is
      no row or the key is empty (an empty string is falsy). */
  function ShowSshKey(w: World, email: Email): (o: Option<Bytes>)
    ensures o.Some? <==> email in w.sshKeys && |w.sshKeys[email].publicKey| > 0
    ensures o.Some? ==> o.value == w.sshKeys[email].publicKey
  {
    if email in w.sshKeys && |w.sshKeys[email].publicKey| > 0
    then Some(w.sshKeys[email].publicKey)
    else None
  }
}
