/** The machine-wide state the switcher mirrors the active account into: the
    global git `user.name` / `user.email` and the two fixed files
    `~/.ssh/id_ed25519` and `~/.ssh/id_ed25519.pub`. Every field may be
    absent. The `git config` and `ssh-keygen` processes and the filesystem
    calls are modelled by their effect on these four fields. */
module Mirror {
  import opened Common
  import opened Text

  datatype MirrorState = MirrorState(
    userName: Option<string>,
    userEmail: Option<string>,
    privateKeyFile: Option<Bytes>,
    publicKeyFile: Option<Bytes>)

  /** What `getCurrentGitUser` reports when both fields could be read. */
  datatype GitUser = GitUser(name: string, email: string)

  /** Which of the two `fs.unlinkSync` calls throw (permissions, a directory in
      the way); an absent file is never unlinked, so its flag is irrelevant. */
  datatype UnlinkFaults = UnlinkFaults(privateFails: bool, publicFails: bool)

  const NoFaults := UnlinkFaults(false, false)

  /** The state with no git identity and no key files. */
  const Cleared := MirrorState(None, None, None, None)

  /** `getCurrentGitUser`: both fields trimmed when both are set; when either
      `git config` read fails (an unset field) both are reported as null. */
  function CurrentGitUser(m: MirrorState): (u: Option<GitUser>)
    ensures u.Some? <==> m.userName.Some? && m.userEmail.Some?
    ensures u.Some? ==> u.value == GitUser(Trim(m.userName.value), Trim(m.userEmail.value))
    ensures u.Some? ==> IsTrimmed(u.value.name) && IsTrimmed(u.value.email)
  {
    if m.userName.Some? && m.userEmail.Some?
    then Some(GitUser(Trim(m.userName.value), Trim(m.userEmail.value)))
    else None
  }

  /** The `email` that `getCurrentGitUser` hands back, null as None: the
      trimmed git e-mail, and only when the git name is set too. */
  function CurrentGitEmail(m: MirrorState): (o: Option<string>)
    ensures o.Some? <==> m.userName.Some? && m.userEmail.Some?
    ensures o.Some? ==> o.value == Trim(m.userEmail.value)
  {
    match CurrentGitUser(m)
    case Some(u) => Some(u.email)
    case None => None
  }

  /** `setGitCredentials`: writes both fields; the key files are untouched. */
  function SetGitCredentials(m: MirrorState, name: string, email: string): (r: MirrorState)
    ensures r.userName == Some(name) && r.userEmail == Some(email)
    ensures r.privateKeyFile == m.privateKeyFile && r.publicKeyFile == m.publicKeyFile
  {
    m.(userName := Some(name), userEmail := Some(email))
  }

  /** `unsetGitCredentials`: each field is unset on its own; unsetting an absent
      field is an ignored error, so the call never fails. */
  function UnsetGitCredentials(m: MirrorState): (r: MirrorState)
    ensures r.userName.None? && r.userEmail.None?
    ensures r.privateKeyFile == m.privateKeyFile && r.publicKeyFile == m.publicKeyFile
  {
    m.(userName := None, userEmail := None)
  }

  /** `clearSshKeys`: each key file that exists is unlinked; an unlink that
      throws is logged and leaves that file in place, and the other file is
      still attempted. Git fields are untouched. */
  function ClearSshKeys(m: MirrorState, faults: UnlinkFaults): (r: MirrorState)
    ensures r.userName == m.userName && r.userEmail == m.userEmail
    ensures r.privateKeyFile.None? <==> m.privateKeyFile.None? || !faults.privateFails
    ensures r.publicKeyFile.None? <==> m.publicKeyFile.None? || !faults.publicFails
    ensures r.privateKeyFile.Some? ==> r.privateKeyFile == m.privateKeyFile
    ensures r.publicKeyFile.Some? ==> r.publicKeyFile == m.publicKeyFile
  {
    var priv := if m.privateKeyFile.Some? && !faults.privateFails then None else m.privateKeyFile;
    var pub := if m.publicKeyFile.Some? && !faults.publicFails then None else m.publicKeyFile;
    m.(privateKeyFile := priv, publicKeyFile := pub)
  }

  /** The two `fs.writeFileSync` calls: each file is replaced in full. */
  function WriteKeyFiles(m: MirrorState, kp: KeyPair): (r: MirrorState)
    ensures r.privateKeyFile == Some(kp.privateKey) && r.publicKeyFile == Some(kp.publicKey)
    ensures r.userName == m.userName && r.userEmail == m.userEmail
  {
    m.(privateKeyFile := Some(kp.privateKey), publicKeyFile := Some(kp.publicKey))
  }

  /** The two `fs.readFileSync` calls: both files must exist, otherwise the
      read throws. */
  function ReadKeyFiles(m: MirrorState): (o: Option<KeyPair>)
    ensures o.Some? <==> m.privateKeyFile.Some? && m.publicKeyFile.Some?
    ensures o.Some? ==>
      Some(o.value.privateKey) == m.privateKeyFile && Some(o.value.publicKey) == m.publicKeyFile
  {
    if m.privateKeyFile.Some? && m.publicKeyFile.Some?
    then Some(KeyPair(m.privateKeyFile.value, m.publicKeyFile.value))
    else None
  }

  /** `generateSshKey`: clears the key files, then runs `ssh-keygen`. The
      outcome of the external process is the oracle `keygen`: `Some(kp)` when
      it wrote both files, `None` when it failed (logged, not thrown), in which
      case the files are whatever the clear left behind. */
  function GenerateSshKey(m: MirrorState, faults: UnlinkFaults, keygen: Option<KeyPair>): (r: MirrorState)
    ensures r.userName == m.userName && r.userEmail == m.userEmail
    ensures keygen.Some? ==> ReadKeyFiles(r) == keygen
    ensures keygen.None? ==> r == ClearSshKeys(m, faults)
  {
    var cleared := ClearSshKeys(m, faults);
    match keygen
    case Some(kp) => WriteKeyFiles(cleared, kp)
    case None => cleared
  }

  /** The mirror step of `activateAccount`: clear the key files, write the
      stored pair, then set the git identity. */
  function ApplyAccount(m: MirrorState, name: string, email: string, kp: KeyPair): (r: MirrorState)
    ensures r == MirrorState(Some(name), Some(email), Some(kp.privateKey), Some(kp.publicKey))
  {
    SetGitCredentials(WriteKeyFiles(ClearSshKeys(m, NoFaults), kp), name, email)
  }

  /** After `setGitCredentials(name, email)`, `getCurrentGitUser` reads back
      the trimmed pair; an e-mail without surrounding whitespace reads back
      unchanged. */
  lemma SetThenGet(m: MirrorState, name: string, email: string)
    ensures CurrentGitUser(SetGitCredentials(m, name, email)) == Some(GitUser(Trim(name), Trim(email)))
    ensures IsTrimmed(email) ==> CurrentGitEmail(SetGitCredentials(m, name, email)) == Some(email)
  {
  }

  /** After `unsetGitCredentials`, no git user is detected. */
  lemma UnsetThenGet(m: MirrorState)
    ensures CurrentGitUser(UnsetGitCredentials(m)) == None
  {
  }

  /** Clearing with no failing unlink removes both files; a failing unlink of
      one file does not stop the other from being removed. */
  lemma ClearRemovesFiles(m: MirrorState, faults: UnlinkFaults)
    ensures !faults.privateFails ==> ClearSshKeys(m, faults).privateKeyFile.None?
    ensures !faults.publicFails ==> ClearSshKeys(m, faults).publicKeyFile.None?
    ensures ClearSshKeys(m, NoFaults) == m.(privateKeyFile := None, publicKeyFile := None)
  {
  }

  /** Clearing an already clear mirror is a no-op whatever the faults, and so
      is unsetting already unset git fields. */
  lemma ClearOfClearIsNoOp(faults: UnlinkFaults)
    ensures ClearSshKeys(Cleared, faults) == Cleared
    ensures UnsetGitCredentials(Cleared) == Cleared
    ensures UnsetGitCredentials(ClearSshKeys(Cleared, faults)) == Cleared
  {
  }

  /** The write that follows a clear overwrites both files, so whether the
      clear's unlinks failed does not matter. */
  lemma WriteAfterClear(m: MirrorState, faults: UnlinkFaults, kp: KeyPair)
    ensures WriteKeyFiles(ClearSshKeys(m, faults), kp) == WriteKeyFiles(m, kp)
  {
  }

  /** Applying the same account twice leaves the mirror as applying it once. */
  lemma ApplyIdempotent(m: MirrorState, name: string, email: string, kp: KeyPair)
    ensures ApplyAccount(ApplyAccount(m, name, email, kp), name, email, kp) == ApplyAccount(m, name, email, kp)
  {
  }
}
