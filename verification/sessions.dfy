/** A session of the interactive menu as a sequence of commands, each with
    the answers and external outcomes it met. Listing and key display only
    read, so they are not commands here. */
module Sessions {
  import opened Common
  import opened Tables
  import opened Mirror
  import opened Switcher
  import opened Properties

  /** The menu's switch entry always asks the user to pick (`switchAccount`
      with `autoSwitch` false), so a switch command carries the picked e-mail;
      the automatic pick is reached only through removal. */
  datatype Command =
    | AddCmd(name: string, email: Email, faults: UnlinkFaults, keygen: Option<KeyPair>)
    | SwitchCmd(email: Email)
    | RemoveCmd(email: Email, faults: UnlinkFaults, random: real)
    | RemoveAllCmd(confirm: bool, faults: UnlinkFaults)

  predicate ValidCommand(c: Command) {
    match c
    case RemoveCmd(_, _, random) => ValidRandom(random)
    case _ => true
  }

  /** The e-mail an add command would create, if any. */
  function NewEmails(c: Command): set<Email> {
    if c.AddCmd? then {c.email} else {}
  }

  /** The e-mails named by the add commands of a session. */
  function AddedEmails(cs: seq<Command>): set<Email> {
    set i | 0 <= i < |cs| && cs[i].AddCmd? :: cs[i].email
  }

  /** `handleUserAction` for the commands that change the store. A refusal
      (taken e-mail, unknown e-mail, no other account, declined confirmation,
      invalid pick) leaves the world unchanged, and only an add brings in a
      new e-mail. */
  function Apply(w: World, c: Command): (s: Step)
    requires ValidCommand(c)
    ensures s.status in {DuplicateEmail, NotFound, NoOtherAccounts, Cancelled, SelectionInvalid} ==> s.world == w
    ensures Emails(s.world.accounts) <= Emails(w.accounts) + NewEmails(c)
  {
    match c
    case AddCmd(name, email, faults, keygen) => AddAccount(w, name, email, faults, keygen)
    case SwitchCmd(email) => SwitchAccount(w, Manual(email))
    case RemoveCmd(email, faults, random) => RemoveAccountByEmail(w, email, faults, random)
    case RemoveAllCmd(confirm, faults) => RemoveAllAccounts(w, confirm, faults)
  }

  /** The `startApp` loop: the world after running the commands in order.
      Every account at the end was there at the start or was named by one of
      the session's adds. */
  function Run(w: World, cs: seq<Command>): (r: World)
    requires forall i :: 0 <= i < |cs| ==> ValidCommand(cs[i])
    ensures Emails(r.accounts) <= Emails(w.accounts) + AddedEmails(cs)
    decreases |cs|
  {
    if |cs| == 0 then w
    else
      assert AddedEmails(cs) == NewEmails(cs[0]) + AddedEmails(cs[1..]) by {
        forall e | e in AddedEmails(cs[1..]) ensures e in AddedEmails(cs) {
          var i :| 0 <= i < |cs[1..]| && cs[1..][i].AddCmd? && cs[1..][i].email == e;
          assert cs[i + 1] == cs[1..][i];
        }
        forall e | e in AddedEmails(cs) ensures e in NewEmails(cs[0]) + AddedEmails(cs[1..]) {
          var i :| 0 <= i < |cs| && cs[i].AddCmd? && cs[i].email == e;
          if i > 0 {
            assert cs[1..][i - 1] == cs[i];
          }
        }
      }
      Run(Apply(w, cs[0]).world, cs[1..])
  }

  /** A fresh database: both tables empty, whatever git and ~/.ssh hold. */
  function Fresh(m: MirrorState): (w: World)
    ensures Inv(w)
  {
    World([], map[], m)
  }

  /** Each command keeps the invariant. */
  lemma ApplyPreservesInv(w: World, c: Command)
    requires Inv(w) && ValidCommand(c)
    ensures Inv(Apply(w, c).world)
  {
    match c
    case AddCmd(name, email, faults, keygen) => AddPreservesInv(w, name, email, faults, keygen);
    case SwitchCmd(email) => SwitchSpec(w, Manual(email));
    case RemoveCmd(email, faults, random) => RemoveSpec(w, email, faults, random);
    case RemoveAllCmd(confirm, faults) => RemoveAllSpec(w, confirm, faults);
  }

  /** After any session started from a state satisfying the invariant, e-mails
      are unique, at most one account is active and every account has exactly
      its key row. */
  lemma {:induction false} RunPreservesInv(w: World, cs: seq<Command>)
    requires Inv(w)
    requires forall i :: 0 <= i < |cs| ==> ValidCommand(cs[i])
    ensures Inv(Run(w, cs))
    ensures |ActiveEmails(Run(w, cs).accounts)| <= 1
    decreases |cs|
  {
    if |cs| > 0 {
      ApplyPreservesInv(w, cs[0]);
      RunPreservesInv(Apply(w, cs[0]).world, cs[1..]);
    }
    AtMostOneActiveEmail(Run(w, cs).accounts);
  }

  /** "At most one active" as a count of active e-mails. */
  lemma AtMostOneActiveEmail(t: Rows)
    requires AtMostOneActive(t)
    ensures |ActiveEmails(t)| <= 1
  {
    if ActiveEmails(t) != {} {
      var e :| e in ActiveEmails(t);
      assert ActiveEmails(t) == {e};
    }
  }
}
