/**
 * The audit trail kept on every data entity (dao/audit): the `Action` values, the
 * transition `Audit.Action` applies to an entity's `Audit` record, and the choice of the
 * acting user. The Go code reads the clock, the host name, the configured database
 * version and default user from its environment; here they are the fields of an
 * `Environment` parameter, and the audit display format is the string it carries.
 */
module AuditTrail {
  import opened Wrappers
  import opened GoInts
  import opened GoStrings

  /** `Action`: an audit action's code, short name, pending message and silent flag. */
  datatype Action = Action(code: string, short: string, description: string, silent: bool)

  /** `AuditUpdateInfo`: one logged action. */
  datatype UpdateInfo = UpdateInfo(
    updatedAt: Time,
    updateAction: string,
    updatedBy: string,
    updatedOn: string,
    updatedAtDisplay: string,
    updateNotes: string)

  /** `Audit`: the creation and deletion stamps, the update log and the counters. */
  datatype Audit = Audit(
    createdAt: Time,
    createdBy: string,
    createdOn: string,
    createdAtDisplay: string,
    updates: seq<UpdateInfo>,
    deletedAt: Time,
    deletedBy: string,
    deletedOn: string,
    deletedAtDisplay: string,
    auditSequence: Int64,
    dbVersion: Int64)

  /** A zero `Audit{}`. */
  const NEW_AUDIT: Audit := Audit(ZERO_TIME, "", "", "", [], ZERO_TIME, "", "", "", 0, 0)

  // The action table set up by the package's `init`.
  const CREATE: Action := Action("CREATE", "CREATE", "Create Data", false)
  const DELETE: Action := Action("DELETE", "DELETE", "Delete Data", false)
  const UPDATE: Action := Action("UPDATE", "UPDATE", "Update Data", false)
  const ERASE: Action := DELETE
  const CLONE: Action := Action("CLONE", "CLONE", "Clone Data", false)
  const NOTIFICATION: Action := Action("NOTIFY", "NOTIFY", "Notify Sent", false)
  const SERVICE: Action := Action("RUN", "RUN", "Service", false)
  const SILENT: Action := Action("SIL", "Silent", "Silent Action", true)
  const GRANT: Action := Action("GRANT", "GRANT", "Grant Permission", false)
  const REVOKE: Action := Action("REVOKE", "REVOKE", "Revoke Permission", false)
  const PROCESS: Action := Action("PROCESS", "PROCESS", "Process Run", false)
  const IMPORT: Action := Action("IMPORT", "IMPORT", "Import Data", false)
  const EXPORT: Action := Action("EXPORT", "EXPORT", "Export Data", false)
  const REPAIR: Action := Action("REPAIR", "REPAIR", "Repair Data", false)
  /** The unexported `audit` action. */
  const AUDIT: Action := Action("AUDIT", "AUDIT", "Audit", true)
  const BACKUP: Action := Action("BACKUP", "BACKUP", "Backup Data", true)
  const LOGIN: Action := Action("LOGIN", "LOGIN", "User Login", false)
  const LOGOUT: Action := Action("LOGOUT", "LOGOUT", "User Logout", false)
  const SYNC: Action := Action("SYNC", "SYNC", "Data Synchronisation", false)
  /** `GET` is declared but `init` never assigns it: it stays the zero `Action{}`. */
  const GET: Action := Action("", "", "", false)

  /** Every action `init` assigns, in its order (`ERASE` included, `GET` not). */
  const INITIALISED: seq<Action> := [
    CREATE, DELETE, UPDATE, ERASE, CLONE, NOTIFICATION, SERVICE, SILENT, GRANT, REVOKE,
    PROCESS, IMPORT, EXPORT, REPAIR, AUDIT, BACKUP, LOGIN, LOGOUT, SYNC]

  /** `WithMessage`: the receiver with its message replaced; the copy returned equals it. */
  function WithMessage(a: Action, message: string): (r: Action)
    ensures r.description == message
    ensures r.code == a.code && r.short == a.short && r.silent == a.silent
  {
    a.(description := message)
  }

  /** `popMessage`: the pending message, and the action left with none. */
  function PopMessage(a: Action): (r: (string, Action))
    ensures r.0 == a.description && r.1.description == ""
    ensures r.1 == WithMessage(a, "")
  {
    (a.description, a.(description := ""))
  }

  /** `Is`: two actions are the same action when their codes are. */
  predicate Is(a: Action, b: Action) {
    a.code == b.code
  }

  /** `Silent`: the receiver flagged silent. */
  function Silent(a: Action): (r: Action)
    ensures r.silent
    ensures r.code == a.code && r.short == a.short && r.description == a.description
  {
    a.(silent := true)
  }

  /** `NotSilent` (and the unexported `unSilience`): the receiver with the flag cleared. */
  function NotSilent(a: Action): (r: Action)
    ensures !r.silent
    ensures r.code == a.code && r.short == a.short && r.description == a.description
  {
    a.(silent := false)
  }

  /** `ShortName`: the short name, upper-cased. */
  function ShortName(a: Action): (r: string)
    ensures |r| == |a.short|
    ensures forall i | 0 <= i < |r| :: r[i] == ToUpperRune(a.short[i]) && !('a' <= r[i] <= 'z')
  {
    ToUpper(a.short)
  }

  /** `Text`: the code, upper-cased. */
  function Text(a: Action): (r: string)
    ensures |r| == |a.code|
    ensures forall i | 0 <= i < |r| :: r[i] == ToUpperRune(a.code[i]) && !('a' <= r[i] <= 'z')
  {
    ToUpper(a.code)
  }

  /** A message set and then popped comes back, and the action keeps no message. */
  lemma PopAfterWithMessage(a: Action, message: string)
    ensures PopMessage(WithMessage(a, message)).0 == message
    ensures PopMessage(WithMessage(a, message)).1 == WithMessage(a, "")
    ensures PopMessage(PopMessage(a).1).0 == ""
  {
  }

  /** `Is` sees only the code: the message and the silent flag never matter. */
  lemma IsIgnoresMessageAndFlag(a: Action, b: Action, message: string)
    ensures Is(WithMessage(a, message), b) <==> Is(a, b)
    ensures Is(Silent(a), b) <==> Is(a, b)
    ensures Is(NotSilent(a), b) <==> Is(a, b)
    ensures Is(Silent(a), NotSilent(a))
  {
  }

  /** The last of `Silent` and `NotSilent` wins. */
  lemma SilenceLastWins(a: Action)
    ensures NotSilent(Silent(a)) == NotSilent(a)
    ensures Silent(NotSilent(a)) == Silent(a)
    ensures Silent(Silent(a)) == Silent(a)
  {
  }

  /** `ERASE` is the same action as `DELETE`. */
  lemma EraseIsDelete()
    ensures ERASE == DELETE && Is(ERASE, DELETE)
  {
  }

  /** Exactly `SILENT`, `audit` and `BACKUP` are initialised silent. */
  lemma SilentActions()
    ensures forall i | 0 <= i < |INITIALISED| ::
      INITIALISED[i].silent <==> INITIALISED[i] in {SILENT, AUDIT, BACKUP}
    ensures SILENT in INITIALISED && AUDIT in INITIALISED && BACKUP in INITIALISED
  {
  }

  /** Every initialised action's short name is its code, except `SILENT`'s. */
  lemma ShortNamesAreCodes()
    ensures forall i | 0 <= i < |INITIALISED| ::
      INITIALISED[i].short == INITIALISED[i].code <==> INITIALISED[i] != SILENT
    ensures Text(SILENT) == "SIL" && ShortName(SILENT) == "SILENT"
  {
  }

  /** Among the initialised actions, the short name and the text differ only for `SILENT`. */
  lemma ShortNameIsText()
    ensures forall i | 0 <= i < |INITIALISED| ::
      ShortName(INITIALISED[i]) == Text(INITIALISED[i]) <==> INITIALISED[i] != SILENT
  {
    ShortNamesAreCodes();
  }

  /** `GET` has the empty code, so any action with an empty code `Is` `GET`. */
  lemma GetIsZero(a: Action)
    ensures GET.code == "" && GET !in INITIALISED
    ensures Is(a, GET) <==> a.code == ""
  {
  }

  /** Two initialised actions share a code only when both are `DELETE` (alias `ERASE`). */
  lemma CodesDistinct()
    ensures forall i, j | 0 <= i < j < |INITIALISED| ::
      INITIALISED[i].code == INITIALISED[j].code ==> INITIALISED[i] == DELETE && INITIALISED[j] == DELETE
  {
  }

  /** The kinds of `context.Context` the user lookup tells apart. */
  datatype Context =
    | Background
    | Todo
    | NilContext
      /** Any other context, with the user code its session carries (possibly empty). */
    | Derived(sessionUser: string)

  /** `commonErrors.ErrContextCannotGetUserCode`. */
  datatype AuditError = ContextCannotGetUserCode

  /**
   * `getAuditUserCode`: the service user of the host for a background context, the
   * system user for a TODO or nil one, otherwise the session's user; a session without a
   * user yields the configured default user together with an error.
   */
  function AuditUserCode(ctx: Context, host: string, defaultUser: string): (r: (string, Option<AuditError>))
    ensures r.1.Some? <==> ctx.Derived? && ctx.sessionUser == ""
    ensures ctx.Background? ==> r.0 == "svc_" + host
    ensures ctx.Todo? || ctx.NilContext? ==> r.0 == "sys_" + host
    ensures ctx.Derived? && ctx.sessionUser != "" ==> r.0 == ctx.sessionUser
    ensures r.1.Some? ==> r.0 == defaultUser
  {
    match ctx
    case Background => ("svc_" + host, None)
    case Todo => ("sys_" + host, None)
    case NilContext => ("sys_" + host, None)
    case Derived(user) =>
      if user != "" then (user, None) else (defaultUser, Some(ContextCannotGetUserCode))
  }

  /** The user is empty only for a session without a user when no default is configured. */
  lemma NoUserOnlyWithoutDefault(ctx: Context, host: string, defaultUser: string)
    ensures AuditUserCode(ctx, host, defaultUser).0 == ""
      <==> ctx.Derived? && ctx.sessionUser == "" && defaultUser == ""
  {
  }

  /** What `Audit.Action` reads from outside: the clock, its display, host, version, default user. */
  datatype Environment = Environment(
    now: Time,
    display: string,
    host: string,
    dbVersion: Int64,
    defaultUser: string)

  /** `Audit.Action` either updates the record or ends the process (`os.Exit(1)`). */
  datatype ActionResult = Recorded(audit: Audit) | Exited

  /** Actions that append an update: neither `SERVICE`, nor `SILENT`, nor flagged silent. */
  predicate Logged(action: Action) {
    !(Is(action, SERVICE) || Is(action, SILENT) || action.silent)
  }

  /** The acting user `Audit.Action` stamps. */
  function ActingUser(ctx: Context, env: Environment): string {
    AuditUserCode(ctx, env.host, env.defaultUser).0
  }

  /** The update `Audit.Action` logs for `action`. */
  function UpdateFor(ctx: Context, action: Action, env: Environment): (u: UpdateInfo)
    ensures u.updateAction == action.code && u.updateNotes == action.description
    ensures u.updatedAt == env.now && u.updatedBy == ActingUser(ctx, env) && u.updatedOn == env.host
  {
    UpdateInfo(env.now, action.code, ActingUser(ctx, env), env.host, env.display, PopMessage(action).0)
  }

  /** `a.AuditSequence` after `Audit.Action`: 0 becomes 1, otherwise Go's `++`. */
  function NextSequence(n: Int64): (r: Int64)
    ensures r == Wrap64(n + 1)
  {
    if n == 0 then 1 else Wrap64(n + 1)
  }

  /** The creation and deletion stamps `Audit.Action` writes for `action`. */
  function Stamped(a: Audit, action: Action, user: string, env: Environment): Audit {
    var created :=
      if Is(action, CREATE) then a.(createdAt := env.now, createdBy := user, createdOn := env.host, createdAtDisplay := env.display)
      else a;
    if Is(action, DELETE) then created.(deletedAt := env.now, deletedBy := user, deletedOn := env.host, deletedAtDisplay := env.display)
    else created
  }

  /**
   * `Audit.Action`. The action arrives by value, so popping its message does not affect
   * the caller's copy. An empty user ends the process; the error of the user lookup is
   * only logged.
   */
  function ApplyAction(a: Audit, ctx: Context, action: Action, env: Environment): (r: ActionResult)
    ensures r.Exited? <==> ActingUser(ctx, env) == ""
    ensures r.Recorded? ==> r.audit.auditSequence == Wrap64(a.auditSequence + 1)
    ensures r.Recorded? ==> r.audit.dbVersion == env.dbVersion
  {
    var user := ActingUser(ctx, env);
    if user == "" then Exited
    else
      var updates := if Logged(action) then a.updates + [UpdateFor(ctx, action, env)] else a.updates;
      Recorded(Stamped(a, action, user, env).(auditSequence := NextSequence(a.auditSequence), dbVersion := env.dbVersion, updates := updates))
  }

  /** `CREATE` stamps the creation with the instant, user, host and display; others leave it. */
  lemma ActionStampsCreation(a: Audit, ctx: Context, action: Action, env: Environment)
    requires ActingUser(ctx, env) != ""
    ensures var r := ApplyAction(a, ctx, action, env).audit;
      if Is(action, CREATE) then
        && r.createdAt == env.now && r.createdBy == ActingUser(ctx, env)
        && r.createdOn == env.host && r.createdAtDisplay == env.display
      else
        && r.createdAt == a.createdAt && r.createdBy == a.createdBy
        && r.createdOn == a.createdOn && r.createdAtDisplay == a.createdAtDisplay
  {
  }

  /** `DELETE` stamps the deletion with the instant, user, host and display; others leave it. */
  lemma ActionStampsDeletion(a: Audit, ctx: Context, action: Action, env: Environment)
    requires ActingUser(ctx, env) != ""
    ensures var r := ApplyAction(a, ctx, action, env).audit;
      if Is(action, DELETE) then
        && r.deletedAt == env.now && r.deletedBy == ActingUser(ctx, env)
        && r.deletedOn == env.host && r.deletedAtDisplay == env.display
      else
        && r.deletedAt == a.deletedAt && r.deletedBy == a.deletedBy
        && r.deletedOn == a.deletedOn && r.deletedAtDisplay == a.deletedAtDisplay
  {
  }

  /** Exactly the logged actions append one update, carrying the action's code and message. */
  lemma ActionLogsUpdate(a: Audit, ctx: Context, action: Action, env: Environment)
    requires ActingUser(ctx, env) != ""
    ensures ApplyAction(a, ctx, action, env).audit.updates
      == a.updates + (if Logged(action) then [UpdateFor(ctx, action, env)] else [])
  {
  }

  /** Below the `int` limit the sequence grows by exactly one, 0 becoming 1. */
  lemma SequenceIncrements(a: Audit, ctx: Context, action: Action, env: Environment)
    requires ApplyAction(a, ctx, action, env).Recorded?
    requires 0 <= a.auditSequence < MAX_INT64
    ensures ApplyAction(a, ctx, action, env).audit.auditSequence == a.auditSequence + 1 > 0
  {
  }

  /** `CREATE` never stamps the deletion, nor `DELETE` (alias `ERASE`) the creation. */
  lemma CreateAndDeleteAreDisjoint(a: Audit, ctx: Context, env: Environment)
    requires ActingUser(ctx, env) != ""
    ensures ApplyAction(a, ctx, CREATE, env).audit.deletedAt == a.deletedAt
    ensures ApplyAction(a, ctx, CREATE, env).audit.createdAt == env.now
    ensures ApplyAction(a, ctx, ERASE, env).audit.createdAt == a.createdAt
    ensures ApplyAction(a, ctx, ERASE, env).audit.deletedBy == ActingUser(ctx, env)
  {
    ActionStampsCreation(a, ctx, CREATE, env);
    ActionStampsDeletion(a, ctx, CREATE, env);
    ActionStampsCreation(a, ctx, ERASE, env);
    ActionStampsDeletion(a, ctx, ERASE, env);
  }

  /** A message attached with `WithMessage` becomes the notes of the logged update. */
  lemma MessageBecomesNotes(a: Audit, ctx: Context, action: Action, message: string, env: Environment)
    requires ActingUser(ctx, env) != "" && Logged(action)
    ensures ApplyAction(a, ctx, WithMessage(action, message), env).audit.updates[|a.updates|].updateNotes == message
  {
    ActionLogsUpdate(a, ctx, WithMessage(action, message), env);
  }

  /** Silent actions, `SERVICE`, `SILENT`, `audit` and `BACKUP` leave the update log as it was. */
  lemma SilentLeavesNoUpdate(a: Audit, ctx: Context, action: Action, env: Environment)
    requires ActingUser(ctx, env) != ""
    ensures ApplyAction(a, ctx, Silent(action), env).audit.updates == a.updates
    ensures ApplyAction(a, ctx, SERVICE, env).audit.updates == a.updates
    ensures ApplyAction(a, ctx, SILENT, env).audit.updates == a.updates
    ensures ApplyAction(a, ctx, AUDIT, env).audit.updates == a.updates
    ensures ApplyAction(a, ctx, BACKUP, env).audit.updates == a.updates
    ensures ApplyAction(a, ctx, NotSilent(UPDATE), env).audit.updates == a.updates + [UpdateFor(ctx, UPDATE, env)]
  {
  }

  /** `Audit.Action` applied to each action in turn, stopping if the process exits. */
  function ApplyActions(a: Audit, ctx: Context, actions: seq<Action>, env: Environment): (r: ActionResult)
    decreases |actions|
  {
    if actions == [] then Recorded(a)
    else
      match ApplyAction(a, ctx, actions[0], env)
      case Exited => Exited
      case Recorded(next) => ApplyActions(next, ctx, actions[1..], env)
  }

  /** The number of actions in `actions` that log an update. */
  function LoggedCount(actions: seq<Action>): (n: nat)
    ensures n <= |actions|
    ensures n == 0 <==> forall i | 0 <= i < |actions| :: !Logged(actions[i])
    ensures n == |actions| <==> forall i | 0 <= i < |actions| :: Logged(actions[i])
  {
    if actions == [] then 0
    else
      var rest := LoggedCount(actions[1..]);
      assert forall i | 1 <= i < |actions| :: actions[i] == actions[1..][i - 1];
      (if Logged(actions[0]) then 1 else 0) + rest
  }

  /** Counting over two runs is adding their counts; a single action counts iff it logs. */
  lemma {:induction false} LoggedCountAppend(xs: seq<Action>, ys: seq<Action>)
    ensures LoggedCount(xs + ys) == LoggedCount(xs) + LoggedCount(ys)
    ensures forall x :: LoggedCount([x]) == if Logged(x) then 1 else 0
    decreases |xs|
  {
    if xs != [] {
      assert (xs + ys)[1..] == xs[1..] + ys;
      LoggedCountAppend(xs[1..], ys);
    } else {
      assert xs + ys == ys;
    }
    forall x ensures LoggedCount([x]) == if Logged(x) then 1 else 0 {
      assert [x][1..] == [];
    }
  }

  /** `k` successive sequence increments of `Audit.Action`. */
  function Advance(n: Int64, k: nat): Int64
    decreases k
  {
    if k == 0 then n else Advance(NextSequence(n), k - 1)
  }

  /** Advancing `k` times one by one is adding `k` once, modulo 2^64. */
  lemma {:induction false} AdvanceWraps(n: Int64, k: nat)
    ensures Advance(n, k) == Wrap64(n + k)
    decreases k
  {
    if k > 0 {
      AdvanceWraps(NextSequence(n), k - 1);
      WrapCount(n, NextSequence(n), Advance(n, k), k - 1, k);
    }
  }

  /** A run of actions by a known user is recorded and advances the sequence once per action. */
  lemma {:induction false} ApplyActionsAdvance(a: Audit, ctx: Context, actions: seq<Action>, env: Environment)
    requires ActingUser(ctx, env) != ""
    ensures ApplyActions(a, ctx, actions, env).Recorded?
    ensures ApplyActions(a, ctx, actions, env).audit.auditSequence == Advance(a.auditSequence, |actions|)
    decreases |actions|
  {
    if actions != [] {
      var next := ApplyAction(a, ctx, actions[0], env).audit;
      assert next.auditSequence == NextSequence(a.auditSequence);
      assert ApplyActions(a, ctx, actions, env) == ApplyActions(next, ctx, actions[1..], env);
      ApplyActionsAdvance(next, ctx, actions[1..], env);
    }
  }

  /** A run of actions by a known user advances the sequence by its length, wrapping as Go does. */
  lemma ApplyActionsSequence(a: Audit, ctx: Context, actions: seq<Action>, env: Environment)
    requires ActingUser(ctx, env) != ""
    ensures ApplyActions(a, ctx, actions, env).Recorded?
    ensures ApplyActions(a, ctx, actions, env).audit.auditSequence == Wrap64(a.auditSequence + |actions|)
  {
    ApplyActionsAdvance(a, ctx, actions, env);
    AdvanceWraps(a.auditSequence, |actions|);
  }

  /**
   * A run of actions by a known user keeps the earlier updates and appends one per logged
   * action.
   */
  lemma {:induction false} ApplyActionsUpdates(a: Audit, ctx: Context, actions: seq<Action>, env: Environment)
    requires ActingUser(ctx, env) != ""
    ensures ApplyActions(a, ctx, actions, env).Recorded?
    ensures |ApplyActions(a, ctx, actions, env).audit.updates| == |a.updates| + LoggedCount(actions)
    ensures a.updates <= ApplyActions(a, ctx, actions, env).audit.updates
    decreases |actions|
  {
    if actions != [] {
      var next := ApplyAction(a, ctx, actions[0], env).audit;
      assert ApplyActions(a, ctx, actions, env) == ApplyActions(next, ctx, actions[1..], env);
      ActionLogsUpdate(a, ctx, actions[0], env);
      ApplyActionsUpdates(next, ctx, actions[1..], env);
    }
  }

  /** Every action ends the process when no user can be found. */
  lemma ApplyActionsExits(a: Audit, ctx: Context, actions: seq<Action>, env: Environment)
    requires ActingUser(ctx, env) == "" && actions != []
    ensures ApplyActions(a, ctx, actions, env).Exited?
  {
  }
}
