/**
 * The CRUD helpers over `whatshapp_accounts`: create, look up by the
 * `user_id` column, and update. Two more helpers are called by the RPC
 * server but missing from the CRUD file; they are given the contracts
 * their call sites imply: update the row keyed by phone number, and
 * update the status of the row keyed by jid.
 *
 * Writes are spec functions from the old table to a `Write`: the new table
 * and the stored account, "not found" (the helper's error reply), or a
 * raised database error. A write raises when it would break the uniqueness
 * of `phone_number` or `jid`, or store a status outside the enum; the
 * table is then unchanged. An argument that is the empty string stands
 * for Python's falsy `None`/`""`: the column keeps its value.
 */
module AccountCrud {
  import opened Wrappers
  import opened Seqs
  import opened AccountSchema

  datatype AccountTable = AccountTable(rows: seq<Account>, nextId: nat)

  predicate Valid(t: AccountTable) {
    ValidAccounts(t.rows, t.nextId)
  }

  /** Position of the first row whose `user_id` column equals `userId`. */
  function IndexByUserId(t: AccountTable, userId: string): (r: Option<nat>)
    ensures r.Some? ==> r.value < |t.rows| && t.rows[r.value].userId == userId
    ensures r.Some? ==> forall j :: 0 <= j < r.value ==> t.rows[j].userId != userId
    ensures r.None? <==> forall j :: 0 <= j < |t.rows| ==> t.rows[j].userId != userId
  {
    FirstIndex(t.rows, (a: Account) => a.userId == userId)
  }

  /** Position of the first row with this phone number. */
  function IndexByPhone(t: AccountTable, phone: string): (r: Option<nat>)
    ensures r.Some? ==> r.value < |t.rows| && t.rows[r.value].phoneNumber == phone
    ensures r.Some? ==> forall j :: 0 <= j < r.value ==> t.rows[j].phoneNumber != phone
    ensures r.None? <==> forall j :: 0 <= j < |t.rows| ==> t.rows[j].phoneNumber != phone
  {
    FirstIndex(t.rows, (a: Account) => a.phoneNumber == phone)
  }

  /** Position of the first row with this jid. */
  function IndexByJid(t: AccountTable, jid: string): (r: Option<nat>)
    ensures r.Some? ==> r.value < |t.rows| && t.rows[r.value].jid == jid
    ensures r.Some? ==> forall j :: 0 <= j < r.value ==> t.rows[j].jid != jid
    ensures r.None? <==> forall j :: 0 <= j < |t.rows| ==> t.rows[j].jid != jid
  {
    FirstIndex(t.rows, (a: Account) => a.jid == jid)
  }

  /** `get_whatshapp_account`: the first row whose `user_id` column matches, or none. */
  function GetAccount(t: AccountTable, userId: string): (r: Option<Account>)
    ensures r.None? <==> forall j :: 0 <= j < |t.rows| ==> t.rows[j].userId != userId
    ensures r.Some? ==>
      exists i :: 0 <= i < |t.rows| && t.rows[i] == r.value && r.value.userId == userId
        && forall j :: 0 <= j < i ==> t.rows[j].userId != userId
  {
    match IndexByUserId(t, userId)
    case None => None
    case Some(i) => Some(t.rows[i])
  }

  /** The outcome of a write helper. */
  datatype Write = Written(table: AccountTable, account: Account) | NotFound | Raised

  /** The table a write leaves behind. */
  function After(t: AccountTable, w: Write): AccountTable {
    if w.Written? then w.table else t
  }

  /** Some row other than row `skip` already holds `a`'s phone number or jid. */
  predicate Clashes(rows: seq<Account>, skip: int, a: Account) {
    exists j :: 0 <= j < |rows| && j != skip
      && (rows[j].phoneNumber == a.phoneNumber || rows[j].jid == a.jid)
  }

  /** `create_whatshapp_account`: insert an active account. */
  function Create(t: AccountTable, userId: string, phone: string, jid: string, now: nat): Write {
    var a := Account(t.nextId, userId, phone, jid, Active, now, now);
    if Clashes(t.rows, -1, a) then Raised
    else Written(AccountTable(t.rows + [a], t.nextId + 1), a)
  }

  /** A truthy argument overwrites the column; a falsy one keeps it. */
  function Pick(arg: string, current: string): string {
    if arg != "" then arg else current
  }

  /**
   * Row `a` with the non-empty arguments written over its columns and
   * `updated_at` refreshed; none when the status label is outside the enum.
   */
  function Edited(a: Account, userId: string, phone: string, jid: string, status: string, now: nat): Option<Account> {
    if status == "" then
      Some(a.(userId := Pick(userId, a.userId), phoneNumber := Pick(phone, a.phoneNumber),
              jid := Pick(jid, a.jid), updatedAt := now))
    else
      match ParseStatus(status)
      case None => None
      case Some(s) =>
        Some(a.(userId := Pick(userId, a.userId), phoneNumber := Pick(phone, a.phoneNumber),
                jid := Pick(jid, a.jid), status := s, updatedAt := now))
  }

  /** Commit the edit of row i, or raise on a uniqueness or enum violation. */
  function Revise(t: AccountTable, i: nat, edited: Option<Account>): Write
    requires i < |t.rows|
  {
    match edited
    case None => Raised
    case Some(a) =>
      if Clashes(t.rows, i, a) then Raised
      else Written(AccountTable(t.rows[i := a], t.nextId), a)
  }

  /** `update_whatshapp_account`: edit the first row of that `user_id`. */
  function Update(t: AccountTable, userId: string, phone: string, jid: string, status: string, now: nat): Write {
    match IndexByUserId(t, userId)
    case None => NotFound
    case Some(i) => Revise(t, i, Edited(t.rows[i], "", phone, jid, status, now))
  }

  /** `update_whatshapp_account_by_phone` (called, not defined): edit the row of that phone number. */
  function UpdateByPhone(t: AccountTable, phone: string, userId: string, jid: string, status: string, now: nat): Write {
    match IndexByPhone(t, phone)
    case None => NotFound
    case Some(i) => Revise(t, i, Edited(t.rows[i], userId, "", jid, status, now))
  }

  /** `update_whatshapp_account_status_by_jid` (called, not defined): set the status of the row of that jid. */
  function UpdateStatusByJid(t: AccountTable, jid: string, status: string, now: nat): Write {
    match IndexByJid(t, jid)
    case None => NotFound
    case Some(i) => Revise(t, i, Edited(t.rows[i], "", "", "", status, now))
  }

  /**
   * Creating succeeds exactly when the phone number and the jid are both
   * unused; it then appends one active account with the given fields and
   * a fresh key, leaving every other row as it was.
   */
  lemma CreateAppends(t: AccountTable, userId: string, phone: string, jid: string, now: nat)
    ensures var w := Create(t, userId, phone, jid, now);
      (w.Written? <==> forall j :: 0 <= j < |t.rows| ==> t.rows[j].phoneNumber != phone && t.rows[j].jid != jid)
      && (!w.Written? ==> w.Raised?)
      && (w.Written? ==>
            |w.table.rows| == |t.rows| + 1 && w.table.rows[..|t.rows|] == t.rows
            && w.table.rows[|t.rows|] == w.account
            && w.account.userId == userId && w.account.phoneNumber == phone && w.account.jid == jid
            && w.account.status == Active && w.account.id == t.nextId
            && w.account.createdAt == now && w.account.updatedAt == now)
  {
    var w := Create(t, userId, phone, jid, now);
    if w.Written? {
      assert w.table.rows[..|t.rows|] == t.rows;
    }
  }

  /**
   * A committed edit replaces row i by the stored account and leaves every
   * other row as it was; it never reports not found.
   */
  lemma ReviseTouchesOne(t: AccountTable, i: nat, edited: Option<Account>)
    requires i < |t.rows|
    ensures var w := Revise(t, i, edited);
      w.NotFound? == false
      && (w.Written? ==>
            edited == Some(w.account) && w.table.nextId == t.nextId
            && |w.table.rows| == |t.rows| && w.table.rows[i] == w.account
            && forall j :: 0 <= j < |t.rows| && j != i ==> w.table.rows[j] == t.rows[j])
  {
  }

  /** A write that keeps the constraints of the table: unique keys, phone numbers and jids. */
  lemma ReviseKeepsValid(t: AccountTable, i: nat, edited: Option<Account>)
    requires Valid(t) && i < |t.rows|
    requires edited.Some? ==> edited.value.id == t.rows[i].id
    ensures Valid(After(t, Revise(t, i, edited)))
  {
    var w := Revise(t, i, edited);
    if w.Written? {
      var rows := w.table.rows;
      forall j, k | 0 <= j < k < |rows|
        ensures rows[j].id != rows[k].id && rows[j].phoneNumber != rows[k].phoneNumber && rows[j].jid != rows[k].jid
      {
        if j == i {
          assert !(rows[k].phoneNumber == w.account.phoneNumber || rows[k].jid == w.account.jid);
        } else if k == i {
          assert !(rows[j].phoneNumber == w.account.phoneNumber || rows[j].jid == w.account.jid);
        }
      }
    }
  }

  lemma EditedKeepsKey(a: Account, userId: string, phone: string, jid: string, status: string, now: nat)
    ensures var e := Edited(a, userId, phone, jid, status, now);
      e.Some? ==> e.value.id == a.id && e.value.createdAt == a.createdAt && e.value.updatedAt == now
  {
  }

  /** Creating keeps the table constraints. */
  lemma CreateKeepsValid(t: AccountTable, userId: string, phone: string, jid: string, now: nat)
    requires Valid(t)
    ensures Valid(After(t, Create(t, userId, phone, jid, now)))
  {
    var c := Create(t, userId, phone, jid, now);
    if c.Written? {
      var rows := c.table.rows;
      assert forall j :: 0 <= j < |t.rows| ==> rows[j] == t.rows[j];
      assert forall j :: 0 <= j < |t.rows| ==> t.rows[j].phoneNumber != phone && t.rows[j].jid != jid;
    }
  }

  /** Each update helper keeps the table constraints. */
  lemma UpdatesKeepValid(t: AccountTable, userId: string, phone: string, jid: string, status: string, now: nat)
    requires Valid(t)
    ensures Valid(After(t, Update(t, userId, phone, jid, status, now)))
    ensures Valid(After(t, UpdateByPhone(t, phone, userId, jid, status, now)))
    ensures Valid(After(t, UpdateStatusByJid(t, jid, status, now)))
  {
    var byUser, byPhone, byJid := IndexByUserId(t, userId), IndexByPhone(t, phone), IndexByJid(t, jid);
    if byUser.Some? {
      var i := byUser.value;
      EditedKeepsKey(t.rows[i], "", phone, jid, status, now);
      ReviseKeepsValid(t, i, Edited(t.rows[i], "", phone, jid, status, now));
    }
    if byPhone.Some? {
      var i := byPhone.value;
      EditedKeepsKey(t.rows[i], userId, "", jid, status, now);
      ReviseKeepsValid(t, i, Edited(t.rows[i], userId, "", jid, status, now));
    }
    if byJid.Some? {
      var i := byJid.value;
      EditedKeepsKey(t.rows[i], "", "", "", status, now);
      ReviseKeepsValid(t, i, Edited(t.rows[i], "", "", "", status, now));
    }
  }

  /**
   * `update_whatshapp_account`: with no row of that `user_id` it reports
   * not found and changes nothing. Otherwise it touches only the first
   * such row, overwrites phone number, jid and status only where the
   * argument is non-empty, and refreshes `updated_at`.
   */
  lemma UpdateExact(t: AccountTable, userId: string, phone: string, jid: string, status: string, now: nat)
    returns (i: nat)
    requires GetAccount(t, userId).Some?
    ensures i < |t.rows| && GetAccount(t, userId) == Some(t.rows[i])
    ensures t.rows[i].userId == userId && forall j :: 0 <= j < i ==> t.rows[j].userId != userId
    ensures var w := Update(t, userId, phone, jid, status, now);
      var a := t.rows[i];
      var phone', jid' := if phone != "" then phone else a.phoneNumber, if jid != "" then jid else a.jid;
      !w.NotFound? && (!w.Written? ==> w.Raised?)
      && (w.Written? <==>
            (status == "" || ParseStatus(status).Some?)
            && forall j :: 0 <= j < |t.rows| && j != i ==> t.rows[j].phoneNumber != phone' && t.rows[j].jid != jid')
      && (w.Written? ==>
            |w.table.rows| == |t.rows| && w.table.rows[i] == w.account
            && (forall j :: 0 <= j < |t.rows| && j != i ==> w.table.rows[j] == t.rows[j])
            && w.account.id == a.id && w.account.userId == a.userId && w.account.createdAt == a.createdAt
            && w.account.phoneNumber == (if phone != "" then phone else a.phoneNumber)
            && w.account.jid == (if jid != "" then jid else a.jid)
            && (status == "" ==> w.account.status == a.status)
            && (status != "" ==> Some(w.account.status) == ParseStatus(status))
            && w.account.updatedAt == now)
  {
    i := IndexByUserId(t, userId).value;
    ReviseTouchesOne(t, i, Edited(t.rows[i], "", phone, jid, status, now));
  }

  /**
   * `update_whatshapp_account_status_by_jid`: with a row of that jid it
   * touches only the first such row. It commits exactly when the status
   * label is empty or in the enum and no other row shares the row's phone
   * number or jid; the row then takes the parsed status (an empty label
   * keeps it) and a fresh `updated_at`, and keeps every other column.
   */
  lemma UpdateStatusByJidExact(t: AccountTable, jid: string, status: string, now: nat) returns (i: nat)
    requires IndexByJid(t, jid).Some?
    ensures i < |t.rows| && t.rows[i].jid == jid
    ensures forall j :: 0 <= j < i ==> t.rows[j].jid != jid
    ensures var w := UpdateStatusByJid(t, jid, status, now);
      var a := t.rows[i];
      !w.NotFound? && (!w.Written? ==> w.Raised?)
      && (w.Written? <==>
            (status == "" || ParseStatus(status).Some?)
            && forall j :: 0 <= j < |t.rows| && j != i ==> t.rows[j].phoneNumber != a.phoneNumber && t.rows[j].jid != a.jid)
      && (w.Written? ==>
            |w.table.rows| == |t.rows| && w.table.nextId == t.nextId && w.table.rows[i] == w.account
            && (forall j :: 0 <= j < |t.rows| && j != i ==> w.table.rows[j] == t.rows[j])
            && w.account == a.(status := w.account.status, updatedAt := now)
            && (status == "" ==> w.account.status == a.status)
            && (status != "" ==> Some(w.account.status) == ParseStatus(status)))
  {
    i := IndexByJid(t, jid).value;
    ReviseTouchesOne(t, i, Edited(t.rows[i], "", "", "", status, now));
  }

  /** With no row of that `user_id`, the update reports not found. */
  lemma UpdateMissing(t: AccountTable, userId: string, phone: string, jid: string, status: string, now: nat)
    requires GetAccount(t, userId).None?
    ensures Update(t, userId, phone, jid, status, now) == NotFound
    ensures After(t, Update(t, userId, phone, jid, status, now)) == t
  {
  }

  /** What a CRUD helper hands back to its caller. */
  datatype Reply = Ok(account: Account) | Missing | Failed

  function ReplyOf(w: Write): Reply {
    match w
    case Written(_, a) => Ok(a)
    case NotFound => Missing
    case Raised => Failed
  }

  /** The session over `whatshapp_accounts`. */
  class AccountStore {
    var rows: seq<Account>
    var nextId: nat

    function State(): AccountTable
      reads this
    {
      AccountTable(rows, nextId)
    }

    constructor()
      ensures State() == AccountTable([], 1)
    {
      rows := [];
      nextId := 1;
    }

    /** Commit row i as `a`, unless that breaks a uniqueness constraint. */
    method Commit(i: nat, edited: Option<Account>) returns (reply: Reply)
      requires i < |rows|
      modifies this
      ensures var w := Revise(old(State()), i, edited);
        reply == ReplyOf(w) && State() == After(old(State()), w)
    {
      if edited.None? || Clashes(rows, i, edited.value) {
        return Failed;
      }
      rows := rows[i := edited.value];
      reply := Ok(edited.value);
    }

    /** `create_whatshapp_account`. */
    method CreateAccount(userId: string, phone: string, jid: string, now: nat) returns (reply: Reply)
      modifies this
      ensures var w := Create(old(State()), userId, phone, jid, now);
        reply == ReplyOf(w) && State() == After(old(State()), w)
    {
      var a := Account(nextId, userId, phone, jid, Active, now, now);
      if Clashes(rows, -1, a) {
        return Failed;
      }
      rows := rows + [a];
      nextId := nextId + 1;
      reply := Ok(a);
    }

    /** `update_whatshapp_account`. */
    method UpdateAccount(userId: string, phone: string, jid: string, status: string, now: nat) returns (reply: Reply)
      modifies this
      ensures var w := Update(old(State()), userId, phone, jid, status, now);
        reply == ReplyOf(w) && State() == After(old(State()), w)
    {
      var found := IndexByUserId(State(), userId);
      if found.None? {
        return Missing;
      }
      var i := found.value;
      reply := Commit(i, Edited(rows[i], "", phone, jid, status, now));
    }

    /** `update_whatshapp_account_by_phone`, as its call site implies. */
    method UpdateAccountByPhone(phone: string, userId: string, jid: string, status: string, now: nat)
      returns (reply: Reply)
      modifies this
      ensures var w := UpdateByPhone(old(State()), phone, userId, jid, status, now);
        reply == ReplyOf(w) && State() == After(old(State()), w)
    {
      var found := IndexByPhone(State(), phone);
      if found.None? {
        return Missing;
      }
      var i := found.value;
      reply := Commit(i, Edited(rows[i], userId, "", jid, status, now));
    }

    /** `update_whatshapp_account_status_by_jid`, as its call site implies. */
    method UpdateAccountStatusByJid(jid: string, status: string, now: nat) returns (reply: Reply)
      modifies this
      ensures var w := UpdateStatusByJid(old(State()), jid, status, now);
        reply == ReplyOf(w) && State() == After(old(State()), w)
    {
      var found := IndexByJid(State(), jid);
      if found.None? {
        return Missing;
      }
      var i := found.value;
      reply := Commit(i, Edited(rows[i], "", "", "", status, now));
    }
  }
}
