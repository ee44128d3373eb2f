/**
 * The decision logic of the gRPC `WhatsappServicer`: `SaveAccount`
 * (find-or-create, then activate), `UpdateAccountStatus` (resolve the row
 * by jid when one is given, else by user id) and `GetAccount`. The
 * servicer holds the accounts table; a null table stands for a database
 * that is not configured, where opening a session raises.
 *
 * Every handler turns a raised error into a failure reply with empty
 * fields; the error text itself (`str(e)`) is not modelled, so such a
 * reply's message is `None`.
 */
module AccountServer {
  import opened Wrappers
  import opened AccountSchema
  import opened AccountCrud

  /** `SaveAccountResponse` and `UpdateStatusResponse`, which share their fields. */
  datatype AccountReply = AccountReply(success: bool, message: Option<string>, phoneNumber: string, jid: string, status: string)

  /** `GetAccountResponse`; unset string fields read as "". */
  datatype GetReply = GetReply(found: bool, userId: string, phoneNumber: string, jid: string, status: string)

  /** The reply of a handler whose body raised. */
  const RaisedReply := AccountReply(false, None, "", "", "")

  const NotFoundReply := AccountReply(false, Some("Account not found"), "", "", "")

  function SuccessReply(message: string, a: Account): AccountReply {
    AccountReply(true, Some(message), a.phoneNumber, a.jid, StatusLabel(a.status))
  }

  datatype Handled = Handled(reply: AccountReply, db: Option<AccountTable>)

  /**
   * `SaveAccount`, as written: the existence test passes the phone number
   * to `get_whatshapp_account`, which compares it with the `user_id`
   * column. If that finds a row, the row with this phone number is updated
   * to the request's user id and jid and made active (a reply without an
   * account raises); otherwise a new account is created.
   */
  function Save(db: Option<AccountTable>, userId: string, phone: string, jid: string, now: nat): Handled {
    match db
    case None => Handled(RaisedReply, db)
    case Some(t) =>
      if GetAccount(t, phone).Some? then
        var w := UpdateByPhone(t, phone, userId, jid, "active", now);
        Handled(if w.Written? then SuccessReply("Account updated to active", w.account) else RaisedReply,
                Some(After(t, w)))
      else
        var w := Create(t, userId, phone, jid, now);
        Handled(if w.Written? then SuccessReply("Account created successfully", w.account) else RaisedReply,
                Some(After(t, w)))
  }

  /** `UpdateAccountStatus`: by jid when the request carries one, else by user id. */
  function UpdateStatus(db: Option<AccountTable>, userId: string, jid: string, status: string, now: nat): Handled {
    match db
    case None => Handled(RaisedReply, db)
    case Some(t) =>
      var w := if jid != "" then UpdateStatusByJid(t, jid, status, now)
               else Update(t, userId, "", "", status, now);
      match w
      case Written(t', a) => Handled(SuccessReply("Status updated to " + status, a), Some(t'))
      case NotFound => Handled(NotFoundReply, db)
      case Raised => Handled(RaisedReply, db)
  }

  /** `GetAccount`, as written: looks the phone number up in the `user_id` column. */
  function Get(db: Option<AccountTable>, phone: string): GetReply {
    match db
    case None => GetReply(false, "", "", "", "")
    case Some(t) =>
      match GetAccount(t, phone)
      case None => GetReply(false, "", "", "", "")
      case Some(a) => GetReply(true, a.userId, a.phoneNumber, a.jid, StatusLabel(a.status))
  }

  /**
   * `SaveAccount` runs exactly one branch. A success replies active with
   * the request's phone number (and jid, when one is given).
   *
   * - Update branch (the `user_id` lookup found a row): it succeeds exactly
   *   when some row has the phone number and no other row shares that
   *   phone number or the jid to be stored. The first row with the phone
   *   number then takes the request's user id and jid (when non-empty), the
   *   status active and a fresh `updated_at`; every other row is kept.
   * - Create branch: it succeeds exactly when phone number and jid are
   *   unused, and then appends one active account after the unchanged rows.
   *
   * A failure replies with empty fields and changes nothing.
   */
  lemma SaveOutcomes(t: AccountTable, userId: string, phone: string, jid: string, now: nat)
    ensures var h := Save(Some(t), userId, phone, jid, now);
      h.db.Some?
      && (!h.reply.success ==> h.reply == RaisedReply && h.db == Some(t))
      && (h.reply.success ==>
            h.reply.status == "active" && h.reply.phoneNumber == phone && (jid != "" ==> h.reply.jid == jid))
    ensures var h := Save(Some(t), userId, phone, jid, now);
      GetAccount(t, phone).Some? ==>
        (h.reply.success <==>
           IndexByPhone(t, phone).Some?
           && (var i := IndexByPhone(t, phone).value;
               var jid' := if jid != "" then jid else t.rows[i].jid;
               forall j :: 0 <= j < |t.rows| && j != i ==> t.rows[j].phoneNumber != phone && t.rows[j].jid != jid'))
        && (h.reply.success ==>
              IndexByPhone(t, phone).Some? && |h.db.value.rows| == |t.rows|
              && (var i := IndexByPhone(t, phone).value;
                  var a := t.rows[i];
                  h.db.value.rows[i] == a.(userId := if userId != "" then userId else a.userId,
                                           jid := if jid != "" then jid else a.jid,
                                           status := Active, updatedAt := now)
                  && h.reply.jid == h.db.value.rows[i].jid
                  && forall j :: 0 <= j < |t.rows| && j != i ==> h.db.value.rows[j] == t.rows[j]))
    ensures var h := Save(Some(t), userId, phone, jid, now);
      GetAccount(t, phone).None? ==>
        (h.reply.success <==> forall j :: 0 <= j < |t.rows| ==> t.rows[j].phoneNumber != phone && t.rows[j].jid != jid)
        && (h.reply.success ==>
              |h.db.value.rows| == |t.rows| + 1 && h.db.value.rows[..|t.rows|] == t.rows
              && h.db.value.rows[|t.rows|] == Account(t.nextId, userId, phone, jid, Active, now, now))
  {
    if GetAccount(t, phone).Some? {
      var w := UpdateByPhone(t, phone, userId, jid, "active", now);
      if IndexByPhone(t, phone).Some? {
        var i := IndexByPhone(t, phone).value;
        ReviseTouchesOne(t, i, Edited(t.rows[i], userId, "", jid, "active", now));
        if w.Written? {
          assert w.table.rows[i] == w.account;
        }
      }
    } else {
      CreateAppends(t, userId, phone, jid, now);
    }
  }

  /**
   * `UpdateAccountStatus` resolves the row by jid whenever the jid is
   * non-empty, and by user id only when it is empty: every row but the
   * resolved one is left as it was, and a success replies with the
   * resolved row (its jid is the request's, when one was given).
   */
  lemma UpdateStatusPrefersJid(t: AccountTable, userId: string, jid: string, status: string, now: nat)
    ensures var h := UpdateStatus(Some(t), userId, jid, status, now);
      h.db.Some? && |h.db.value.rows| == |t.rows|
      && (jid != "" ==>
            (IndexByJid(t, jid).None? ==> h.reply == NotFoundReply && h.db == Some(t))
            && (h.reply.success ==> h.reply.jid == jid)
            && forall j :: 0 <= j < |t.rows| && t.rows[j].jid != jid ==> h.db.value.rows[j] == t.rows[j])
      && (jid == "" ==>
            (GetAccount(t, userId).None? ==> h.reply == NotFoundReply && h.db == Some(t))
            && (IndexByUserId(t, userId).Some? ==>
                  forall j :: 0 <= j < |t.rows| && j != IndexByUserId(t, userId).value ==>
                    h.db.value.rows[j] == t.rows[j]))
  {
    if jid != "" {
      match IndexByJid(t, jid)
      case None =>
      case Some(i) => ReviseTouchesOne(t, i, Edited(t.rows[i], "", "", "", status, now));
    } else {
      match IndexByUserId(t, userId)
      case None =>
      case Some(i) => ReviseTouchesOne(t, i, Edited(t.rows[i], "", "", "", status, now));
    }
  }

  /**
   * The effect of `UpdateAccountStatus` on the row it resolves (by jid when
   * one is given, else by user id): no row is "Account not found"; a label
   * outside the enum raises and changes nothing; on a valid table every
   * other label succeeds. A success stores the parsed status (an empty
   * label keeps the old one) with a fresh `updated_at`, keeps every other
   * column and row, and replies with the stored row.
   */
  lemma UpdateStatusSetsStatus(t: AccountTable, userId: string, jid: string, status: string, now: nat)
    ensures var h := UpdateStatus(Some(t), userId, jid, status, now);
      var target := if jid != "" then IndexByJid(t, jid) else IndexByUserId(t, userId);
      (target.None? ==> h.reply == NotFoundReply && h.db == Some(t))
      && (target.Some? && status != "" && ParseStatus(status).None? ==> h.reply == RaisedReply && h.db == Some(t))
      && (target.Some? && Valid(t) && (status == "" || ParseStatus(status).Some?) ==> h.reply.success)
      && (h.reply.success ==>
            target.Some? && h.db.Some? && |h.db.value.rows| == |t.rows|
            && (var i := target.value;
                var row := h.db.value.rows[i];
                row == t.rows[i].(status := row.status, updatedAt := now)
                && (status == "" ==> row.status == t.rows[i].status)
                && (status != "" ==> Some(row.status) == ParseStatus(status))
                && h.reply == SuccessReply("Status updated to " + status, row)
                && forall j :: 0 <= j < |t.rows| && j != i ==> h.db.value.rows[j] == t.rows[j]))
  {
    var target := if jid != "" then IndexByJid(t, jid) else IndexByUserId(t, userId);
    if target.Some? {
      var i: nat;
      if jid != "" {
        i := UpdateStatusByJidExact(t, jid, status, now);
      } else {
        i := UpdateExact(t, userId, "", "", status, now);
      }
      assert i == target.value;
      if Valid(t) {
        assert forall j :: 0 <= j < |t.rows| && j != i ==>
          t.rows[j].phoneNumber != t.rows[i].phoneNumber && t.rows[j].jid != t.rows[i].jid by {
          forall j | 0 <= j < |t.rows| && j != i
            ensures t.rows[j].phoneNumber != t.rows[i].phoneNumber && t.rows[j].jid != t.rows[i].jid
          {
            assert ValidAccounts(t.rows, t.nextId);
          }
        }
      }
    }
  }

  /** Every unsuccessful reply carries empty fields; only "not found" carries a fixed message. */
  lemma FailureRepliesEmpty(db: Option<AccountTable>, userId: string, phone: string, jid: string, status: string, now: nat)
    ensures var r := Save(db, userId, phone, jid, now).reply;
      !r.success ==> r.phoneNumber == "" && r.jid == "" && r.status == ""
    ensures var h := UpdateStatus(db, userId, jid, status, now);
      !h.reply.success ==> h.reply.phoneNumber == "" && h.reply.jid == "" && h.reply.status == "" && h.db == db
    ensures var g := Get(db, phone);
      !g.found ==> g.userId == "" && g.phoneNumber == "" && g.jid == "" && g.status == ""
    ensures db.None? ==> Save(db, userId, phone, jid, now) == Handled(RaisedReply, None)
  {
  }

  /** `GetAccount` finds a row exactly when some row's `user_id` equals the argument, and returns its fields. */
  lemma GetFound(t: AccountTable, phone: string)
    ensures var g := Get(Some(t), phone);
      (g.found <==> exists i :: 0 <= i < |t.rows| && t.rows[i].userId == phone)
      && (g.found ==>
            g.userId == phone
            && exists i :: 0 <= i < |t.rows| && t.rows[i].userId == phone
                 && g.phoneNumber == t.rows[i].phoneNumber && g.jid == t.rows[i].jid
                 && g.status == StatusLabel(t.rows[i].status))
  {
  }

  /**
   * As written, re-saving an existing account fails: with the phone number
   * stored under a different user id the lookup misses, and creating a
   * second row with the same phone number violates its uniqueness.
   */
  lemma SaveExistingPhoneFails()
    ensures var t := AccountTable([Account(1, "u1", "555", "j1", Inactive, 0, 0)], 2);
      var h := Save(Some(t), "u1", "555", "j1", 5);
      !h.reply.success && h.db == Some(t)
      && Get(Some(t), "555").found == false
  {
    var t := AccountTable([Account(1, "u1", "555", "j1", Inactive, 0, 0)], 2);
    assert t.rows[0].userId != "555";
    assert Clashes(t.rows, -1, Account(2, "u1", "555", "j1", Active, 5, 5)) by {
      assert t.rows[0].phoneNumber == "555";
    }
  }

  /** The intended `SaveAccount`: find the row by phone number. */
  function SaveByPhone(db: Option<AccountTable>, userId: string, phone: string, jid: string, now: nat): Handled {
    match db
    case None => Handled(RaisedReply, db)
    case Some(t) =>
      if IndexByPhone(t, phone).Some? then
        var w := UpdateByPhone(t, phone, userId, jid, "active", now);
        Handled(if w.Written? then SuccessReply("Account updated to active", w.account) else RaisedReply,
                Some(After(t, w)))
      else
        var w := Create(t, userId, phone, jid, now);
        Handled(if w.Written? then SuccessReply("Account created successfully", w.account) else RaisedReply,
                Some(After(t, w)))
  }

  /**
   * With the lookup by phone number, saving a known phone number succeeds
   * whenever its jid is not held by another account: the row is
   * reassigned to the request's user and jid, made active, and no row is
   * added.
   */
  lemma SaveByPhoneReactivates(t: AccountTable, userId: string, phone: string, jid: string, now: nat)
    requires IndexByPhone(t, phone).Some?
    requires forall j :: 0 <= j < |t.rows| && t.rows[j].jid == jid ==> t.rows[j].phoneNumber == phone
    requires Valid(t) && jid != ""
    ensures var h := SaveByPhone(Some(t), userId, phone, jid, now);
      var i := IndexByPhone(t, phone).value;
      h.reply.success && h.reply.status == "active" && h.reply.phoneNumber == phone && h.reply.jid == jid
      && h.db.Some? && |h.db.value.rows| == |t.rows|
      && h.db.value.rows[i].jid == jid && h.db.value.rows[i].status == Active
      && (userId != "" ==> h.db.value.rows[i].userId == userId)
      && forall j :: 0 <= j < |t.rows| && j != i ==> h.db.value.rows[j] == t.rows[j]
  {
    var i := IndexByPhone(t, phone).value;
    var e := Edited(t.rows[i], userId, "", jid, "active", now);
    assert e.Some?;
    assert !Clashes(t.rows, i, e.value);
  }

  /** The intended `GetAccount`: find the row by phone number. */
  function GetByPhone(db: Option<AccountTable>, phone: string): GetReply {
    match db
    case None => GetReply(false, "", "", "", "")
    case Some(t) =>
      match IndexByPhone(t, phone)
      case None => GetReply(false, "", "", "", "")
      case Some(i) =>
        var a := t.rows[i];
        GetReply(true, a.userId, a.phoneNumber, a.jid, StatusLabel(a.status))
  }

  /** With the lookup by phone number, an account is found exactly when its phone number is stored. */
  lemma GetByPhoneFound(t: AccountTable, phone: string)
    ensures var g := GetByPhone(Some(t), phone);
      (g.found <==> exists i :: 0 <= i < |t.rows| && t.rows[i].phoneNumber == phone)
      && (g.found ==> g.phoneNumber == phone)
  {
  }

  /** The servicer, holding the accounts table (null: no database configured). */
  class WhatsappServicer {
    const store: AccountStore?

    constructor(store: AccountStore?)
      ensures this.store == store
    {
      this.store := store;
    }

    function Tables(): Option<AccountTable>
      reads this, store
    {
      if store == null then None else Some(store.State())
    }

    method SaveAccount(userId: string, phone: string, jid: string, now: nat) returns (reply: AccountReply)
      modifies store
      ensures Handled(reply, Tables()) == Save(old(Tables()), userId, phone, jid, now)
    {
      if store == null {
        return RaisedReply;
      }
      var existing := GetAccount(store.State(), phone);
      if existing.Some? {
        var result := store.UpdateAccountByPhone(phone, userId, jid, "active", now);
        if !result.Ok? {
          return RaisedReply;
        }
        return SuccessReply("Account updated to active", result.account);
      }
      var created := store.CreateAccount(userId, phone, jid, now);
      if !created.Ok? {
        return RaisedReply;
      }
      reply := SuccessReply("Account created successfully", created.account);
    }

    method UpdateAccountStatus(userId: string, jid: string, status: string, now: nat) returns (reply: AccountReply)
      modifies store
      ensures Handled(reply, Tables()) == UpdateStatus(old(Tables()), userId, jid, status, now)
    {
      if store == null {
        return RaisedReply;
      }
      var result;
      if jid != "" {
        result := store.UpdateAccountStatusByJid(jid, status, now);
      } else {
        result := store.UpdateAccount(userId, "", "", status, now);
      }
      match result
      case Ok(a) => reply := SuccessReply("Status updated to " + status, a);
      case Missing => reply := NotFoundReply;
      case Failed => reply := RaisedReply;
    }

    method GetAccountReply(phone: string) returns (reply: GetReply)
      ensures reply == Get(Tables(), phone)
    {
      if store == null {
        return GetReply(false, "", "", "", "");
      }
      var result := GetAccount(store.State(), phone);
      if result.None? {
        return GetReply(false, "", "", "", "");
      }
      var a := result.value;
      reply := GetReply(true, a.userId, a.phoneNumber, a.jid, StatusLabel(a.status));
    }
  }
}
