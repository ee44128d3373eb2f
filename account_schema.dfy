/**
 * The rows of `whatshapp_accounts`: a WhatsApp session (phone number and
 * jid) linked to an application user. `phone_number` and `jid` are each
 * unique across rows; `user_id` is not, so one user may hold several
 * accounts. Timestamps are readings of an abstract clock.
 */
module AccountSchema {
  import opened Wrappers

  /** The `status_enum` column type. */
  datatype AccountStatus = Active | Inactive

  function StatusLabel(s: AccountStatus): string {
    match s
    case Active => "active"
    case Inactive => "inactive"
  }

  /** The enum member a label denotes; only the two declared labels are accepted. */
  function ParseStatus(s: string): (r: Option<AccountStatus>)
    ensures r.Some? <==> s == "active" || s == "inactive"
  {
    if s == "active" then Some(Active)
    else if s == "inactive" then Some(Inactive)
    else None
  }

  /** Parsing and labelling are inverse. */
  lemma StatusRoundTrip(st: AccountStatus, s: string)
    ensures ParseStatus(StatusLabel(st)) == Some(st)
    ensures ParseStatus(s) == Some(st) <==> s == StatusLabel(st)
  {
  }

  datatype Account = Account(
    id: nat,
    userId: string,
    phoneNumber: string,
    jid: string,
    status: AccountStatus,
    createdAt: nat,
    updatedAt: nat)

  /**
   * The table constraints: the auto-incremented key is unique and below
   * the next key; `phone_number` and `jid` are unique.
   */
  predicate ValidAccounts(rows: seq<Account>, nextId: nat) {
    (forall i :: 0 <= i < |rows| ==> rows[i].id < nextId)
    && (forall i, j :: 0 <= i < j < |rows| ==>
          rows[i].id != rows[j].id
          && rows[i].phoneNumber != rows[j].phoneNumber
          && rows[i].jid != rows[j].jid)
  }

  /** `user_id` carries no uniqueness: two accounts of one user form a valid table. */
  lemma SharedUserIdAllowed(userId: string) returns (rows: seq<Account>, nextId: nat)
    ensures ValidAccounts(rows, nextId) && |rows| == 2
    ensures rows[0].userId == rows[1].userId == userId
  {
    rows := [Account(1, userId, "1", "a", Active, 0, 0),
             Account(2, userId, "2", "b", Inactive, 0, 0)];
    nextId := 3;
  }
}
