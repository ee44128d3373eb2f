/**
 * The rows of the `users` and `user_sources` tables. Text columns declared
 * non-null are plain strings (a row cannot hold a missing value for them);
 * nullable columns are `Option`s. Timestamps are readings of an abstract
 * clock (`nat`).
 */
module SourceSchema {
  import opened Wrappers

  /** The `source_type_enum` column type. */
  datatype SourceType = Website | Pdf

  /** The label stored for each enum member. */
  function SourceTypeName(t: SourceType): string {
    match t
    case Website => "website"
    case Pdf => "pdf"
  }

  /** The enum member a label denotes; only the two declared labels are accepted. */
  function ParseSourceType(s: string): (r: Option<SourceType>)
    ensures r.Some? <==> s == "website" || s == "pdf"
  {
    if s == "website" then Some(Website)
    else if s == "pdf" then Some(Pdf)
    else None
  }

  /** The two labels are the enum: parsing and naming are inverse. */
  lemma SourceTypeRoundTrip(t: SourceType, s: string)
    ensures ParseSourceType(SourceTypeName(t)) == Some(t)
    ensures ParseSourceType(s) == Some(t) <==> s == SourceTypeName(t)
  {
  }

  /** A row of `users`. */
  datatype User = User(
    id: nat,
    email: string,
    name: Option<string>,
    picture: Option<string>,
    googleId: Option<string>,
    createdAt: nat)

  /** A row of `user_sources`. */
  datatype UserSource = UserSource(
    id: nat,
    userId: string,
    sourceId: string,
    sourceType: SourceType,
    sourceTitle: string,
    createdAt: nat,
    updatedAt: nat)

  /**
   * The table invariant of `user_sources`: the auto-incremented primary key
   * is unique and below the next key to hand out. Nothing else is unique.
   */
  predicate ValidRows(rows: seq<UserSource>, nextId: nat) {
    (forall i, j :: 0 <= i < j < |rows| ==> rows[i].id != rows[j].id)
    && (forall i :: 0 <= i < |rows| ==> rows[i].id < nextId)
  }

  /**
   * No constraint covers `(user_id, source_id)`: a valid table may hold two
   * rows for the same user and source (under different titles, say).
   */
  lemma DuplicatePairAllowed(userId: string, sourceId: string) returns (rows: seq<UserSource>, nextId: nat)
    ensures ValidRows(rows, nextId) && |rows| == 2
    ensures rows[0].userId == rows[1].userId == userId
    ensures rows[0].sourceId == rows[1].sourceId == sourceId
  {
    rows := [UserSource(1, userId, sourceId, Pdf, "a", 0, 0),
             UserSource(2, userId, sourceId, Website, "b", 0, 0)];
    nextId := 3;
  }
}
