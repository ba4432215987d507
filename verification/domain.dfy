/** Vocabulary shared by the server model and the client reducers: identifiers,
    nullable values, request-body fields with their JavaScript truthiness, the
    two enumerations of the schema, and the outcome of a controller action. */
module Domain {

  /** A record identifier. The database uses UUID text; the model only compares them. */
  type Id = string

  /** A point in time, as the number of milliseconds a JSON body carries. */
  type Time = int

  /** A nullable column value. */
  datatype Option<+T> = None | Some(value: T)

  /** One property of a JSON request body: absent, `null`, or a value. */
  datatype Field<+T> = Undefined | Null | Given(value: T)

  /** JavaScript truthiness of a body property: `undefined` and `null` are falsy,
      and so is a given value that `falsy` recognises ("" or 0). */
  predicate Truthy<T>(f: Field<T>, falsy: T -> bool) {
    f.Given? && !falsy(f.value)
  }

  predicate EmptyText(s: string) { s == "" }

  predicate ZeroTime(t: Time) { t == 0 }

  /** `f || prior` for a column that cannot be null. */
  function Or<T>(f: Field<T>, falsy: T -> bool, prior: T): T {
    if Truthy(f, falsy) then f.value else prior
  }

  /** `f || prior` for a nullable column. */
  function OrNullable<T>(f: Field<T>, falsy: T -> bool, prior: Option<T>): Option<T> {
    if Truthy(f, falsy) then Some(f.value) else prior
  }

  /** `f !== undefined ? f : prior`: `null` clears the column, only an absent property keeps it. */
  function IfDefined<T>(f: Field<T>, prior: Option<T>): Option<T> {
    match f
    case Undefined => prior
    case Null => None
    case Given(v) => Some(v)
  }

  /** The value a nullable column without a default takes when a row is created from `f`. */
  function Nullable<T>(f: Field<T>): Option<T> {
    match f
    case Given(v) => Some(v)
    case _ => None
  }

  /** Attendance status: the ENUM of the Attendances table. */
  datatype Status = Attending | Maybe | NotAttending

  function StatusName(st: Status): string {
    match st
    case Attending => "attending"
    case Maybe => "maybe"
    case NotAttending => "not_attending"
  }

  /** The ENUM check: a string outside the enumeration is refused. */
  function ParseStatus(x: string): (r: Option<Status>)
    ensures r.Some? ==> StatusName(r.value) == x
  {
    if x == "attending" then Some(Attending)
    else if x == "maybe" then Some(Maybe)
    else if x == "not_attending" then Some(NotAttending)
    else None
  }

  /** The stored status names are exactly the accepted strings. */
  lemma StatusRoundTrip(st: Status, x: string)
    ensures ParseStatus(StatusName(st)) == Some(st)
    ensures ParseStatus(x).Some? <==> x in {"attending", "maybe", "not_attending"}
  {
    match st
    case Attending =>
    case Maybe =>
    case NotAttending =>
  }

  /** Band membership role: the ENUM of the BandMembers table. */
  datatype Role = Admin | Member

  function RoleName(role: Role): string {
    match role
    case Admin => "admin"
    case Member => "member"
  }

  function ParseRole(x: string): (r: Option<Role>)
    ensures r.Some? ==> RoleName(r.value) == x
  {
    if x == "admin" then Some(Admin)
    else if x == "member" then Some(Member)
    else None
  }

  lemma RoleRoundTrip(role: Role, x: string)
    ensures ParseRole(RoleName(role)) == Some(role)
    ensures ParseRole(x).Some? <==> x in {"admin", "member"}
  {
    match role
    case Admin =>
    case Member =>
  }

  /** What a controller answers: 200/201 with a body, or 404, 403, 400, 500. */
  datatype Outcome<+T> = Ok(value: T) | NotFound | Forbidden | BadRequest | ServerError
}
