/** The database as the migrations declare it: one table per entity, the UNIQUE
    and NOT NULL constraints, the foreign keys, and what ON DELETE CASCADE and
    ON DELETE SET NULL do when a row goes. */
module Schema {
  import opened Domain
  import opened Seqs

  /** A registered account; only its id and its unique email matter here. */
  datatype User = User(id: Id, email: string)

  /** A band. The Bands table definition is not part of this model, so name and
      description are kept nullable and unconstrained. */
  datatype Band = Band(id: Id, name: Option<string>, description: Option<string>, createdBy: Id, createdAt: Time)

  /** A BandMembers row: role is a non-null ENUM, instruments is optional. */
  datatype Membership = Membership(bandId: Id, userId: Id, role: Role, instruments: Option<string>)

  /** A Venues row, reduced to what rehearsals refer to. */
  datatype Venue = Venue(id: Id, bandId: Id, name: string)

  /** A Rehearsals row. Title and both times are NOT NULL; nothing orders the two
      times; the recurrence pattern is an uninterpreted string. */
  datatype Rehearsal = Rehearsal(
    id: Id,
    bandId: Id,
    venueId: Option<Id>,
    title: string,
    description: Option<string>,
    startTime: Time,
    endTime: Time,
    isRecurring: Option<bool>,
    recurrencePattern: Option<string>,
    createdBy: Id)

  /** An Attendances row: status is a non-null ENUM, comment is optional. */
  datatype Attendance = Attendance(rehearsalId: Id, userId: Id, status: Status, comment: Option<string>)

  datatype Store = Store(
    users: seq<User>,
    bands: seq<Band>,
    members: seq<Membership>,
    venues: seq<Venue>,
    rehearsals: seq<Rehearsal>,
    attendance: seq<Attendance>)

  /** What a controller action answers, with the store it leaves behind. */
  datatype Step<+T> = Step(out: Outcome<T>, store: Store)

  function UserKey(u: User): Id { u.id }
  function EmailKey(u: User): string { u.email }
  function BandKey(b: Band): Id { b.id }
  function VenueKey(v: Venue): Id { v.id }
  function RehearsalKey(r: Rehearsal): Id { r.id }
  function MemberKey(m: Membership): (Id, Id) { (m.bandId, m.userId) }
  function AttendanceKey(a: Attendance): (Id, Id) { (a.rehearsalId, a.userId) }

  predicate HasUser(s: Store, id: Id) { id in Keys(s.users, UserKey) }
  predicate HasBand(s: Store, id: Id) { id in Keys(s.bands, BandKey) }
  predicate HasVenue(s: Store, id: Id) { id in Keys(s.venues, VenueKey) }
  predicate HasRehearsal(s: Store, id: Id) { id in Keys(s.rehearsals, RehearsalKey) }

  /** Primary keys, the unique email, `unique_band_member` and `unique_rehearsal_attendance`. */
  predicate Keyed(s: Store) {
    && UniqueBy(s.users, UserKey) && UniqueBy(s.users, EmailKey)
    && UniqueBy(s.bands, BandKey)
    && UniqueBy(s.venues, VenueKey)
    && UniqueBy(s.rehearsals, RehearsalKey)
    && UniqueBy(s.members, MemberKey)
    && UniqueBy(s.attendance, AttendanceKey)
  }

  predicate MembersLinked(s: Store) {
    forall m | m in s.members :: HasBand(s, m.bandId) && HasUser(s, m.userId)
  }

  predicate VenuesLinked(s: Store) {
    forall v | v in s.venues :: HasBand(s, v.bandId)
  }

  predicate RehearsalsLinked(s: Store) {
    forall r | r in s.rehearsals ::
      && HasBand(s, r.bandId)
      && HasUser(s, r.createdBy)
      && (r.venueId.Some? ==> HasVenue(s, r.venueId.value))
  }

  predicate AttendanceLinked(s: Store) {
    forall a | a in s.attendance :: HasRehearsal(s, a.rehearsalId) && HasUser(s, a.userId)
  }

  /** The length limit of a `Sequelize.STRING` column, which PostgreSQL creates
      as VARCHAR(255); a longer value is refused. */
  const VarcharLength: nat := 255

  predicate FitsVarchar(x: string) { |x| <= VarcharLength }

  predicate FitsNullable(x: Option<string>) { x.None? || FitsVarchar(x.value) }

  /** The VARCHAR columns: a rehearsal's title and recurrence pattern, a membership's instruments. */
  predicate Sized(s: Store) {
    && (forall r | r in s.rehearsals :: FitsVarchar(r.title) && FitsNullable(r.recurrencePattern))
    && (forall m | m in s.members :: FitsNullable(m.instruments))
  }

  /** Rows appended to the tables with VARCHAR columns keep the limits when they fit. */
  lemma SizedAppend(s: Store, s': Store, rs: seq<Rehearsal>, ms: seq<Membership>)
    requires Sized(s) && s'.rehearsals == s.rehearsals + rs && s'.members == s.members + ms
    requires forall r | r in rs :: FitsVarchar(r.title) && FitsNullable(r.recurrencePattern)
    requires forall m | m in ms :: FitsNullable(m.instruments)
    ensures Sized(s')
  {
  }

  /** Every constraint the migrations declare holds. */
  predicate Valid(s: Store) {
    Keyed(s) && MembersLinked(s) && VenuesLinked(s) && RehearsalsLinked(s) && AttendanceLinked(s) && Sized(s)
  }

  /** The two composite UNIQUE constraints, read as counts: a (band, user) pair
      has at most one membership row and a (rehearsal, user) pair at most one
      attendance row. */
  lemma OneRowPerPair(s: Store, groupId: Id, userId: Id)
    requires Keyed(s)
    ensures |Filter(s.members, MemberIs(groupId, userId))| <= 1
    ensures |Filter(s.attendance, AttendanceIs(groupId, userId))| <= 1
  {
    FilterUnique(s.members, MemberIs(groupId, userId), MemberKey);
    SameKeyAtMostOne(Filter(s.members, MemberIs(groupId, userId)), MemberKey, (groupId, userId));
    FilterUnique(s.attendance, AttendanceIs(groupId, userId), AttendanceKey);
    SameKeyAtMostOne(Filter(s.attendance, AttendanceIs(groupId, userId)), AttendanceKey, (groupId, userId));
  }

  // ---- lookups ----

  function MemberIs(bandId: Id, userId: Id): Membership -> bool {
    (m: Membership) => m.bandId == bandId && m.userId == userId
  }

  function InBand(bandId: Id): Membership -> bool {
    (m: Membership) => m.bandId == bandId
  }

  function RehearsalIs(id: Id): Rehearsal -> bool {
    (r: Rehearsal) => r.id == id
  }

  function BandIs(id: Id): Band -> bool {
    (b: Band) => b.id == id
  }

  function VenueIs(id: Id): Venue -> bool {
    (v: Venue) => v.id == id
  }

  function EmailIs(email: string): User -> bool {
    (u: User) => u.email == email
  }

  function OfRehearsal(id: Id): Attendance -> bool {
    (a: Attendance) => a.rehearsalId == id
  }

  function AttendanceIs(rehearsalId: Id, userId: Id): Attendance -> bool {
    (a: Attendance) => a.rehearsalId == rehearsalId && a.userId == userId
  }

  /** `BandMember.findOne({ where: { bandId, userId } })`. */
  function FindMember(s: Store, bandId: Id, userId: Id): (r: Option<Membership>)
    ensures r.Some? ==> r.value in s.members && r.value.bandId == bandId && r.value.userId == userId
    ensures r.None? <==> forall m | m in s.members :: MemberKey(m) != (bandId, userId)
  {
    match IndexOf(s.members, MemberIs(bandId, userId))
    case None => None
    case Some(i) => Some(s.members[i])
  }

  /** The caller's role in a band, `None` for a non-member. */
  function RoleOf(s: Store, bandId: Id, userId: Id): Option<Role> {
    match FindMember(s, bandId, userId)
    case None => None
    case Some(m) => Some(m.role)
  }

  predicate IsMember(s: Store, bandId: Id, userId: Id) {
    RoleOf(s, bandId, userId).Some?
  }

  predicate IsAdmin(s: Store, bandId: Id, userId: Id) {
    RoleOf(s, bandId, userId) == Some(Admin)
  }

  /** `Rehearsal.findByPk(id)`. */
  function FindRehearsal(s: Store, id: Id): (r: Option<Rehearsal>)
    ensures r.Some? ==> r.value in s.rehearsals && r.value.id == id
    ensures r.None? <==> !HasRehearsal(s, id)
  {
    match IndexOf(s.rehearsals, RehearsalIs(id))
    case None => None
    case Some(i) => Some(s.rehearsals[i])
  }

  /** `Band.findByPk(id)`. */
  function FindBand(s: Store, id: Id): (r: Option<Band>)
    ensures r.Some? ==> r.value in s.bands && r.value.id == id
    ensures r.None? <==> !HasBand(s, id)
  {
    match IndexOf(s.bands, BandIs(id))
    case None => None
    case Some(i) => Some(s.bands[i])
  }

  /** The `venue` include of a rehearsal. */
  function FindVenue(s: Store, id: Option<Id>): (r: Option<Venue>)
    ensures r.Some? ==> r.value in s.venues && id == Some(r.value.id)
    ensures r.None? <==> id.None? || !HasVenue(s, id.value)
  {
    if id.None? then None
    else match IndexOf(s.venues, VenueIs(id.value))
      case None => None
      case Some(i) => Some(s.venues[i])
  }

  /** `User.findOne({ where: { email } })`. */
  function FindUserByEmail(s: Store, email: string): (r: Option<User>)
    ensures r.Some? ==> r.value in s.users && r.value.email == email
    ensures r.None? <==> forall u | u in s.users :: u.email != email
  {
    match IndexOf(s.users, EmailIs(email))
    case None => None
    case Some(i) => Some(s.users[i])
  }

  /** `Attendance.findOne({ where: { rehearsalId, userId } })`, as a position. */
  function FindAttendance(s: Store, rehearsalId: Id, userId: Id): (r: Option<nat>)
    ensures r.Some? ==> r.value < |s.attendance| && AttendanceKey(s.attendance[r.value]) == (rehearsalId, userId)
    ensures r.None? <==> forall a | a in s.attendance :: AttendanceKey(a) != (rehearsalId, userId)
  {
    IndexOf(s.attendance, AttendanceIs(rehearsalId, userId))
  }

  /** `Attendance.findAll({ where: { rehearsalId } })`, in table order. */
  function Roster(s: Store, rehearsalId: Id): seq<Attendance> {
    Filter(s.attendance, OfRehearsal(rehearsalId))
  }

  /** `BandMember.findAll({ where: { bandId } })`, in table order. */
  function MembersOf(s: Store, bandId: Id): seq<Membership> {
    Filter(s.members, InBand(bandId))
  }

  /** With the unique constraint in force, the row a lookup finds is the only row
      for that pair, and so every row for the pair carries the role it reports. */
  lemma RoleOfUnique(s: Store, bandId: Id, userId: Id, m: Membership)
    requires Keyed(s) && m in s.members && MemberKey(m) == (bandId, userId)
    ensures RoleOf(s, bandId, userId) == Some(m.role)
  {
    var found := FindMember(s, bandId, userId).value;
    var i :| 0 <= i < |s.members| && s.members[i] == m;
    var k :| 0 <= k < |s.members| && s.members[k] == found;
    assert MemberKey(s.members[i]) == MemberKey(s.members[k]);
  }

  // ---- ON DELETE rules ----

  function Not<T>(p: T -> bool): T -> bool {
    (x: T) => !p(x)
  }

  function NotForRehearsals(ids: set<Id>): Attendance -> bool {
    (a: Attendance) => a.rehearsalId !in ids
  }

  /** Deletes the rehearsals `doomed` accepts; ON DELETE CASCADE on
      `Attendances.rehearsalId` takes their attendance rows with them. */
  function DeleteRehearsalsWhere(s: Store, doomed: Rehearsal -> bool): Store {
    var gone := set r | r in s.rehearsals && doomed(r) :: r.id;
    s.(rehearsals := Filter(s.rehearsals, Not(doomed)),
       attendance := Filter(s.attendance, NotForRehearsals(gone)))
  }

  lemma DeleteRehearsalsWhereValid(s: Store, doomed: Rehearsal -> bool)
    requires Valid(s)
    ensures var s' := DeleteRehearsalsWhere(s, doomed);
      && Valid(s')
      && (forall r | r in s'.rehearsals :: r in s.rehearsals && !doomed(r))
      && (forall r | r in s.rehearsals && !doomed(r) :: r in s'.rehearsals)
      && (forall a | a in s'.attendance :: a in s.attendance)
      && (forall a | a in s.attendance :: a in s'.attendance <==> HasRehearsal(s', a.rehearsalId))
      && s'.users == s.users && s'.bands == s.bands && s'.members == s.members && s'.venues == s.venues
  {
    var s' := DeleteRehearsalsWhere(s, doomed);
    var gone := set r | r in s.rehearsals && doomed(r) :: r.id;
    FilterUnique(s.rehearsals, Not(doomed), RehearsalKey);
    FilterUnique(s.attendance, NotForRehearsals(gone), AttendanceKey);
    forall a | a in s.attendance
      ensures a in s'.attendance <==> HasRehearsal(s', a.rehearsalId)
    {
      var r :| r in s.rehearsals && r.id == a.rehearsalId;
      if a.rehearsalId in gone {
        var g :| g in s.rehearsals && doomed(g) && g.id == a.rehearsalId;
        forall r' | r' in s'.rehearsals ensures r'.id != a.rehearsalId {
          DistinctRowsDistinctKeys(s.rehearsals, RehearsalKey, r', g);
        }
      } else {
        assert !doomed(r);
        assert r in s'.rehearsals;
      }
    }
    assert AttendanceLinked(s');
  }

  /** Under a unique key, two different rows have different keys. */
  lemma DistinctRowsDistinctKeys<T, K>(xs: seq<T>, key: T -> K, x: T, y: T)
    requires UniqueBy(xs, key) && x in xs && y in xs && x != y
    ensures key(x) != key(y)
  {
    var i :| 0 <= i < |xs| && xs[i] == x;
    var j :| 0 <= j < |xs| && xs[j] == y;
  }

  /** ON DELETE SET NULL on `Rehearsals.venueId`. */
  function ClearVenue(r: Rehearsal, gone: set<Id>): Rehearsal {
    if r.venueId.Some? && r.venueId.value in gone then r.(venueId := None) else r
  }

  function NotInVenues(gone: set<Id>): Venue -> bool {
    (v: Venue) => v.id !in gone
  }

  /** Deletes the venues `doomed` accepts; rehearsals that pointed at them stay,
      with their venue cleared. */
  function DeleteVenuesWhere(s: Store, doomed: Venue -> bool): Store {
    var gone := set v | v in s.venues && doomed(v) :: v.id;
    s.(venues := Filter(s.venues, NotInVenues(gone)),
       rehearsals := seq(|s.rehearsals|, i requires 0 <= i < |s.rehearsals| => ClearVenue(s.rehearsals[i], gone)))
  }

  lemma DeleteVenuesWhereValid(s: Store, doomed: Venue -> bool)
    requires Valid(s)
    ensures var s' := DeleteVenuesWhere(s, doomed);
      && Valid(s')
      && (forall v | v in s'.venues :: v in s.venues && !doomed(v))
      && (forall v | v in s.venues && !doomed(v) :: v in s'.venues)
      && |s'.rehearsals| == |s.rehearsals|
      && (forall i | 0 <= i < |s.rehearsals| ::
            var r := s.rehearsals[i];
            s'.rehearsals[i] == if r.venueId.Some? && !HasVenue(s', r.venueId.value) then r.(venueId := None) else r)
      && s'.users == s.users && s'.bands == s.bands && s'.members == s.members && s'.attendance == s.attendance
  {
    var s' := DeleteVenuesWhere(s, doomed);
    var gone := set v | v in s.venues && doomed(v) :: v.id;
    FilterUnique(s.venues, NotInVenues(gone), VenueKey);
    forall v | v in s.venues && !doomed(v) ensures v in s'.venues {
      forall g | g in s.venues && doomed(g) ensures g.id != v.id {
        DistinctRowsDistinctKeys(s.venues, VenueKey, v, g);
      }
    }
    forall id | HasVenue(s, id) && id !in gone ensures HasVenue(s', id) {
      var v :| v in s.venues && v.id == id;
      assert v in s'.venues;
    }
    assert UniqueBy(s'.rehearsals, RehearsalKey) by {
      forall i, j | 0 <= i < |s'.rehearsals| && 0 <= j < |s'.rehearsals| && i != j
        ensures RehearsalKey(s'.rehearsals[i]) != RehearsalKey(s'.rehearsals[j])
      {
        assert RehearsalKey(s.rehearsals[i]) != RehearsalKey(s.rehearsals[j]);
      }
    }
    assert AttendanceLinked(s') by {
      forall a | a in s'.attendance ensures HasRehearsal(s', a.rehearsalId) {
        var r :| r in s.rehearsals && r.id == a.rehearsalId;
        var i :| 0 <= i < |s.rehearsals| && s.rehearsals[i] == r;
        assert s'.rehearsals[i] in s'.rehearsals;
        assert RehearsalKey(s'.rehearsals[i]) == a.rehearsalId;
      }
    }
    assert RehearsalsLinked(s') by {
      forall r' | r' in s'.rehearsals
        ensures HasBand(s', r'.bandId) && HasUser(s', r'.createdBy) && (r'.venueId.Some? ==> HasVenue(s', r'.venueId.value))
      {
        var i :| 0 <= i < |s'.rehearsals| && s'.rehearsals[i] == r';
        assert s.rehearsals[i] in s.rehearsals;
      }
    }
  }

  // ---- deletions the schema defines ----

  function UserIs(id: Id): User -> bool {
    (u: User) => u.id == id
  }

  function CreatedBy(userId: Id): Rehearsal -> bool {
    (r: Rehearsal) => r.createdBy == userId
  }

  function OfUser(userId: Id): Membership -> bool {
    (m: Membership) => m.userId == userId
  }

  function ByUser(userId: Id): Attendance -> bool {
    (a: Attendance) => a.userId == userId
  }

  function RehearsalInBand(bandId: Id): Rehearsal -> bool {
    (r: Rehearsal) => r.bandId == bandId
  }

  function VenueInBand(bandId: Id): Venue -> bool {
    (v: Venue) => v.bandId == bandId
  }

  /** Removing a Venues row: its rehearsals stay, with `venueId` set to null. */
  function DeleteVenue(s: Store, venueId: Id): Store {
    DeleteVenuesWhere(s, VenueIs(venueId))
  }

  lemma DeleteVenueSetsNull(s: Store, venueId: Id)
    requires Valid(s)
    ensures var s' := DeleteVenue(s, venueId);
      && Valid(s')
      && !HasVenue(s', venueId)
      && (forall v | v in s.venues && v.id != venueId :: v in s'.venues)
      && (forall v | v in s'.venues :: v in s.venues && v.id != venueId)
      && |s'.rehearsals| == |s.rehearsals|
      && (forall i | 0 <= i < |s.rehearsals| ::
            s'.rehearsals[i] == if s.rehearsals[i].venueId == Some(venueId)
                                then s.rehearsals[i].(venueId := None)
                                else s.rehearsals[i])
      && s'.attendance == s.attendance && s'.members == s.members && s'.bands == s.bands && s'.users == s.users
  {
    var s' := DeleteVenue(s, venueId);
    DeleteVenuesWhereValid(s, VenueIs(venueId));
    forall i | 0 <= i < |s.rehearsals| && s.rehearsals[i].venueId.Some? && s.rehearsals[i].venueId != Some(venueId)
      ensures HasVenue(s', s.rehearsals[i].venueId.value)
    {
      var id := s.rehearsals[i].venueId.value;
      assert s.rehearsals[i] in s.rehearsals;
      var v :| v in s.venues && v.id == id;
      assert v in s'.venues;
    }
  }

  /** Removing a Users row: ON DELETE CASCADE on `BandMembers.userId`,
      `Attendances.userId` and `Rehearsals.createdBy` (and from those
      rehearsals on to their attendance rows). The Bands table is not part of
      this model, so bands the user created are kept. */
  function DeleteUser(s: Store, userId: Id): Store {
    var s1 := DeleteRehearsalsWhere(s, CreatedBy(userId));
    s1.(users := Filter(s1.users, Not(UserIs(userId))),
        members := Filter(s1.members, Not(OfUser(userId))),
        attendance := Filter(s1.attendance, Not(ByUser(userId))))
  }

  lemma DeleteUserCascades(s: Store, userId: Id)
    requires Valid(s)
    ensures var s' := DeleteUser(s, userId);
      && Valid(s')
      && !HasUser(s', userId)
      && (forall u | u in s'.users :: u in s.users && u.id != userId)
      && (forall u | u in s.users && u.id != userId :: u in s'.users)
      && (forall m | m in s'.members :: m in s.members && m.userId != userId)
      && (forall m | m in s.members && m.userId != userId :: m in s'.members)
      && (forall r | r in s'.rehearsals :: r in s.rehearsals && r.createdBy != userId)
      && (forall r | r in s.rehearsals && r.createdBy != userId :: r in s'.rehearsals)
      && (forall a | a in s'.attendance :: a in s.attendance && a.userId != userId)
      && (forall a | a in s.attendance :: a in s'.attendance <==> a.userId != userId && HasRehearsal(s', a.rehearsalId))
      && s'.bands == s.bands && s'.venues == s.venues
  {
    var s1 := DeleteRehearsalsWhere(s, CreatedBy(userId));
    DeleteRehearsalsWhereValid(s, CreatedBy(userId));
    var s' := DeleteUser(s, userId);
    FilterUnique(s1.users, Not(UserIs(userId)), UserKey);
    FilterUnique(s1.users, Not(UserIs(userId)), EmailKey);
    FilterUnique(s1.members, Not(OfUser(userId)), MemberKey);
    FilterUnique(s1.attendance, Not(ByUser(userId)), AttendanceKey);
    forall id | HasUser(s1, id) && id != userId ensures HasUser(s', id) {
      var u :| u in s1.users && u.id == id;
      assert u in s'.users;
    }
    assert MembersLinked(s');
    assert RehearsalsLinked(s');
    assert AttendanceLinked(s');
  }

  /** The ids of the band's venues, whose references SET NULL clears. */
  function BandVenues(s: Store, bandId: Id): set<Id> {
    set v | v in s.venues && VenueInBand(bandId)(v) :: v.id
  }

  /** `band.destroy()`: ON DELETE CASCADE on `BandMembers.bandId`,
      `Venues.bandId` and `Rehearsals.bandId`, then on to the attendance of
      those rehearsals, and SET NULL on any other band's rehearsal that used one
      of the band's venues. */
  function DeleteBandCascade(s: Store, bandId: Id): Store {
    var s1 := DeleteRehearsalsWhere(s, RehearsalInBand(bandId));
    var s2 := DeleteVenuesWhere(s1, VenueInBand(bandId));
    s2.(bands := Filter(s2.bands, Not(BandIs(bandId))),
        members := Filter(s2.members, Not(InBand(bandId))))
  }

  lemma DeleteBandCascadeValid(s: Store, bandId: Id)
    requires Valid(s)
    ensures var s' := DeleteBandCascade(s, bandId);
      && Valid(s')
      && !HasBand(s', bandId)
      && (forall b | b in s.bands && b.id != bandId :: b in s'.bands)
      && (forall b | b in s'.bands :: b in s.bands && b.id != bandId)
      && (forall m | m in s'.members :: m in s.members && m.bandId != bandId)
      && (forall m | m in s.members && m.bandId != bandId :: m in s'.members)
      && (forall v | v in s'.venues :: v in s.venues && v.bandId != bandId)
      && (forall v | v in s.venues && v.bandId != bandId :: v in s'.venues)
      && (forall r | r in s'.rehearsals :: r.bandId != bandId)
      && (forall r | r in s.rehearsals && r.bandId != bandId :: ClearVenue(r, BandVenues(s, bandId)) in s'.rehearsals)
      && (forall r' | r' in s'.rehearsals ::
            exists r | r in s.rehearsals :: r.bandId != bandId && r' == ClearVenue(r, BandVenues(s, bandId)))
      && (forall a | a in s'.attendance :: a in s.attendance)
      && (forall a, r | a in s.attendance && r in s.rehearsals && r.id == a.rehearsalId ::
            a in s'.attendance <==> r.bandId != bandId)
      && s'.users == s.users
  {
    var s1 := DeleteRehearsalsWhere(s, RehearsalInBand(bandId));
    DeleteRehearsalsWhereValid(s, RehearsalInBand(bandId));
    var s2 := DeleteVenuesWhere(s1, VenueInBand(bandId));
    DeleteVenuesWhereValid(s1, VenueInBand(bandId));
    var s' := DeleteBandCascade(s, bandId);
    FilterUnique(s2.bands, Not(BandIs(bandId)), BandKey);
    FilterUnique(s2.members, Not(InBand(bandId)), MemberKey);
    forall id | HasBand(s2, id) && id != bandId ensures HasBand(s', id) {
      var b :| b in s2.bands && b.id == id;
      assert b in s'.bands;
    }
    forall r | r in s2.rehearsals ensures r.bandId != bandId {
      var i :| 0 <= i < |s2.rehearsals| && s2.rehearsals[i] == r;
      assert s1.rehearsals[i] in s1.rehearsals;
    }
    assert MembersLinked(s');
    assert VenuesLinked(s');
    assert RehearsalsLinked(s');
    DeleteBandSurvivors(s, bandId);
  }

  /** What the band's deletion keeps: every other band's rehearsal, its venue
      cleared when that was one of the band's venues, and exactly the attendance
      rows of those rehearsals. */
  lemma DeleteBandSurvivors(s: Store, bandId: Id)
    requires Valid(s)
    ensures var s' := DeleteBandCascade(s, bandId);
      && (forall r | r in s.rehearsals && r.bandId != bandId :: ClearVenue(r, BandVenues(s, bandId)) in s'.rehearsals)
      && (forall r' | r' in s'.rehearsals ::
            exists r | r in s.rehearsals :: r.bandId != bandId && r' == ClearVenue(r, BandVenues(s, bandId)))
      && (forall a, r | a in s.attendance && r in s.rehearsals && r.id == a.rehearsalId ::
            a in s'.attendance <==> r.bandId != bandId)
  {
    var s1 := DeleteRehearsalsWhere(s, RehearsalInBand(bandId));
    DeleteRehearsalsWhereValid(s, RehearsalInBand(bandId));
    var gone := BandVenues(s, bandId);
    assert s1.venues == s.venues;
    assert BandVenues(s1, bandId) == gone;
    var s' := DeleteBandCascade(s, bandId);
    assert |s'.rehearsals| == |s1.rehearsals|;
    assert forall i | 0 <= i < |s1.rehearsals| :: s'.rehearsals[i] == ClearVenue(s1.rehearsals[i], gone);
    assert s'.attendance == s1.attendance;
    ClearedSurvivors(s.rehearsals, s1.rehearsals, s'.rehearsals, bandId, gone);
    forall a, r | a in s.attendance && r in s.rehearsals && r.id == a.rehearsalId
      ensures a in s'.attendance <==> r.bandId != bandId
    {
      RosterSurvives(s, s1, r, bandId);
    }
  }

  /** A table filtered to the rehearsals of other bands, then cleared of the
      venues in `gone`, holds exactly the cleared rehearsals of other bands. */
  lemma ClearedSurvivors(rs: seq<Rehearsal>, kept: seq<Rehearsal>, cleared: seq<Rehearsal>, bandId: Id, gone: set<Id>)
    requires kept == Filter(rs, Not(RehearsalInBand(bandId)))
    requires |cleared| == |kept| && forall i | 0 <= i < |kept| :: cleared[i] == ClearVenue(kept[i], gone)
    ensures forall r | r in rs && r.bandId != bandId :: ClearVenue(r, gone) in cleared
    ensures forall r' | r' in cleared :: exists r | r in rs :: r.bandId != bandId && r' == ClearVenue(r, gone)
  {
    forall r | r in rs && r.bandId != bandId ensures ClearVenue(r, gone) in cleared {
      assert Not(RehearsalInBand(bandId))(r);
      assert r in kept;
      var i :| 0 <= i < |kept| && kept[i] == r;
      assert cleared[i] == ClearVenue(r, gone);
    }
    forall r' | r' in cleared ensures exists r | r in rs :: r.bandId != bandId && r' == ClearVenue(r, gone) {
      var i :| 0 <= i < |cleared| && cleared[i] == r';
      assert kept[i] in kept;
    }
  }

  /** A rehearsal's attendance survives the band's deletion exactly when the
      rehearsal belongs to another band. */
  lemma RosterSurvives(s: Store, s1: Store, r: Rehearsal, bandId: Id)
    requires Keyed(s) && r in s.rehearsals
    requires s1.rehearsals == Filter(s.rehearsals, Not(RehearsalInBand(bandId)))
    ensures HasRehearsal(s1, r.id) <==> r.bandId != bandId
  {
    if r.bandId != bandId {
      assert Not(RehearsalInBand(bandId))(r);
      assert r in s1.rehearsals;
    } else {
      forall x | x in s1.rehearsals ensures x.id != r.id {
        DistinctRowsDistinctKeys(s.rehearsals, RehearsalKey, x, r);
      }
    }
  }
}
