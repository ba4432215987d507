/** The rehearsal controller: listing and reading rehearsals (any band member),
    creating, updating and deleting them (band admins only), and the attendance
    upsert (any band member, for their own row). */
module Rehearsals {
  import opened Domain
  import opened Seqs
  import opened Schema

  /** A rehearsal with its `venue` and `attendance` includes. */
  datatype RehearsalView = RehearsalView(rehearsal: Rehearsal, venue: Option<Venue>, attendance: seq<Attendance>)

  function Hydrate(s: Store, r: Rehearsal): RehearsalView {
    RehearsalView(r, FindVenue(s, r.venueId), Roster(s, r.id))
  }

  function StartTime(r: Rehearsal): int { r.startTime }

  function Rows(vs: seq<RehearsalView>): seq<Rehearsal> {
    seq(|vs|, i requires 0 <= i < |vs| => vs[i].rehearsal)
  }

  function HydrateAll(s: Store, rs: seq<Rehearsal>): (vs: seq<RehearsalView>)
    ensures |vs| == |rs| && Rows(vs) == rs
    ensures forall i | 0 <= i < |rs| :: vs[i] == Hydrate(s, rs[i])
  {
    var vs := seq(|rs|, i requires 0 <= i < |rs| => Hydrate(s, rs[i]));
    assert Rows(vs) == rs;
    vs
  }

  /** Sorting only reorders: every row of the result was a row of the input. */
  lemma SortedFrom<T>(xs: seq<T>, key: T -> int)
    ensures forall i | 0 <= i < |SortBy(xs, key)| :: SortBy(xs, key)[i] in xs
  {
    var ys := SortBy(xs, key);
    forall i | 0 <= i < |ys| ensures ys[i] in xs {
      assert ys[i] in multiset(ys);
    }
  }

  /** `getBandRehearsals`: members only; every rehearsal of the band, earliest start first. */
  function GetBandRehearsals(s: Store, actor: Id, bandId: Id): (r: Outcome<seq<RehearsalView>>)
    ensures r.Ok? || r.Forbidden?
    ensures r.Forbidden? <==> !IsMember(s, bandId, actor)
    ensures r.Ok? ==> multiset(Rows(r.value)) == multiset(Filter(s.rehearsals, RehearsalInBand(bandId)))
    ensures r.Ok? ==> forall i, j | 0 <= i < j < |r.value| ::
      r.value[i].rehearsal.startTime <= r.value[j].rehearsal.startTime
    ensures r.Ok? ==> forall i | 0 <= i < |r.value| ::
      && r.value[i].rehearsal.bandId == bandId
      && r.value[i].rehearsal in s.rehearsals
      && r.value[i].attendance == Roster(s, r.value[i].rehearsal.id)
      && r.value[i].venue == FindVenue(s, r.value[i].rehearsal.venueId)
  {
    if !IsMember(s, bandId, actor) then Forbidden
    else Ok(HydrateAll(s, Schedule(s, bandId)))
  }

  /** `Rehearsal.findAll({ where: { bandId }, order: [['startTime', 'ASC']] })`. */
  function Schedule(s: Store, bandId: Id): (rs: seq<Rehearsal>)
    ensures multiset(rs) == multiset(Filter(s.rehearsals, RehearsalInBand(bandId)))
    ensures forall i, j | 0 <= i < j < |rs| :: rs[i].startTime <= rs[j].startTime
    ensures forall i | 0 <= i < |rs| :: rs[i].bandId == bandId && rs[i] in s.rehearsals
  {
    var mine := Filter(s.rehearsals, RehearsalInBand(bandId));
    var sorted := SortBy(mine, StartTime);
    SortedFrom(mine, StartTime);
    assert forall i, j | 0 <= i < j < |sorted| :: StartTime(sorted[i]) <= StartTime(sorted[j]);
    sorted
  }

  /** `getRehearsalById`: existence is checked before membership, so a missing id
      answers 404 whoever asks. */
  function GetRehearsalById(s: Store, actor: Id, id: Id): (r: Outcome<RehearsalView>)
    ensures r.Ok? || r.NotFound? || r.Forbidden?
    ensures r.NotFound? <==> !HasRehearsal(s, id)
    ensures r.Forbidden? <==> HasRehearsal(s, id) && !IsMember(s, FindRehearsal(s, id).value.bandId, actor)
    ensures r.Ok? ==>
      && r.value.rehearsal in s.rehearsals
      && r.value.rehearsal.id == id
      && IsMember(s, r.value.rehearsal.bandId, actor)
      && r.value.attendance == Roster(s, id)
      && r.value.venue == FindVenue(s, r.value.rehearsal.venueId)
  {
    match FindRehearsal(s, id)
    case None => NotFound
    case Some(reh) =>
      if !IsMember(s, reh.bandId, actor) then Forbidden else Ok(Hydrate(s, reh))
  }

  /** A rehearsal in a valid store is what `getRehearsalById` serves a member of its band. */
  lemma ReadStored(s: Store, actor: Id, n: Rehearsal)
    requires Valid(s) && n in s.rehearsals && IsMember(s, n.bandId, actor)
    ensures GetRehearsalById(s, actor, n.id) == Ok(Hydrate(s, n))
  {
    var x := FindRehearsal(s, n.id).value;
    SameKeySameRow(s.rehearsals, RehearsalKey, x, n);
  }

  /** The body of a `createRehearsal` request. */
  datatype RehearsalInput = RehearsalInput(
    bandId: Id,
    venueId: Field<Id>,
    title: Field<string>,
    description: Field<string>,
    startTime: Field<Time>,
    endTime: Field<Time>,
    isRecurring: Field<bool>,
    recurrencePattern: Field<string>)

  /** `Rehearsal.create(...)`: the row it inserts, or `None` when the insert is
      refused (NOT NULL on title and times, the VARCHAR(255) title and
      recurrence pattern, the venue foreign key, a clash of the generated
      primary key). An absent `isRecurring` takes the column default. */
  function BuildRehearsal(s: Store, actor: Id, id: Id, input: RehearsalInput): Option<Rehearsal> {
    if HasRehearsal(s, id) || !input.title.Given? || !input.startTime.Given? || !input.endTime.Given? then None
    else if !FitsVarchar(input.title.value) || !FitsNullable(Nullable(input.recurrencePattern)) then None
    else if input.venueId.Given? && !HasVenue(s, input.venueId.value) then None
    else Some(Rehearsal(
      id, input.bandId, Nullable(input.venueId), input.title.value, Nullable(input.description),
      input.startTime.value, input.endTime.value, IfDefined(input.isRecurring, Some(false)),
      Nullable(input.recurrencePattern), actor))
  }

  /** One `maybe` attendance row per membership row, in the order `findAll` lists them. */
  function FanOut(rehearsalId: Id, members: seq<Membership>): (r: seq<Attendance>)
    ensures |r| == |members|
  {
    seq(|members|, i requires 0 <= i < |members| => Attendance(rehearsalId, members[i].userId, Maybe, None))
  }

  /** `createRehearsal`: admins only; the new rehearsal gets one `maybe` row for
      every member the band has at that moment. Modelled as one atomic step. */
  function CreateRehearsal(s: Store, actor: Id, newId: Id, input: RehearsalInput): (r: Step<RehearsalView>)
    requires Valid(s) && HasUser(s, actor)
    ensures Valid(r.store)
    ensures r.out.Ok? || r.out.Forbidden? || r.out.ServerError?
    ensures r.out.Forbidden? <==> !IsAdmin(s, input.bandId, actor)
    ensures r.out.ServerError? <==>
      && IsAdmin(s, input.bandId, actor)
      && (|| HasRehearsal(s, newId)
          || !input.title.Given? || !input.startTime.Given? || !input.endTime.Given?
          || !FitsVarchar(input.title.value)
          || (input.recurrencePattern.Given? && !FitsVarchar(input.recurrencePattern.value))
          || (input.venueId.Given? && !HasVenue(s, input.venueId.value)))
    ensures !r.out.Ok? ==> r.store == s
    ensures r.out.Ok? ==>
      var n := r.out.value.rehearsal;
      && r.store.rehearsals == s.rehearsals + [n]
      && n.id == newId && n.bandId == input.bandId && n.createdBy == actor
      && n.title == input.title.value
      && n.startTime == input.startTime.value && n.endTime == input.endTime.value
      && (input.venueId.Given? ==> n.venueId == Some(input.venueId.value))
      && (!input.venueId.Given? ==> n.venueId.None?)
      && (input.isRecurring.Undefined? ==> n.isRecurring == Some(false))
      && (input.isRecurring.Null? ==> n.isRecurring.None?)
      && (input.isRecurring.Given? ==> n.isRecurring == Some(input.isRecurring.value))
      && (input.description.Given? ==> n.description == Some(input.description.value))
      && (!input.description.Given? ==> n.description.None?)
      && (input.recurrencePattern.Given? ==> n.recurrencePattern == Some(input.recurrencePattern.value))
      && (!input.recurrencePattern.Given? ==> n.recurrencePattern.None?)
    ensures r.out.Ok? ==>
      && |r.store.attendance| >= |s.attendance|
      && r.store.attendance[..|s.attendance|] == s.attendance
      && r.store.attendance == s.attendance + Roster(r.store, newId)
      && |Roster(r.store, newId)| == |MembersOf(s, input.bandId)|
      && (forall m | m in MembersOf(s, input.bandId) :: Attendance(newId, m.userId, Maybe, None) in Roster(r.store, newId))
      && (forall a | a in Roster(r.store, newId) ::
            IsMember(s, input.bandId, a.userId) && a.status == Maybe && a.comment.None?)
      && Attendance(newId, actor, Maybe, None) in Roster(r.store, newId)
      && r.out.value.attendance == Roster(r.store, newId)
      && r.out.value.venue == FindVenue(r.store, r.out.value.rehearsal.venueId)
    ensures r.out.Ok? ==>
      r.store.users == s.users && r.store.bands == s.bands && r.store.members == s.members && r.store.venues == s.venues
  {
    if !IsAdmin(s, input.bandId, actor) then Step(Forbidden, s)
    else match BuildRehearsal(s, actor, newId, input)
      case None => Step(ServerError, s)
      case Some(n) =>
        var fan := FanOut(newId, MembersOf(s, input.bandId));
        var s' := s.(rehearsals := s.rehearsals + [n], attendance := s.attendance + fan);
        CreateRehearsalValid(s, actor, n, input.bandId);
        FanOutRows(s, input.bandId, newId, actor);
        Step(Ok(Hydrate(s', n)), s')
  }

  /** No earlier row belongs to the new rehearsal, so its roster is exactly the fan-out. */
  lemma FanOutRoster(rows: seq<Attendance>, newId: Id, ms: seq<Membership>)
    requires forall a | a in rows :: a.rehearsalId != newId
    ensures Filter(rows + FanOut(newId, ms), OfRehearsal(newId)) == FanOut(newId, ms)
    ensures forall x, y | x in rows && y in FanOut(newId, ms) :: AttendanceKey(x) != AttendanceKey(y)
  {
    var fan := FanOut(newId, ms);
    forall i | 0 <= i < |rows| ensures !OfRehearsal(newId)(rows[i]) {
      assert rows[i] in rows;
    }
    FilterNone(rows, OfRehearsal(newId));
    FilterAll(fan, OfRehearsal(newId));
    FilterAppend(rows, fan, OfRehearsal(newId));
  }

  /** The memberships of one band have distinct users, so the fan-out has distinct keys. */
  lemma FanOutUnique(members: seq<Membership>, bandId: Id, newId: Id)
    requires UniqueBy(members, MemberKey)
    ensures UniqueBy(FanOut(newId, Filter(members, InBand(bandId))), AttendanceKey)
  {
    var ms := Filter(members, InBand(bandId));
    var fan := FanOut(newId, ms);
    FilterUnique(members, InBand(bandId), MemberKey);
    forall i, j | 0 <= i < |fan| && 0 <= j < |fan| && i != j
      ensures AttendanceKey(fan[i]) != AttendanceKey(fan[j])
    {
      assert ms[i] in ms && ms[j] in ms;
      assert MemberKey(ms[i]) != MemberKey(ms[j]);
    }
  }

  /** What the fan-out holds: a `maybe` row without comment for exactly the
      band's members, the creator among them. */
  lemma FanOutRows(s: Store, bandId: Id, newId: Id, actor: Id)
    requires IsMember(s, bandId, actor)
    ensures var fan := FanOut(newId, MembersOf(s, bandId));
      && (forall m | m in MembersOf(s, bandId) :: Attendance(newId, m.userId, Maybe, None) in fan)
      && (forall a | a in fan :: a.rehearsalId == newId && a.status == Maybe && a.comment.None?)
      && (forall a | a in fan :: IsMember(s, bandId, a.userId))
      && (forall a | a in fan :: exists m | m in s.members :: m.userId == a.userId)
      && Attendance(newId, actor, Maybe, None) in fan
  {
    var ms := MembersOf(s, bandId);
    var fan := FanOut(newId, ms);
    forall m | m in ms ensures Attendance(newId, m.userId, Maybe, None) in fan {
      var i :| 0 <= i < |ms| && ms[i] == m;
      assert fan[i] == Attendance(newId, m.userId, Maybe, None);
    }
    forall a | a in fan ensures IsMember(s, bandId, a.userId) && exists m | m in s.members :: m.userId == a.userId {
      var i :| 0 <= i < |fan| && fan[i] == a;
      assert ms[i] in ms;
      assert MemberKey(ms[i]) == (bandId, a.userId);
    }
    var me := FindMember(s, bandId, actor).value;
    assert me in ms;
  }

  lemma CreateRehearsalValid(s: Store, actor: Id, n: Rehearsal, bandId: Id)
    requires Valid(s) && HasUser(s, actor) && IsAdmin(s, bandId, actor)
    requires !HasRehearsal(s, n.id) && n.bandId == bandId && n.createdBy == actor
    requires n.venueId.Some? ==> HasVenue(s, n.venueId.value)
    requires FitsVarchar(n.title) && FitsNullable(n.recurrencePattern)
    ensures var fan := FanOut(n.id, MembersOf(s, bandId));
      var s' := s.(rehearsals := s.rehearsals + [n], attendance := s.attendance + fan);
      && Valid(s')
      && Roster(s', n.id) == fan
  {
    var ms := MembersOf(s, bandId);
    var fan := FanOut(n.id, ms);
    var s' := s.(rehearsals := s.rehearsals + [n], attendance := s.attendance + fan);
    assert forall a | a in s.attendance :: a.rehearsalId != n.id;
    FanOutRoster(s.attendance, n.id, ms);
    FanOutRows(s, bandId, n.id, actor);
    CreateRehearsalKeyed(s, n, bandId);
    SizedAppend(s, s', [n], []);
    CreateRehearsalLinked(s, n, fan);
  }

  lemma CreateRehearsalKeyed(s: Store, n: Rehearsal, bandId: Id)
    requires Keyed(s) && !HasRehearsal(s, n.id)
    requires forall a | a in s.attendance :: a.rehearsalId != n.id
    ensures Keyed(s.(rehearsals := s.rehearsals + [n], attendance := s.attendance + FanOut(n.id, MembersOf(s, bandId))))
  {
    var fan := FanOut(n.id, MembersOf(s, bandId));
    FanOutRoster(s.attendance, n.id, MembersOf(s, bandId));
    FanOutUnique(s.members, bandId, n.id);
    AppendUnique(s.rehearsals, [n], RehearsalKey);
    AppendUnique(s.attendance, fan, AttendanceKey);
  }

  lemma CreateRehearsalLinked(s: Store, n: Rehearsal, fan: seq<Attendance>)
    requires MembersLinked(s) && VenuesLinked(s) && RehearsalsLinked(s) && AttendanceLinked(s)
    requires HasBand(s, n.bandId) && HasUser(s, n.createdBy)
    requires n.venueId.Some? ==> HasVenue(s, n.venueId.value)
    requires forall a | a in fan :: a.rehearsalId == n.id
    requires forall a | a in fan :: exists m | m in s.members :: m.userId == a.userId
    ensures var s' := s.(rehearsals := s.rehearsals + [n], attendance := s.attendance + fan);
      MembersLinked(s') && VenuesLinked(s') && RehearsalsLinked(s') && AttendanceLinked(s')
  {
    var s' := s.(rehearsals := s.rehearsals + [n], attendance := s.attendance + fan);
    assert n in s'.rehearsals;
    forall a | a in s'.attendance ensures HasRehearsal(s', a.rehearsalId) && HasUser(s', a.userId) {
      if a in fan {
        var m :| m in s.members && m.userId == a.userId;
      } else {
        assert a in s.attendance;
        var x :| x in s.rehearsals && x.id == a.rehearsalId;
        assert x in s'.rehearsals;
      }
    }
  }

  /** The body of an `updateRehearsal` request. */
  datatype RehearsalPatch = RehearsalPatch(
    title: Field<string>,
    description: Field<string>,
    venueId: Field<Id>,
    startTime: Field<Time>,
    endTime: Field<Time>,
    isRecurring: Field<bool>,
    recurrencePattern: Field<string>)

  /** The update's patch rules in one place: title, venue and both times keep
      their value unless the request's value is truthy; description,
      isRecurring and recurrencePattern keep it only when the property is absent. */
  function ApplyPatch(r: Rehearsal, p: RehearsalPatch): Rehearsal {
    r.(title := Or(p.title, EmptyText, r.title),
       description := IfDefined(p.description, r.description),
       venueId := OrNullable(p.venueId, EmptyText, r.venueId),
       startTime := Or(p.startTime, ZeroTime, r.startTime),
       endTime := Or(p.endTime, ZeroTime, r.endTime),
       isRecurring := IfDefined(p.isRecurring, r.isRecurring),
       recurrencePattern := IfDefined(p.recurrencePattern, r.recurrencePattern))
  }

  /** `updateRehearsal`: 404 for an unknown id, then 403 unless an admin of the
      rehearsal's band; on save a new venue id must satisfy the foreign key and
      a new title or recurrence pattern must fit VARCHAR(255). */
  function UpdateRehearsal(s: Store, actor: Id, id: Id, patch: RehearsalPatch): (r: Step<RehearsalView>)
    requires Valid(s)
    ensures Valid(r.store)
    ensures r.out.Ok? || r.out.NotFound? || r.out.Forbidden? || r.out.ServerError?
    ensures r.out.NotFound? <==> !HasRehearsal(s, id)
    ensures r.out.Forbidden? <==> HasRehearsal(s, id) && !IsAdmin(s, FindRehearsal(s, id).value.bandId, actor)
    ensures r.out.ServerError? <==>
      && HasRehearsal(s, id) && IsAdmin(s, FindRehearsal(s, id).value.bandId, actor)
      && (|| (Truthy(patch.venueId, EmptyText) && !HasVenue(s, patch.venueId.value))
          || (Truthy(patch.title, EmptyText) && !FitsVarchar(patch.title.value))
          || (patch.recurrencePattern.Given? && !FitsVarchar(patch.recurrencePattern.value)))
    ensures !r.out.Ok? ==> r.store == s
    ensures r.out.Ok? ==>
      var prior := FindRehearsal(s, id).value;
      var n := r.out.value.rehearsal;
      && n.id == id && n.bandId == prior.bandId && n.createdBy == prior.createdBy
      && n.title == (if patch.title.Given? && patch.title.value != "" then patch.title.value else prior.title)
      && n.venueId == (if patch.venueId.Given? && patch.venueId.value != "" then Some(patch.venueId.value) else prior.venueId)
      && (prior.venueId.Some? ==> n.venueId.Some?)
      && n.startTime == (if patch.startTime.Given? && patch.startTime.value != 0 then patch.startTime.value else prior.startTime)
      && n.endTime == (if patch.endTime.Given? && patch.endTime.value != 0 then patch.endTime.value else prior.endTime)
      && (patch.description.Undefined? ==> n.description == prior.description)
      && (patch.description.Null? ==> n.description.None?)
      && (patch.description.Given? ==> n.description == Some(patch.description.value))
      && (patch.isRecurring.Undefined? ==> n.isRecurring == prior.isRecurring)
      && (patch.isRecurring.Null? ==> n.isRecurring.None?)
      && (patch.isRecurring.Given? ==> n.isRecurring == Some(patch.isRecurring.value))
      && (patch.recurrencePattern.Undefined? ==> n.recurrencePattern == prior.recurrencePattern)
      && (patch.recurrencePattern.Null? ==> n.recurrencePattern.None?)
      && (patch.recurrencePattern.Given? ==> n.recurrencePattern == Some(patch.recurrencePattern.value))
      && |r.store.rehearsals| == |s.rehearsals|
      && (forall k | 0 <= k < |s.rehearsals| ::
            r.store.rehearsals[k] == if s.rehearsals[k].id == id then n else s.rehearsals[k])
      && r.out.value.attendance == Roster(s, id)
      && r.out.value.venue == FindVenue(r.store, n.venueId)
      && r.store.(rehearsals := s.rehearsals) == s
  {
    match IndexOf(s.rehearsals, RehearsalIs(id))
    case None => Step(NotFound, s)
    case Some(i) =>
      var prior := s.rehearsals[i];
      if !IsAdmin(s, prior.bandId, actor) then Step(Forbidden, s)
      else
        var n := ApplyPatch(prior, patch);
        assert prior in s.rehearsals;
        PatchFits(prior, patch);
        if n.venueId.Some? && !HasVenue(s, n.venueId.value) then Step(ServerError, s)
        else if !FitsVarchar(n.title) || !FitsNullable(n.recurrencePattern) then Step(ServerError, s)
        else
          var s' := s.(rehearsals := s.rehearsals[i := n]);
          UpdateRehearsalValid(s, i, n);
          Step(Ok(Hydrate(s', n)), s')
  }

  /** A stored row that fits its VARCHAR columns still fits after the patch
      exactly when the patch brings no over-long title or recurrence pattern. */
  lemma PatchFits(prior: Rehearsal, p: RehearsalPatch)
    requires FitsVarchar(prior.title) && FitsNullable(prior.recurrencePattern)
    ensures var n := ApplyPatch(prior, p);
      FitsVarchar(n.title) && FitsNullable(n.recurrencePattern) <==>
        && !(Truthy(p.title, EmptyText) && !FitsVarchar(p.title.value))
        && !(p.recurrencePattern.Given? && !FitsVarchar(p.recurrencePattern.value))
  {
  }

  lemma UpdateRehearsalValid(s: Store, i: nat, n: Rehearsal)
    requires Valid(s) && i < |s.rehearsals|
    requires n.id == s.rehearsals[i].id && n.bandId == s.rehearsals[i].bandId && n.createdBy == s.rehearsals[i].createdBy
    requires n.venueId.Some? ==> HasVenue(s, n.venueId.value)
    requires FitsVarchar(n.title) && FitsNullable(n.recurrencePattern)
    ensures var s' := s.(rehearsals := s.rehearsals[i := n]);
      && Valid(s')
      && (forall k | 0 <= k < |s.rehearsals| :: s'.rehearsals[k] == if s.rehearsals[k].id == n.id then n else s.rehearsals[k])
      && Roster(s', n.id) == Roster(s, n.id)
  {
    var s' := s.(rehearsals := s.rehearsals[i := n]);
    UpdateUnique(s.rehearsals, i, n, RehearsalKey);
    assert s.rehearsals[i] in s.rehearsals;
    forall k | 0 <= k < |s.rehearsals| && k != i ensures s.rehearsals[k].id != n.id {
      assert RehearsalKey(s.rehearsals[k]) != RehearsalKey(s.rehearsals[i]);
    }
    forall id | HasRehearsal(s, id) ensures HasRehearsal(s', id) {
      var x :| x in s.rehearsals && x.id == id;
      var k :| 0 <= k < |s.rehearsals| && s.rehearsals[k] == x;
      assert s'.rehearsals[k] in s'.rehearsals;
      assert s'.rehearsals[k].id == id;
    }
    forall x | x in s'.rehearsals
      ensures HasBand(s', x.bandId) && HasUser(s', x.createdBy) && (x.venueId.Some? ==> HasVenue(s', x.venueId.value))
      ensures FitsVarchar(x.title) && FitsNullable(x.recurrencePattern)
    {
      var k :| 0 <= k < |s'.rehearsals| && s'.rehearsals[k] == x;
      assert s.rehearsals[k] in s.rehearsals;
    }
  }

  /** `deleteRehearsal`: 404, then 403 unless an admin of the rehearsal's band;
      on success the rehearsal and its attendance rows are gone. */
  function DeleteRehearsal(s: Store, actor: Id, id: Id): (r: Step<()>)
    requires Valid(s)
    ensures Valid(r.store)
    ensures r.out.Ok? || r.out.NotFound? || r.out.Forbidden?
    ensures r.out.NotFound? <==> !HasRehearsal(s, id)
    ensures r.out.Forbidden? <==> HasRehearsal(s, id) && !IsAdmin(s, FindRehearsal(s, id).value.bandId, actor)
    ensures !r.out.Ok? ==> r.store == s
    ensures r.out.Ok? ==>
      && !HasRehearsal(r.store, id)
      && Roster(r.store, id) == []
      && (forall x | x in s.rehearsals && x.id != id :: x in r.store.rehearsals)
      && (forall x | x in r.store.rehearsals :: x in s.rehearsals)
      && (forall a | a in s.attendance && a.rehearsalId != id :: a in r.store.attendance)
      && (forall a | a in r.store.attendance :: a in s.attendance)
      && r.store.users == s.users && r.store.bands == s.bands
      && r.store.members == s.members && r.store.venues == s.venues
  {
    match FindRehearsal(s, id)
    case None => Step(NotFound, s)
    case Some(reh) =>
      if !IsAdmin(s, reh.bandId, actor) then Step(Forbidden, s)
      else
        var s' := DeleteRehearsalsWhere(s, RehearsalIs(id));
        DeleteRehearsalsWhereValid(s, RehearsalIs(id));
        assert !HasRehearsal(s', id);
        FilterNone(s'.attendance, OfRehearsal(id));
        Step(Ok(()), s')
  }

  /** The reply of `updateAttendance`: the rehearsal id and its whole roster. */
  datatype AttendanceReply = AttendanceReply(rehearsalId: Id, attendance: seq<Attendance>)

  /** The status a save of an existing row accepts: NOT NULL and the ENUM. */
  function StatusOnSave(f: Field<string>): (r: Option<Status>)
    ensures r.Some? <==> f.Given? && f.value in {"attending", "maybe", "not_attending"}
    ensures r.Some? ==> StatusName(r.value) == f.value
  {
    if f.Given? then
      StatusRoundTrip(Maybe, f.value);
      ParseStatus(f.value)
    else None
  }

  /** The status an insert accepts: an absent property takes the default `maybe`. */
  function StatusOnCreate(f: Field<string>): (r: Option<Status>)
    ensures f.Undefined? ==> r == Some(Maybe)
    ensures f.Null? ==> r.None?
    ensures f.Given? ==> (r.Some? <==> f.value in {"attending", "maybe", "not_attending"})
    ensures f.Given? && r.Some? ==> StatusName(r.value) == f.value
  {
    if f.Undefined? then Some(Maybe) else StatusOnSave(f)
  }

  /** What a successful `updateAttendance` leaves behind: the key
      (`rehearsalId`, `userId`) has exactly one row, holding `st` and `c`; a row
      was added only when the key had none; every other row and table is as before. */
  predicate Upserted(s: Store, s': Store, rehearsalId: Id, userId: Id, st: Status, c: Option<string>) {
    var k := FindAttendance(s', rehearsalId, userId);
    && Valid(s')
    && k.Some?
    && s'.attendance[k.value].status == st
    && s'.attendance[k.value].comment == c
    && |s'.attendance| == |s.attendance| + (if FindAttendance(s, rehearsalId, userId).Some? then 0 else 1)
    && Filter(s'.attendance, Not(AttendanceIs(rehearsalId, userId)))
       == Filter(s.attendance, Not(AttendanceIs(rehearsalId, userId)))
    && s'.(attendance := s.attendance) == s
  }

  /** The caller's own row, once the rehearsal and the membership are known:
      `save` on the row found, `create` otherwise. */
  function Upsert(s: Store, actor: Id, rehearsalId: Id, status: Field<string>, comment: Field<string>): (r: Step<AttendanceReply>)
    requires Valid(s) && HasUser(s, actor) && HasRehearsal(s, rehearsalId)
    ensures r.out.Ok? || r.out.ServerError?
    ensures r.out.ServerError? <==>
      !(status.Given? && ParseStatus(status.value).Some?)
      && !(status.Undefined? && FindAttendance(s, rehearsalId, actor).None?)
    ensures r.out.ServerError? ==> r.store == s
    ensures r.out.Ok? ==>
      var prior := FindAttendance(s, rehearsalId, actor);
      && Upserted(s, r.store, rehearsalId, actor,
           if status.Given? then ParseStatus(status.value).value else Maybe,
           if prior.Some? && comment.Undefined? then s.attendance[prior.value].comment else Nullable(comment))
      && r.out.value == AttendanceReply(rehearsalId, Roster(r.store, rehearsalId))
  {
    match FindAttendance(s, rehearsalId, actor)
    case Some(i) =>
      (match StatusOnSave(status)
       case None => Step(ServerError, s)
       case Some(st) =>
         var row := s.attendance[i].(status := st, comment := IfDefined(comment, s.attendance[i].comment));
         var s' := s.(attendance := s.attendance[i := row]);
         UpsertExisting(s, i, row);
         Step(Ok(AttendanceReply(rehearsalId, Roster(s', rehearsalId))), s'))
    case None =>
      match StatusOnCreate(status)
      case None => Step(ServerError, s)
      case Some(st) =>
        var row := Attendance(rehearsalId, actor, st, Nullable(comment));
        var s' := s.(attendance := s.attendance + [row]);
        UpsertNew(s, row);
        Step(Ok(AttendanceReply(rehearsalId, Roster(s', rehearsalId))), s')
  }

  /** `updateAttendance`: 404, then 403 for a non-member; then the caller's own
      row is updated when it exists and inserted otherwise. */
  function UpdateAttendance(s: Store, actor: Id, rehearsalId: Id, status: Field<string>, comment: Field<string>): (r: Step<AttendanceReply>)
    requires Valid(s) && HasUser(s, actor)
    ensures Valid(r.store)
    ensures r.out.Ok? || r.out.NotFound? || r.out.Forbidden? || r.out.ServerError?
    ensures r.out.NotFound? <==> !HasRehearsal(s, rehearsalId)
    ensures r.out.Forbidden? <==>
      HasRehearsal(s, rehearsalId) && !IsMember(s, FindRehearsal(s, rehearsalId).value.bandId, actor)
    ensures r.out.ServerError? <==>
      && HasRehearsal(s, rehearsalId) && IsMember(s, FindRehearsal(s, rehearsalId).value.bandId, actor)
      && !(status.Given? && ParseStatus(status.value).Some?)
      && !(status.Undefined? && FindAttendance(s, rehearsalId, actor).None?)
    ensures !r.out.Ok? ==> r.store == s
    ensures r.out.Ok? ==>
      var prior := FindAttendance(s, rehearsalId, actor);
      && Upserted(s, r.store, rehearsalId, actor,
           if status.Given? then ParseStatus(status.value).value else Maybe,
           if prior.Some? && comment.Undefined? then s.attendance[prior.value].comment else Nullable(comment))
      && r.out.value == AttendanceReply(rehearsalId, Roster(r.store, rehearsalId))
  {
    match FindRehearsal(s, rehearsalId)
    case None => Step(NotFound, s)
    case Some(reh) =>
      if !IsMember(s, reh.bandId, actor) then Step(Forbidden, s)
      else Upsert(s, actor, rehearsalId, status, comment)
  }

  lemma UpsertExisting(s: Store, i: nat, row: Attendance)
    requires Valid(s) && i < |s.attendance| && AttendanceKey(row) == AttendanceKey(s.attendance[i])
    ensures var s' := s.(attendance := s.attendance[i := row]);
      && Valid(s')
      && FindAttendance(s', row.rehearsalId, row.userId) == Some(i)
      && Filter(s'.attendance, Not(AttendanceIs(row.rehearsalId, row.userId)))
         == Filter(s.attendance, Not(AttendanceIs(row.rehearsalId, row.userId)))
  {
    var s' := s.(attendance := s.attendance[i := row]);
    UpdateUnique(s.attendance, i, row, AttendanceKey);
    assert s.attendance[i] in s.attendance;
    forall a | a in s'.attendance ensures HasRehearsal(s', a.rehearsalId) && HasUser(s', a.userId) {
      var k :| 0 <= k < |s'.attendance| && s'.attendance[k] == a;
      assert s.attendance[k] in s.attendance;
    }
    var p := Not(AttendanceIs(row.rehearsalId, row.userId));
    FilterUpdateRejected(s.attendance, i, row, p);
    assert AttendanceKey(s'.attendance[i]) == AttendanceKey(row);
  }

  lemma UpsertNew(s: Store, row: Attendance)
    requires Valid(s) && HasRehearsal(s, row.rehearsalId) && HasUser(s, row.userId)
    requires forall a | a in s.attendance :: AttendanceKey(a) != AttendanceKey(row)
    ensures var s' := s.(attendance := s.attendance + [row]);
      && Valid(s')
      && FindAttendance(s', row.rehearsalId, row.userId) == Some(|s.attendance|)
      && Filter(s'.attendance, Not(AttendanceIs(row.rehearsalId, row.userId)))
         == Filter(s.attendance, Not(AttendanceIs(row.rehearsalId, row.userId)))
  {
    var s' := s.(attendance := s.attendance + [row]);
    AppendUnique(s.attendance, [row], AttendanceKey);
    var p := Not(AttendanceIs(row.rehearsalId, row.userId));
    FilterAppend(s.attendance, [row], p);
    FilterNone([row], p);
    forall j | 0 <= j < |s.attendance| ensures !AttendanceIs(row.rehearsalId, row.userId)(s'.attendance[j]) {
      assert s.attendance[j] in s.attendance;
    }
  }
}
