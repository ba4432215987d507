/** The band controller: listing and reading bands, creating one (its creator
    becomes its admin), renaming, deleting, and adding members by email. */
module Bands {
  import opened Domain
  import opened Seqs
  import opened Schema

  /** A band with its `members` include: each membership row carries the
      member's user id, role and instruments. */
  datatype BandView = BandView(band: Band, members: seq<Membership>)

  function Hydrate(s: Store, b: Band): BandView {
    BandView(b, MembersOf(s, b.id))
  }

  /** The key that puts the newest band first under an ascending sort. */
  function NewestFirst(b: Band): int { -b.createdAt }

  function BandRows(vs: seq<BandView>): seq<Band> {
    seq(|vs|, i requires 0 <= i < |vs| => vs[i].band)
  }

  function HydrateAll(s: Store, bs: seq<Band>): (vs: seq<BandView>)
    ensures |vs| == |bs| && BandRows(vs) == bs
    ensures forall i | 0 <= i < |bs| :: vs[i] == Hydrate(s, bs[i])
  {
    var vs := seq(|bs|, i requires 0 <= i < |bs| => Hydrate(s, bs[i]));
    assert BandRows(vs) == bs;
    vs
  }

  /** `getUserBands`: every band in the store, whoever asks, newest first. */
  function GetUserBands(s: Store, actor: Id): (r: seq<BandView>)
    ensures multiset(BandRows(r)) == multiset(s.bands)
    ensures forall i, j | 0 <= i < j < |r| :: r[i].band.createdAt >= r[j].band.createdAt
    ensures forall i | 0 <= i < |r| :: r[i].members == MembersOf(s, r[i].band.id)
  {
    var sorted := SortBy(s.bands, NewestFirst);
    assert forall i, j | 0 <= i < j < |sorted| :: NewestFirst(sorted[i]) <= NewestFirst(sorted[j]);
    HydrateAll(s, sorted)
  }

  /** The caller plays no part in the listing: two callers see the same bands. */
  lemma GetUserBandsIgnoresCaller(s: Store, a: Id, b: Id)
    ensures GetUserBands(s, a) == GetUserBands(s, b)
  {
  }

  /** Every band of the store appears in the listing, members and all. */
  lemma GetUserBandsComplete(s: Store, actor: Id, b: Band)
    requires b in s.bands
    ensures Hydrate(s, b) in GetUserBands(s, actor)
  {
    var r := GetUserBands(s, actor);
    assert b in multiset(s.bands);
    assert b in multiset(BandRows(r));
    var i :| 0 <= i < |r| && BandRows(r)[i] == b;
    assert r[i] == BandView(b, MembersOf(s, b.id));
  }

  /** `getBandById`: 404 for an unknown id, then 403 unless the caller is among
      the band's members. */
  function GetBandById(s: Store, actor: Id, id: Id): (r: Outcome<BandView>)
    ensures r.Ok? || r.NotFound? || r.Forbidden?
    ensures r.NotFound? <==> !HasBand(s, id)
    ensures r.Forbidden? <==> HasBand(s, id) && !IsMember(s, id, actor)
    ensures r.Ok? ==>
      && r.value.band in s.bands && r.value.band.id == id
      && r.value.members == MembersOf(s, id)
      && exists m | m in r.value.members :: m.userId == actor
  {
    match FindBand(s, id)
    case None => NotFound
    case Some(b) =>
      if !IsMember(s, id, actor) then Forbidden
      else
        var me := FindMember(s, id, actor).value;
        assert me in MembersOf(s, id);
        Ok(Hydrate(s, b))
  }

  /** A band in a valid store is what `getBandById` serves one of its members. */
  lemma ReadBand(s: Store, actor: Id, b: Band)
    requires Valid(s) && b in s.bands && IsMember(s, b.id, actor)
    ensures GetBandById(s, actor, b.id) == Ok(Hydrate(s, b))
  {
    var x := FindBand(s, b.id).value;
    SameKeySameRow(s.bands, BandKey, x, b);
  }

  /** `createBand`: inserts the band stamped with its creator and `now`, then
      the creator's `admin` membership; one atomic step here. A clash of the
      generated id is refused by the primary key. */
  function CreateBand(s: Store, actor: Id, newId: Id, now: Time, name: Field<string>, description: Field<string>): (r: Step<Band>)
    requires Valid(s) && HasUser(s, actor)
    ensures Valid(r.store)
    ensures r.out.Ok? || r.out.ServerError?
    ensures r.out.ServerError? <==> HasBand(s, newId)
    ensures r.out.ServerError? ==> r.store == s
    ensures r.out.Ok? ==>
      var b := r.out.value;
      && b.id == newId && b.createdBy == actor && b.createdAt == now
      && (name.Given? <==> b.name.Some?) && (name.Given? ==> b.name.value == name.value)
      && (description.Given? <==> b.description.Some?)
      && (description.Given? ==> b.description.value == description.value)
      && r.store.bands == s.bands + [b]
      && r.store.members == s.members + [Membership(newId, actor, Admin, None)]
      && RoleOf(r.store, newId, actor) == Some(Admin)
      && MembersOf(r.store, newId) == [Membership(newId, actor, Admin, None)]
      && r.store.(bands := s.bands, members := s.members) == s
  {
    if HasBand(s, newId) then Step(ServerError, s)
    else
      var b := Band(newId, Nullable(name), Nullable(description), actor, now);
      var m := Membership(newId, actor, Admin, None);
      var s' := s.(bands := s.bands + [b], members := s.members + [m]);
      CreateBandValid(s, b, m);
      Step(Ok(b), s')
  }

  lemma CreateBandValid(s: Store, b: Band, m: Membership)
    requires Valid(s) && !HasBand(s, b.id) && HasUser(s, m.userId) && m.bandId == b.id && FitsNullable(m.instruments)
    ensures var s' := s.(bands := s.bands + [b], members := s.members + [m]);
      && Valid(s')
      && FindMember(s', b.id, m.userId) == Some(m)
      && MembersOf(s', b.id) == [m]
  {
    var s' := s.(bands := s.bands + [b], members := s.members + [m]);
    forall x | x in s.members ensures x.bandId != b.id {
    }
    AppendUnique(s.bands, [b], BandKey);
    AppendUnique(s.members, [m], MemberKey);
    assert b in s'.bands;
    forall id | HasBand(s, id) ensures HasBand(s', id) {
      var x :| x in s.bands && x.id == id;
      assert x in s'.bands;
    }
    assert Keyed(s');
    assert MembersLinked(s');
    SizedAppend(s, s', [], [m]);
    FilterAppend(s.members, [m], InBand(b.id));
    FilterNone(s.members, InBand(b.id));
    assert [m][..0] == [];
    assert Filter([m], InBand(b.id)) == [m];
  }

  /** `updateBand`: 404, then 403 unless an admin; `name || band.name` and
      `description || band.description`, so neither can be cleared. */
  function UpdateBand(s: Store, actor: Id, id: Id, name: Field<string>, description: Field<string>): (r: Step<Band>)
    requires Valid(s)
    ensures Valid(r.store)
    ensures r.out.Ok? || r.out.NotFound? || r.out.Forbidden?
    ensures r.out.NotFound? <==> !HasBand(s, id)
    ensures r.out.Forbidden? <==> HasBand(s, id) && !IsAdmin(s, id, actor)
    ensures !r.out.Ok? ==> r.store == s
    ensures r.out.Ok? ==>
      var prior := FindBand(s, id).value;
      var b := r.out.value;
      && b.id == id && b.createdBy == prior.createdBy && b.createdAt == prior.createdAt
      && b.name == (if name.Given? && name.value != "" then Some(name.value) else prior.name)
      && b.description == (if description.Given? && description.value != "" then Some(description.value) else prior.description)
      && (prior.description.Some? ==> b.description.Some?)
      && |r.store.bands| == |s.bands|
      && (forall k | 0 <= k < |s.bands| :: r.store.bands[k] == if s.bands[k].id == id then b else s.bands[k])
      && r.store.(bands := s.bands) == s
  {
    match IndexOf(s.bands, BandIs(id))
    case None => Step(NotFound, s)
    case Some(i) =>
      var prior := s.bands[i];
      assert prior in s.bands;
      if !IsAdmin(s, id, actor) then Step(Forbidden, s)
      else
        var b := prior.(name := OrNullable(name, EmptyText, prior.name),
                        description := OrNullable(description, EmptyText, prior.description));
        UpdateBandValid(s, i, b);
        Step(Ok(b), s.(bands := s.bands[i := b]))
  }

  lemma UpdateBandValid(s: Store, i: nat, b: Band)
    requires Valid(s) && i < |s.bands| && b.id == s.bands[i].id
    ensures var s' := s.(bands := s.bands[i := b]);
      && Valid(s')
      && FindBand(s, b.id) == Some(s.bands[i])
      && (forall k | 0 <= k < |s.bands| :: s'.bands[k] == if s.bands[k].id == b.id then b else s.bands[k])
  {
    var s' := s.(bands := s.bands[i := b]);
    UpdateUnique(s.bands, i, b, BandKey);
    assert s.bands[i] in s.bands;
    forall k | 0 <= k < |s.bands| && k != i ensures s.bands[k].id != b.id {
      assert BandKey(s.bands[k]) != BandKey(s.bands[i]);
    }
    forall id | HasBand(s, id) ensures HasBand(s', id) {
      var x :| x in s.bands && x.id == id;
      var k :| 0 <= k < |s.bands| && s.bands[k] == x;
      assert s'.bands[k] in s'.bands;
      assert s'.bands[k].id == id;
    }
    assert MembersLinked(s') && VenuesLinked(s') && RehearsalsLinked(s');
  }

  /** `deleteBand`: 404, then 403 unless an admin; on success the band and
      everything the cascades reach are gone, and other bands' rehearsals stay
      with their attendance, losing only a venue that belonged to this band. */
  function DeleteBand(s: Store, actor: Id, id: Id): (r: Step<()>)
    requires Valid(s)
    ensures Valid(r.store)
    ensures r.out.Ok? || r.out.NotFound? || r.out.Forbidden?
    ensures r.out.NotFound? <==> !HasBand(s, id)
    ensures r.out.Forbidden? <==> HasBand(s, id) && !IsAdmin(s, id, actor)
    ensures !r.out.Ok? ==> r.store == s
    ensures r.out.Ok? ==>
      && !HasBand(r.store, id)
      && MembersOf(r.store, id) == []
      && (forall x | x in r.store.rehearsals :: x.bandId != id)
      && (forall x | x in s.rehearsals && x.bandId != id :: ClearVenue(x, BandVenues(s, id)) in r.store.rehearsals)
      && (forall x' | x' in r.store.rehearsals ::
            exists x | x in s.rehearsals :: x.bandId != id && x' == ClearVenue(x, BandVenues(s, id)))
      && (forall a, x | a in s.attendance && x in s.rehearsals && x.id == a.rehearsalId ::
            a in r.store.attendance <==> x.bandId != id)
      && (forall a | a in r.store.attendance :: a in s.attendance)
      && (forall v | v in r.store.venues :: v in s.venues && v.bandId != id)
      && (forall v | v in s.venues && v.bandId != id :: v in r.store.venues)
      && (forall b | b in s.bands && b.id != id :: b in r.store.bands)
      && (forall b | b in r.store.bands :: b in s.bands && b.id != id)
      && (forall m | m in s.members && m.bandId != id :: m in r.store.members)
      && (forall m | m in r.store.members :: m in s.members)
      && r.store.users == s.users
  {
    match FindBand(s, id)
    case None => Step(NotFound, s)
    case Some(_) =>
      if !IsAdmin(s, id, actor) then Step(Forbidden, s)
      else
        var s' := DeleteBandCascade(s, id);
        DeleteBandCascadeValid(s, id);
        FilterNone(s'.members, InBand(id));
        Step(Ok(()), s')
  }

  /** The role `role || 'member'` stores: `None` when the ENUM refuses it. */
  function RoleOnCreate(role: Field<string>): (r: Option<Role>)
    ensures !Truthy(role, EmptyText) ==> r == Some(Member)
    ensures Truthy(role, EmptyText) ==> (r.Some? <==> role.value in {"admin", "member"})
    ensures r.Some? && Truthy(role, EmptyText) ==> RoleName(r.value) == role.value
  {
    if Truthy(role, EmptyText) then
      RoleRoundTrip(Member, role.value);
      ParseRole(role.value)
    else Some(Member)
  }

  /** `addMember`: 404 for an unknown band, 403 unless an admin, 404 when no user
      has the email, 400 when that user is already a member, 500 when the insert
      is refused (the role ENUM, the VARCHAR(255) instruments); otherwise one
      membership row is inserted. An absent email makes the lookup itself fail
      (a `WHERE` on `undefined`), and `null` matches no user. */
  function AddMember(s: Store, actor: Id, bandId: Id, email: Field<string>, role: Field<string>, instruments: Field<string>): (r: Step<Membership>)
    requires Valid(s)
    ensures Valid(r.store)
    ensures r.out.NotFound? <==>
      !HasBand(s, bandId)
      || (IsAdmin(s, bandId, actor) && (email.Null? || (email.Given? && FindUserByEmail(s, email.value).None?)))
    ensures r.out.Forbidden? <==> HasBand(s, bandId) && !IsAdmin(s, bandId, actor)
    ensures r.out.BadRequest? <==>
      && HasBand(s, bandId) && IsAdmin(s, bandId, actor)
      && email.Given? && FindUserByEmail(s, email.value).Some?
      && IsMember(s, bandId, FindUserByEmail(s, email.value).value.id)
    ensures r.out.ServerError? <==>
      && HasBand(s, bandId) && IsAdmin(s, bandId, actor)
      && (|| email.Undefined?
          || (&& email.Given? && FindUserByEmail(s, email.value).Some?
              && !IsMember(s, bandId, FindUserByEmail(s, email.value).value.id)
              && (RoleOnCreate(role).None? || (instruments.Given? && !FitsVarchar(instruments.value)))))
    ensures !r.out.Ok? ==> r.store == s
    ensures r.out.Ok? ==>
      var m := r.out.value;
      && email.Given? && FindUserByEmail(s, email.value) == Some(User(m.userId, email.value))
      && m.bandId == bandId
      && !IsMember(s, bandId, m.userId)
      && RoleOf(r.store, bandId, m.userId) == Some(m.role)
      && (!Truthy(role, EmptyText) ==> m.role == Member)
      && (Truthy(role, EmptyText) ==> RoleName(m.role) == role.value)
      && m.instruments == Nullable(instruments)
      && r.store.members == s.members + [m]
      && r.store.(members := s.members) == s
  {
    match FindBand(s, bandId)
    case None => Step(NotFound, s)
    case Some(_) =>
      if !IsAdmin(s, bandId, actor) then Step(Forbidden, s)
      else match email
        case Undefined => Step(ServerError, s)
        case Null => Step(NotFound, s)
        case Given(e) =>
          match FindUserByEmail(s, e)
          case None => Step(NotFound, s)
          case Some(u) =>
            if IsMember(s, bandId, u.id) then Step(BadRequest, s)
            else match RoleOnCreate(role)
              case None => Step(ServerError, s)
              case Some(rl) =>
                if !FitsNullable(Nullable(instruments)) then Step(ServerError, s)
                else
                var m := Membership(bandId, u.id, rl, Nullable(instruments));
                AddMemberValid(s, m);
                Step(Ok(m), s.(members := s.members + [m]))
  }

  lemma AddMemberValid(s: Store, m: Membership)
    requires Valid(s) && HasBand(s, m.bandId) && HasUser(s, m.userId) && !IsMember(s, m.bandId, m.userId)
    requires FitsNullable(m.instruments)
    ensures var s' := s.(members := s.members + [m]);
      && Valid(s')
      && RoleOf(s', m.bandId, m.userId) == Some(m.role)
  {
    var s' := s.(members := s.members + [m]);
    AppendUnique(s.members, [m], MemberKey);
    SizedAppend(s, s', [], [m]);
    var k := IndexOf(s'.members, MemberIs(m.bandId, m.userId));
    assert s'.members[|s.members|] == m;
    forall j | 0 <= j < |s.members| ensures !MemberIs(m.bandId, m.userId)(s'.members[j]) {
      assert s.members[j] in s.members;
    }
  }
}
