/** Properties that relate several controller actions: what a create makes
    visible to a later read, what repeating an attendance answer does, what a
    second invitation of the same person answers. */
module Scenarios {
  import opened Domain
  import opened Seqs
  import opened Schema
  import Rehearsals
  import Bands

  /** Appending rows never moves the first row a predicate finds. */
  lemma {:induction false} IndexOfAppend<T>(xs: seq<T>, ys: seq<T>, p: T -> bool)
    requires IndexOf(xs, p).Some?
    ensures IndexOf(xs + ys, p) == IndexOf(xs, p)
  {
    var k := IndexOf(xs, p).value;
    var zs := xs + ys;
    assert zs[k] == xs[k];
    assert forall j | 0 <= j < k :: zs[j] == xs[j];
  }

  /** A membership that is not the caller's leaves the caller's role alone. */
  lemma RoleAfterAppend(s: Store, m: Membership, bandId: Id, userId: Id)
    requires IsMember(s, bandId, userId)
    ensures RoleOf(s.(members := s.members + [m]), bandId, userId) == RoleOf(s, bandId, userId)
  {
    IndexOfAppend(s.members, [m], MemberIs(bandId, userId));
  }

  /** A rehearsal just created is what `getRehearsalById` then serves its creator. */
  lemma CreateThenRead(s: Store, actor: Id, newId: Id, input: Rehearsals.RehearsalInput)
    requires Valid(s) && HasUser(s, actor) && IsAdmin(s, input.bandId, actor) && !HasRehearsal(s, newId)
    requires input.title.Given? && input.startTime.Given? && input.endTime.Given?
    requires FitsVarchar(input.title.value)
    requires input.recurrencePattern.Given? ==> FitsVarchar(input.recurrencePattern.value)
    requires input.venueId.Given? ==> HasVenue(s, input.venueId.value)
    ensures var step := Rehearsals.CreateRehearsal(s, actor, newId, input);
      && step.out.Ok?
      && Rehearsals.GetRehearsalById(step.store, actor, newId) == step.out
  {
    var step := Rehearsals.CreateRehearsal(s, actor, newId, input);
    var n := step.out.value.rehearsal;
    var s' := step.store;
    assert step.out.value == Rehearsals.Hydrate(s', n);
    assert n in s'.rehearsals && n.id == newId && n.bandId == input.bandId;
    assert s'.members == s.members;
    assert IsMember(s', n.bandId, actor);
    Rehearsals.ReadStored(s', actor, n);
  }

  /** Saving a row with the values it already holds changes nothing. */
  lemma RewriteSame(s: Store, actor: Id, id: Id, status: string, comment: Field<string>)
    requires Valid(s) && HasUser(s, actor) && HasRehearsal(s, id)
    requires FindAttendance(s, id, actor).Some? && ParseStatus(status).Some?
    requires var row := s.attendance[FindAttendance(s, id, actor).value];
      row.status == ParseStatus(status).value && IfDefined(comment, row.comment) == row.comment
    ensures Rehearsals.Upsert(s, actor, id, Given(status), comment)
      == Step(Ok(Rehearsals.AttendanceReply(id, Roster(s, id))), s)
  {
    var k := FindAttendance(s, id, actor).value;
    assert s.attendance[k := s.attendance[k]] == s.attendance;
  }

  /** Answering the same attendance twice with a status is answering it once:
      the second call finds the row the first one left and rewrites it with the
      same values, so the store and the reply do not change. */
  lemma AttendanceRepeat(s: Store, actor: Id, id: Id, status: string, comment: Field<string>)
    requires Valid(s) && HasUser(s, actor)
    requires Rehearsals.UpdateAttendance(s, actor, id, Given(status), comment).out.Ok?
    ensures var first := Rehearsals.UpdateAttendance(s, actor, id, Given(status), comment);
      Rehearsals.UpdateAttendance(first.store, actor, id, Given(status), comment) == first
  {
    var first := Rehearsals.UpdateAttendance(s, actor, id, Given(status), comment);
    var s1 := first.store;
    var prior := FindAttendance(s, id, actor);
    var c := if prior.Some? && comment.Undefined? then s.attendance[prior.value].comment else Nullable(comment);
    assert Rehearsals.Upserted(s, s1, id, actor, ParseStatus(status).value, c);
    assert first.out == Ok(Rehearsals.AttendanceReply(id, Roster(s1, id)));
    assert s1.(attendance := s.attendance) == s;
    var reh := FindRehearsal(s, id).value;
    assert FindRehearsal(s1, id) == Some(reh);
    assert RoleOf(s1, reh.bandId, actor) == RoleOf(s, reh.bandId, actor);
    assert IfDefined(comment, c) == c;
    RewriteSame(s1, actor, id, status, comment);
  }

  /** Without a status the answer is not repeatable: the first call inserts a
      `maybe` row, and the second, finding that row, saves a null status and
      fails. */
  lemma AttendanceWithoutStatus(s: Store, actor: Id, id: Id, comment: Field<string>)
    requires Valid(s) && HasUser(s, actor)
    requires FindAttendance(s, id, actor).None?
    requires Rehearsals.UpdateAttendance(s, actor, id, Undefined, comment).out.Ok?
    ensures var first := Rehearsals.UpdateAttendance(s, actor, id, Undefined, comment);
      && first.store.attendance[FindAttendance(first.store, id, actor).value].status == Maybe
      && Rehearsals.UpdateAttendance(first.store, actor, id, Undefined, comment).out.ServerError?
  {
    var first := Rehearsals.UpdateAttendance(s, actor, id, Undefined, comment);
    var s1 := first.store;
    assert s1.(attendance := s.attendance) == s;
    assert FindRehearsal(s1, id) == FindRehearsal(s, id);
    var reh := FindRehearsal(s, id).value;
    assert RoleOf(s1, reh.bandId, actor) == RoleOf(s, reh.bandId, actor);
  }

  /** Inviting the same person twice: the second invitation answers 400 and adds nothing. */
  lemma AddMemberTwice(s: Store, actor: Id, bandId: Id, email: string, role: Field<string>, instruments: Field<string>)
    requires Valid(s)
    requires Bands.AddMember(s, actor, bandId, Given(email), role, instruments).out.Ok?
    ensures var first := Bands.AddMember(s, actor, bandId, Given(email), role, instruments);
      Bands.AddMember(first.store, actor, bandId, Given(email), role, instruments) == Step(BadRequest, first.store)
  {
    var first := Bands.AddMember(s, actor, bandId, Given(email), role, instruments);
    var m := first.out.value;
    var s1 := first.store;
    assert s1 == s.(members := s.members + [m]);
    RoleAfterAppend(s, m, bandId, actor);
    assert FindBand(s1, bandId) == FindBand(s, bandId);
    assert FindUserByEmail(s1, email) == FindUserByEmail(s, email);
  }

  /** The creator of a band can read it at once and is its only member, as admin. */
  lemma CreateBandThenRead(s: Store, actor: Id, newId: Id, now: Time, name: Field<string>, description: Field<string>)
    requires Valid(s) && HasUser(s, actor)
    requires Bands.CreateBand(s, actor, newId, now, name, description).out.Ok?
    ensures var step := Bands.CreateBand(s, actor, newId, now, name, description);
      && Bands.GetBandById(step.store, actor, newId) == Ok(Bands.BandView(step.out.value, [Membership(newId, actor, Admin, None)]))
      && IsAdmin(step.store, newId, actor)
  {
    var step := Bands.CreateBand(s, actor, newId, now, name, description);
    var b := step.out.value;
    var s' := step.store;
    assert b in s'.bands && b.id == newId;
    assert MembersOf(s', newId) == [Membership(newId, actor, Admin, None)];
    assert IsAdmin(s', newId, actor);
    Bands.ReadBand(s', actor, b);
  }

  /** Nothing orders a rehearsal's two times: an admin's rehearsal that ends
      before it starts is stored as given. */
  lemma TimesUnordered(s: Store, actor: Id, newId: Id, input: Rehearsals.RehearsalInput)
    requires Valid(s) && HasUser(s, actor) && IsAdmin(s, input.bandId, actor) && !HasRehearsal(s, newId)
    requires input.title.Given? && input.startTime.Given? && input.endTime.Given? && !input.venueId.Given?
    requires FitsVarchar(input.title.value) && !input.recurrencePattern.Given?
    requires input.endTime.value < input.startTime.value
    ensures var step := Rehearsals.CreateRehearsal(s, actor, newId, input);
      && step.out.Ok?
      && step.out.value.rehearsal.endTime < step.out.value.rehearsal.startTime
  {
  }

  /** A deleted band or rehearsal is gone for everyone who asks next. */
  lemma DeleteThenRead(s: Store, actor: Id, other: Id, id: Id)
    requires Valid(s)
    ensures Bands.DeleteBand(s, actor, id).out.Ok? ==>
      Bands.GetBandById(Bands.DeleteBand(s, actor, id).store, other, id).NotFound?
    ensures Rehearsals.DeleteRehearsal(s, actor, id).out.Ok? ==>
      Rehearsals.GetRehearsalById(Rehearsals.DeleteRehearsal(s, actor, id).store, other, id).NotFound?
  {
  }
}
