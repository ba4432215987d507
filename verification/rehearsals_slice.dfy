/** The client's `rehearsals` slice: the reducer over the list of a band's
    rehearsals and the rehearsal being viewed, driven by the thunk actions for
    the rehearsal endpoints and by two plain clearing actions. Payloads are the
    server's replies as the controller model produces them. */
module RehearsalsSlice {
  import opened Domain
  import opened Seqs
  import opened Schema
  import opened Rehearsals
  import opened Slice

  type RehearsalsState = State<RehearsalView>

  /** The five thunks of the slice; each has a `pending` and a `rejected` case. */
  datatype Request = FetchBandRehearsals | FetchRehearsalDetails | CreateRehearsal | UpdateRehearsal | UpdateAttendance

  datatype Action =
    | Started(request: Request)
    | Failed(request: Request, message: string)
    | BandRehearsalsFetched(rehearsals: seq<RehearsalView>)
    | DetailsFetched(rehearsal: RehearsalView)
    | RehearsalCreated(rehearsal: RehearsalView)
    | RehearsalUpdated(rehearsal: RehearsalView)
    | AttendanceUpdated(reply: AttendanceReply)
    | ClearRehearsalError
    | ClearCurrentRehearsal

  function ViewId(v: RehearsalView): Id { v.rehearsal.id }

  /** `updateAttendance.fulfilled`: the new roster goes onto the viewed
      rehearsal when it is the one answered for, and onto the first list entry
      with that id. */
  function AttendanceSet(st: RehearsalsState, reply: AttendanceReply): (r: RehearsalsState)
    ensures !r.loading && r.error == st.error && |r.list| == |st.list|
    ensures st.current.Some? && ViewId(st.current.value) == reply.rehearsalId ==>
      r.current == Some(st.current.value.(attendance := reply.attendance))
    ensures !(st.current.Some? && ViewId(st.current.value) == reply.rehearsalId) ==> r.current == st.current
    ensures forall j | 0 <= j < |st.list| ::
      r.list[j] == if IsFirstWithId(st.list, ViewId, reply.rehearsalId, j)
                   then st.list[j].(attendance := reply.attendance) else st.list[j]
  {
    var current :=
      if st.current.Some? && ViewId(st.current.value) == reply.rehearsalId
      then Some(st.current.value.(attendance := reply.attendance))
      else st.current;
    var list :=
      match IndexOf(st.list, HasId(ViewId, reply.rehearsalId))
      case None => st.list
      case Some(k) => st.list[k := st.list[k].(attendance := reply.attendance)];
    assert forall j | 0 <= j < |st.list| ::
      list[j] == if IsFirstWithId(st.list, ViewId, reply.rehearsalId, j)
                 then st.list[j].(attendance := reply.attendance) else st.list[j];
    st.(loading := false, current := current, list := list)
  }

  /** The slice reducer. */
  function Reduce(st: RehearsalsState, a: Action): (r: RehearsalsState)
    ensures a.Started? ==> r.loading && r.error.None? && r.list == st.list && r.current == st.current
    ensures a.Failed? ==>
      !r.loading && r.error == Some(a.message) && r.list == st.list && r.current == st.current
    ensures a.BandRehearsalsFetched? ==>
      !r.loading && r.list == a.rehearsals && r.current == st.current && r.error == st.error
    ensures a.DetailsFetched? ==>
      !r.loading && r.current == Some(a.rehearsal) && r.list == st.list && r.error == st.error
    ensures a.RehearsalCreated? ==>
      !r.loading && r.list == st.list + [a.rehearsal] && r.current == st.current && r.error == st.error
    ensures a.RehearsalUpdated? ==>
      && !r.loading && r.current == Some(a.rehearsal) && r.error == st.error
      && |r.list| == |st.list|
      && forall j | 0 <= j < |st.list| ::
           r.list[j] == if IsFirstWithId(st.list, ViewId, ViewId(a.rehearsal), j) then a.rehearsal else st.list[j]
    ensures a.AttendanceUpdated? ==> r == AttendanceSet(st, a.reply)
    ensures a.ClearRehearsalError? ==>
      r.error.None? && r.list == st.list && r.current == st.current && r.loading == st.loading
    ensures a.ClearCurrentRehearsal? ==>
      r.current.None? && r.list == st.list && r.error == st.error && r.loading == st.loading
    ensures !a.Started? && !a.Failed? && !a.ClearRehearsalError? && !a.ClearCurrentRehearsal? ==> !r.loading
  {
    match a
    case Started(_) => Pending(st)
    case Failed(_, message) => Rejected(st, message)
    case BandRehearsalsFetched(vs) => Loaded(st, vs)
    case DetailsFetched(v) => Opened(st, v)
    case RehearsalCreated(v) =>
      var r := Appended(st, v);
      assert r.list == r.list[..|st.list|] + [v];
      r
    case RehearsalUpdated(v) =>
      Replaced(st, v, ViewId)
    case AttendanceUpdated(reply) => AttendanceSet(st, reply)
    case ClearRehearsalError => ClearError(st)
    case ClearCurrentRehearsal => ClearCurrent(st)
  }

  /** Each clearing action nulls its one field, and doing it twice is doing it once. */
  lemma ClearingIdempotent(st: RehearsalsState)
    ensures Reduce(Reduce(st, ClearRehearsalError), ClearRehearsalError) == Reduce(st, ClearRehearsalError)
    ensures Reduce(Reduce(st, ClearCurrentRehearsal), ClearCurrentRehearsal) == Reduce(st, ClearCurrentRehearsal)
  {
  }

  /** The client and the server agree after an attendance answer: a client
      viewing the rehearsal as `getRehearsalById` served it, on receiving the
      reply of a successful `updateAttendance`, views exactly what
      `getRehearsalById` serves afterwards. */
  lemma {:induction false} ViewFollowsServer(
    s: Store, actor: Id, id: Id, status: Field<string>, comment: Field<string>, st: RehearsalsState)
    requires Valid(s) && HasUser(s, actor)
    requires GetRehearsalById(s, actor, id).Ok? && st.current == Some(GetRehearsalById(s, actor, id).value)
    requires Rehearsals.UpdateAttendance(s, actor, id, status, comment).out.Ok?
    ensures var step := Rehearsals.UpdateAttendance(s, actor, id, status, comment);
      var after := GetRehearsalById(step.store, actor, id);
      && after.Ok?
      && Reduce(st, AttendanceUpdated(step.out.value)).current == Some(after.value)
  {
    var step := Rehearsals.UpdateAttendance(s, actor, id, status, comment);
    var s' := step.store;
    var reh := FindRehearsal(s, id).value;
    assert s'.rehearsals == s.rehearsals && s'.members == s.members && s'.venues == s.venues by {
      assert s'.(attendance := s.attendance) == s;
    }
    assert step.out.value == AttendanceReply(id, Roster(s', id));
    assert RoleOf(s', reh.bandId, actor) == RoleOf(s, reh.bandId, actor);
    ReadStored(s', actor, reh);
    ReplyReachesView(st, step.out.value, Hydrate(s, reh));
  }

  /** The roster of a reply lands on the viewed rehearsal it answers for. */
  lemma ReplyReachesView(st: RehearsalsState, reply: AttendanceReply, v: RehearsalView)
    requires st.current == Some(v) && ViewId(v) == reply.rehearsalId
    ensures Reduce(st, AttendanceUpdated(reply)).current == Some(v.(attendance := reply.attendance))
  {
  }
}
