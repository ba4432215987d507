/** The client's `bands` slice: the reducer over the list of bands and the band
    being viewed. Listings and details arrive with their `members` include;
    created and updated bands arrive bare, as the controller answers them. */
module BandsSlice {
  import opened Domain
  import opened Seqs
  import opened Schema
  import opened Bands
  import opened Slice

  /** One entry of `userBands` or `currentBand`. */
  datatype BandDoc = Listed(view: BandView) | Bare(band: Band)

  function DocBand(d: BandDoc): Band {
    match d
    case Listed(v) => v.band
    case Bare(b) => b
  }

  function DocId(d: BandDoc): Id { DocBand(d).id }

  function DocBands(ds: seq<BandDoc>): seq<Band> {
    seq(|ds|, i requires 0 <= i < |ds| => DocBand(ds[i]))
  }

  /** A listing as the client stores it. */
  function Listing(vs: seq<BandView>): (r: seq<BandDoc>)
    ensures |r| == |vs| && DocBands(r) == BandRows(vs)
  {
    var r := seq(|vs|, i requires 0 <= i < |vs| => Listed(vs[i]));
    assert DocBands(r) == BandRows(vs);
    r
  }

  type BandsState = State<BandDoc>

  /** The four thunks of the slice; each has a `pending` and a `rejected` case. */
  datatype Request = FetchUserBands | FetchBandDetails | CreateBand | UpdateBand | InviteMember

  datatype Action =
    | Started(request: Request)
    | Failed(request: Request, message: string)
    | UserBandsFetched(bands: seq<BandView>)
    | DetailsFetched(details: BandView)
    | BandCreated(band: Band)
    | BandUpdated(band: Band)
    | MemberInvited(membership: Membership)
    | ClearBandError
    | ClearCurrentBand

  /** The slice reducer. */
  function Reduce(st: BandsState, a: Action): (r: BandsState)
    ensures a.Started? ==> r.loading && r.error.None? && r.list == st.list && r.current == st.current
    ensures a.Failed? ==>
      !r.loading && r.error == Some(a.message) && r.list == st.list && r.current == st.current
    ensures a.UserBandsFetched? ==>
      && !r.loading && DocBands(r.list) == BandRows(a.bands)
      && (forall i | 0 <= i < |r.list| :: r.list[i].Listed? && r.list[i].view == a.bands[i])
      && r.current == st.current && r.error == st.error
    ensures a.DetailsFetched? ==>
      !r.loading && r.current == Some(Listed(a.details)) && r.list == st.list && r.error == st.error
    ensures a.BandCreated? ==>
      !r.loading && r.list == st.list + [Bare(a.band)] && r.current == st.current && r.error == st.error
    ensures a.BandUpdated? ==>
      && !r.loading && r.current == Some(Bare(a.band)) && r.error == st.error
      && |r.list| == |st.list|
      && forall j | 0 <= j < |st.list| ::
           r.list[j] == if IsFirstWithId(st.list, DocId, a.band.id, j) then Bare(a.band) else st.list[j]
    ensures a.MemberInvited? ==>
      !r.loading && r.list == st.list && r.current == st.current && r.error == st.error
    ensures a.ClearBandError? ==>
      r.error.None? && r.list == st.list && r.current == st.current && r.loading == st.loading
    ensures a.ClearCurrentBand? ==>
      r.current.None? && r.list == st.list && r.error == st.error && r.loading == st.loading
  {
    match a
    case Started(_) => Pending(st)
    case Failed(_, message) => Rejected(st, message)
    case UserBandsFetched(vs) => Loaded(st, Listing(vs))
    case DetailsFetched(v) => Opened(st, Listed(v))
    case BandCreated(b) =>
      var r := Appended(st, Bare(b));
      assert r.list == r.list[..|st.list|] + [Bare(b)];
      r
    case BandUpdated(b) =>
      Replaced(st, Bare(b), DocId)
    case MemberInvited(_) => st.(loading := false)
    case ClearBandError => ClearError(st)
    case ClearCurrentBand => ClearCurrent(st)
  }

  /** Each clearing action nulls its one field, and doing it twice is doing it once. */
  lemma ClearingIdempotent(st: BandsState)
    ensures Reduce(Reduce(st, ClearBandError), ClearBandError) == Reduce(st, ClearBandError)
    ensures Reduce(Reduce(st, ClearCurrentBand), ClearCurrentBand) == Reduce(st, ClearCurrentBand)
  {
  }

  /** The client's list keeps pace with the server: after fetching the listing
      and then creating a band, the client holds exactly the server's bands. */
  lemma {:induction false} ListFollowsServer(
    s: Store, actor: Id, newId: Id, now: Time, name: Field<string>, description: Field<string>, st: BandsState)
    requires Valid(s) && HasUser(s, actor)
    requires Bands.CreateBand(s, actor, newId, now, name, description).out.Ok?
    ensures var step := Bands.CreateBand(s, actor, newId, now, name, description);
      var fetched := Reduce(st, UserBandsFetched(GetUserBands(s, actor)));
      var created := Reduce(fetched, BandCreated(step.out.value));
      multiset(DocBands(created.list)) == multiset(step.store.bands)
  {
    var step := Bands.CreateBand(s, actor, newId, now, name, description);
    var b := step.out.value;
    assert step.store.bands == s.bands + [b];
    var vs := GetUserBands(s, actor);
    var fetched := Reduce(st, UserBandsFetched(vs));
    assert DocBands(fetched.list) == BandRows(vs);
    var created := Reduce(fetched, BandCreated(b));
    DocBandsAppend(fetched.list, Bare(b));
  }

  lemma DocBandsAppend(ds: seq<BandDoc>, d: BandDoc)
    ensures DocBands(ds + [d]) == DocBands(ds) + [DocBand(d)]
  {
  }
}
