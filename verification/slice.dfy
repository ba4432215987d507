/** The shape both client slices share: a list, the record being viewed, a
    loading flag and the last error message, with the transitions every
    `createSlice` case below is made of. */
module Slice {
  import opened Domain
  import opened Seqs

  datatype State<T> = State(list: seq<T>, current: Option<T>, loading: bool, error: Option<string>)

  /** `initialState`: empty list, nothing viewed, idle, no error. */
  function Initial<T>(): (r: State<T>)
    ensures r.list == [] && r.current.None? && !r.loading && r.error.None?
  {
    State([], None, false, None)
  }

  /** Every `pending` case: a request is under way and the previous error is forgotten. */
  function Pending<T>(st: State<T>): (r: State<T>)
    ensures r.loading && r.error.None?
    ensures r.list == st.list && r.current == st.current
  {
    st.(loading := true, error := None)
  }

  /** Every `rejected` case: the message becomes the error, nothing else is touched. */
  function Rejected<T>(st: State<T>, message: string): (r: State<T>)
    ensures !r.loading && r.error == Some(message)
    ensures r.list == st.list && r.current == st.current
  {
    st.(loading := false, error := Some(message))
  }

  /** A `fulfilled` case that stores a fetched list wholesale. */
  function Loaded<T>(st: State<T>, xs: seq<T>): (r: State<T>)
    ensures !r.loading && r.list == xs
    ensures r.current == st.current && r.error == st.error
  {
    st.(loading := false, list := xs)
  }

  /** A `fulfilled` case that stores the fetched record as the one being viewed. */
  function Opened<T>(st: State<T>, x: T): (r: State<T>)
    ensures !r.loading && r.current == Some(x)
    ensures r.list == st.list && r.error == st.error
  {
    st.(loading := false, current := Some(x))
  }

  /** A `fulfilled` case that pushes the created record onto the list. */
  function Appended<T>(st: State<T>, x: T): (r: State<T>)
    ensures !r.loading
    ensures |r.list| == |st.list| + 1 && r.list[..|st.list|] == st.list && r.list[|st.list|] == x
    ensures r.current == st.current && r.error == st.error
  {
    st.(loading := false, list := st.list + [x])
  }

  /** The entries whose id is `id`, as `findIndex` tests them. */
  function HasId<T>(idOf: T -> Id, id: Id): T -> bool {
    (y: T) => idOf(y) == id
  }

  /** A `fulfilled` case for an update: the record becomes the one viewed and
      replaces the first list entry with its id, if there is one. */
  function Replaced<T(==)>(st: State<T>, x: T, idOf: T -> Id): (r: State<T>)
    ensures !r.loading && r.current == Some(x) && r.error == st.error
    ensures |r.list| == |st.list|
    ensures (forall j | 0 <= j < |st.list| :: idOf(st.list[j]) != idOf(x)) ==> r.list == st.list
    ensures forall j | 0 <= j < |st.list| ::
      r.list[j] == if IsFirstWithId(st.list, idOf, idOf(x), j) then x else st.list[j]
  {
    var list := ReplaceFirst(st.list, HasId(idOf, idOf(x)), x);
    forall j | 0 <= j < |st.list|
      ensures list[j] == if IsFirstWithId(st.list, idOf, idOf(x), j) then x else st.list[j]
    {
      var k := IndexOf(st.list, HasId(idOf, idOf(x)));
      if k.Some? && j > k.value {
        assert !IsFirstWithId(st.list, idOf, idOf(x), j);
      }
    }
    st.(loading := false, current := Some(x), list := list)
  }

  /** Position `j` holds the first entry of `xs` whose id is `id`. */
  predicate IsFirstWithId<T>(xs: seq<T>, idOf: T -> Id, id: Id, j: int)
    requires 0 <= j < |xs|
  {
    idOf(xs[j]) == id && forall i | 0 <= i < j :: idOf(xs[i]) != id
  }

  /** `clearError`-style reducer: only the error goes. */
  function ClearError<T>(st: State<T>): (r: State<T>)
    ensures r.error.None?
    ensures r.list == st.list && r.current == st.current && r.loading == st.loading
  {
    st.(error := None)
  }

  /** `clearCurrent`-style reducer: only the viewed record goes. */
  function ClearCurrent<T>(st: State<T>): (r: State<T>)
    ensures r.current.None?
    ensures r.list == st.list && r.error == st.error && r.loading == st.loading
  {
    st.(current := None)
  }

  /** A request that fails leaves the list and the viewed record as they were
      before it started, and reports its message. */
  lemma PendingThenRejected<T>(st: State<T>, message: string)
    ensures var r := Rejected(Pending(st), message);
      r.list == st.list && r.current == st.current && !r.loading && r.error == Some(message)
  {
  }
}
