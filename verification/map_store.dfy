/** The keyed student store of new_app/student-api/main.py: a dictionary from
    integer ids to validated Student records, changed in place by create
    (insert), update (overwrite) and delete (del).

    A Python dictionary remembers insertion order, and the listing returns the
    values in that order, so the model keeps the keys' insertion order next to
    the map. */
module MapStore {
  import opened Outcomes

  datatype Address = Address(street: string, city: string, pin: int, homeContact: string)

  /** `moble` is the field name the service's schema uses for the phone number.
      The email is kept as an opaque string: its syntax check is done by the
      validation library before the handlers run. */
  datatype Student = Student(
    id: int,
    name: string,
    age: int,
    moble: int,
    email: string,
    course: string,
    address: Address)

  /** The dictionary together with the order in which its keys were inserted. */
  datatype Store = Store(db: map<int, Student>, order: seq<int>)

  // ---------------------------------------------------------------------------
  // Invariants

  ghost predicate Distinct(s: seq<int>) {
    forall i, j :: 0 <= i < j < |s| ==> s[i] != s[j]
  }

  /** The insertion order lists every key of the map exactly once. */
  ghost predicate WellFormed(st: Store) {
    && Distinct(st.order)
    && (forall i :: 0 <= i < |st.order| ==> st.order[i] in st.db)
    && (forall k :: k in st.db ==> k in st.order)
  }

  /** Every stored record sits under its own id. */
  ghost predicate KeysMatch(db: map<int, Student>) {
    forall k :: k in db ==> db[k].id == k
  }

  // ---------------------------------------------------------------------------
  // Helpers on the insertion order

  /** `s` with `x` taken out, the other keys keeping their relative order. */
  function Without(s: seq<int>, x: int): (r: seq<int>)
    ensures forall y :: y in r <==> y in s && y != x
    ensures forall i :: 0 <= i < |r| ==> r[i] in s && r[i] != x
    ensures Distinct(s) ==> Distinct(r)
    ensures Distinct(s) && x in s ==> |r| == |s| - 1
    ensures x !in s ==> r == s
  {
    if s == [] then []
    else if s[0] == x then Without(s[1..], x)
    else
      var w := Without(s[1..], x);
      assert Distinct(s) ==> Distinct(s[1..]) && s[0] !in w;
      [s[0]] + w
  }

  /** In a list without repetitions, taking `x` out removes exactly its one
      position and leaves every other key where it was relative to the rest. */
  lemma {:induction false} WithoutAt(s: seq<int>, x: int, k: nat)
    requires Distinct(s) && k < |s| && s[k] == x
    ensures Without(s, x) == s[..k] + s[k + 1..]
  {
    if k == 0 {
      assert x !in s[1..];
      assert s[..k] + s[k + 1..] == s[1..];
    } else {
      assert Distinct(s[1..]);
      WithoutAt(s[1..], x, k - 1);
      assert s[..k] + s[k + 1..] == [s[0]] + (s[1..][..k - 1] + s[1..][k..]);
    }
  }

  /** A list without repetitions has as many distinct elements as entries. */
  lemma {:induction false} DistinctCard(s: seq<int>)
    requires Distinct(s)
    ensures |set x | x in s| == |s|
  {
    if s != [] {
      DistinctCard(s[1..]);
      assert (set x | x in s) == {s[0]} + (set x | x in s[1..]);
      assert s[0] !in s[1..];
    }
  }

  /** The insertion order is exactly as long as the map is large. */
  lemma OrderSize(st: Store)
    requires WellFormed(st)
    ensures |st.order| == |st.db|
  {
    DistinctCard(st.order);
    var keys := set x | x in st.order;
    forall k | k in keys
      ensures k in st.db.Keys
    {
      var i :| 0 <= i < |st.order| && st.order[i] == k;
    }
    forall k | k in st.db.Keys
      ensures k in keys
    {
      assert k in st.order;
    }
    assert keys == st.db.Keys;
  }

  // ---------------------------------------------------------------------------
  // The operations, as functions of the store before the call

  /** get_student: the record stored under `id`, or NotFound. */
  function Lookup(st: Store, id: int): (r: Result<Student>)
    ensures r.Ok? <==> id in st.db
    ensures r.Ok? ==> r.value == st.db[id]
    ensures r.Err? ==> r.error == NotFound
  {
    if id !in st.db then Err(NotFound) else Ok(st.db[id])
  }

  /** get_all_students: the stored values in insertion order. */
  function Listing(st: Store): (r: seq<Student>)
    requires forall i :: 0 <= i < |st.order| ==> st.order[i] in st.db
    ensures |r| == |st.order|
    ensures forall i :: 0 <= i < |r| ==> r[i] == st.db[st.order[i]]
  {
    seq(|st.order|, i requires 0 <= i < |st.order| => st.db[st.order[i]])
  }

  /** The listing holds exactly the stored records, one per key. */
  lemma ListingExact(st: Store)
    requires WellFormed(st)
    ensures |Listing(st)| == |st.db|
    ensures forall k :: k in st.db ==> st.db[k] in Listing(st)
    ensures forall x :: x in Listing(st) ==> x in st.db.Values
    ensures KeysMatch(st.db) ==>
      forall i, j :: 0 <= i < j < |Listing(st)| ==> Listing(st)[i].id != Listing(st)[j].id
  {
    OrderSize(st);
    var l := Listing(st);
    forall k | k in st.db
      ensures st.db[k] in l
    {
      var i :| 0 <= i < |st.order| && st.order[i] == k;
      assert l[i] == st.db[k];
    }
  }

  /** create_student: a duplicate id is a Conflict; otherwise the record is
      inserted under its own id. */
  function CreateStep(st: Store, s: Student): (step: Step<Student, Store>)
    ensures step.reply.Err? <==> s.id in st.db
    ensures step.reply.Err? ==> step.reply.error == Conflict && step.after == st
    ensures step.reply.Ok? ==>
      && step.reply.value == s
      && step.after.db.Keys == st.db.Keys + {s.id}
      && step.after.db[s.id] == s
      && (forall k :: k in st.db ==> step.after.db[k] == st.db[k])
      && |step.after.db| == |st.db| + 1
      && Lookup(step.after, s.id) == Ok(s)
    ensures WellFormed(st) ==> WellFormed(step.after)
    ensures KeysMatch(st.db) ==> KeysMatch(step.after.db)
    ensures WellFormed(st) && step.reply.Ok? ==> Listing(step.after) == Listing(st) + [s]
  {
    if s.id in st.db then Step(Err(Conflict), st)
    else Step(Ok(s), Store(st.db[s.id := s], st.order + [s.id]))
  }

  /** update_student: the path id must equal the body id (checked first), the
      id must be present, and then the whole record is replaced. */
  function UpdateStep(st: Store, id: int, s: Student): (step: Step<Student, Store>)
    ensures id != s.id ==> step.reply == Err(IdMismatch) && step.after == st
    ensures id == s.id && id !in st.db ==> step.reply == Err(NotFound) && step.after == st
    ensures step.reply.Ok? <==> id == s.id && id in st.db
    ensures step.reply.Ok? ==>
      && step.reply.value == s
      && step.after.db.Keys == st.db.Keys
      && step.after.db[id] == s
      && (forall k :: k in st.db && k != id ==> step.after.db[k] == st.db[k])
      && step.after.order == st.order
    ensures WellFormed(st) ==> WellFormed(step.after)
    ensures KeysMatch(st.db) ==> KeysMatch(step.after.db)
    ensures WellFormed(st) && step.reply.Ok? ==>
      forall k :: 0 <= k < |st.order| && st.order[k] == id ==> Listing(step.after) == Listing(st)[k := s]
  {
    if id != s.id then Step(Err(IdMismatch), st)
    else if id !in st.db then Step(Err(NotFound), st)
    else Step(Ok(s), Store(st.db[id := s], st.order))
  }

  /** delete_student: an absent id is NotFound; otherwise the key is removed. */
  function DeleteStep(st: Store, id: int): (step: Step<(), Store>)
    ensures step.reply.Err? <==> id !in st.db
    ensures step.reply.Err? ==> step.reply.error == NotFound && step.after == st
    ensures step.reply.Ok? ==>
      && step.after.db.Keys == st.db.Keys - {id}
      && (forall k :: k in step.after.db ==> step.after.db[k] == st.db[k])
      && |step.after.db| == |st.db| - 1
    ensures Lookup(step.after, id) == Err(NotFound)
    ensures WellFormed(st) ==> WellFormed(step.after)
    ensures KeysMatch(st.db) ==> KeysMatch(step.after.db)
    ensures WellFormed(st) && step.reply.Ok? ==>
      forall k :: 0 <= k < |st.order| && st.order[k] == id ==>
        Listing(step.after) == Listing(st)[..k] + Listing(st)[k + 1..]
  {
    if id !in st.db then Step(Err(NotFound), st)
    else
      var db := st.db - {id};
      assert |db.Keys| == |st.db.Keys - {id}|;
      var after := Store(db, Without(st.order, id));
      forall k | WellFormed(st) && 0 <= k < |st.order| && st.order[k] == id
        ensures Listing(after) == Listing(st)[..k] + Listing(st)[k + 1..]
      {
        DeleteListing(st, id, k);
      }
      Step(Ok(()), after)
  }

  /** Deleting the key at position `k` of the insertion order drops exactly
      the `k`-th entry of the listing. */
  lemma DeleteListing(st: Store, id: int, k: nat)
    requires WellFormed(st) && k < |st.order| && st.order[k] == id
    ensures forall i :: 0 <= i < |Without(st.order, id)| ==> Without(st.order, id)[i] in st.db - {id}
    ensures Listing(Store(st.db - {id}, Without(st.order, id))) == Listing(st)[..k] + Listing(st)[k + 1..]
  {
    WithoutAt(st.order, id, k);
  }

  // ---------------------------------------------------------------------------
  // Sequences of requests

  datatype Request =
    | CreateReq(student: Student)
    | UpdateReq(id: int, student: Student)
    | DeleteReq(id: int)

  function Apply(st: Store, req: Request): Store {
    match req
    case CreateReq(s) => CreateStep(st, s).after
    case UpdateReq(id, s) => UpdateStep(st, id, s).after
    case DeleteReq(id) => DeleteStep(st, id).after
  }

  /** The store after serving `reqs` one after the other. */
  function Run(st: Store, reqs: seq<Request>): Store
    decreases |reqs|
  {
    if reqs == [] then st else Run(Apply(st, reqs[0]), reqs[1..])
  }

  /** How many creations in `reqs` were accepted. */
  function CreatesAccepted(st: Store, reqs: seq<Request>): nat
    decreases |reqs|
  {
    if reqs == [] then 0
    else
      (if reqs[0].CreateReq? && CreateStep(st, reqs[0].student).reply.Ok? then 1 else 0)
      + CreatesAccepted(Apply(st, reqs[0]), reqs[1..])
  }

  /** How many deletions in `reqs` were accepted. */
  function DeletesAccepted(st: Store, reqs: seq<Request>): nat
    decreases |reqs|
  {
    if reqs == [] then 0
    else
      (if reqs[0].DeleteReq? && DeleteStep(st, reqs[0].id).reply.Ok? then 1 else 0)
      + DeletesAccepted(Apply(st, reqs[0]), reqs[1..])
  }

  /** The number of live records is the starting number plus the accepted
      creations minus the accepted deletions, whatever the requests are. */
  lemma {:induction false} RunSize(st: Store, reqs: seq<Request>)
    ensures |Run(st, reqs).db| == |st.db| + CreatesAccepted(st, reqs) - DeletesAccepted(st, reqs)
    decreases |reqs|
  {
    if reqs != [] {
      RunSize(Apply(st, reqs[0]), reqs[1..]);
    }
  }

  /** Any sequence of requests keeps the insertion order consistent with the
      map and every record under its own id. */
  lemma {:induction false} RunKeepsInvariant(st: Store, reqs: seq<Request>)
    requires WellFormed(st) && KeysMatch(st.db)
    ensures WellFormed(Run(st, reqs)) && KeysMatch(Run(st, reqs).db)
    decreases |reqs|
  {
    if reqs != [] {
      RunKeepsInvariant(Apply(st, reqs[0]), reqs[1..]);
    }
  }

  /** create accepts an id of 0, which the get path (ids greater than 0) can
      never fetch: the listing then holds a record no get returns. */
  lemma NonPositiveIdListedButNotFetchable(s: Student)
    requires s.id <= 0
    ensures
      var after := CreateStep(Store(map[], []), s).after;
      && after.db.Keys == {s.id}
      && |Listing(after)| == 1
      && (set k | k in after.db && k > 0) == {}
  {
  }

  // ---------------------------------------------------------------------------
  // The service's module-level dictionary, updated in place

  class StudentsDb {
    var db: map<int, Student>
    var order: seq<int>

    function State(): Store
      reads this
    {
      Store(db, order)
    }

    ghost predicate Valid()
      reads this
    {
      WellFormed(State()) && KeysMatch(db)
    }

    /** The dictionary starts empty. */
    constructor ()
      ensures Valid() && db == map[] && order == []
    {
      db := map[];
      order := [];
    }

    method GetAllStudents() returns (r: seq<Student>)
      requires Valid()
      ensures r == Listing(State())
      ensures |r| == |db|
      ensures forall k :: k in db ==> db[k] in r
      ensures forall i :: 0 <= i < |r| ==> r[i].id in db && db[r[i].id] == r[i]
    {
      var o, m := order, db;
      r := seq(|o|, i requires 0 <= i < |o| => m[o[i]]);
      assert forall i :: 0 <= i < |r| ==> r[i] == Listing(State())[i];
      ListingExact(State());
    }

    /** The path parameter is validated to be greater than 0 before the
        handler runs. */
    method GetStudent(id: int) returns (r: Result<Student>)
      requires id > 0
      ensures r == Lookup(State(), id)
    {
      if id !in db {
        r := Err(NotFound);
      } else {
        r := Ok(db[id]);
      }
    }

    method CreateStudent(s: Student) returns (r: Result<Student>)
      requires Valid()
      modifies this
      ensures Valid()
      ensures Step(r, State()) == CreateStep(old(State()), s)
    {
      if s.id in db {
        r := Err(Conflict);
      } else {
        db := db[s.id := s];
        order := order + [s.id];
        r := Ok(s);
      }
    }

    method UpdateStudent(id: int, s: Student) returns (r: Result<Student>)
      requires Valid()
      modifies this
      ensures Valid()
      ensures Step(r, State()) == UpdateStep(old(State()), id, s)
    {
      if id != s.id {
        r := Err(IdMismatch);
      } else if id !in db {
        r := Err(NotFound);
      } else {
        db := db[id := s];
        r := Ok(s);
      }
    }

    method DeleteStudent(id: int) returns (r: Result<()>)
      requires Valid()
      modifies this
      ensures Valid()
      ensures Step(r, State()) == DeleteStep(old(State()), id)
    {
      if id !in db {
        r := Err(NotFound);
      } else {
        db := db - {id};
        order := Without(order, id);
        r := Ok(());
      }
    }
  }
}
