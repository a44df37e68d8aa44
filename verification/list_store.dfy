/** The list-backed student store of docker/student-api/main.py: a list of
    untyped dictionaries, each found by its "roll" entry. Every operation scans
    the list from the front and acts on the first record whose roll matches;
    the list is changed in place by append, by a dictionary merge into one
    element, and by pop. */
module ListStore {
  import opened Outcomes

  /** The JSON values a record holds: integers and strings. */
  datatype Value = IntValue(i: int) | StrValue(s: string)

  /** A record's entries other than "roll". */
  type Fields = m: map<string, Value> | "roll" !in m witness map[]

  /** One stored dictionary: its "roll" entry and the rest of its entries. */
  datatype Record = Record(roll: Value, fields: Fields)

  /** The record as the dictionary the service holds. */
  function AsDict(rec: Record): map<string, Value> {
    rec.fields["roll" := rec.roll]
  }

  // ---------------------------------------------------------------------------
  // Specification functions

  ghost predicate HasRoll(s: seq<Record>, key: Value) {
    exists i :: 0 <= i < |s| && s[i].roll == key
  }

  /** No two records share a roll. */
  ghost predicate UniqueRolls(s: seq<Record>) {
    forall i, j :: 0 <= i < j < |s| ==> s[i].roll != s[j].roll
  }

  /** The position of the first record whose roll is `key`, or |s| if none is. */
  function IndexOf(s: seq<Record>, key: Value): (i: nat)
    ensures i <= |s|
    ensures i < |s| ==> s[i].roll == key
    ensures forall j :: 0 <= j < i ==> s[j].roll != key
    ensures i == |s| <==> !HasRoll(s, key)
  {
    if s == [] then 0
    else if s[0].roll == key then 0
    else 1 + IndexOf(s[1..], key)
  }

  /** The two records the list holds when the service starts. */
  function Seed(): (s: seq<Record>)
    ensures |s| == 2 && s[0].roll == IntValue(1) && s[1].roll == IntValue(2)
    ensures UniqueRolls(s)
  {
    [ Record(IntValue(1), map["name" := StrValue("Ravi Kumar"), "department" := StrValue("CSE"),
                             "year" := IntValue(3), "mobile" := StrValue("9876543210"),
                             "city" := StrValue("Delhi")]),
      Record(IntValue(2), map["name" := StrValue("Anita Sharma"), "department" := StrValue("ECE"),
                             "year" := IntValue(2), "mobile" := StrValue("9123456780"),
                             "city" := StrValue("Mumbai")]) ]
  }

  /** Python's dict.update: every entry of `body` overwrites, every other entry
      of `rec` stays, and a "roll" in the body replaces the roll. */
  function Merge(rec: Record, body: map<string, Value>): (r: Record)
    ensures AsDict(r) == AsDict(rec) + body
    ensures forall k :: k in body ==> k in AsDict(r) && AsDict(r)[k] == body[k]
    ensures forall k :: k in AsDict(rec) && k !in body ==> k in AsDict(r) && AsDict(r)[k] == AsDict(rec)[k]
    ensures r.roll == if "roll" in body then body["roll"] else rec.roll
  {
    var roll := if "roll" in body then body["roll"] else rec.roll;
    Record(roll, rec.fields + (body - {"roll"}))
  }

  /** add_student: a record whose roll is already present is a Conflict;
      otherwise the record is appended. */
  function AddStep(s: seq<Record>, rec: Record): (step: Step<Record, seq<Record>>)
    ensures step.reply.Err? <==> HasRoll(s, rec.roll)
    ensures step.reply.Err? ==> step.reply.error == Conflict && step.after == s
    ensures step.reply.Ok? ==>
      && step.reply.value == rec
      && |step.after| == |s| + 1
      && step.after[..|s|] == s
      && step.after[|s|] == rec
    ensures UniqueRolls(s) ==> UniqueRolls(step.after)
  {
    if IndexOf(s, rec.roll) < |s| then Step(Err(Conflict), s)
    else Step(Ok(rec), s + [rec])
  }

  /** update_student: the first record with the path roll is merged with the
      body; the roll inside the body is not checked. */
  function UpdateStep(s: seq<Record>, roll: int, body: map<string, Value>): (step: Step<Record, seq<Record>>)
    ensures step.reply.Err? <==> !HasRoll(s, IntValue(roll))
    ensures step.reply.Err? ==> step.reply.error == NotFound && step.after == s
    ensures step.reply.Ok? ==>
      var i := IndexOf(s, IntValue(roll));
      && |step.after| == |s|
      && s[i].roll == IntValue(roll)
      && step.after[i] == step.reply.value
      && AsDict(step.reply.value) == AsDict(s[i]) + body
      && (forall j :: 0 <= j < |s| && j != i ==> step.after[j] == s[j])
  {
    var i := IndexOf(s, IntValue(roll));
    if i == |s| then Step(Err(NotFound), s)
    else
      var merged := Merge(s[i], body);
      Step(Ok(merged), s[i := merged])
  }

  /** delete_student: the first record with the roll is removed and returned. */
  function DeleteStep(s: seq<Record>, roll: int): (step: Step<Record, seq<Record>>)
    ensures step.reply.Err? <==> !HasRoll(s, IntValue(roll))
    ensures step.reply.Err? ==> step.reply.error == NotFound && step.after == s
    ensures step.reply.Ok? ==>
      var i := IndexOf(s, IntValue(roll));
      && step.reply.value == s[i]
      && step.reply.value.roll == IntValue(roll)
      && |step.after| == |s| - 1
      && step.after == s[..i] + s[i + 1..]
    ensures UniqueRolls(s) ==> UniqueRolls(step.after)
    ensures UniqueRolls(s) ==> !HasRoll(step.after, IntValue(roll))
  {
    var i := IndexOf(s, IntValue(roll));
    if i == |s| then Step(Err(NotFound), s)
    else Step(Ok(s[i]), s[..i] + s[i + 1..])
  }

  // ---------------------------------------------------------------------------
  // What an update does to roll uniqueness

  /** A body that cannot move the matched record onto a roll another record
      holds: it carries no roll, repeats the path roll, or names a roll no
      record has. */
  ghost predicate SafeBody(s: seq<Record>, roll: int, body: map<string, Value>) {
    "roll" !in body || body["roll"] == IntValue(roll) || !HasRoll(s, body["roll"])
  }

  /** On a list with unique rolls where the path roll is present, the update
      keeps the rolls unique exactly when its body is safe. */
  lemma UpdateUniqueIff(s: seq<Record>, roll: int, body: map<string, Value>)
    requires UniqueRolls(s) && HasRoll(s, IntValue(roll))
    ensures UniqueRolls(UpdateStep(s, roll, body).after) <==> SafeBody(s, roll, body)
  {
  }

  /** A safe update keeps the rolls unique, whether or not the path roll is
      present. */
  lemma UpdateKeepsUnique(s: seq<Record>, roll: int, body: map<string, Value>)
    requires UniqueRolls(s)
    requires SafeBody(s, roll, body)
    ensures UniqueRolls(UpdateStep(s, roll, body).after)
  {
  }

  /** The roll in an update body is not checked: moving record 1 of the initial
      list to roll 2 leaves two records with roll 2. */
  lemma UpdateCanDuplicateRoll()
    ensures
      var after := UpdateStep(Seed(), 1, map["roll" := IntValue(2)]).after;
      && |after| == 2
      && after[0].roll == IntValue(2)
      && after[1].roll == IntValue(2)
      && !UniqueRolls(after)
  {
  }

  // ---------------------------------------------------------------------------
  // Sequences of requests

  datatype Request =
    | AddReq(student: Record)
    | UpdateReq(roll: int, body: map<string, Value>)
    | DeleteReq(roll: int)

  function Apply(s: seq<Record>, req: Request): seq<Record> {
    match req
    case AddReq(rec) => AddStep(s, rec).after
    case UpdateReq(roll, body) => UpdateStep(s, roll, body).after
    case DeleteReq(roll) => DeleteStep(s, roll).after
  }

  function Run(s: seq<Record>, reqs: seq<Request>): seq<Record>
    decreases |reqs|
  {
    if reqs == [] then s else Run(Apply(s, reqs[0]), reqs[1..])
  }

  /** Every update in `reqs`, served from `s` onwards, has a safe body in the
      list it is applied to. */
  ghost predicate SafeRun(s: seq<Record>, reqs: seq<Request>)
    decreases |reqs|
  {
    reqs != [] ==>
      && (reqs[0].UpdateReq? ==> SafeBody(s, reqs[0].roll, reqs[0].body))
      && SafeRun(Apply(s, reqs[0]), reqs[1..])
  }

  /** Starting from unique rolls, adds, deletes and safe updates leave the
      rolls unique. */
  lemma {:induction false} RunKeepsUnique(s: seq<Record>, reqs: seq<Request>)
    requires UniqueRolls(s)
    requires SafeRun(s, reqs)
    ensures UniqueRolls(Run(s, reqs))
    decreases |reqs|
  {
    if reqs != [] {
      if reqs[0].UpdateReq? {
        UpdateKeepsUnique(s, reqs[0].roll, reqs[0].body);
      }
      RunKeepsUnique(Apply(s, reqs[0]), reqs[1..]);
    }
  }

  // ---------------------------------------------------------------------------
  // The service's module-level list, updated in place

  class Students {
    var students: seq<Record>

    /** The list starts with the two seed records. */
    constructor ()
      ensures students == Seed()
    {
      students := Seed();
    }

    method GetStudents() returns (r: seq<Record>)
      ensures r == students
    {
      r := students;
    }

    /** The scan the handlers share: the index of the first record whose roll
        equals `key`, or the length of the list when there is none. */
    method Locate(key: Value) returns (i: nat)
      ensures i <= |students|
      ensures i < |students| ==> students[i].roll == key
      ensures forall j :: 0 <= j < i ==> students[j].roll != key
      ensures i == IndexOf(students, key)
    {
      i := 0;
      while i < |students|
        invariant i <= |students|
        invariant forall j :: 0 <= j < i ==> students[j].roll != key
      {
        if students[i].roll == key {
          return;
        }
        i := i + 1;
      }
    }

    method GetStudent(roll: int) returns (r: Result<Record>)
      ensures r.Ok? <==> HasRoll(students, IntValue(roll))
      ensures r.Ok? ==> r.value == students[IndexOf(students, IntValue(roll))]
      ensures r.Ok? ==> r.value.roll == IntValue(roll)
      ensures r.Err? ==> r.error == NotFound
    {
      var i := Locate(IntValue(roll));
      if i < |students| {
        r := Ok(students[i]);
      } else {
        r := Err(NotFound);
      }
    }

    method AddStudent(student: Record) returns (r: Result<Record>)
      modifies this
      ensures Step(r, students) == AddStep(old(students), student)
    {
      var i := Locate(student.roll);
      if i < |students| {
        r := Err(Conflict);
      } else {
        students := students + [student];
        r := Ok(student);
      }
    }

    method UpdateStudent(roll: int, body: map<string, Value>) returns (r: Result<Record>)
      modifies this
      ensures Step(r, students) == UpdateStep(old(students), roll, body)
    {
      var i := Locate(IntValue(roll));
      if i < |students| {
        var merged := Merge(students[i], body);
        students := students[i := merged];
        r := Ok(merged);
      } else {
        r := Err(NotFound);
      }
    }

    method DeleteStudent(roll: int) returns (r: Result<Record>)
      modifies this
      ensures Step(r, students) == DeleteStep(old(students), roll)
    {
      var i := Locate(IntValue(roll));
      if i < |students| {
        var deleted := students[i];
        students := students[..i] + students[i + 1..];
        r := Ok(deleted);
      } else {
        r := Err(NotFound);
      }
    }
  }
}
