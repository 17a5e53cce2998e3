/** Merge patches of JSON documents (section 2 of RFC 7396): the difference a client computes between what it read and
    what it wants, and the merge the API server applies to whatever it holds by then. */
module JsonPatch {

  /** Texts, numbers, flags and lists are leaves: a patch replaces them whole. */
  datatype Json = Null | Leaf(text: string) | Object(fields: map<string, Json>)

  /** Documents as the API server stores them: no field is null. */
  predicate NullFree(j: Json) {
    match j
    case Null => false
    case Leaf(_) => true
    case Object(fields) => forall k :: k in fields ==> NullFree(fields[k])
  }

  /** The object documents without null fields. */
  type Document = j: Json | j.Object? && NullFree(j) witness Object(map[])

  function FieldsOf(j: Json): map<string, Json> {
    if j.Object? then j.fields else map[]
  }

  /** The field, or null. */
  function At(j: Json, k: string): Json {
    if k in FieldsOf(j) then FieldsOf(j)[k] else Null
  }

  // ================================================================ computing and applying patches

  /** The patch from one document to another: fields that are equal are left out, fields that go are
      null, objects are compared field by field. */
  function Diff(read: Json, goal: Json): Json
    decreases goal
  {
    if !goal.Object? then goal
    else Object(map k | k in FieldsOf(read).Keys + goal.fields.Keys && At(read, k) != At(goal, k)
                  :: if k in goal.fields then Diff(At(read, k), goal.fields[k]) else Null)
  }

  /** What a patch makes of a document: null fields go, the others are merged, the rest stays. */
  function Patched(now: Json, patch: Json): Json
    decreases patch
  {
    if !patch.Object? then patch
    else Object(map k | k in FieldsOf(now).Keys + patch.fields.Keys && !(k in patch.fields && patch.fields[k] == Null)
                  :: if k in patch.fields then Patched(At(now, k), patch.fields[k]) else At(now, k))
  }

  // ================================================================ when a patch reaches its goal

  /** Wherever the document that was read agrees with the goal, so does the present one. */
  predicate Agrees(now: Json, read: Json, goal: Json)
    decreases goal, 1
  {
    goal.Object? ==>
      forall k :: k in FieldsOf(now).Keys + FieldsOf(read).Keys + goal.fields.Keys ==> FieldAgrees(now, read, goal, k)
  }

  predicate FieldAgrees(now: Json, read: Json, goal: Json, k: string)
    requires goal.Object?
    decreases goal, 0
  {
    if At(read, k) == At(goal, k) then At(now, k) == At(goal, k)
    else k in goal.fields ==> Agrees(At(now, k), At(read, k), goal.fields[k])
  }

  lemma DiffAt(read: Json, goal: Json, k: string)
    requires goal.Object? && NullFree(goal)
    ensures Diff(read, goal).Object?
    ensures k in Diff(read, goal).fields <==> At(read, k) != At(goal, k)
    ensures k in Diff(read, goal).fields ==>
      Diff(read, goal).fields[k] == if k in goal.fields then Diff(At(read, k), goal.fields[k]) else Null
  {
  }

  lemma DiffIsNull(read: Json, goal: Json)
    ensures Diff(read, goal) == Null <==> goal == Null
  {
  }

  lemma PatchedAt(now: Json, patch: Json, k: string)
    requires patch.Object?
    ensures Patched(now, patch).Object?
    ensures k in Patched(now, patch).fields <==>
      if k in patch.fields then patch.fields[k] != Null else k in FieldsOf(now)
    ensures k in Patched(now, patch).fields ==>
      Patched(now, patch).fields[k] == if k in patch.fields then Patched(At(now, k), patch.fields[k]) else At(now, k)
  {
  }

  /** A document or nothing, as a field may be. */
  predicate Clean(j: Json) {
    j == Null || NullFree(j)
  }

  lemma FieldIsThere(j: Json, k: string)
    requires Clean(j)
    ensures k in FieldsOf(j) <==> At(j, k) != Null
  {
    if k in FieldsOf(j) { assert NullFree(FieldsOf(j)[k]); }
  }

  /** One field of the patched document. */
  lemma FieldAfter(now: Json, read: Json, goal: Json, k: string)
    requires goal.Object? && NullFree(goal)
    ensures Diff(read, goal).Object? && Patched(now, Diff(read, goal)).Object?
    ensures At(read, k) == At(goal, k) ==>
      && (k in Patched(now, Diff(read, goal)).fields <==> k in FieldsOf(now))
      && At(Patched(now, Diff(read, goal)), k) == At(now, k)
    ensures At(read, k) != At(goal, k) ==>
      && (k in Patched(now, Diff(read, goal)).fields <==> k in goal.fields)
      && At(Patched(now, Diff(read, goal)), k)
         == if k in goal.fields then Patched(At(now, k), Diff(At(read, k), goal.fields[k])) else Null
  {
    DiffAt(read, goal, k);
    PatchedAt(now, Diff(read, goal), k);
    if k in goal.fields { DiffIsNull(At(read, k), goal.fields[k]); }
  }

  /** Documents are equal when all their fields are. */
  lemma SameFields(a: Json, b: Json)
    requires a.Object? && b.Object? && a.fields.Keys == b.fields.Keys
    requires forall k :: k in a.fields ==> At(a, k) == At(b, k)
    ensures a == b
  {
    forall k | k in a.fields ensures a.fields[k] == b.fields[k] {
      assert At(a, k) == At(b, k);
    }
    assert a.fields == b.fields;
  }

  /** A patched document has no null fields either. */
  lemma {:induction false} PatchedIsClean(now: Json, read: Json, goal: Json)
    requires NullFree(goal) && Clean(now)
    ensures NullFree(Patched(now, Diff(read, goal)))
    decreases goal
  {
    if goal.Object? {
      FieldAfter(now, read, goal, "");
      var r := Patched(now, Diff(read, goal));
      forall k | k in r.fields ensures NullFree(r.fields[k]) {
        FieldAfter(now, read, goal, k);
        if At(read, k) == At(goal, k) {
          assert At(r, k) == At(now, k);
        } else {
          assert At(r, k) == r.fields[k];
          PatchedIsClean(At(now, k), At(read, k), goal.fields[k]);
        }
      }
    }
  }

  lemma AgreedIsGoal(now: Json, read: Json, goal: Json)
    requires goal.Object? && NullFree(goal) && Clean(now) && Agrees(now, read, goal)
    requires Patched(now, Diff(read, goal)).Object?
    requires forall k :: k in FieldsOf(now).Keys + FieldsOf(read).Keys + goal.fields.Keys ==>
      (At(Patched(now, Diff(read, goal)), k) == At(goal, k) <==> FieldAgrees(now, read, goal, k))
    ensures Patched(now, Diff(read, goal)) == goal
  {
    hide Patched, Diff;
    var r := Patched(now, Diff(read, goal));
    forall k ensures k in r.fields <==> k in goal.fields {
      FieldAfter(now, read, goal, k);
      FieldIsThere(now, k);
      FieldIsThere(goal, k);
      assert k in FieldsOf(now) || k in goal.fields ==> FieldAgrees(now, read, goal, k);
    }
    SameFields(r, goal);
  }

  /** The patch computed from one document turns another into the goal exactly when that one agrees
      with the goal wherever the first does. */
  lemma {:induction false} PatchReachesGoalExactly(now: Json, read: Json, goal: Json)
    requires NullFree(goal) && Clean(now)
    ensures Patched(now, Diff(read, goal)) == goal <==> Agrees(now, read, goal)
    decreases goal
  {
    if goal.Object? {
      hide Patched, Diff;
      FieldAfter(now, read, goal, "");
      var r := Patched(now, Diff(read, goal));
      forall k | k in FieldsOf(now).Keys + FieldsOf(read).Keys + goal.fields.Keys
        ensures At(r, k) == At(goal, k) <==> FieldAgrees(now, read, goal, k)
      {
        FieldAfter(now, read, goal, k);
        if At(read, k) != At(goal, k) && k in goal.fields {
          PatchReachesGoalExactly(At(now, k), At(read, k), goal.fields[k]);
        }
      }
      if Agrees(now, read, goal) { AgreedIsGoal(now, read, goal); }
    }
  }

  /** The round trip: the patch computed from a document turns that very document into the goal. */
  lemma {:induction false} PatchRoundTrip(read: Json, goal: Json)
    requires NullFree(goal) && Clean(read)
    ensures Patched(read, Diff(read, goal)) == goal
  {
    AgreesWithItself(read, goal);
    PatchReachesGoalExactly(read, read, goal);
  }

  lemma {:induction false} AgreesWithItself(read: Json, goal: Json)
    ensures Agrees(read, read, goal)
    decreases goal
  {
    if goal.Object? {
      forall k | k in goal.fields ensures Agrees(At(read, k), At(read, k), goal.fields[k]) {
        AgreesWithItself(At(read, k), goal.fields[k]);
      }
    }
  }

  // ================================================================ a document sent as a patch

  const EMPTY_DOCUMENT: Document := Object(map[])

  /** A document is the patch to itself from nothing. */
  lemma {:induction false} DiffFromNothing(read: Json, goal: Json)
    requires NullFree(goal) && FieldsOf(read) == map[]
    ensures Diff(read, goal) == goal
    decreases goal
  {
    if goal.Object? {
      DiffAt(read, goal, "");
      var d := Diff(read, goal);
      forall k ensures k in d.fields <==> k in goal.fields {
        DiffAt(read, goal, k);
        FieldIsThere(goal, k);
      }
      forall k | k in d.fields ensures d.fields[k] == goal.fields[k] {
        DiffAt(read, goal, k);
        DiffFromNothing(Null, goal.fields[k]);
      }
      assert d.fields == goal.fields;
    }
  }

  /** Sending a document as a patch stores it exactly when the present one has no field that it lacks. */
  lemma SentWholeExactly(now: Document, goal: Document)
    ensures Patched(now, goal) == goal <==> Agrees(now, EMPTY_DOCUMENT, goal)
    ensures Patched(now, goal).Object? && NullFree(Patched(now, goal))
  {
    DiffFromNothing(EMPTY_DOCUMENT, goal);
    PatchReachesGoalExactly(now, EMPTY_DOCUMENT, goal);
    PatchedIsClean(now, EMPTY_DOCUMENT, goal);
    FieldAfter(now, EMPTY_DOCUMENT, goal, "");
  }

  lemma {:induction false} GoalAgrees(read: Json, goal: Json)
    ensures Agrees(goal, read, goal)
    decreases goal
  {
    if goal.Object? {
      forall k | k in goal.fields ensures Agrees(goal.fields[k], At(read, k), goal.fields[k]) {
        GoalAgrees(At(read, k), goal.fields[k]);
      }
    }
  }
}
