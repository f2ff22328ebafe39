/** `compute_diff` and `apply_diff` of rustok-revisions/src/diff.rs. */
module RevisionDiff {
  import opened Text

  datatype Json =
    | Null | Bool(b: bool) | Number(n: int) | String(s: string)
    | Array(items: seq<Json>) | Object(fields: map<string, Json>)

  type Fields = map<string, Json>

  datatype Diff = Diff(added: Json, removed: Json, changed: Json)

  const EMPTY := Diff(Object(map[]), Object(map[]), Object(map[]))

  // ---------------------------------------------------------------- the code

  function Change(from: Json, to: Json): Json {
    Object(map["from" := from, "to" := to])
  }

  /** `change.get("to")` */
  function Target(change: Json): Option<Json> {
    if change.Object? && "to" in change.fields then Some(change.fields["to"]) else None
  }

  function Added(a: Fields, b: Fields): Fields {
    map k | k in b && k !in a :: b[k]
  }

  function Changed(a: Fields, b: Fields): Fields {
    map k | k in b && k in a && a[k] != b[k] :: Change(a[k], b[k])
  }

  function ComputeDiff(a: Json, b: Json): Diff {
    if a.Object? && b.Object?
    then Diff(Object(Added(a.fields, b.fields)), Object(Added(b.fields, a.fields)), Object(Changed(a.fields, b.fields)))
    else EMPTY
  }

  function FieldsOf(j: Json): Fields {
    if j.Object? then j.fields else map[]
  }

  function Targets(changed: Fields): Fields {
    map k | k in changed && Target(changed[k]).Some? :: Target(changed[k]).value
  }

  /** Removals first, then additions, then changes; anything but an object is returned as is. */
  function ApplyDiff(content: Json, d: Diff): Json {
    if !content.Object? then content
    else Object(content.fields - FieldsOf(d.removed).Keys + FieldsOf(d.added) + Targets(FieldsOf(d.changed)))
  }

  method Compute(from: Json, to: Json) returns (d: Diff)
    ensures d == ComputeDiff(from, to)
  {
    var added, removed, changed: Fields := map[], map[], map[];
    if from.Object? && to.Object? {
      var a, b := from.fields, to.fields;
      added, changed := Forward(a, b);
      removed := Missing(b, a);
    }
    d := Diff(Object(added), Object(removed), Object(changed));
  }

  /** The parts of the result that come from the fields already visited. */
  ghost function AddedOver(a: Fields, b: Fields, seen: set<string>): Fields {
    map k | k in b && k in seen && k !in a :: b[k]
  }

  ghost function ChangedOver(a: Fields, b: Fields, seen: set<string>): Fields {
    map k | k in b && k in seen && k in a && a[k] != b[k] :: Change(a[k], b[k])
  }

  lemma VisitAdded(a: Fields, b: Fields, seen: set<string>, key: string)
    requires key in b
    ensures AddedOver(a, b, seen + {key})
         == if key in a then AddedOver(a, b, seen) else AddedOver(a, b, seen)[key := b[key]]
  {
  }

  lemma VisitChanged(a: Fields, b: Fields, seen: set<string>, key: string)
    requires key in b && key !in seen
    ensures ChangedOver(a, b, seen + {key})
         == if key in a && a[key] != b[key] then ChangedOver(a, b, seen)[key := Change(a[key], b[key])]
            else ChangedOver(a, b, seen)
  {
  }

  /** The loop over the new object's fields. */
  method Forward(a: Fields, b: Fields) returns (added: Fields, changed: Fields)
    ensures added == Added(a, b) && changed == Changed(a, b)
  {
    added, changed := map[], map[];
    var todo := b.Keys;
    ghost var seen: set<string> := {};
    while todo != {}
      invariant todo !! seen && todo + seen == b.Keys
      invariant added == AddedOver(a, b, seen) && changed == ChangedOver(a, b, seen)
      decreases todo
    {
      var key :| key in todo;
      VisitAdded(a, b, seen, key);
      VisitChanged(a, b, seen, key);
      if key in a {
        if a[key] != b[key] {
          changed := changed[key := Change(a[key], b[key])];
        }
      } else {
        added := added[key := b[key]];
      }
      todo, seen := todo - {key}, seen + {key};
    }
    assert seen == b.Keys;
  }

  /** The loop over the old object's fields. */
  method Missing(b: Fields, a: Fields) returns (removed: Fields)
    ensures removed == Added(b, a)
  {
    removed := map[];
    var todo := a.Keys;
    while todo != {}
      invariant todo <= a.Keys
      invariant removed == map k | k in a && k !in todo && k !in b :: a[k]
      decreases todo
    {
      var key :| key in todo;
      if key !in b {
        removed := removed[key := a[key]];
      }
      todo := todo - {key};
    }
  }

  method Apply(content: Json, d: Diff) returns (result: Json)
    ensures result == ApplyDiff(content, d)
  {
    if !content.Object? { return content; }
    var obj := RemoveKeys(content.fields, FieldsOf(d.removed).Keys);
    obj := InsertAll(obj, FieldsOf(d.added));
    obj := InsertTargets(obj, FieldsOf(d.changed));
    result := Object(obj);
  }

  method RemoveKeys(obj: Fields, keys: set<string>) returns (r: Fields)
    ensures r == obj - keys
  {
    r := obj;
    var todo := keys;
    while todo != {}
      invariant todo <= keys && r == obj - (keys - todo)
      decreases todo
    {
      var key :| key in todo;
      r, todo := r - {key}, todo - {key};
    }
  }

  method InsertAll(obj: Fields, added: Fields) returns (r: Fields)
    ensures r == obj + added
  {
    r := obj;
    var todo := added.Keys;
    while todo != {}
      invariant todo <= added.Keys
      invariant r == obj + map k | k in added && k !in todo :: added[k]
      decreases todo
    {
      var key :| key in todo;
      r, todo := r[key := added[key]], todo - {key};
    }
    assert (map k | k in added && k !in todo :: added[k]) == added;
  }

  method InsertTargets(obj: Fields, changed: Fields) returns (r: Fields)
    ensures r == obj + Targets(changed)
  {
    r := obj;
    var todo := changed.Keys;
    while todo != {}
      invariant todo <= changed.Keys
      invariant r == obj + map k | k in changed && k !in todo && Target(changed[k]).Some? :: Target(changed[k]).value
      decreases todo
    {
      var key :| key in todo;
      if Target(changed[key]).Some? {
        r := r[key := Target(changed[key]).value];
      }
      todo := todo - {key};
    }
    assert (map k | k in changed && k !in todo && Target(changed[k]).Some? :: Target(changed[k]).value)
        == Targets(changed);
  }

  // ------------------------------------------------------------- its promises

  /** The value of a field, or its absence. */
  function Field(f: Fields, k: string): Option<Json> {
    if k in f then Some(f[k]) else None
  }

  lemma SameFields(f: Fields, g: Fields)
    requires forall k :: Field(f, k) == Field(g, k)
    ensures f == g
  {
    forall k ensures k in f <==> k in g { assert Field(f, k) == Field(g, k); }
    forall k | k in f && k in g ensures f[k] == g[k] { assert Field(f, k) == Field(g, k); }
  }

  /** Applied to any object, the diff from `a` to `b` fixes the fields on which they differ
      and leaves every other field alone. */
  lemma ApplyField(c: Fields, a: Fields, b: Fields, k: string)
    ensures var r := ApplyDiff(Object(c), ComputeDiff(Object(a), Object(b)));
            && r.Object?
            && Field(r.fields, k) == if Field(a, k) == Field(b, k) then Field(c, k) else Field(b, k)
  {
    if k in a && k in b && a[k] != b[k] {
      var ch := Changed(a, b);
      assert Target(ch[k]) == Some(b[k]);
    }
  }

  /** For objects, the diff from `a` to `b` turns `a` into `b`; the only other pair of
      contents for which that works is an unchanged one. */
  lemma ApplyExact(a: Json, b: Json)
    ensures ApplyDiff(a, ComputeDiff(a, b)) == b <==> (a.Object? && b.Object?) || a == b
  {
    if a.Object? && b.Object? {
      var r := ApplyDiff(a, ComputeDiff(a, b)).fields;
      forall k ensures Field(r, k) == Field(b.fields, k) { ApplyField(a.fields, a.fields, b.fields, k); }
      SameFields(r, b.fields);
    } else if a.Object? {
      assert a.fields - {} + map[] + Targets(map[]) == a.fields;
    }
  }

  /** What a diff records of each field: the new value of an added one, the old value of a removed
      one, and both values of a changed one. */
  lemma DiffRecords(a: Fields, b: Fields, k: string)
    ensures var d := ComputeDiff(Object(a), Object(b));
            && Field(FieldsOf(d.added), k) == (if k !in a then Field(b, k) else None)
            && Field(FieldsOf(d.removed), k) == (if k !in b then Field(a, k) else None)
            && Field(FieldsOf(d.changed), k)
               == (if k in a && k in b && a[k] != b[k] then Some(Object(map["from" := a[k], "to" := b[k]])) else None)
  {
  }

  /** The two values of a recorded change, exchanged. */
  function SwapChange(change: Json): Json {
    if change.Object? && "from" in change.fields && "to" in change.fields
    then Object(map["from" := change.fields["to"], "to" := change.fields["from"]]) else change
  }

  function SwapChanges(changed: Fields): Fields {
    map k | k in changed :: SwapChange(changed[k])
  }

  /** The reverse diff is the same record read backwards: nothing is lost in either direction. */
  lemma ReverseSwaps(a: Json, b: Json)
    ensures var d := ComputeDiff(a, b);
            ComputeDiff(b, a) == Diff(d.removed, d.added, Object(SwapChanges(FieldsOf(d.changed))))
  {
    if a.Object? && b.Object? {
      var there, back := Changed(a.fields, b.fields), Changed(b.fields, a.fields);
      forall k | k in there ensures SwapChange(there[k]) == back[k] {
        assert "from" in there[k].fields && "to" in there[k].fields;
      }
      assert SwapChanges(there) == back;
    } else {
      assert SwapChanges(map[]) == map[];
    }
  }

  lemma DiffOfSame(a: Json)
    ensures ComputeDiff(a, a) == EMPTY
  {
  }

  /** Applying a diff and then the reverse diff is the identity on the first content. */
  lemma ReverseUndoes(a: Json, b: Json)
    ensures ApplyDiff(ApplyDiff(a, ComputeDiff(a, b)), ComputeDiff(b, a)) == a
  {
    if a.Object? && b.Object? {
      ApplyExact(a, b);
      ApplyExact(b, a);
    } else {
      ApplyExact(a, a);
    }
  }

  /** Diffs that touch different fields commute, on any object. */
  lemma DisjointCommute(c: Fields, a: Fields, b: Fields, x: Fields, y: Fields)
    requires forall k :: Field(a, k) == Field(b, k) || Field(x, k) == Field(y, k)
    ensures var d, e := ComputeDiff(Object(a), Object(b)), ComputeDiff(Object(x), Object(y));
            ApplyDiff(ApplyDiff(Object(c), d), e) == ApplyDiff(ApplyDiff(Object(c), e), d)
  {
    var d, e := ComputeDiff(Object(a), Object(b)), ComputeDiff(Object(x), Object(y));
    var cd, ce := ApplyDiff(Object(c), d).fields, ApplyDiff(Object(c), e).fields;
    var l, r := ApplyDiff(Object(cd), e).fields, ApplyDiff(Object(ce), d).fields;
    forall k ensures Field(l, k) == Field(r, k) {
      ApplyField(c, a, b, k);
      ApplyField(c, x, y, k);
      ApplyField(cd, x, y, k);
      ApplyField(ce, a, b, k);
    }
    SameFields(l, r);
  }

  /** Folds the diffs between consecutive revisions over a content. */
  function Replay(content: Json, history: seq<Json>): Json
    requires history != []
    decreases |history|
  {
    if |history| == 1 then content
    else Replay(ApplyDiff(content, ComputeDiff(history[0], history[1])), history[1..])
  }

  /** Replaying the diffs of a chain of object contents rebuilds the last from the first. */
  lemma {:induction false} ReplayChain(history: seq<Json>)
    requires history != [] && forall i :: 0 <= i < |history| ==> history[i].Object?
    ensures Replay(history[0], history) == history[|history| - 1]
    decreases |history|
  {
    if |history| > 1 {
      ApplyExact(history[0], history[1]);
      ReplayChain(history[1..]);
    }
  }
}
