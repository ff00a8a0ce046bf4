/** JSON merge patches (RFC 7396): applying a patch, and computing one as the difference
    of two documents. Scalars are opaque, so the scalar type is a parameter. */
module MergePatch {

  datatype Json<S> = Null | Leaf(value: S) | Arr(items: seq<Json<S>>) | Obj(fields: map<string, Json<S>>)

  datatype Option<T> = None | Some(value: T)

  function FieldsOf<S>(j: Json<S>): map<string, Json<S>> {
    if j.Obj? then j.fields else map[]
  }

  /** Section 2 of RFC 7396. A missing member behaves like any non-object target. */
  function Merge<S>(target: Json<S>, patch: Json<S>): Json<S>
    decreases patch
  {
    if !patch.Obj? then patch
    else
      var t, p := FieldsOf(target), patch.fields;
      Obj(map k | k in t.Keys + p.Keys && !(k in p && p[k].Null?) ::
            if k in p then Merge(if k in t then t[k] else Null, p[k]) else t[k])
  }

  /** Whether member `k` must appear in the patch from `a` to `b`. */
  predicate Differs<S(==)>(a: Json<S>, b: Json<S>, k: string)
    requires a.Obj? && b.Obj? && k in a.fields.Keys + b.fields.Keys
    decreases b, 0
  {
    k in a.fields && k in b.fields ==>
      if a.fields[k].Obj? && b.fields[k].Obj?
      then Diff(a.fields[k], b.fields[k]).fields != map[]
      else a.fields[k] != b.fields[k]
  }

  /** The patch from object `a` to object `b`: nested objects are compared member by member,
      arrays and scalars are replaced whole, a dropped member becomes null. */
  function Diff<S(==)>(a: Json<S>, b: Json<S>): (p: Json<S>)
    requires a.Obj? && b.Obj?
    ensures p.Obj? && p.fields.Keys <= a.fields.Keys + b.fields.Keys
    decreases b, 1
  {
    Obj(map k | k in a.fields.Keys + b.fields.Keys && Differs(a, b, k) ::
          if k !in b.fields then Null
          else if k in a.fields && a.fields[k].Obj? && b.fields[k].Obj? then Diff(a.fields[k], b.fields[k])
          else b.fields[k])
  }

  /** No explicit null anywhere inside objects: the documents a merge patch can express. */
  ghost predicate NullFree<S>(j: Json<S>) {
    j.Obj? ==> forall k <- j.fields :: !j.fields[k].Null? && NullFree(j.fields[k])
  }

  /** Merging a null-free document into a non-object yields the document. */
  lemma {:induction false} MergeIntoScalar<S>(target: Json<S>, patch: Json<S>)
    requires !target.Obj? && NullFree(patch)
    ensures Merge(target, patch) == patch
    decreases patch
  {
    if patch.Obj? {
      forall k | k in patch.fields ensures Merge(Null, patch.fields[k]) == patch.fields[k] {
        MergeIntoScalar(Null, patch.fields[k]);
      }
      assert Merge(target, patch).fields == patch.fields;
    }
  }

  /** An unchanged document has an empty patch. */
  lemma {:induction false} DiffOfEqual<S>(a: Json<S>)
    requires a.Obj?
    ensures Diff(a, a) == Obj(map[])
    decreases a
  {
    forall k | k in a.fields && a.fields[k].Obj? ensures !Differs(a, a, k) {
      DiffOfEqual(a.fields[k]);
    }
    assert Diff(a, a).fields == map[];
  }

  /** An empty patch means the documents agree. */
  lemma {:induction false} EmptyDiff<S>(a: Json<S>, b: Json<S>)
    requires a.Obj? && b.Obj? && Diff(a, b).fields == map[]
    ensures a == b
    decreases b
  {
    forall k | k in a.fields.Keys + b.fields.Keys
      ensures k in a.fields && k in b.fields && a.fields[k] == b.fields[k]
    {
      assert k !in Diff(a, b).fields;
      assert !Differs(a, b, k);
      if a.fields[k].Obj? && b.fields[k].Obj? {
        EmptyDiff(a.fields[k], b.fields[k]);
      }
    }
    assert a.fields.Keys == b.fields.Keys;
    assert a.fields == b.fields;
  }

  /** What a patch computed from a stale base does to one member of the current document. */
  lemma MergedMember<S>(a: Json<S>, b: Json<S>, current: Json<S>, k: string)
    requires a.Obj? && b.Obj?
    ensures var t, r, d := FieldsOf(current), Merge(current, Diff(a, b)).fields, Diff(a, b).fields;
            && (k !in d ==> (k in r <==> k in t) && (k in t ==> r[k] == t[k]))
            && (k in d && d[k].Null? ==> k !in r)
            && (k in d && !d[k].Null? ==> k in r && r[k] == Merge(if k in t then t[k] else Null, d[k]))
  {
  }

  /** Applying the difference to its own base gives the modified document. */
  lemma {:induction false} DiffRoundTrip<S>(a: Json<S>, b: Json<S>)
    requires a.Obj? && b.Obj? && NullFree(b)
    ensures Merge(a, Diff(a, b)) == b
    decreases b
  {
    var r := Merge(a, Diff(a, b)).fields;
    forall k: string ensures (k in r <==> k in b.fields) && (k in r ==> r[k] == b.fields[k]) {
      MergedMember(a, b, a, k);
      if k in b.fields {
        if k in a.fields && a.fields[k].Obj? && b.fields[k].Obj? {
          DiffRoundTrip(a.fields[k], b.fields[k]);
          if !Differs(a, b, k) {
            EmptyDiff(a.fields[k], b.fields[k]);
          }
        } else if Differs(a, b, k) {
          if k in a.fields && a.fields[k].Obj? {
            assert Merge(a.fields[k], b.fields[k]) == b.fields[k];
          } else {
            MergeIntoScalar(if k in a.fields then a.fields[k] else Null, b.fields[k]);
          }
        }
      }
    }
    assert r == b.fields;
  }

  /** The value at a path of member names, if the path exists. */
  function Get<S>(j: Json<S>, path: seq<string>): Option<Json<S>> {
    if path == [] then Some(j)
    else if path[0] in FieldsOf(j) then Get(FieldsOf(j)[path[0]], path[1..])
    else None
  }

  /** Every proper prefix of the path leads to an object. */
  predicate ObjectsAlong<S>(j: Json<S>, path: seq<string>) {
    path != [] ==>
      && j.Obj?
      && (|path| > 1 ==> path[0] in j.fields && ObjectsAlong(j.fields[path[0]], path[1..]))
  }

  /** Isolation: a path on which base and modified agree keeps whatever value the current
      document has there, however much newer the current document is. */
  lemma {:induction false} UntouchedPath<S>(a: Json<S>, b: Json<S>, current: Json<S>, path: seq<string>)
    requires path != [] && ObjectsAlong(a, path) && ObjectsAlong(b, path)
    requires Get(a, path) == Get(b, path)
    ensures Get(Merge(current, Diff(a, b)), path) == Get(current, path)
    decreases |path|
  {
    var k := path[0];
    MergedMember(a, b, current, k);
    if |path| == 1 {
      if k in a.fields && k in b.fields && a.fields[k].Obj? {
        DiffOfEqual(a.fields[k]);
      }
    } else if k in Diff(a, b).fields {
      var inner := if k in FieldsOf(current) then FieldsOf(current)[k] else Null;
      UntouchedPath(a.fields[k], b.fields[k], inner, path[1..]);
    }
  }
}
