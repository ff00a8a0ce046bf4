/** The field-wise status patch is the RFC 7396 merge patch of the JSON encodings. */
module StatusPatch {
  import opened MergePatch
  import opened Conditions
  import opened Model

  /** Scalars as they occur in a status; RFC 7396 never looks inside one. */
  datatype Scalar =
    | Text(text: string)
    | Number(number: int)
    | TypeName(ctype: ConditionType)
    | StatusName(status: ConditionStatus)
    | PhaseName(phase: Phase)

  /** `omitempty`: the member is absent when its value is empty. */
  function Member(present: bool, name: string, value: Json<Scalar>): map<string, Json<Scalar>> {
    if present then map[name := value] else map[]
  }

  function EncodeCondition(c: Condition): Json<Scalar> {
    Obj(map[
          "type" := Leaf(TypeName(c.ctype)),
          "status" := Leaf(StatusName(c.status)),
          "message" := Leaf(Text(c.message)),
          "reason" := Leaf(Text(c.reason)),
          "lastTransitionTime" := Leaf(Number(c.transition))] +
        Member(c.observedGeneration != 0, "observedGeneration", Leaf(Number(c.observedGeneration))))
  }

  function EncodeConditions(cs: seq<Condition>): (j: Json<Scalar>)
    ensures j.Arr?
  {
    Arr(seq(|cs|, i requires 0 <= i < |cs| => EncodeCondition(cs[i])))
  }

  function EncodeAddresses(xs: seq<string>): (j: Json<Scalar>)
    ensures j.Arr?
  {
    Arr(seq(|xs|, i requires 0 <= i < |xs| => Leaf(Text(xs[i]))))
  }

  const ADDRESSES := "matchingNodeAddresses"
  const CONDITIONS := "conditions"
  const PHASE := "status"

  function Encode(s: Status): Json<Scalar> {
    Obj(Member(s.addresses != [], ADDRESSES, EncodeAddresses(s.addresses)) +
        Member(s.conditions != [], CONDITIONS, EncodeConditions(s.conditions)) +
        Member(s.phase != NoPhase, PHASE, Leaf(PhaseName(s.phase))))
  }

  lemma EncodeConditionInjective(a: Condition, b: Condition)
    requires EncodeCondition(a) == EncodeCondition(b)
    ensures a == b
  {
    assert "status"[0] != "reason"[0] && "lastTransitionTime"[0] != "observedGeneration"[0];
    var x, y := EncodeCondition(a).fields, EncodeCondition(b).fields;
    assert x["type"] == y["type"] && x["status"] == y["status"] && x["message"] == y["message"];
    assert x["reason"] == y["reason"] && x["lastTransitionTime"] == y["lastTransitionTime"];
    assert "observedGeneration" in x <==> "observedGeneration" in y;
    if a.observedGeneration != 0 {
      assert x["observedGeneration"] == y["observedGeneration"];
    }
  }

  lemma EncodeConditionsInjective(a: seq<Condition>, b: seq<Condition>)
    ensures EncodeConditions(a) == EncodeConditions(b) <==> a == b
  {
    if EncodeConditions(a) == EncodeConditions(b) {
      var x, y := EncodeConditions(a).items, EncodeConditions(b).items;
      assert |a| == |x| == |y| == |b|;
      forall i | 0 <= i < |a| ensures a[i] == b[i] {
        assert x[i] == y[i];
        EncodeConditionInjective(a[i], b[i]);
      }
    }
  }

  lemma EncodeAddressesInjective(a: seq<string>, b: seq<string>)
    ensures EncodeAddresses(a) == EncodeAddresses(b) <==> a == b
  {
    if EncodeAddresses(a) == EncodeAddresses(b) {
      var x, y := EncodeAddresses(a).items, EncodeAddresses(b).items;
      assert |a| == |x| == |y| == |b|;
      forall i | 0 <= i < |a| ensures a[i] == b[i] {
        assert x[i] == y[i];
      }
    }
  }

  /** `j` is a JSON form of `s`: exactly the non-empty members, each with its encoding. */
  ghost predicate Represents(j: Json<Scalar>, s: Status) {
    && j.Obj?
    && j.fields.Keys <= {ADDRESSES, CONDITIONS, PHASE}
    && (ADDRESSES in j.fields <==> s.addresses != [])
    && (ADDRESSES in j.fields ==> j.fields[ADDRESSES] == EncodeAddresses(s.addresses))
    && (CONDITIONS in j.fields <==> s.conditions != [])
    && (CONDITIONS in j.fields ==> j.fields[CONDITIONS] == EncodeConditions(s.conditions))
    && (PHASE in j.fields <==> s.phase != NoPhase)
    && (PHASE in j.fields ==> j.fields[PHASE] == Leaf(PhaseName(s.phase)))
  }

  lemma NamesDiffer()
    ensures ADDRESSES != CONDITIONS && CONDITIONS != PHASE && ADDRESSES != PHASE
  {
    assert |ADDRESSES| == 21 && |CONDITIONS| == 10 && |PHASE| == 6;
  }

  /** A document represents a status exactly when it is the status's encoding. */
  lemma EncodeRepresents(j: Json<Scalar>, s: Status)
    ensures Represents(j, s) <==> j == Encode(s)
  {
    hide EncodeConditions, EncodeAddresses;
    NamesDiffer();
    assert Represents(Encode(s), s);
    if Represents(j, s) {
      assert j.fields.Keys == Encode(s).fields.Keys;
      assert j.fields == Encode(s).fields;
    }
  }

  /** Members that are not objects are kept when base and modified agree, replaced otherwise. */
  lemma FlatMember(a: Json<Scalar>, b: Json<Scalar>, c: Json<Scalar>, k: string)
    requires a.Obj? && b.Obj? && c.Obj?
    requires k in a.fields ==> !a.fields[k].Obj?
    requires k in b.fields ==> !b.fields[k].Obj? && !b.fields[k].Null?
    ensures var r := Merge(c, Diff(a, b));
            && r.Obj?
            && var agree := (k in a.fields <==> k in b.fields) && (k in a.fields ==> a.fields[k] == b.fields[k]);
            && var source := if agree then c.fields else b.fields;
            && (k in r.fields <==> k in source) && (k in source ==> r.fields[k] == source[k])
  {
    MergedMember(a, b, c, k);
    if k in a.fields.Keys + b.fields.Keys {
      assert k in Diff(a, b).fields <==> Differs(a, b, k);
    }
  }

  lemma PatchRepresents(a: Json<Scalar>, b: Json<Scalar>, c: Json<Scalar>, current: Status, base: Status,
                        modified: Status)
    requires Represents(a, base) && Represents(b, modified) && Represents(c, current)
    ensures Represents(Merge(c, Diff(a, b)), PatchStatus(current, base, modified))
  {
    hide Merge, Diff, EncodeConditions, EncodeAddresses;
    EncodeAddressesInjective(base.addresses, modified.addresses);
    EncodeConditionsInjective(base.conditions, modified.conditions);
    FlatMember(a, b, c, ADDRESSES);
    FlatMember(a, b, c, CONDITIONS);
    FlatMember(a, b, c, PHASE);
    var r := Merge(c, Diff(a, b));
    forall k | k in r.fields ensures k in {ADDRESSES, CONDITIONS, PHASE} {
      FlatMember(a, b, c, k);
    }
  }

  /** For every base, every modification and every newer current status: the API server's
      result is the encoding of the field-wise patch. */
  lemma PatchIsMergePatch(current: Status, base: Status, modified: Status)
    ensures Merge(Encode(current), Diff(Encode(base), Encode(modified))) == Encode(PatchStatus(current, base, modified))
  {
    var a, b, c := Encode(base), Encode(modified), Encode(current);
    EncodeRepresents(a, base);
    EncodeRepresents(b, modified);
    EncodeRepresents(c, current);
    PatchRepresents(a, b, c, current, base, modified);
    EncodeRepresents(Merge(c, Diff(a, b)), PatchStatus(current, base, modified));
  }
}
