/** The status-condition list, and the finite map it stands for. */
module Conditions {

  /** The five condition types the operator writes, and any other name. */
  datatype ConditionType =
    | WaitingForMatchingNodes
    | NbLeaderFound
    | SbLeaderFound
    | NbDbHealth
    | SbDbHealth
    | OtherType(name: string)

  datatype ConditionStatus = Unset | IsTrue | IsFalse | IsUnknown

  /** `transition` is in whole seconds, the precision the API server keeps. */
  datatype Condition = Condition(
    ctype: ConditionType,
    status: ConditionStatus,
    message: string,
    reason: string,
    transition: int,
    observedGeneration: int)

  /** Year 1 in Unix seconds: the zero time a missing condition reports. */
  const ZERO_TIME := -62135596800

  const ZERO_CONDITION := Condition(OtherType(""), Unset, "", "", ZERO_TIME, 0)

  function Types(cs: seq<Condition>): seq<ConditionType> {
    seq(|cs|, i requires 0 <= i < |cs| => cs[i].ctype)
  }

  /** The position of the first entry of a type, or the length if there is none. */
  function IndexOf(cs: seq<Condition>, t: ConditionType): (i: nat)
    ensures i <= |cs|
    ensures i < |cs| ==> cs[i].ctype == t
    ensures forall j :: 0 <= j < i ==> cs[j].ctype != t
  {
    if cs == [] then 0
    else if cs[0].ctype == t then 0
    else 1 + IndexOf(cs[1..], t)
  }

  predicate Exists(cs: seq<Condition>, t: ConditionType) {
    IndexOf(cs, t) < |cs|
  }

  function Lookup(cs: seq<Condition>, t: ConditionType): Condition {
    if Exists(cs, t) then cs[IndexOf(cs, t)] else ZERO_CONDITION
  }

  /** Overwrites the first entry of the type, or appends. */
  function Set(cs: seq<Condition>, e: Condition): seq<Condition> {
    var i := IndexOf(cs, e.ctype);
    if i < |cs| then cs[i := e] else cs + [e]
  }

  function SetAll(cs: seq<Condition>, es: seq<Condition>): seq<Condition>
    decreases es
  {
    if es == [] then cs else SetAll(Set(cs, es[0]), es[1..])
  }

  ghost predicate UniqueTypes(cs: seq<Condition>) {
    forall i, j :: 0 <= i < j < |cs| ==> cs[i].ctype != cs[j].ctype
  }

  /** The map a list stands for: the first entry of each type. */
  ghost function AsMap(cs: seq<Condition>): map<ConditionType, Condition> {
    map t | t in Types(cs) :: Lookup(cs, t)
  }

  ghost function UpdateAll(m: map<ConditionType, Condition>, es: seq<Condition>): map<ConditionType, Condition>
    decreases es
  {
    if es == [] then m else UpdateAll(m[es[0].ctype := es[0]], es[1..])
  }

  lemma IndexIs(cs: seq<Condition>, t: ConditionType, i: nat)
    requires i < |cs| && cs[i].ctype == t && forall j :: 0 <= j < i ==> cs[j].ctype != t
    ensures IndexOf(cs, t) == i
  {
  }

  lemma ExistsIsMembership(cs: seq<Condition>, t: ConditionType)
    ensures Exists(cs, t) <==> t in Types(cs)
  {
    if t in Types(cs) {
      var j :| 0 <= j < |cs| && Types(cs)[j] == t;
      assert cs[j].ctype == t;
    }
    if Exists(cs, t) {
      assert Types(cs)[IndexOf(cs, t)] == t;
    }
  }

  /** Lookup reads the map; a missing type reads as the zero condition. */
  lemma LookupReadsMap(cs: seq<Condition>, t: ConditionType)
    ensures Exists(cs, t) <==> t in AsMap(cs)
    ensures Lookup(cs, t) == if t in AsMap(cs) then AsMap(cs)[t] else ZERO_CONDITION
  {
    ExistsIsMembership(cs, t);
  }

  /** Setting keeps every position and every other entry; the type list grows only at
      the end, and only for a new type. */
  lemma SetKeepsPositions(cs: seq<Condition>, e: Condition)
    ensures var r := Set(cs, e);
            && Types(r) == (if Exists(cs, e.ctype) then Types(cs) else Types(cs) + [e.ctype])
            && (forall i :: 0 <= i < |cs| && cs[i].ctype != e.ctype ==> r[i] == cs[i])
            && (UniqueTypes(cs) ==> UniqueTypes(r))
  {
  }

  /** Setting is a map update: the written entry is read back, every other type is unchanged. */
  lemma SetUpdatesMap(cs: seq<Condition>, e: Condition)
    ensures AsMap(Set(cs, e)) == AsMap(cs)[e.ctype := e]
  {
    var r := Set(cs, e);
    SetKeepsPositions(cs, e);
    forall t: ConditionType
      ensures t in AsMap(r) <==> t == e.ctype || t in AsMap(cs)
      ensures t in AsMap(r) ==> AsMap(r)[t] == if t == e.ctype then e else AsMap(cs)[t]
    {
      LookupReadsMap(r, t);
      LookupReadsMap(cs, t);
      var i := IndexOf(cs, t);
      if i < |cs| {
        IndexIs(r, t, i);
      } else if t == e.ctype {
        IndexIs(r, t, |cs|);
      } else {
        assert forall j :: 0 <= j < |r| ==> r[j].ctype == Types(r)[j];
      }
    }
  }

  /** Any sequence of sets equals the same sequence of map updates. */
  lemma {:induction false} SetAllUpdatesMap(cs: seq<Condition>, es: seq<Condition>)
    ensures AsMap(SetAll(cs, es)) == UpdateAll(AsMap(cs), es)
    ensures UniqueTypes(cs) ==> UniqueTypes(SetAll(cs, es))
    decreases |es|
  {
    if es != [] {
      SetUpdatesMap(cs, es[0]);
      SetKeepsPositions(cs, es[0]);
      SetAllUpdatesMap(Set(cs, es[0]), es[1..]);
    }
  }

  /** What one set does to lookups of any type. */
  lemma LookupAfterSet(cs: seq<Condition>, e: Condition, t: ConditionType)
    ensures Lookup(Set(cs, e), t) == if t == e.ctype then e else Lookup(cs, t)
    ensures Exists(Set(cs, e), t) <==> t == e.ctype || Exists(cs, t)
  {
    SetUpdatesMap(cs, e);
    LookupReadsMap(cs, t);
    LookupReadsMap(Set(cs, e), t);
  }
}
