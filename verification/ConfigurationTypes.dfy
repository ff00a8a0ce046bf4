/** The in-memory Configuration a reconcile pass works on: a private deep copy whose address
    slice is sorted and shifted in place. */
module ConfigurationTypes {
  import opened Text
  import opened Addresses
  import opened Conditions
  import opened Model

  class Configuration {
    var addresses: array<string>
    var addressCount: nat
    var conditions: seq<Condition>
    var phase: Phase
    const generation: nat

    ghost predicate Valid()
      reads this
    {
      addressCount <= addresses.Length
    }

    ghost function StatusValue(): Status
      requires Valid()
      reads this, addresses
    {
      Status(addresses[..addressCount], conditions, phase)
    }

    /** A deep copy: nothing it does to its slice reaches the object it was read from. */
    constructor DeepCopy(from: ConfigObj)
      ensures Valid() && StatusValue() == from.status && generation == from.generation
      ensures fresh(addresses)
    {
      var stored := from.status.addresses;
      var copy := new string[|stored|](i requires 0 <= i < |stored| => stored[i]);
      addresses, addressCount := copy, |from.status.addresses|;
      conditions, phase, generation := from.status.conditions, from.status.phase, from.generation;
      new;
      assert addresses[..addressCount] == from.status.addresses;
    }

    /** Overwrites the first condition of the type, or appends one. */
    method SetCondition(ctype: ConditionType, status: ConditionStatus, message: string, reason: string, now: int)
      modifies this`conditions
      ensures conditions == Set(old(conditions), Condition(ctype, status, message, reason, now, generation))
    {
      var i := 0;
      while i < |conditions|
        invariant 0 <= i <= |conditions| && conditions == old(conditions)
        invariant forall j :: 0 <= j < i ==> conditions[j].ctype != ctype
      {
        if conditions[i].ctype == ctype {
          IndexIs(conditions, ctype, i);
          conditions := conditions[i := conditions[i].(status := status, message := message, reason := reason,
                                                       transition := now, observedGeneration := generation)];
          return;
        }
        i := i + 1;
      }
      conditions := conditions + [Condition(ctype, status, message, reason, now, generation)];
    }

    method LookupCondition(ctype: ConditionType) returns (c: Condition)
      ensures c == Lookup(conditions, ctype)
    {
      var i := 0;
      while i < |conditions|
        invariant 0 <= i <= |conditions|
        invariant forall j :: 0 <= j < i ==> conditions[j].ctype != ctype
      {
        if conditions[i].ctype == ctype {
          IndexIs(conditions, ctype, i);
          return conditions[i];
        }
        i := i + 1;
      }
      return ZERO_CONDITION;
    }

    method ConditionExists(ctype: ConditionType) returns (exists': bool)
      ensures exists' == Exists(conditions, ctype)
    {
      var i := 0;
      while i < |conditions|
        invariant 0 <= i <= |conditions|
        invariant forall j :: 0 <= j < i ==> conditions[j].ctype != ctype
      {
        if conditions[i].ctype == ctype {
          return true;
        }
        i := i + 1;
      }
      return false;
    }

    method ConditionTrue(ctype: ConditionType) returns (isTrue: bool)
      ensures isTrue == (Lookup(conditions, ctype).status == IsTrue)
    {
      var c := LookupCondition(ctype);
      return c.status == IsTrue;
    }

    method InitializeCondition(ctype: ConditionType, now: int)
      modifies this`conditions
      ensures conditions == InitConditions(old(conditions), [ctype], generation, now)
    {
      assert [ctype][1..] == [];
      var present := ConditionExists(ctype);
      if !present {
        SetCondition(ctype, IsUnknown, "Unknown", "ConditionUnknown", now);
      }
    }

    /** Adds every missing baseline condition, in the fixed order. */
    method InitializeConditions(now: int)
      modifies this`conditions
      ensures conditions == InitConditions(old(conditions), BASELINE, generation, now)
    {
      ghost var start := conditions;
      InitializeCondition(WaitingForMatchingNodes, now);
      ghost var c1 := conditions;
      InitializeCondition(NbLeaderFound, now);
      ghost var c2 := conditions;
      InitializeCondition(SbLeaderFound, now);
      ghost var c3 := conditions;
      InitializeCondition(NbDbHealth, now);
      ghost var c4 := conditions;
      InitializeCondition(SbDbHealth, now);
      InitInSteps(start, c1, c2, c3, c4, conditions, generation, now);
    }

    /** Compares the found addresses with the stored ones; both slices end up sorted, and the
        sorted found slice is what gets stored when they differ. */
    method FindMasterNodes(found: array<string>, n: nat, now: int)
      requires Valid() && n <= found.Length && found != addresses
      modifies this`conditions, this`addresses, this`addressCount, addresses, found
      ensures Valid() && addresses in {old(addresses), found}
      ensures StatusValue() == Model.FindMasterNodes(old(StatusValue()), generation, old(found[..n]), now)
    {
      hide Sort, Set, Join;
      if n == 0 {
        var waiting := ConditionTrue(WaitingForMatchingNodes);
        if !waiting {
          SetCondition(WaitingForMatchingNodes, IsTrue, "Waiting for matching nodes", "NodesNotFound", now);
          return;
        }
      }
      ghost var s, f := StatusValue(), found[..n];
      var equal := AddressArrayEqual(found, n, addresses, addressCount);
      if !equal {
        SetCondition(WaitingForMatchingNodes, IsFalse, "found nodes " + Join(found[..n], ','), "NodesFound", now);
        addresses, addressCount := found, n;
      }
    }
  }

  lemma {:induction false} InitAppend(cs: seq<Condition>, a: seq<ConditionType>, b: seq<ConditionType>, generation: nat,
                                      now: int)
    ensures InitConditions(cs, a + b, generation, now) ==
              InitConditions(InitConditions(cs, a, generation, now), b, generation, now)
    decreases a
  {
    if a == [] {
      assert a + b == b;
    } else {
      assert (a + b)[1..] == a[1..] + b;
      var next := if Exists(cs, a[0]) then cs else Set(cs, UnknownCondition(a[0], generation, now));
      InitAppend(next, a[1..], b, generation, now);
    }
  }

  lemma InitInSteps(c0: seq<Condition>, c1: seq<Condition>, c2: seq<Condition>, c3: seq<Condition>, c4: seq<Condition>,
                    c5: seq<Condition>, generation: nat, now: int)
    requires c1 == InitConditions(c0, [WaitingForMatchingNodes], generation, now)
    requires c2 == InitConditions(c1, [NbLeaderFound], generation, now)
    requires c3 == InitConditions(c2, [SbLeaderFound], generation, now)
    requires c4 == InitConditions(c3, [NbDbHealth], generation, now)
    requires c5 == InitConditions(c4, [SbDbHealth], generation, now)
    ensures c5 == InitConditions(c0, BASELINE, generation, now)
  {
    hide InitConditions;
    var a, b := [WaitingForMatchingNodes], [WaitingForMatchingNodes, NbLeaderFound];
    var c := [WaitingForMatchingNodes, NbLeaderFound, SbLeaderFound];
    var d := [WaitingForMatchingNodes, NbLeaderFound, SbLeaderFound, NbDbHealth];
    InitAppend(c0, a, [NbLeaderFound], generation, now);
    assert a + [NbLeaderFound] == b;
    InitAppend(c0, b, [SbLeaderFound], generation, now);
    assert b + [SbLeaderFound] == c;
    InitAppend(c0, c, [NbDbHealth], generation, now);
    assert c + [NbDbHealth] == d;
    InitAppend(c0, d, [SbDbHealth], generation, now);
    assert d + [SbDbHealth] == BASELINE;
  }
}
