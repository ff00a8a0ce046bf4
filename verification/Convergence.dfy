/** Repeated configuration passes over a fixed set of nodes reach a fixpoint: a rank counts
    exactly the writing passes that are left. */
module Convergence {
  import opened Addresses
  import opened Conditions
  import opened Model

  /** One configuration pass in which every call succeeds. */
  function Pass(c: ConfigObj, found: seq<string>, now: int): ConfigObj {
    if !c.finalizer then c.(finalizer := true)
    else c.(status := ReconciledStatus(c, found, now))
  }

  predicate Waiting(cs: seq<Condition>) {
    Lookup(cs, WaitingForMatchingNodes).status == IsTrue
  }

  ghost function StatusRank(s: Status, found: seq<string>): nat {
    if found != [] then
      if s.addresses == Sort(found) && s.phase != NoPhase && Complete(s.conditions) then 0 else 1
    else if s.addresses != [] then
      if Waiting(s.conditions) then 2 else 3
    else
      if Waiting(s.conditions) && Complete(s.conditions) then 0 else 1
  }

  /** How many more passes will write. */
  ghost function Rank(c: ConfigObj, found: seq<string>): nat {
    StatusRank(c.status, found) + if c.finalizer then 0 else 1
  }

  /** The status before the node comparison: complete, and still waiting or not as before. */
  lemma Prepared(c: ConfigObj, found: seq<string>, now: int)
    ensures var s, s' := c.status, PreparedStatus(c, found, now);
            && Complete(s'.conditions) && s'.phase == s.phase
            && (found == [] && !Waiting(s.conditions) ==> Waiting(s'.conditions) && s'.addresses == s.addresses)
            && (found != [] || Waiting(s.conditions) ==>
                  && s'.addresses == Sort(found)
                  && (Waiting(s'.conditions) <==> multiset(found) == multiset(s.addresses) && Waiting(s.conditions))
                  && (multiset(found) == multiset(s.addresses) && Complete(s.conditions) ==>
                      s'.conditions == s.conditions))
  {
    hide IndexOf, Sort, Set, Lookup, Exists;
    var cs := InitConditions(c.status.conditions, BASELINE, c.generation, now);
    InitCompletes(c.status.conditions, c.generation, now);
    var waiting, message := WaitingCondition(c.generation, now), FoundCondition(Sort(found), c.generation, now);
    forall t: ConditionType
      ensures Exists(cs, t) ==> Exists(Set(cs, waiting), t) && Exists(Set(cs, message), t)
    {
      LookupAfterSet(cs, waiting, t);
      LookupAfterSet(cs, message, t);
    }
    LookupAfterSet(cs, waiting, WaitingForMatchingNodes);
    LookupAfterSet(cs, message, WaitingForMatchingNodes);
    SortOfPermutation(found, c.status.addresses);
  }

  /** The rank is zero exactly at fixpoints, and every writing pass lowers it by exactly one. */
  lemma PassLowersRank(c: ConfigObj, found: seq<string>, now: int)
    ensures Pass(c, found, now) == c <==> Rank(c, found) == 0
    ensures Pass(c, found, now) != c ==> Rank(Pass(c, found, now), found) == Rank(c, found) - 1
  {
    hide InitConditions, Sort, FindMasterNodes, PreparedStatus, Complete, Lookup, ReconciledStatus;
    if c.finalizer {
      if found == [] {
        EmptyPassLowersRank(c, now);
      } else {
        MatchingPassLowersRank(c, found, now);
      }
    }
  }

  lemma EmptyPassLowersRank(c: ConfigObj, now: int)
    ensures var s, s' := c.status, ReconciledStatus(c, [], now);
            && (s' == s <==> StatusRank(s, []) == 0)
            && (s' != s ==> StatusRank(s', []) == StatusRank(s, []) - 1)
  {
    hide InitConditions, Sort, FindMasterNodes, PreparedStatus, Complete, Lookup;
    Prepared(c, [], now);
    SortMeaning([]);
    if c.status.addresses != [] {
      assert |multiset(c.status.addresses)| > 0;
    }
  }

  lemma MatchingPassLowersRank(c: ConfigObj, found: seq<string>, now: int)
    requires found != []
    ensures var s, s' := c.status, ReconciledStatus(c, found, now);
            && (s' == s <==> StatusRank(s, found) == 0)
            && (s' != s ==> StatusRank(s', found) == StatusRank(s, found) - 1)
  {
    hide InitConditions, Sort, FindMasterNodes, PreparedStatus, Complete, Lookup;
    Prepared(c, found, now);
    SortMeaning(found);
    if c.status.addresses == Sort(found) {
      SortOfSorted(c.status.addresses);
    }
  }

  /** The object after `n` passes; every pass has its own listing order and clock reading. */
  function Passes(c: ConfigObj, listings: nat -> seq<string>, clock: nat -> int, n: nat): ConfigObj {
    if n == 0 then c else
      var before := Passes(c, listings, clock, n - 1);
      Pass(before, listings(n - 1), clock(n - 1))
  }

  lemma PassListingOrder(c: ConfigObj, found: seq<string>, permuted: seq<string>, now: int)
    requires multiset(found) == multiset(permuted)
    ensures Pass(c, found, now) == Pass(c, permuted, now)
  {
    hide InitConditions, Sort, Set, Lookup;
    var cs := InitConditions(c.status.conditions, BASELINE, c.generation, now);
    ListingOrderIrrelevant(c.status.(conditions := cs), c.generation, found, permuted, now);
  }

  lemma {:induction false} RankAfter(c: ConfigObj, found: seq<string>, listings: nat -> seq<string>, clock: nat -> int,
                                     n: nat)
    requires forall i: nat :: multiset(listings(i)) == multiset(found)
    ensures Rank(Passes(c, listings, clock, n), found) == if n <= Rank(c, found) then Rank(c, found) - n else 0
  {
    hide StatusRank, Pass;
    if n > 0 {
      RankAfter(c, found, listings, clock, n - 1);
      var before := Passes(c, listings, clock, n - 1);
      PassListingOrder(before, listings(n - 1), found, clock(n - 1));
      PassLowersRank(before, found, clock(n - 1));
    }
  }

  /** What a run of passes never changes, and what it does to the waiting condition. */
  ghost predicate Tracks(s: Status, s': Status, found: seq<string>) {
    found != [] ==>
      && (s.phase == Deploying <==> s'.phase == Deploying)
      && (multiset(s.addresses) == multiset(found) ==>
            multiset(s'.addresses) == multiset(found) && (Waiting(s'.conditions) <==> Waiting(s.conditions)))
      && (multiset(s.addresses) != multiset(found) ==>
            || s'.addresses == s.addresses
            || (multiset(s'.addresses) == multiset(found) && !Waiting(s'.conditions)))
  }

  lemma PassTracks(c: ConfigObj, found: seq<string>, now: int)
    ensures Tracks(c.status, Pass(c, found, now).status, found)
  {
    hide InitConditions, Sort, FindMasterNodes, PreparedStatus, Complete;
    if c.finalizer {
      Prepared(c, found, now);
      SortMeaning(found);
      SortMeaning(c.status.addresses);
    }
  }

  lemma {:induction false} PassesTrack(c: ConfigObj, found: seq<string>, listings: nat -> seq<string>,
                                       clock: nat -> int, n: nat)
    requires forall i: nat :: multiset(listings(i)) == multiset(found)
    ensures Tracks(c.status, Passes(c, listings, clock, n).status, found)
  {
    hide Pass, Lookup;
    if n > 0 {
      PassesTrack(c, found, listings, clock, n - 1);
      var before := Passes(c, listings, clock, n - 1);
      PassListingOrder(before, listings(n - 1), found, clock(n - 1));
      PassTracks(before, found, clock(n - 1));
    }
  }

  /** From any state, at most four passes write, and they are the first `Rank` ones. From then
      on the object is a fixpoint that stores the sorted matching addresses: without matching
      nodes the waiting condition is true; with matching nodes the phase is Deployed unless the
      object arrived in the Deploying phase, and the waiting condition is true exactly when it was
      true to begin with and the stored addresses already matched. */
  lemma Converges(c: ConfigObj, found: seq<string>, listings: nat -> seq<string>, clock: nat -> int, n: nat)
    requires forall i: nat :: multiset(listings(i)) == multiset(found)
    ensures Rank(c, found) <= 4
    ensures Passes(c, listings, clock, n + 1) != Passes(c, listings, clock, n) <==> n < Rank(c, found)
    ensures n >= Rank(c, found) ==>
              var s := Passes(c, listings, clock, n).status;
              && Passes(c, listings, clock, n).finalizer
              && s.addresses == Sort(found)
              && Complete(s.conditions)
              && (found == [] ==> Waiting(s.conditions))
              && (found != [] ==>
                    && s.phase == (if c.status.phase == Deploying then Deploying else Deployed)
                    && (Waiting(s.conditions) <==>
                        Waiting(c.status.conditions) && multiset(c.status.addresses) == multiset(found)))
  {
    hide InitConditions, Sort, FindMasterNodes, PreparedStatus, Complete, Pass;
    var now := Passes(c, listings, clock, n);
    RankAfter(c, found, listings, clock, n);
    PassesTrack(c, found, listings, clock, n);
    PassListingOrder(now, listings(n), found, clock(n));
    PassLowersRank(now, found, clock(n));
    SortMeaning(found);
  }

  /** The waiting condition can stay true although nodes match: they came back after one
      empty pass that had not yet cleared the stored addresses. */
  lemma WaitingCanOutliveMatch(c: ConfigObj, now: int)
    requires c.finalizer && c.status.phase == Deployed && Complete(c.status.conditions)
    requires c.status.addresses == ["10.0.0.1"] && !Waiting(c.status.conditions)
    ensures var emptied := Pass(c, [], now);
            var back := Pass(emptied, ["10.0.0.1"], now);
            Waiting(back.status.conditions) && Rank(back, ["10.0.0.1"]) == 0
  {
    hide InitConditions, Sort, FindMasterNodes, PreparedStatus, Complete;
    Prepared(c, [], now);
    var emptied := Pass(c, [], now);
    SortOfSorted(["10.0.0.1"]);
    Prepared(emptied, ["10.0.0.1"], now);
  }
}
