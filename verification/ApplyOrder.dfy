/** The map of object types is iterated in arbitrary order, and a pass may stop anywhere. Neither
    matters to what a later complete application leaves in the object store. */
module ApplyOrder {
  import opened MergePatch
  import opened Model
  import opened Cluster

  /** What one type's list writes: the last object of a key wins. */
  ghost function KindMap(objs: seq<Rendered>, kind: Kind, owner: Owner): map<Key, Managed> {
    if objs == [] then map[]
    else
      var last := objs[|objs| - 1];
      KindMap(objs[..|objs| - 1], kind, owner)[Key(kind, last.namespace, last.name) := Managed(last.content, owner)]
  }

  /** The value the whole rendering prescribes for a key, with no reference to any order. */
  ghost function Expected(op: Operator, spec: Spec, addresses: seq<string>, configUid: nat, namespaceUid: nat,
                          k: Key): Option<Managed> {
    var m := KindMap(op.render(spec, addresses, k.kind), k.kind, OwnerOf(op, k.kind, configUid, namespaceUid));
    if k in m then Some(m[k]) else None
  }

  lemma {:induction false} ApplyAppend(objects: map<Key, Managed>, a: seq<Write>, b: seq<Write>)
    ensures ApplyAll(objects, a + b) == ApplyAll(ApplyAll(objects, a), b)
    decreases |a|
  {
    if a == [] {
      assert a + b == b;
    } else {
      assert (a + b)[1..] == a[1..] + b;
      ApplyAppend(if a[0].Apply? then objects[a[0].key := a[0].managed] else objects, a[1..], b);
    }
  }

  lemma {:induction false} ApplyKind(objects: map<Key, Managed>, objs: seq<Rendered>, kind: Kind, owner: Owner)
    ensures ApplyAll(objects, KindWrites(objs, kind, owner)) == objects + KindMap(objs, kind, owner)
    ensures forall k <- KindMap(objs, kind, owner) :: k.kind == kind
    decreases |objs|
  {
    if objs != [] {
      hide KindWrites, ApplyAll;
      var front, last := objs[..|objs| - 1], objs[|objs| - 1];
      var w := Apply(Key(kind, last.namespace, last.name), Managed(last.content, owner));
      KindWritesSnoc(objs, kind, owner);
      ApplyAppend(objects, KindWrites(front, kind, owner), [w]);
      ApplyKind(objects, front, kind, owner);
      ApplyOne(objects + KindMap(front, kind, owner), w);
    } else {
      assert KindWrites(objs, kind, owner) == [];
    }
  }

  lemma KindWritesSnoc(objs: seq<Rendered>, kind: Kind, owner: Owner)
    requires objs != []
    ensures var front, last := objs[..|objs| - 1], objs[|objs| - 1];
            KindWrites(objs, kind, owner) ==
            KindWrites(front, kind, owner) + [Apply(Key(kind, last.namespace, last.name), Managed(last.content, owner))]
  {
  }

  lemma ApplyOne(objects: map<Key, Managed>, w: Write)
    requires w.Apply?
    ensures ApplyAll(objects, [w]) == objects[w.key := w.managed]
  {
    assert [w][1..] == [];
  }

  ghost predicate Distinct(order: seq<Kind>) {
    forall i, j :: 0 <= i < j < |order| ==> order[i] != order[j]
  }

  /** A complete application in any order writes the expected value at every rendered key of the
      types it covers, and leaves every other key alone. */
  lemma {:induction false} ApplyMeaning(op: Operator, spec: Spec, addresses: seq<string>, configUid: nat,
                                        namespaceUid: nat, objects: map<Key, Managed>, order: seq<Kind>, k: Key)
    requires Distinct(order)
    ensures var r, e := ApplyAll(objects, ApplyWrites(op, spec, addresses, order, configUid, namespaceUid)),
                        Expected(op, spec, addresses, configUid, namespaceUid, k);
            if k.kind in order && e.Some? then k in r && r[k] == e.value
            else (k in r <==> k in objects) && (k in r ==> r[k] == objects[k])
    decreases |order|
  {
    if order != [] {
      var kind, owner := order[0], OwnerOf(op, order[0], configUid, namespaceUid);
      var objs := op.render(spec, addresses, kind);
      ApplyAppend(objects, KindWrites(objs, kind, owner),
                  ApplyWrites(op, spec, addresses, order[1..], configUid, namespaceUid));
      ApplyKind(objects, objs, kind, owner);
      ApplyMeaning(op, spec, addresses, configUid, namespaceUid, objects + KindMap(objs, kind, owner), order[1..], k);
    }
  }

  /** Some applications of a rendering: every key they write is a rendered key. */
  ghost predicate Partial(op: Operator, spec: Spec, addresses: seq<string>, configUid: nat, namespaceUid: nat,
                          ws: seq<Write>) {
    forall w <- ws :: w.Apply? && Expected(op, spec, addresses, configUid, namespaceUid, w.key).Some?
                      && w.managed.owner == OwnerOf(op, w.key.kind, configUid, namespaceUid)
  }

  lemma {:induction false} KindMapHas(objs: seq<Rendered>, kind: Kind, owner: Owner, i: nat)
    requires i < |objs|
    ensures Key(kind, objs[i].namespace, objs[i].name) in KindMap(objs, kind, owner)
    decreases |objs|
  {
    if i < |objs| - 1 {
      KindMapHas(objs[..|objs| - 1], kind, owner, i);
    }
  }

  lemma {:induction false} WritesArePartial(op: Operator, spec: Spec, addresses: seq<string>, order: seq<Kind>,
                                            configUid: nat, namespaceUid: nat)
    ensures Partial(op, spec, addresses, configUid, namespaceUid,
                    ApplyWrites(op, spec, addresses, order, configUid, namespaceUid))
    decreases |order|
  {
    if order != [] {
      WritesArePartial(op, spec, addresses, order[1..], configUid, namespaceUid);
      var kind, owner := order[0], OwnerOf(op, order[0], configUid, namespaceUid);
      var objs := op.render(spec, addresses, kind);
      forall w | w in KindWrites(objs, kind, owner)
        ensures w.Apply? && Expected(op, spec, addresses, configUid, namespaceUid, w.key).Some?
        ensures w.managed.owner == OwnerOf(op, w.key.kind, configUid, namespaceUid)
      {
        var i :| 0 <= i < |objs| && w == KindWrites(objs, kind, owner)[i];
        KindMapHas(objs, kind, owner, i);
      }
    }
  }

  lemma {:induction false} PartialApply(op: Operator, spec: Spec, addresses: seq<string>, configUid: nat,
                                        namespaceUid: nat, objects: map<Key, Managed>, ws: seq<Write>, k: Key)
    requires Partial(op, spec, addresses, configUid, namespaceUid, ws)
    ensures var r := ApplyAll(objects, ws);
            && (k in objects ==> k in r)
            && (k in r ==> || (k in objects && r[k] == objects[k])
                           || (&& Expected(op, spec, addresses, configUid, namespaceUid, k).Some?
                               && r[k].owner == OwnerOf(op, k.kind, configUid, namespaceUid)))
    decreases |ws|
  {
    if ws != [] {
      assert ws[0] in ws;
      PartialApply(op, spec, addresses, configUid, namespaceUid, objects[ws[0].key := ws[0].managed], ws[1..], k);
    }
  }

  lemma EveryKind(kind: Kind)
    ensures kind in KINDS
  {
    match kind
    case CustomResourceDefinition => case Secret => case ServiceAccount => case RoleBinding =>
    case ClusterRole => case Role => case ClusterRoleBinding => case ConfigMap =>
    case Deployment => case DaemonSet => case Service => case ValidatingWebhook =>
  }

  lemma RepeatsCount(s: seq<Kind>, i: nat, j: nat)
    requires i < j < |s|
    ensures s[i] == s[j] ==> multiset(s)[s[i]] >= 2
  {
    assert s == s[..i] + [s[i]] + s[i + 1..j] + [s[j]] + s[j + 1..];
  }

  lemma OrderIsDistinct(order: seq<Kind>)
    requires IsOrder(order)
    ensures Distinct(order) && forall kind: Kind :: kind in order
  {
    forall i, j | 0 <= i < j < |order| ensures order[i] != order[j] {
      RepeatsCount(order, i, j);
      assert multiset(KINDS)[order[i]] <= 1;
    }
    forall kind: Kind ensures kind in order {
      EveryKind(kind);
      assert kind in multiset(order);
    }
  }

  /** Restartability and order independence in one: after an attempt in one order that stopped
      anywhere, a complete application in another order leaves exactly the store that a complete
      application in the first order would have left. */
  lemma RestartAnywhere(op: Operator, spec: Spec, addresses: seq<string>, configUid: nat, namespaceUid: nat,
                        objects: map<Key, Managed>, order: seq<Kind>, cut: nat, order': seq<Kind>)
    requires IsOrder(order) && IsOrder(order')
    ensures var all, all' := ApplyWrites(op, spec, addresses, order, configUid, namespaceUid),
                             ApplyWrites(op, spec, addresses, order', configUid, namespaceUid);
            ApplyAll(ApplyAll(objects, Take(all, cut)), all') == ApplyAll(objects, all)
  {
    var all, all' := ApplyWrites(op, spec, addresses, order, configUid, namespaceUid),
                     ApplyWrites(op, spec, addresses, order', configUid, namespaceUid);
    var partial := ApplyAll(objects, Take(all, cut));
    var once, again := ApplyAll(objects, all), ApplyAll(partial, all');
    OrderIsDistinct(order);
    OrderIsDistinct(order');
    WritesArePartial(op, spec, addresses, order, configUid, namespaceUid);
    forall k: Key ensures (k in once <==> k in again) && (k in once ==> once[k] == again[k]) {
      ApplyMeaning(op, spec, addresses, configUid, namespaceUid, objects, order, k);
      ApplyMeaning(op, spec, addresses, configUid, namespaceUid, partial, order', k);
      PartialApply(op, spec, addresses, configUid, namespaceUid, objects, Take(all, cut), k);
    }
    assert once == again;
  }
}
