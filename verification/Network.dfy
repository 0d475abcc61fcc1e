/** The network topology: `NetworkComponent`, the structure roles
    (`StructureComponent`, `StructureCore`, `StructureDelegate`), the default
    methods of `Network` and the position map of `NetworkBase`.

    Positions are a host-chosen type `P`. Java compares components by
    reference; the model gives every component an `id` and compares those. */
module Network {
  import opened Wrappers

  /** The role a component plays, which fixes its `isDelegate` and
      `isStructureValid`:
      - `Plain`: not a `StructureComponent` at all;
      - `Core`: a `StructureCore`; `ownValid` is its own, host-defined
        `isStructureValid`;
      - `Delegate`: a `StructureDelegate`, with the default `isDelegate` and
        `isStructureValid`;
      - `Composite`: a `StructureComponent` implemented directly, which
        defines `isDelegate` and `isStructureValid` itself. */
  datatype Role<P(!new)> =
    | Plain
    | Core(ownValid: bool, parts: seq<Component<P>>)
    | Delegate(parts: seq<Component<P>>)
    | Composite(delegateFlag: bool, ownValid: bool, parts: seq<Component<P>>)

  /** A component: identity, `getPosition`, `getNeighbours` and its role. */
  datatype Component<P(!new)> = Component(id: nat, pos: P, neighbours: map<P, Component<P>>, role: Role<P>)

  /** The position map of `NetworkBase`. */
  datatype Net<P(!new)> = Net(m: map<P, Component<P>>)

  /** `instanceof StructureComponent`. */
  predicate IsStructure<P(!new)>(c: Component<P>) {
    !c.role.Plain?
  }

  /** `instanceof StructureCore`. */
  predicate IsCore<P(!new)>(c: Component<P>) {
    c.role.Core?
  }

  /** `isDelegate()`: false for a core, true for a delegate (the interface
      defaults), the component's own answer otherwise. */
  predicate IsDelegate<P(!new)>(c: Component<P>)
    requires IsStructure(c)
    ensures IsDelegate(c) ==> !IsCore(c)
    ensures c.role.Delegate? ==> IsDelegate(c)
  {
    match c.role
    case Core(_, _) => false
    case Delegate(_) => true
    case Composite(flag, _, _) => flag
  }

  /** The interface defaults: a core is never a delegate, a delegate always
      is, so a delegate always takes the delegate branch of `add`. */
  lemma RoleDefaults<P(!new)>(c: Component<P>)
    ensures c.role.Core? ==> IsStructure(c) && !IsDelegate(c)
    ensures c.role.Delegate? ==> IsStructure(c) && IsDelegate(c)
  {
  }

  /** `getStructureCore()` over a structure list: the first element that is a
      `StructureCore`, or null when there is none. */
  function FirstCore<P(!new)>(parts: seq<Component<P>>): (r: Option<Component<P>>)
    ensures r.None? <==> forall c :: c in parts ==> !IsCore(c)
    ensures r.Some? ==> r.value in parts && IsCore(r.value)
    ensures r.Some? ==> exists i :: 0 <= i < |parts| && parts[i] == r.value
                                    && forall j :: 0 <= j < i ==> !IsCore(parts[j])
  {
    if parts == [] then None
    else if IsCore(parts[0]) then Some(parts[0])
    else
      var r := FirstCore(parts[1..]);
      assert forall c :: c in parts ==> c == parts[0] || c in parts[1..];
      if r.Some? then
        var i :| 0 <= i < |parts[1..]| && parts[1..][i] == r.value
                 && forall j :: 0 <= j < i ==> !IsCore(parts[1..][j]);
        assert parts[i + 1] == r.value;
        assert forall j :: 0 <= j < i + 1 ==> !IsCore(parts[j]) by {
          forall j | 0 <= j < i + 1 ensures !IsCore(parts[j]) {
            if j > 0 { assert parts[j] == parts[1..][j - 1]; }
          }
        }
        r
      else r
  }

  /** `getStructureCore()` of a structure component. */
  function StructureCore<P(!new)>(c: Component<P>): (r: Option<Component<P>>)
    requires IsStructure(c)
    ensures r.Some? ==> r.value in c.role.parts && IsCore(r.value)
  {
    FirstCore(c.role.parts)
  }

  /** `isStructureValid()`: a core and a directly implemented structure
      component answer for themselves; a delegate is valid exactly when its
      structure has a core and that core is valid. */
  predicate IsStructureValid<P(!new)>(c: Component<P>)
    requires IsStructure(c)
    ensures c.role.Delegate? ==>
              (IsStructureValid(c) <==> StructureCore(c).Some? && StructureCore(c).value.role.ownValid)
  {
    match c.role
    case Core(v, _) => v
    case Composite(_, v, _) => v
    case Delegate(parts) =>
      var core := FirstCore(parts);
      core.Some? && core.value.role.ownValid
  }

  /** A delegate without a core is invalid; with one it is exactly as valid
      as that first core says. */
  lemma DelegateValidity<P(!new)>(c: Component<P>)
    requires c.role.Delegate?
    ensures FirstCore(c.role.parts).None? ==> !IsStructureValid(c)
    ensures forall k :: FirstCore(c.role.parts) == Some(k) ==> (IsStructureValid(c) <==> k.role.ownValid)
  {
  }

  /** Components after the first core do not change `getStructureCore`. */
  lemma {:induction false} FirstCoreIgnoresSuffix<P(!new)>(parts: seq<Component<P>>, more: seq<Component<P>>)
    requires FirstCore(parts).Some?
    ensures FirstCore(parts + more) == FirstCore(parts)
  {
    if !IsCore(parts[0]) {
      assert (parts + more)[1..] == parts[1..] + more;
      FirstCoreIgnoresSuffix(parts[1..], more);
    }
  }

  /** A core at the head of a structure list is that list's core. */
  lemma CoreAtHeadIsFirstCore<P(!new)>(k: Component<P>, rest: seq<Component<P>>)
    requires IsCore(k)
    ensures FirstCore([k] + rest) == Some(k)
  {
  }

  /** `addNetworkComponent` dereferences the structure core of a delegate, so
      it is defined only when a delegate's structure list holds a core. */
  predicate CanAdd<P(!new)>(c: Component<P>) {
    IsStructure(c) && IsDelegate(c) ==> StructureCore(c).Some?
  }

  /** The component `addNetworkComponent` stores: the argument itself, or for
      a delegate the first core of its structure list. The branch that would
      cast a non-delegate to `StructureCore` cannot run, because the first
      test already took every non-delegate structure component. */
  function Placed<P(!new)>(c: Component<P>): (r: Component<P>)
    requires CanAdd(c)
    ensures (!IsStructure(c) || !IsDelegate(c)) ==> r == c
    ensures IsStructure(c) && IsDelegate(c) ==> IsCore(r) && r in c.role.parts
  {
    if IsStructure(c) && !IsDelegate(c) then c
    else if IsStructure(c) then
      if !IsDelegate(c) then assert false; c
      else StructureCore(c).value
    else c
  }

  /** `addNetworkComponent`: stores `Placed(c)` at that component's own
      position and answers whether a different component (or none) was there
      before. */
  function Add<P(!new)>(net: Net<P>, c: Component<P>): (res: (bool, Net<P>))
    requires CanAdd(c)
    ensures var k := Placed(c);
            && res.1.m == net.m[k.pos := k]
            && (res.0 <==> !(k.pos in net.m && net.m[k.pos].id == k.id))
  {
    var k := Placed(c);
    var previous := if k.pos in net.m then Some(net.m[k.pos]) else None;
    (!(previous.Some? && previous.value.id == k.id), Net(net.m[k.pos := k]))
  }

  /** `removeNetworkComponent`: deletes the key `c.getPosition()` whatever is
      stored there (a delegate is not redirected to its core) and answers
      whether the key was present. */
  function Remove<P(!new)>(net: Net<P>, c: Component<P>): (res: (bool, Net<P>))
    ensures res.0 <==> c.pos in net.m
    ensures c.pos !in res.1.m
    ensures forall p :: p != c.pos ==> (p in res.1.m <==> p in net.m)
    ensures forall p :: p in res.1.m ==> res.1.m[p] == net.m[p]
  {
    (c.pos in net.m, Net(net.m - {c.pos}))
  }

  /** `loadNetworkComponent` is `addNetworkComponent`. */
  function Load<P(!new)>(net: Net<P>, c: Component<P>): (res: (bool, Net<P>))
    requires CanAdd(c)
    ensures ComponentAt(res.1, Placed(c).pos) == Some(Placed(c))
    ensures forall p :: p != Placed(c).pos ==> ComponentAt(res.1, p) == ComponentAt(net, p)
    ensures res.0 <==> !(ComponentAt(net, Placed(c).pos).Some? && ComponentAt(net, Placed(c).pos).value.id == Placed(c).id)
  {
    Add(net, c)
  }

  /** `unloadNetworkComponent` is `removeNetworkComponent`. */
  function Unload<P(!new)>(net: Net<P>, c: Component<P>): (res: (bool, Net<P>))
    ensures res.0 <==> ComponentAt(net, c.pos).Some?
    ensures ComponentAt(res.1, c.pos) == None
    ensures forall p :: p != c.pos ==> ComponentAt(res.1, p) == ComponentAt(net, p)
  {
    Remove(net, c)
  }

  /** `getNetworkComponentAt`: a plain lookup, null for an absent position. */
  function ComponentAt<P(!new)>(net: Net<P>, p: P): (r: Option<Component<P>>)
    ensures r.None? <==> p !in net.m
    ensures r.Some? ==> r.value == net.m[p]
  {
    if p in net.m then Some(net.m[p]) else None
  }

  /** `getNeighbours(c)`: the component's own neighbour map; the network
      plays no part. */
  function Neighbours<P(!new)>(net: Net<P>, c: Component<P>): map<P, Component<P>> {
    c.neighbours
  }

  /** Two networks, however different, report the same neighbours for a
      component, and those are the component's own; asking changes no
      network. */
  lemma NeighboursIgnoreNetwork<P(!new)>(net: Net<P>, other: Net<P>, c: Component<P>)
    ensures Neighbours(net, c) == Neighbours(other, c) == c.neighbours
  {
  }

  /** Every stored component sits at its own position: what `add` maintains. */
  ghost predicate WellPlaced<P(!new)>(net: Net<P>) {
    forall p :: p in net.m ==> net.m[p].pos == p
  }

  /** `getNetworkComponents`: the map's values in the map's iteration order
      `order` (every position exactly once). On a well-placed network no
      component is listed twice. */
  function Components<P(!new)>(net: Net<P>, order: seq<P>): (r: seq<Component<P>>)
    requires forall i, j :: 0 <= i < j < |order| ==> order[i] != order[j]
    requires forall p :: p in order ==> p in net.m
    requires |order| == |net.m|
    ensures |r| == |net.m|
    ensures forall i :: 0 <= i < |r| ==> r[i] == net.m[order[i]]
    ensures forall c :: c in r <==> c in net.m.Values
    ensures WellPlaced(net) ==> forall i, j :: 0 <= i < j < |r| ==> r[i] != r[j]
  {
    OrderCoversKeys(net.m.Keys, order);
    var r := seq(|order|, i requires 0 <= i < |order| => net.m[order[i]]);
    assert forall c :: c in net.m.Values ==> c in r by {
      forall c | c in net.m.Values ensures c in r {
        var p :| p in net.m && net.m[p] == c;
        var i :| 0 <= i < |order| && order[i] == p;
        assert r[i] == c;
      }
    }
    r
  }

  /** A duplicate-free list of keys as long as the key set lists every key. */
  lemma OrderCoversKeys<P(!new)>(keys: set<P>, order: seq<P>)
    requires forall i, j :: 0 <= i < j < |order| ==> order[i] != order[j]
    requires forall p :: p in order ==> p in keys
    requires |order| == |keys|
    ensures forall p :: p in keys ==> p in order
  {
    var listed := set i | 0 <= i < |order| :: order[i];
    assert listed <= keys;
    assert |listed| == |order| by {
      DistinctListSize(order);
    }
    var rest := keys - listed;
    assert keys == listed + rest;
    assert listed * rest == {};
    assert |rest| == 0;
    forall p | p in keys ensures p in order {
      assert p !in rest;
    }
  }

  /** A duplicate-free list has as many distinct elements as entries. */
  lemma {:induction false} DistinctListSize<P(!new)>(order: seq<P>)
    requires forall i, j :: 0 <= i < j < |order| ==> order[i] != order[j]
    ensures |set i | 0 <= i < |order| :: order[i]| == |order|
  {
    if order != [] {
      var rest := order[..|order| - 1];
      var last := order[|order| - 1];
      DistinctListSize(rest);
      var s := set i | 0 <= i < |rest| :: rest[i];
      var t := set i | 0 <= i < |order| :: order[i];
      assert t == s + {last};
      assert last !in s;
    }
  }

  /** Adding a plain component, a core, or any structure component that is
      not a delegate stores it at its own position and touches no other
      position. */
  lemma AddNonDelegate<P(!new)>(net: Net<P>, c: Component<P>)
    requires !IsStructure(c) || !IsDelegate(c)
    ensures var n := Add(net, c).1;
            && ComponentAt(n, c.pos) == Some(c)
            && forall p :: p != c.pos ==> ComponentAt(n, p) == ComponentAt(net, p)
  {
  }

  /** Adding a delegate stores the first core of its structure list at the
      core's position; the delegate itself enters the map nowhere. */
  lemma AddDelegate<P(!new)>(net: Net<P>, d: Component<P>)
    requires IsStructure(d) && IsDelegate(d) && StructureCore(d).Some?
    ensures var k := StructureCore(d).value;
            var n := Add(net, d).1;
            && ComponentAt(n, k.pos) == Some(k)
            && (forall p :: p != k.pos ==> ComponentAt(n, p) == ComponentAt(net, p))
            && (forall p :: p in n.m && n.m[p] == d ==> p in net.m && net.m[p] == d)
  {
  }

  /** `add` answers false exactly when the component it stores was already
      the entry at that position, and then the map is unchanged. */
  lemma AddReportsChange<P(!new)>(net: Net<P>, c: Component<P>)
    requires CanAdd(c)
    ensures var (changed, n) := Add(net, c);
            var k := Placed(c);
            && (!changed <==> ComponentAt(net, k.pos).Some? && ComponentAt(net, k.pos).value.id == k.id)
            && (!changed && net.m[k.pos] == k ==> n == net)
  {
  }

  /** Repeating the same `add` answers false and changes nothing. */
  lemma AddIdempotent<P(!new)>(net: Net<P>, c: Component<P>)
    requires CanAdd(c)
    ensures var n := Add(net, c).1;
            Add(n, c) == (false, n)
  {
    var k := Placed(c);
    var n := Add(net, c).1;
    assert n.m[k.pos := k] == n.m;
  }

  /** `remove` of a delegate deletes the delegate's own position, not its
      core's: after adding a delegate whose core sits elsewhere, removing the
      delegate leaves the core in place. */
  lemma RemoveDelegateLeavesCore<P(!new)>(net: Net<P>, d: Component<P>)
    requires IsStructure(d) && IsDelegate(d) && StructureCore(d).Some?
    requires StructureCore(d).value.pos != d.pos
    ensures var k := StructureCore(d).value;
            ComponentAt(Remove(Add(net, d).1, d).1, k.pos) == Some(k)
  {
  }

  /** Adding then removing a core leaves its position empty: both use the
      core's own position. */
  lemma AddThenRemoveCore<P(!new)>(net: Net<P>, k: Component<P>)
    requires IsCore(k)
    ensures var (added, n1) := Add(net, k);
            var (removed, n2) := Remove(n1, k);
            removed && ComponentAt(n2, k.pos) == None
  {
  }

  /** `add` and `remove` keep every stored component at its own position. */
  lemma AddRemoveKeepWellPlaced<P(!new)>(net: Net<P>, c: Component<P>, r: Component<P>)
    requires WellPlaced(net)
    requires CanAdd(c)
    ensures WellPlaced(Add(net, c).1)
    ensures WellPlaced(Remove(net, r).1)
  {
  }

  /** A structure with core C at position 0 and delegate D at position 1,
      added through D on an empty network: C is found at 0, nothing at 1.
      (A value cannot contain itself, so D's structure list here holds only
      the core; Java's list would usually hold D as well.) */
  lemma DelegateScenario(core: Component<int>, d: Component<int>)
    requires core.pos == 0 && core.role.Core?
    requires d.pos == 1 && d.role.Delegate? && d.role.parts == [core]
    ensures var n := Add(Net(map[]), d).1;
            ComponentAt(n, 0) == Some(core) && ComponentAt(n, 1) == None
  {
  }
}
