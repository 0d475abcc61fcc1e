/** `FluxGroup`: named groups of flux types. Java keeps them in a static
    name-to-group table; here that table is an explicit `Registry` value.
    A group's compatible groups are kept by name: `FluxGroup.equals`
    compares names, so the list's `contains` and `remove` only ever look at
    names, and `getForFluxType` reads a compatible group's members through
    the registry. */
module FluxGroups {
  import opened FluxTypes
  import Lists

  datatype Group = Group(name: string, members: seq<FluxType>, compatible: seq<string>)

  /** The static table `fluxGroups`, keyed by group name. */
  type Registry = map<string, Group>

  /** The argument of `equals(Object)`. */
  datatype Other = NullRef | OtherClass | GroupRef(group: Group)

  /** Every registered group is stored under its own name. */
  ghost predicate WellKeyed(reg: Registry) {
    forall n :: n in reg ==> reg[n].name == n
  }

  /** `get(name, compatibleGroups...)`: the registered group of that name,
      or a new group (no members, the given compatible groups) which is
      registered first. */
  function Get(reg: Registry, name: string, compatible: seq<string>): (res: (Group, Registry))
    ensures name in res.1 && res.1[name] == res.0 && res.0.name == (if name in reg then reg[name].name else name)
    ensures name in reg ==> res == (reg[name], reg)
    ensures name !in reg ==> res.0 == Group(name, [], compatible) && res.1.Keys == reg.Keys + {name}
    ensures forall n :: n in reg ==> n in res.1 && res.1[n] == reg[n]
    ensures WellKeyed(reg) ==> WellKeyed(res.1)
  {
    if name in reg then (reg[name], reg)
    else
      var g := Group(name, [], compatible);
      (g, reg[name := g])
  }

  /** `exists(name)`: true exactly when `get(name, ...)` would leave the
      table as it is, whatever compatible groups it is given. */
  predicate Exists(reg: Registry, name: string)
    ensures Exists(reg, name) ==> forall c :: Get(reg, name, c).1 == reg
    ensures !Exists(reg, name) ==> forall c :: Get(reg, name, c).1 != reg
  {
    name in reg
  }

  /** Once `get(name)` has run, the name exists and later `get` calls return
      the same group, whatever compatible groups they pass. */
  lemma GetIsStable(reg: Registry, name: string, c1: seq<string>, c2: seq<string>)
    ensures var (g, reg1) := Get(reg, name, c1);
            && Exists(reg1, name)
            && Get(reg1, name, c2) == (g, reg1)
  {
  }

  /** `addMember(t)`: always true; afterwards `test(t)` holds. */
  function AddMember(g: Group, t: FluxType): (res: (bool, Group))
    ensures res.0 && Test(res.1, t)
    ensures res.1.members == g.members + [t]
    ensures res.1.name == g.name && res.1.compatible == g.compatible
  {
    (true, g.(members := g.members + [t]))
  }

  /** `removeMember(t)`: deletes one occurrence and answers whether `t` was
      a member. */
  function RemoveMember(g: Group, t: FluxType): (res: (bool, Group))
    ensures res.0 <==> Test(g, t)
    ensures multiset(res.1.members) == multiset(g.members) - multiset{t}
    ensures res.1.name == g.name && res.1.compatible == g.compatible
  {
    var (found, rest) := Lists.RemoveFirst(g.members, t);
    (found, g.(members := rest))
  }

  /** `test(t)`: `t` is a member. */
  predicate Test(g: Group, t: FluxType) {
    t in g.members
  }

  /** `setCompatibleWith(other, true)` lists `other` and answers true;
      `setCompatibleWith(other, false)` deletes one listing of it and
      answers whether there was one. */
  function SetCompatibleWith(g: Group, other: Group, compatible: bool): (res: (bool, Group))
    ensures compatible ==> res.0 && res.1.compatible == g.compatible + [other.name]
    ensures !compatible ==> (res.0 <==> other.name in g.compatible)
    ensures !compatible ==> multiset(res.1.compatible) == multiset(g.compatible) - multiset{other.name}
    ensures res.1.name == g.name && res.1.members == g.members
  {
    if compatible then (true, g.(compatible := g.compatible + [other.name]))
    else
      var (found, rest) := Lists.RemoveFirst(g.compatible, other.name);
      (found, g.(compatible := rest))
  }

  /** `isCompatibleWith(other)`: either group lists the other. */
  predicate IsCompatibleWith(g: Group, other: Group) {
    other.name in g.compatible || g.name in other.compatible
  }

  /** Compatibility is symmetric, and `setCompatibleWith(o, true)` makes it
      hold. */
  lemma CompatibilityFacts(g: Group, o: Group)
    ensures IsCompatibleWith(g, o) <==> IsCompatibleWith(o, g)
    ensures IsCompatibleWith(SetCompatibleWith(g, o, true).1, o)
  {
  }

  /** `equals(other)`: another group with the same name. */
  predicate Equals(g: Group, other: Other)
    ensures Equals(g, other) ==> other.GroupRef? && other.group.name == g.name
    ensures other.GroupRef? && other.group.name == g.name ==> Equals(g, other)
  {
    other != NullRef && other.GroupRef? && g.name == other.group.name
  }

  /** Group equality is an equivalence on groups, and on a table that keys
      every group by its own name, two registered groups are equal exactly
      when they are registered under the same name. */
  lemma EqualsIsEquivalence(reg: Registry, g: Group, h: Group, k: Group, a: string, b: string)
    ensures Equals(g, GroupRef(g))
    ensures Equals(g, GroupRef(h)) <==> Equals(h, GroupRef(g))
    ensures Equals(g, GroupRef(h)) && Equals(h, GroupRef(k)) ==> Equals(g, GroupRef(k))
    ensures !Equals(g, NullRef) && !Equals(g, OtherClass)
    ensures WellKeyed(reg) && a in reg && b in reg ==> (Equals(reg[a], GroupRef(reg[b])) <==> a == b)
  {
  }

  /** The copies of `group` to add, one for each member equal to `t`:
      the Java stream's `filter(member -> Objects.equals(member, t))`
      followed by `map(member -> group)`. */
  function Hits(group: Group, t: FluxType): (r: seq<Group>)
    ensures forall x :: x in r ==> x == group && Test(group, t)
    ensures Test(group, t) ==> group in r
    decreases |group.members|
  {
    CopiesFor(group, group.members, t)
  }

  function CopiesFor(group: Group, members: seq<FluxType>, t: FluxType): (r: seq<Group>)
    ensures forall x :: x in r ==> x == group && t in members
    ensures t in members ==> group in r
  {
    if members == [] then []
    else (if members[0] == t then [group] else []) + CopiesFor(group, members[1..], t)
  }

  /** `getForFluxType(t)`: for each registered group in the table's
      iteration order `order` (every registered name exactly once), the
      group once per matching member, then each of its compatible groups
      once per matching member of that group. */
  function GetForFluxType(reg: Registry, order: seq<string>, t: FluxType): (r: seq<Group>)
    requires forall n :: n in order <==> n in reg
    requires forall i, j :: 0 <= i < j < |order| ==> order[i] != order[j]
    ensures forall g :: g in r ==> Test(g, t)
    ensures forall n :: n in reg && Test(reg[n], t) ==> reg[n] in r
  {
    CollectHits(reg, order, t)
  }

  /** The walk of `getForFluxType(t)` over the names `names`. */
  function CollectHits(reg: Registry, names: seq<string>, t: FluxType): (r: seq<Group>)
    requires forall n :: n in names ==> n in reg
    ensures forall g :: g in r ==> Test(g, t)
    ensures forall n :: n in names && Test(reg[n], t) ==> reg[n] in r
  {
    if names == [] then []
    else
      var group := reg[names[0]];
      var rest := CollectHits(reg, names[1..], t);
      assert forall n :: n in names ==> n == names[0] || n in names[1..];
      Hits(group, t) + CompatibleHits(reg, group.compatible, t) + rest
  }

  /** The compatible-group half of `getForFluxType(t)`: compatible groups
      are resolved by name; one that is not registered has no members to
      match. */
  function CompatibleHits(reg: Registry, compatible: seq<string>, t: FluxType): (r: seq<Group>)
    ensures forall g :: g in r ==> Test(g, t)
  {
    if compatible == [] then []
    else
      var here := if compatible[0] in reg then Hits(reg[compatible[0]], t) else [];
      here + CompatibleHits(reg, compatible[1..], t)
  }

  /** `getForFluxType(String id)`: the same walk, matching members by
      `getID()` instead of by identity. */
  function GetForFluxTypeId(reg: Registry, order: seq<string>, id: string): (r: seq<Group>)
    requires forall n :: n in order <==> n in reg
    requires forall i, j :: 0 <= i < j < |order| ==> order[i] != order[j]
    ensures forall g :: g in r ==> HasMemberWithId(g, id)
    ensures forall n :: n in reg && HasMemberWithId(reg[n], id) ==> reg[n] in r
  {
    CollectIdHits(reg, order, id)
  }

  /** The walk of `getForFluxType(String id)` over the names `names`. */
  function CollectIdHits(reg: Registry, names: seq<string>, id: string): (r: seq<Group>)
    requires forall n :: n in names ==> n in reg
    ensures forall g :: g in r ==> HasMemberWithId(g, id)
    ensures forall n :: n in names && HasMemberWithId(reg[n], id) ==> reg[n] in r
  {
    if names == [] then []
    else
      var group := reg[names[0]];
      assert forall n :: n in names ==> n == names[0] || n in names[1..];
      IdHits(group, group.members, id)
        + CompatibleIdHits(reg, group.compatible, id)
        + CollectIdHits(reg, names[1..], id)
  }

  /** Some member of `g` has type ID `id`. */
  predicate HasMemberWithId(g: Group, id: string) {
    exists t :: t in g.members && t.id == id
  }

  function IdHits(group: Group, members: seq<FluxType>, id: string): (r: seq<Group>)
    ensures forall x :: x in r ==> x == group && exists t :: t in members && t.id == id
    ensures (exists t :: t in members && t.id == id) ==> group in r
  {
    if members == [] then []
    else (if members[0].id == id then [group] else []) + IdHits(group, members[1..], id)
  }

  function CompatibleIdHits(reg: Registry, compatible: seq<string>, id: string): (r: seq<Group>)
    ensures forall g :: g in r ==> exists t :: t in g.members && t.id == id
  {
    if compatible == [] then []
    else
      var here := if compatible[0] in reg then IdHits(reg[compatible[0]], reg[compatible[0]].members, id) else [];
      here + CompatibleIdHits(reg, compatible[1..], id)
  }
}
