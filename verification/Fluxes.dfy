/** `Flux` (a unit of some flux type, carrying properties) with its default
    `getID`, `sameType` and `equals`, and the default
    `FluxContainer.removeFlux(String)`. */
module Fluxes {
  import opened Wrappers
  import opened FluxTypes
  import Properties

  datatype Flux<T> = Flux(fluxType: FluxType, props: Properties.Manager<T>)

  /** `getID()`: the ID of the unit's type. */
  function GetId<T>(f: Flux<T>): (r: string)
    ensures r == f.fluxType.id
  {
    f.fluxType.id
  }

  /** `sameType(o)`: false for null, otherwise whether both units have the
      identical type object. */
  predicate SameType<T>(f: Flux<T>, o: Option<Flux<T>>)
    ensures SameType(f, o) ==> o.Some? && GetId(o.value) == GetId(f)
  {
    o.Some? && f.fluxType == o.value.fluxType
  }

  /** `sameType` is reflexive and symmetric, and never holds for null. */
  lemma SameTypeIsEquivalence<T>(f: Flux<T>, g: Flux<T>)
    ensures SameType(f, Some(f))
    ensures SameType(f, Some(g)) == SameType(g, Some(f))
    ensures !SameType(f, None)
  {
  }

  /** Units of the same type report the same ID, and a unit's ID changes
      only with its type: the properties play no part. */
  lemma SameTypeSameId<T>(f: Flux<T>, g: Flux<T>)
    ensures SameType(f, Some(g)) ==> GetId(f) == GetId(g)
    ensures f.fluxType == g.fluxType ==> GetId(f) == GetId(g)
    ensures GetId(f.(props := g.props)) == GetId(f)
  {
  }

  /** `equals(o)`: starts from `sameType(o)` and then, for every key of this
      unit's properties, compares `this.getProperty(key)` with
      `this.getProperty(key)` (the second lookup is on `this` as well, not on
      `o`). Properties compare by reference, so each comparison is of a
      property with itself. `keys` is the key set's iteration order. */
  method Equals<T(==)>(f: Flux<T>, o: Option<Flux<T>>, keys: seq<string>) returns (ret: bool)
    requires forall k :: k in keys <==> k in f.props
    ensures ret == SameType(f, o)
  {
    ret := SameType(f, o);
    if ret {
      var i := 0;
      while i < |keys|
        invariant 0 <= i <= |keys|
        invariant ret
      {
        var ours := Properties.GetProperty(f.props, keys[i]).value;
        var theirs := Properties.GetProperty(f.props, keys[i]).value;
        ret := ret && ours == theirs;
        i := i + 1;
      }
    }
  }

  /** `equals` never looks at the other unit's properties: two units of the
      same type are answered alike. */
  method EqualsIgnoresOtherProperties<T(==)>(f: Flux<T>, o1: Flux<T>, o2: Flux<T>, keys: seq<string>)
      returns (r1: bool, r2: bool)
    requires forall k :: k in keys <==> k in f.props
    requires o1.fluxType == o2.fluxType
    ensures r1 == r2 && r1 == (f.fluxType == o1.fluxType)
  {
    r1 := Equals(f, Some(o1), keys);
    r2 := Equals(f, Some(o2), keys);
  }

  /** `equals` as evidently intended: the second lookup reads the other
      unit's property. Properties compare by reference (value equality
      here), and a missing property on the other side never equals. */
  method EqualsIntended<T(==)>(f: Flux<T>, o: Option<Flux<T>>, keys: seq<string>) returns (ret: bool)
    requires forall k :: k in keys <==> k in f.props
    ensures ret <==> SameType(f, o) && forall k :: k in f.props ==> k in o.value.props && o.value.props[k] == f.props[k]
  {
    ret := SameType(f, o);
    if ret {
      var i := 0;
      while i < |keys|
        invariant 0 <= i <= |keys|
        invariant ret <==> forall j :: 0 <= j < i ==> keys[j] in o.value.props && o.value.props[keys[j]] == f.props[keys[j]]
      {
        var ours := Properties.GetProperty(f.props, keys[i]);
        var theirs := Properties.GetProperty(o.value.props, keys[i]);
        ret := ret && ours == theirs;
        i := i + 1;
      }
      assert forall k :: k in f.props ==> exists j :: 0 <= j < |keys| && keys[j] == k;
    }
  }

  /** The discrepancy on a concrete pair: a unit holding property "x" and an
      empty unit of the same type are equal as written, and not as intended. */
  method EqualsCounterexample() returns (asWritten: bool, intended: bool)
    ensures asWritten && !intended
  {
    var t := FluxType(0, "energy");
    var p := Properties.Property("x", Some(1));
    var f := Flux(t, map["x" := p]);
    var g := Flux(t, map[]);
    asWritten := Equals(f, Some(g), ["x"]);
    intended := EqualsIntended(f, Some(g), ["x"]);
    assert "x" in f.props && "x" !in g.props;
  }

  /** `FluxContainer.removeFlux(ID)`: walks a snapshot of `getFlux()` and
      calls the host's single-flux `removeFlux(flux)` (the function
      `removeOne`) on each flux of that ID, in list order, until one call
      answers true; `||` skips the calls after that. Returns the answer and
      the fluxes on which the host was called. */
  method RemoveFluxById<T>(contents: seq<Flux<T>>, id: string, removeOne: Flux<T> -> bool)
      returns (result: bool, calls: seq<Flux<T>>)
    ensures forall c :: c in calls ==> c in contents && GetId(c) == id
    ensures result <==> exists c :: c in calls && removeOne(c)
    ensures forall j :: 0 <= j < |calls| - 1 ==> !removeOne(calls[j])
    ensures !result ==> calls == Matching(contents, id)
    ensures (forall c :: c in contents ==> GetId(c) != id) ==> !result && calls == []
    ensures IsPrefix(calls, Matching(contents, id))
  {
    result, calls := CallUntilRemoved(contents, id, removeOne);
    CallsFacts(contents, id, removeOne, result, calls);
    if forall c :: c in contents ==> GetId(c) != id {
      MatchingNone(contents, id);
    }
  }

  /** The loop of `removeFlux(ID)`: calls `removeOne` on the matching fluxes
      in order and stops after the first call that answers true. */
  method CallUntilRemoved<T>(contents: seq<Flux<T>>, id: string, removeOne: Flux<T> -> bool)
      returns (result: bool, calls: seq<Flux<T>>)
    ensures IsPrefix(calls, Matching(contents, id))
    ensures !result ==> calls == Matching(contents, id)
    ensures result <==> |calls| > 0 && removeOne(calls[|calls| - 1])
    ensures forall j :: 0 <= j < |calls| - 1 ==> !removeOne(calls[j])
  {
    result := false;
    calls := [];
    ghost var seen: seq<Flux<T>> := [];
    var i := 0;
    while i < |contents|
      invariant 0 <= i <= |contents|
      invariant seen == Matching(contents[..i], id)
      invariant IsPrefix(calls, seen)
      invariant !result ==> calls == seen
      invariant result <==> |calls| > 0 && removeOne(calls[|calls| - 1])
      invariant forall j :: 0 <= j < |calls| - 1 ==> !removeOne(calls[j])
    {
      var flux := contents[i];
      ghost var extra := if GetId(flux) == id then [flux] else [];
      assert contents[..i + 1] == contents[..i] + [flux];
      MatchingAppend(contents[..i], flux, id);
      PrefixOfLonger(calls, seen, extra);
      if GetId(flux) == id && !result {
        calls := calls + [flux];
        result := removeOne(flux);
      }
      seen := seen + extra;
      i := i + 1;
    }
    assert contents[..i] == contents;
  }

  /** The fluxes of `contents` with the given ID, in list order. */
  function Matching<T>(contents: seq<Flux<T>>, id: string): seq<Flux<T>>
  {
    if contents == [] then []
    else if GetId(contents[0]) == id then [contents[0]] + Matching(contents[1..], id)
    else Matching(contents[1..], id)
  }

  /** `Matching` keeps exactly the fluxes of that ID. */
  lemma {:induction false} MatchingMembers<T>(contents: seq<Flux<T>>, id: string)
    ensures forall i :: 0 <= i < |Matching(contents, id)| ==>
              Matching(contents, id)[i] in contents && GetId(Matching(contents, id)[i]) == id
    ensures forall i :: 0 <= i < |contents| && GetId(contents[i]) == id ==>
              contents[i] in Matching(contents, id)
    decreases |contents|
  {
    if contents != [] {
      MatchingMembers(contents[1..], id);
      assert forall i :: 1 <= i < |contents| ==> contents[i] == contents[1..][i - 1];
    }
  }

  ghost predicate IsPrefix<X>(a: seq<X>, b: seq<X>) {
    |a| <= |b| && a == b[..|a|]
  }

  lemma PrefixOfLonger<X>(a: seq<X>, b: seq<X>, extra: seq<X>)
    requires IsPrefix(a, b)
    ensures IsPrefix(a, b + extra)
  {
    assert (b + extra)[..|a|] == b[..|a|];
  }

  lemma {:induction false} MatchingAppend<T>(contents: seq<Flux<T>>, f: Flux<T>, id: string)
    ensures Matching(contents + [f], id)
         == Matching(contents, id) + (if GetId(f) == id then [f] else [])
    decreases |contents|
  {
    if contents == [] {
      assert [f][1..] == [];
    } else {
      assert (contents + [f])[1..] == contents[1..] + [f];
      MatchingAppend(contents[1..], f, id);
    }
  }

  /** What a prefix of the matching fluxes, where only the last call may
      have succeeded, says about the calls made. */
  lemma CallsFacts<T>(contents: seq<Flux<T>>, id: string, removeOne: Flux<T> -> bool,
                      result: bool, calls: seq<Flux<T>>)
    requires IsPrefix(calls, Matching(contents, id))
    requires result <==> |calls| > 0 && removeOne(calls[|calls| - 1])
    requires forall j :: 0 <= j < |calls| - 1 ==> !removeOne(calls[j])
    ensures forall c :: c in calls ==> c in contents && GetId(c) == id
    ensures result <==> exists c :: c in calls && removeOne(c)
  {
    MatchingMembers(contents, id);
    forall c | c in calls
      ensures c in contents && GetId(c) == id
    {
      var k :| 0 <= k < |calls| && calls[k] == c;
      assert Matching(contents, id)[k] == c;
    }
    if exists c :: c in calls && removeOne(c) {
      var c :| c in calls && removeOne(c);
      var k :| 0 <= k < |calls| && calls[k] == c;
      assert k == |calls| - 1;
    }
  }

  lemma MatchingNone<T>(contents: seq<Flux<T>>, id: string)
    requires forall c :: c in contents ==> GetId(c) != id
    ensures Matching(contents, id) == []
  {
  }
}
