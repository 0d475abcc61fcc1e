/** `ConversionManager`: a registry of converters keyed by the pair
    (input type ID, output type ID), with a direct lookup and a bounded
    depth-first search that chains converters when no direct one exists.

    A result of the search is represented by the list of edges (map keys) it
    traverses. The Java code builds a runtime value from those edges; that
    value is not modelled, only which edges were chosen. */
module Conversion {
  import opened Wrappers

  /** A converter-map key: (input type ID, output type ID). */
  type Key = (string, string)

  /** The converter map, and the fixed order in which `forEach` visits it. */
  datatype ConverterMap<C> = ConverterMap(m: map<Key, C>, order: seq<Key>)

  /** `order` lists every key of `m` exactly once. */
  ghost predicate Valid<C>(cm: ConverterMap<C>) {
    && (forall i, j :: 0 <= i < j < |cm.order| ==> cm.order[i] != cm.order[j])
    && (forall k :: k in cm.m <==> k in cm.order)
  }

  /** `w` is a walk of registered edges leading from type `a` to type `b`
      (the empty walk leads from a type to itself). */
  ghost predicate Walk<C>(cm: ConverterMap<C>, w: seq<Key>, a: string, b: string)
    decreases |w|
  {
    if w == [] then a == b
    else w[0] in cm.m && w[0].0 == a && Walk(cm, w[1..], w[0].1, b)
  }

  /** A conversion chain: a non-empty walk. */
  ghost predicate Chain<C>(cm: ConverterMap<C>, w: seq<Key>, a: string, b: string) {
    |w| >= 1 && Walk(cm, w, a, b)
  }

  /** A walk extended by one edge leaving its end is a walk. */
  lemma {:induction false} WalkExtend<C>(cm: ConverterMap<C>, w: seq<Key>, a: string, b: string, k: Key)
    requires Walk(cm, w, a, b)
    requires k in cm.m && k.0 == b
    ensures Walk(cm, w + [k], a, k.1)
    decreases |w|
  {
    if w == [] {
      assert [k][1..] == [];
    } else {
      WalkExtend(cm, w[1..], w[0].1, b, k);
      assert (w + [k])[1..] == w[1..] + [k];
    }
  }

  /** The last edge of a chain ends at its target. */
  lemma {:induction false} ChainLastEdge<C>(cm: ConverterMap<C>, w: seq<Key>, a: string, b: string)
    requires Chain(cm, w, a, b)
    ensures w[|w| - 1] in cm.m && w[|w| - 1].1 == b
    decreases |w|
  {
    if |w| > 1 {
      ChainLastEdge(cm, w[1..], w[0].1, b);
      assert w[1..][|w[1..]| - 1] == w[|w| - 1];
    } else {
      assert w[1..] == [];
      assert Walk(cm, w[1..], w[0].1, b);
    }
  }

  /** A single registered edge is a chain from its input to its output. */
  lemma SingleEdgeChain<C>(cm: ConverterMap<C>, from: string, to: string)
    ensures Chain(cm, [(from, to)], from, to) <==> (from, to) in cm.m
  {
    var w := [(from, to)];
    assert w[1..] == [];
    assert Walk(cm, w[1..], to, to);
  }

  /** `getConverter(from, to)`: an exact lookup of the key (from, to). */
  function GetConverter<C>(cm: ConverterMap<C>, from: string, to: string): (r: Option<C>)
    ensures r.Some? <==> (from, to) in cm.m
    ensures r.Some? ==> r.value == cm.m[(from, to)]
  {
    if (from, to) in cm.m then Some(cm.m[(from, to)]) else None
  }

  /** `converterAvailable(from, to)`: a direct converter is registered. */
  predicate ConverterAvailable<C>(cm: ConverterMap<C>, from: string, to: string)
    ensures ConverterAvailable(cm, from, to) <==> Chain(cm, [(from, to)], from, to)
  {
    SingleEdgeChain(cm, from, to);
    GetConverter(cm, from, to).Some?
  }

  /** The state shared by all levels of the search: `lowestScore[0]` and the
      champion recorded in `lowest[0]`. */
  datatype Search = Search(bound: int, best: Option<seq<Key>>)

  /** How many more levels the current bound lets the search descend. */
  function Slack(bound: int, depth: nat): nat {
    if depth < bound then bound - depth else 0
  }

  /** One call of the recursive consumer, from the entry at index `i` of the
      iteration order onwards: at type `node`, reached by `path` at `depth`.
      An edge leaving `node` that ends at `to` becomes the champion when
      `depth` is below the bound (which then drops to `depth`); any other
      edge leaving `node` is followed one level deeper while `depth` is below
      the bound. The bound never grows, which is what makes the search stop
      on cyclic maps. */
  function Visit<C>(cm: ConverterMap<C>, to: string, node: string, path: seq<Key>,
                    depth: nat, i: nat, st: Search): (r: Search)
    requires i <= |cm.order|
    ensures r.bound <= st.bound
    decreases Slack(st.bound, depth), |cm.order| - i
  {
    if i == |cm.order| then st
    else
      var k := cm.order[i];
      var st' :=
        if k.0 != node then st
        else if k.1 == to then
          (if depth < st.bound then Search(depth, Some(path + [k])) else st)
        else if depth < st.bound then
          Visit(cm, to, k.1, path + [k], depth + 1, 0, st)
        else st;
      Visit(cm, to, node, path, depth, i + 1, st')
  }

  /** Why the bounded lookup, as written, aborts. */
  datatype SearchError = ArrayCastFailed

  /** `getConverter(from, to, maxSteps)` as written: the direct converter
      when there is one; otherwise the result array is created as a
      `Function[]` and cast to `T[]`, whose erasure is `Converter[]`, and
      that cast fails before the search starts. */
  function GetConverterWithinAsWritten<C>(cm: ConverterMap<C>, from: string, to: string, maxSteps: int)
    : (r: Result<seq<Key>, SearchError>)
    ensures r.Success? <==> (from, to) in cm.m
    ensures r.Success? ==> r.value == [(from, to)] && Chain(cm, r.value, from, to)
  {
    if (from, to) in cm.m then
      SingleEdgeChain(cm, from, to);
      Success([(from, to)])
    else Failure(ArrayCastFailed)
  }

  /** `converterAvailable(from, to, maxSteps)` as written: true on a direct
      converter, and aborted by the same failed cast otherwise. */
  function ConverterAvailableWithinAsWritten<C>(cm: ConverterMap<C>, from: string, to: string, maxSteps: int)
    : (r: Result<bool, SearchError>)
    ensures r.Success? <==> ConverterAvailable(cm, from, to)
    ensures r.Success? ==> r.value
  {
    match GetConverterWithinAsWritten(cm, from, to, maxSteps)
    case Success(_) => Success(true)
    case Failure(e) => Failure(e)
  }

  /** `getConverter(from, to, maxSteps)` with the result array created so
      that the cast holds (a `Converter[]`): the direct converter when there
      is one, whatever `maxSteps` is; otherwise the champion of the search
      that starts at `from` with bound `maxSteps` and no champion. */
  function GetConverterWithin<C>(cm: ConverterMap<C>, from: string, to: string, maxSteps: int): (r: Option<seq<Key>>)
    ensures (from, to) in cm.m ==> r == Some([(from, to)])
  {
    if (from, to) in cm.m then Some([(from, to)])
    else Visit(cm, to, from, [], 0, 0, Search(maxSteps, None)).best
  }

  /** The recorded champion, if any, is a chain from `from` to `to` one edge
      longer than the bound (a chain of k edges is recorded at depth k - 1). */
  ghost predicate Champion<C>(cm: ConverterMap<C>, from: string, to: string, st: Search) {
    st.best.Some? ==> Chain(cm, st.best.value, from, to) && |st.best.value| == st.bound + 1
  }

  /** Soundness of one search call: it keeps the champion a genuine chain;
      it replaces the champion only together with a strictly lower bound, so
      a later chain of the same length never displaces an earlier one; and
      a lowered bound always comes with a champion. */
  lemma {:induction false} VisitSound<C>(cm: ConverterMap<C>, from: string, to: string, node: string,
                                         path: seq<Key>, depth: nat, i: nat, st: Search)
    requires i <= |cm.order|
    requires |path| == depth && Walk(cm, path, from, node)
    requires Valid(cm)
    requires Champion(cm, from, to, st)
    ensures var r := Visit(cm, to, node, path, depth, i, st);
            && Champion(cm, from, to, r)
            && (r.bound == st.bound ==> r == st)
            && (r.bound < st.bound ==> r.best.Some?)
    decreases Slack(st.bound, depth), |cm.order| - i
  {
    if i < |cm.order| {
      var k := cm.order[i];
      assert k in cm.m;
      var st' :=
        if k.0 != node then st
        else if k.1 == to then
          (if depth < st.bound then Search(depth, Some(path + [k])) else st)
        else if depth < st.bound then
          Visit(cm, to, k.1, path + [k], depth + 1, 0, st)
        else st;
      if k.0 == node {
        WalkExtend(cm, path, from, node, k);
        if k.1 != to && depth < st.bound {
          VisitSound(cm, from, to, k.1, path + [k], depth + 1, 0, st);
        }
      }
      assert Champion(cm, from, to, st');
      VisitSound(cm, from, to, node, path, depth, i + 1, st');
    }
  }

  /** Completeness of one search call: for every chain from `node` to `to`
      whose first edge comes at or after index `i` of the iteration order,
      the search ends with a bound no higher than the depth at which that
      chain's last edge would be recorded. */
  lemma {:induction false} VisitComplete<C>(cm: ConverterMap<C>, to: string, node: string,
                                            path: seq<Key>, depth: nat, i: nat, st: Search,
                                            w: seq<Key>, j: nat)
    requires Valid(cm)
    requires i <= j < |cm.order| && Chain(cm, w, node, to) && cm.order[j] == w[0]
    ensures Visit(cm, to, node, path, depth, i, st).bound <= depth + |w| - 1
    decreases Slack(st.bound, depth), |cm.order| - i
  {
    var k := cm.order[i];
    var st' :=
      if k.0 != node then st
      else if k.1 == to then
        (if depth < st.bound then Search(depth, Some(path + [k])) else st)
      else if depth < st.bound then
        Visit(cm, to, k.1, path + [k], depth + 1, 0, st)
      else st;
    if i < j {
      VisitComplete(cm, to, node, path, depth, i + 1, st', w, j);
    } else {
      assert k == w[0] && k.0 == node;
      if k.1 != to && depth < st.bound {
        var w' := w[1..];
        if |w| == 1 {
          ChainLastEdge(cm, w, node, to);
          assert false;
        }
        assert Chain(cm, w', k.1, to);
        assert w'[0] in cm.order;
        var j' :| 0 <= j' < |cm.order| && cm.order[j'] == w'[0];
        VisitComplete(cm, to, k.1, path + [k], depth + 1, 0, st, w', j');
      }
      assert st'.bound <= depth + |w| - 1;
    }
  }

  /** Every chain from `from` to `to` bounds the search's final bound. */
  lemma SearchBoundBelowEveryChain<C>(cm: ConverterMap<C>, from: string, to: string, maxSteps: int)
    requires Valid(cm)
    ensures forall w :: Chain(cm, w, from, to) ==>
              Visit(cm, to, from, [], 0, 0, Search(maxSteps, None)).bound <= |w| - 1
  {
    forall w | Chain(cm, w, from, to)
      ensures Visit(cm, to, from, [], 0, 0, Search(maxSteps, None)).bound <= |w| - 1
    {
      assert w[0] in cm.order;
      var j :| 0 <= j < |cm.order| && cm.order[j] == w[0];
      VisitComplete(cm, to, from, [], 0, 0, Search(maxSteps, None), w, j);
    }
  }

  /** The acceptance rule of the bounded search when no direct converter is
      registered: a result exists exactly when some chain of at most
      `maxSteps` edges leads from `from` to `to`; the result is such a chain,
      has at least two edges, and no chain has fewer edges ("least complex"). */
  lemma SearchCorrect<C>(cm: ConverterMap<C>, from: string, to: string, maxSteps: int)
    requires Valid(cm)
    requires (from, to) !in cm.m
    ensures var r := GetConverterWithin(cm, from, to, maxSteps);
            && (r.Some? <==> exists w :: Chain(cm, w, from, to) && |w| <= maxSteps)
            && (r.Some? ==> Chain(cm, r.value, from, to) && 2 <= |r.value| <= maxSteps)
            && (r.Some? ==> forall w :: Chain(cm, w, from, to) ==> |r.value| <= |w|)
  {
    var st0 := Search(maxSteps, None);
    var st := Visit(cm, to, from, [], 0, 0, st0);
    assert Walk(cm, [], from, from);
    VisitSound(cm, from, to, from, [], 0, 0, st0);
    SearchBoundBelowEveryChain(cm, from, to, maxSteps);
    if st.best.Some? {
      var p := st.best.value;
      if |p| == 1 {
        ChainLastEdge(cm, p, from, to);
        assert false;
      }
    } else {
      assert st.bound == maxSteps;
    }
  }

  /** `converterAvailable(from, to, maxSteps)` over the corrected search: a
      direct converter is registered, or a chain of at most `maxSteps` edges
      exists. */
  predicate ConverterAvailableWithin<C>(cm: ConverterMap<C>, from: string, to: string, maxSteps: int)
    requires Valid(cm)
    ensures ConverterAvailableWithin(cm, from, to, maxSteps) <==>
              (from, to) in cm.m || exists w :: Chain(cm, w, from, to) && |w| <= maxSteps
  {
    var r := GetConverterWithin(cm, from, to, maxSteps);
    if (from, to) in cm.m then r.Some?
    else SearchCorrect(cm, from, to, maxSteps); r.Some?
  }

  /** The direct lookup is exact: an entry for (A, B) answers nothing about
      (B, A). */
  lemma DirectLookupIsDirected<C>(c: C)
    ensures var cm := ConverterMap(map[("A", "B") := c], [("A", "B")]);
            && GetConverter(cm, "A", "B") == Some(c)
            && GetConverter(cm, "B", "A") == None
  {
  }

  /** With edges A -> B and B -> C only, the corrected search finds the
      chain with two steps allowed and not with one. */
  lemma TwoEdgeChainNeedsTwoSteps<C>(c1: C, c2: C)
    ensures var cm := ConverterMap(map[("A", "B") := c1, ("B", "C") := c2], [("A", "B"), ("B", "C")]);
            && GetConverterWithin(cm, "A", "C", 2) == Some([("A", "B"), ("B", "C")])
            && GetConverterWithin(cm, "A", "C", 1) == None
  {
    var cm := ConverterMap(map[("A", "B") := c1, ("B", "C") := c2], [("A", "B"), ("B", "C")]);
    var w := [("A", "B"), ("B", "C")];
    assert w[1..][1..] == [];
    assert Walk(cm, w[1..], "B", "C");
    assert Chain(cm, w, "A", "C");
    SearchCorrect(cm, "A", "C", 2);
    var r := GetConverterWithin(cm, "A", "C", 2);
    assert r.Some?;
    ChainLastEdge(cm, r.value, "A", "C");
    assert |r.value| == 2;
    assert r.value[1..][1..] == [];
    assert r.value == w;
    forall u | Chain(cm, u, "A", "C") && |u| <= 1
      ensures false
    {
      ChainLastEdge(cm, u, "A", "C");
    }
    SearchCorrect(cm, "A", "C", 1);
  }

  /** On the cycle A -> B -> A with no edge into C the corrected search stops
      and finds nothing, whatever the bound. */
  lemma CycleWithoutTargetFindsNothing<C>(c1: C, c2: C, maxSteps: int)
    ensures var cm := ConverterMap(map[("A", "B") := c1, ("B", "A") := c2], [("A", "B"), ("B", "A")]);
            GetConverterWithin(cm, "A", "C", maxSteps) == None
  {
    var cm := ConverterMap(map[("A", "B") := c1, ("B", "A") := c2], [("A", "B"), ("B", "A")]);
    forall u | Chain(cm, u, "A", "C")
      ensures false
    {
      ChainLastEdge(cm, u, "A", "C");
    }
    SearchCorrect(cm, "A", "C", maxSteps);
  }

  /** The failed array cast decides every lookup without a direct
      converter: on the map A -> B, B -> C the code as written aborts for
      (A, C), where the corrected search returns the chain A -> B -> C. */
  lemma ArrayCastCounterexample<C>(c1: C, c2: C)
    ensures var cm := ConverterMap(map[("A", "B") := c1, ("B", "C") := c2], [("A", "B"), ("B", "C")]);
            && GetConverterWithinAsWritten(cm, "A", "C", 2) == Failure(ArrayCastFailed)
            && ConverterAvailableWithinAsWritten(cm, "A", "C", 2) == Failure(ArrayCastFailed)
            && GetConverterWithin(cm, "A", "C", 2) == Some([("A", "B"), ("B", "C")])
  {
    TwoEdgeChainNeedsTwoSteps(c1, c2);
  }
}
