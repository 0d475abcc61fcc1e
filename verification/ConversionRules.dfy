/** `ConversionRule`: a per-type filter over which other types its owner may
    convert FROM and INTO. Two exception lists are read through a filter mode:
    BLACKLIST answers true unless listed, WHITELIST false unless listed. */
module ConversionRules {
  import opened FluxTypes
  import Lists

  /** The enum `FilterMode`, with `getDefaultResponse` below. */
  datatype FilterMode = Blacklist | Whitelist

  /** FROM: the other type converts into the owner; INTO: the opposite. */
  datatype Direction = Into | From

  datatype Rule = Rule(owner: FluxType, mode: FilterMode, from: seq<FluxType>, to: seq<FluxType>)

  /** `getDefaultResponse()`: the answer given for a type that is not on the
      queried list; BLACKLIST carries true and WHITELIST false. */
  function DefaultResponse(mode: FilterMode): (r: bool)
    ensures mode == Blacklist ==> r
    ensures mode == Whitelist ==> !r
  {
    mode == Blacklist
  }

  /** The default response is exactly what a type on neither list gets, in
      both directions, and the two modes have opposite defaults. */
  lemma UnlistedGetsDefault(r: Rule, d: Direction, t: FluxType)
    requires !Listed(r, d, t)
    ensures Test(r, d, t) == DefaultResponse(r.mode)
    ensures DefaultResponse(Blacklist) != DefaultResponse(Whitelist)
  {
  }

  /** `new ConversionRule(owner)`: blacklist mode, both lists empty. */
  function NewRule(owner: FluxType): (r: Rule)
    ensures r.owner == owner && r.from == [] && r.to == []
    ensures forall d, t :: Test(r, d, t)
  {
    Rule(owner, Blacklist, [], [])
  }

  /** `new ConversionRule(owner, mode)`. */
  function NewRuleWithMode(owner: FluxType, mode: FilterMode): (r: Rule)
    ensures r.owner == owner && r.from == [] && r.to == []
    ensures forall d, t :: Test(r, d, t) <==> mode == Blacklist
  {
    Rule(owner, mode, [], [])
  }

  /** Whether `t` is on the list consulted for direction `d`. */
  predicate Listed(r: Rule, d: Direction, t: FluxType) {
    match d
    case From => t in r.from
    case Into => t in r.to
  }

  /** `test(direction, other)`: a listed type gets the negation of the mode's
      default response, an unlisted one the default itself. */
  predicate Test(r: Rule, d: Direction, t: FluxType)
    ensures r.mode == Blacklist ==> (Test(r, d, t) <==> !Listed(r, d, t))
    ensures r.mode == Whitelist ==> (Test(r, d, t) <==> Listed(r, d, t))
  {
    if (t in r.from && d == From) || (t in r.to && d == Into) then
      !DefaultResponse(r.mode)
    else
      DefaultResponse(r.mode)
  }

  /** `test` is the default response exactly when the type is not listed for
      that direction: blacklist allows the unlisted, whitelist the listed. */
  lemma TestMeaning(r: Rule, d: Direction, t: FluxType)
    ensures Test(r, d, t) <==> (Listed(r, d, t) != DefaultResponse(r.mode))
    ensures r.mode == Blacklist ==> (Test(r, d, t) <==> !Listed(r, d, t))
    ensures r.mode == Whitelist ==> (Test(r, d, t) <==> Listed(r, d, t))
  {
  }

  /** `test(FROM, t)` reads only the `from` list and `test(INTO, t)` only the
      `to` list. */
  lemma TestReadsOnlyItsList(r: Rule, r': Rule, t: FluxType)
    requires r.mode == r'.mode
    ensures r.from == r'.from ==> Test(r, From, t) == Test(r', From, t)
    ensures r.to == r'.to ==> Test(r, Into, t) == Test(r', Into, t)
  {
  }

  /** `setFilterMode`: keeps owner and both lists. */
  function SetFilterMode(r: Rule, mode: FilterMode): (r': Rule)
    ensures r'.mode == mode
    ensures r'.owner == r.owner && r'.from == r.from && r'.to == r.to
  {
    r.(mode := mode)
  }

  /** Switching to the other mode negates every answer of `test`. */
  lemma SwitchingModeNegates(r: Rule, d: Direction, t: FluxType)
    ensures Test(SetFilterMode(r, if r.mode == Blacklist then Whitelist else Blacklist), d, t)
         == !Test(r, d, t)
  {
  }

  /** `addFromException`: always true; lists `t` for FROM, nothing else moves. */
  function AddFromException(r: Rule, t: FluxType): (res: (bool, Rule))
    ensures res.0
    ensures Listed(res.1, From, t)
    ensures res.1.from == r.from + [t]
    ensures res.1.to == r.to && res.1.mode == r.mode && res.1.owner == r.owner
  {
    (true, r.(from := r.from + [t]))
  }

  /** `addToException`: always true; lists `t` for INTO, nothing else moves. */
  function AddToException(r: Rule, t: FluxType): (res: (bool, Rule))
    ensures res.0
    ensures Listed(res.1, Into, t)
    ensures res.1.to == r.to + [t]
    ensures res.1.from == r.from && res.1.mode == r.mode && res.1.owner == r.owner
  {
    (true, r.(to := r.to + [t]))
  }

  /** `removeFromException`: deletes one occurrence from the FROM list and
      reports whether `t` was listed there. */
  function RemoveFromException(r: Rule, t: FluxType): (res: (bool, Rule))
    ensures res.0 <==> t in r.from
    ensures multiset(res.1.from) == multiset(r.from) - multiset{t}
    ensures t !in r.from ==> res.1 == r
    ensures res.1.to == r.to && res.1.mode == r.mode && res.1.owner == r.owner
  {
    var (found, rest) := Lists.RemoveFirst(r.from, t);
    (found, r.(from := rest))
  }

  /** `removeToException`: deletes one occurrence from the INTO list and
      reports whether `t` was listed there. */
  function RemoveToException(r: Rule, t: FluxType): (res: (bool, Rule))
    ensures res.0 <==> t in r.to
    ensures multiset(res.1.to) == multiset(r.to) - multiset{t}
    ensures t !in r.to ==> res.1 == r
    ensures res.1.from == r.from && res.1.mode == r.mode && res.1.owner == r.owner
  {
    var (found, rest) := Lists.RemoveFirst(r.to, t);
    (found, r.(to := rest))
  }

  /** Adding a FROM exception flips `test(FROM, t)` away from the default and
      leaves every INTO answer as it was. */
  lemma AddFromExceptionEffect(r: Rule, t: FluxType, u: FluxType)
    ensures Test(AddFromException(r, t).1, From, t) == !DefaultResponse(r.mode)
    ensures Test(AddFromException(r, t).1, Into, u) == Test(r, Into, u)
  {
  }

  /** A type added twice and removed once is still listed, so the answer for
      it is still the listed one. */
  lemma AddTwiceRemoveOnce(r: Rule, t: FluxType)
    ensures var r1 := AddFromException(AddFromException(r, t).1, t).1;
            var r2 := RemoveFromException(r1, t).1;
            Listed(r2, From, t) && Test(r2, From, t) == !DefaultResponse(r.mode)
  {
    var r1 := AddFromException(AddFromException(r, t).1, t).1;
    assert r1.from == r.from + [t] + [t];
    assert multiset(r1.from)[t] >= 2;
    Lists.RemoveFirstKeepsDuplicates(r1.from, t);
  }

  /** Removing a FROM exception for `t` changes no answer about another
      type, in either direction. */
  lemma RemoveFromExceptionKeepsOthers(r: Rule, t: FluxType, u: FluxType, d: Direction)
    requires u != t
    ensures Test(RemoveFromException(r, t).1, d, u) == Test(r, d, u)
  {
    Lists.RemoveFirstKeepsOthers(r.from, t, u);
  }
}
