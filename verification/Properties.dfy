/** `Property` (an ID with a data cell that may hold null) and
    `PropertyManager` (properties kept in a map keyed by ID). Mutators are
    modelled as functions from the old state to the new one. */
module Properties {
  import opened Wrappers

  /** `data == None` is a null data reference. */
  datatype Property<T> = Property(id: string, data: Option<T>)

  /** `getOrDefault`: the data when it is non-null, otherwise the argument. */
  function GetOrDefault<T>(p: Property<T>, default: Option<T>): (r: Option<T>)
    ensures p.data.Some? ==> r == p.data
    ensures p.data.None? ==> r == default
  {
    if p.data.Some? then p.data else default
  }

  /** `set(v)`: afterwards the data is `v`; the answer is the previous data
      when that was non-null and not the same object as `v`, otherwise `v`. */
  function Set<T(==)>(p: Property<T>, v: Option<T>): (res: (Option<T>, Property<T>))
    ensures res.1.data == v && res.1.id == p.id
    ensures res.0 == v || res.0 == p.data
    ensures res.0 == p.data <==> p.data.Some? || v.None?
  {
    var previous := p.data;
    (if previous.Some? && previous != v then previous else v, p.(data := v))
  }

  /** `map(f)`: a new property with the same ID and data `f(data)`; the
      receiver is not changed (it is a value here). */
  function MapData<T, O>(p: Property<T>, f: Option<T> -> Option<O>): (r: Property<O>)
    ensures r.id == p.id && r.data == f(p.data)
  {
    Property(p.id, f(p.data))
  }

  /** `apply(f)`: the same property (same ID) with data replaced by
      `f(data)`. */
  function Apply<T>(p: Property<T>, f: Option<T> -> Option<T>): (r: Property<T>)
    ensures r.id == p.id && r.data == f(p.data)
    ensures r == MapData(p, f)
  {
    p.(data := f(p.data))
  }

  /** `bind(f)`: whatever `f` makes of the data. */
  function Bind<T, O>(p: Property<T>, f: Option<T> -> Property<O>): (r: Property<O>)
    ensures r == f(p.data)
  {
    f(p.data)
  }

  /** `clone`: a new property with equal ID and data. */
  function Clone<T>(p: Property<T>): (r: Property<T>)
    ensures r.id == p.id && r.data == p.data
  {
    Property(p.id, p.data)
  }

  /** `bind` with a function that keeps the ID and wraps a new value is
      `map`. */
  lemma BindIsMap<T, O>(p: Property<T>, g: Option<T> -> Option<O>)
    ensures Bind(p, x => Property(p.id, g(x))) == MapData(p, g)
  {
  }

  /** A clone cannot be told apart from the original: it is equal, and
      mapping or binding over it gives what the original gives. */
  lemma CloneIsIndistinguishable<T, O>(p: Property<T>, f: Option<T> -> Option<O>, b: Option<T> -> Property<O>)
    ensures Clone(p) == p
    ensures MapData(Clone(p), f) == MapData(p, f)
    ensures Bind(Clone(p), b) == Bind(p, b)
  {
  }

  /** One object in an object stream: a string, or a value of the data type
      (possibly null). */
  datatype StreamObject<T> = Text(s: string) | Datum(d: Option<T>)

  /** Why `readExternal` fails: the stream ran out, or an object had the
      wrong class. */
  datatype ReadError = EndOfStream | WrongClass

  /** `writeExternal`: appends the ID, then the data. */
  function WriteExternal<T>(out: seq<StreamObject<T>>, p: Property<T>): (r: seq<StreamObject<T>>)
    ensures |r| == |out| + 2 && r[..|out|] == out
  {
    out + [Text(p.id), Datum(p.data)]
  }

  /** `readExternal`: reads the ID (which must be a string), then the data,
      and returns the property with the rest of the stream. */
  function ReadExternal<T>(input: seq<StreamObject<T>>): (r: Result<(Property<T>, seq<StreamObject<T>>), ReadError>)
    ensures r.Success? ==> |input| >= 2 && r.value.1 == input[2..]
    ensures |input| < 2 ==> r == Failure(EndOfStream)
  {
    if |input| < 2 then Failure(EndOfStream)
    else
      match (input[0], input[1])
      case (Text(id), Datum(d)) => Success((Property(id, d), input[2..]))
      case _ => Failure(WrongClass)
  }

  /** Reading back what was written restores the ID and the data, in that
      order, and leaves whatever followed untouched. */
  lemma ReadWriteRoundTrip<T>(p: Property<T>, rest: seq<StreamObject<T>>)
    ensures ReadExternal(WriteExternal([], p) + rest) == Success((p, rest))
  {
    var s := WriteExternal([], p) + rest;
    assert s[0] == Text(p.id) && s[1] == Datum(p.data);
    assert s[2..] == rest;
  }

  // ---------------------------------------------------------------------
  // PropertyManager

  /** `getModifiableProperties()`. */
  type Manager<T> = map<string, Property<T>>

  /** `addProperty(p)`: stores `p` under its own ID, replacing any earlier
      entry; a null argument is ignored. */
  function AddProperty<T>(pm: Manager<T>, p: Option<Property<T>>): (r: Manager<T>)
    ensures p.None? ==> r == pm
    ensures p.Some? ==> r.Keys == pm.Keys + {p.value.id} && r[p.value.id] == p.value
    ensures p.Some? ==> forall k :: k in pm && k != p.value.id ==> r[k] == pm[k]
  {
    if p.Some? then pm[p.value.id := p.value] else pm
  }

  /** `getProperty(id)`: null when absent. */
  function GetProperty<T>(pm: Manager<T>, id: string): (r: Option<Property<T>>)
    ensures r.Some? <==> id in pm
    ensures r.Some? ==> r.value == pm[id]
  {
    if id in pm then Some(pm[id]) else None
  }

  /** `getValue(id)`: dereferences the property, so the ID must be present. */
  function GetValue<T>(pm: Manager<T>, id: string): (r: Option<T>)
    requires id in pm
    ensures r == pm[id].data
  {
    GetProperty(pm, id).value.data
  }

  /** `setValue(id, v)`: on a present ID, sets that property's data and
      answers the old data; on an absent one, inserts `Property(id, v)` and
      answers null. No other entry changes. */
  function SetValue<T(==)>(pm: Manager<T>, id: string, v: Option<T>): (res: (Option<T>, Manager<T>))
    ensures res.1.Keys == pm.Keys + {id}
    ensures GetValue(res.1, id) == v
    ensures id in pm ==> res.0 == pm[id].data && res.1[id].id == pm[id].id
    ensures id !in pm ==> res.0 == None && res.1[id] == Property(id, v)
    ensures forall k :: k in pm && k != id ==> res.1[k] == pm[k]
  {
    if id in pm then
      var previous := GetProperty(pm, id).value.data;
      var (_, updated) := Set(GetProperty(pm, id).value, v);
      (previous, pm[id := updated])
    else
      (None, pm[id := Property(id, v)])
  }

  /** `getPropertyWithDefault(id, d)`: the stored property, or a fresh
      `Property(id, d)`; the map is a value, so nothing is inserted. */
  function GetPropertyWithDefault<T>(pm: Manager<T>, id: string, d: Option<T>): (r: Property<T>)
    ensures id in pm ==> r == pm[id]
    ensures id !in pm ==> r == Property(id, d)
  {
    match GetProperty(pm, id)
    case Some(p) => p
    case None => Property(id, d)
  }

  /** `getValueWithDefault(id, d)`: the stored data whenever the key exists,
      null data included; `d` only for a missing key. */
  function GetValueWithDefault<T>(pm: Manager<T>, id: string, d: Option<T>): (r: Option<T>)
    ensures id in pm ==> r == pm[id].data
    ensures id !in pm ==> r == d
  {
    GetPropertyWithDefault(pm, id, d).data
  }

  /** `getValueWithDefault` agrees with the stored property's `getOrDefault`
      when its data is non-null, and with a fresh null property's when the
      ID is absent; a stored null is returned as null, where `getOrDefault`
      would give the default. */
  lemma ValueWithDefaultVersusGetOrDefault<T>(pm: Manager<T>, id: string, d: Option<T>)
    ensures id in pm && pm[id].data.Some? ==> GetValueWithDefault(pm, id, d) == GetOrDefault(pm[id], d)
    ensures id !in pm ==> GetValueWithDefault(pm, id, d) == GetOrDefault(Property(id, None), d)
    ensures id in pm && pm[id].data.None? ==> GetValueWithDefault(pm, id, d) == None
  {
  }

  /** `apply(id, f)`: applies `f` to the stored property (which dereferences
      it, so the ID must be present), writes the result back through
      `setValue`, and returns the updated property. */
  function ApplyAt<T(==)>(pm: Manager<T>, id: string, f: Option<T> -> Option<T>): (res: (Property<T>, Manager<T>))
    requires id in pm
    ensures res.0.id == pm[id].id && res.0.data == f(pm[id].data)
    ensures res.1.Keys == pm.Keys && res.1[id] == res.0
    ensures forall k :: k in pm && k != id ==> res.1[k] == pm[k]
  {
    var prop := Apply(GetProperty(pm, id).value, f);
    var pm1 := pm[id := prop];
    var (_, pm2) := SetValue(pm1, id, prop.data);
    (prop, pm2)
  }

  /** `map(id, f)`: `Property(id', f(data))` for the stored property (whose
      own ID is `id'`); the manager is not changed. */
  function MapAt<T, O>(pm: Manager<T>, id: string, f: Option<T> -> Option<O>): (r: Property<O>)
    requires id in pm
    ensures r.id == pm[id].id && r.data == f(pm[id].data)
  {
    MapData(GetProperty(pm, id).value, f)
  }

  /** `bind(id, f)`: whatever `f` makes of the stored property's data. */
  function BindAt<T, O>(pm: Manager<T>, id: string, f: Option<T> -> Property<O>): (r: Property<O>)
    requires id in pm
    ensures r == f(GetValue(pm, id))
  {
    Bind(GetProperty(pm, id).value, f)
  }

  /** `setValue` on a present ID keeps the key set; reading the value back
      gives what was set, and setting the old value back restores the map. */
  lemma SetValueRestores<T>(pm: Manager<T>, id: string, v: Option<T>)
    requires id in pm
    ensures var (previous, pm1) := SetValue(pm, id, v);
            && pm1.Keys == pm.Keys
            && SetValue(pm1, id, previous).1 == pm
  {
    var (previous, pm1) := SetValue(pm, id, v);
    var pm2 := SetValue(pm1, id, previous).1;
    assert pm2[id] == pm[id];
    assert pm2 == pm;
  }
}
