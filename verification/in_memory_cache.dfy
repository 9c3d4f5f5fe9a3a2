/** InMemoryCache: device id -> partition; a partition maps keys, compared
    ignoring case, to a scalar or to a hash of named doubles. The model is
    sequential and has value semantics: a stored hash is a value, as the
    copies the source makes on every store guarantee. */
module InMemoryCache {
  import opened Wrappers
  import opened Numeric
  import opened Text

  /** A value the cache holds. Null is the null string SetAsync(string)
      accepts; doubles are modelled as reals, int and uint as integers. */
  datatype Value =
    | Bool(b: bool)
    | Double(d: real)
    | Str(s: string)
    | Int(i: int)
    | UInt(u: int)
    | Null
    | Hash(h: map<string, real>)

  /** A boxed value handed to the dictionary SetAsync: one of the value
      kinds above, or an object of any other type. */
  datatype Obj = Boxed(v: Value) | OtherType

  /** A stored key, spelled as it was first stored, and its value. */
  datatype Entry = Entry(key: string, value: Value)

  /** A partition, indexed by the case-folded key. */
  type Partition = map<string, Entry>

  type Cache = map<uint, Partition>

  /** The state of the cache after a call that may throw half-way, and the
      exception it throws, if any. */
  datatype Outcome = Outcome(cache: Cache, error: Option<Error>)

  /** Every entry sits under its own folded key and has a non-blank key. */
  predicate WellFormed(c: Cache) {
    forall id, fk | id in c && fk in c[id] ::
      FoldCase(c[id][fk].key) == fk && !IsBlank(c[id][fk].key)
  }

  /** Keys equal ignoring case are blank together. */
  lemma FoldKeepsBlank(a: string, b: string)
    requires EqualsIgnoreCase(a, b)
    ensures IsBlank(a) <==> IsBlank(b)
  {
    if IsBlank(a) {
      forall i | 0 <= i < |b| ensures IsWhiteSpace(b[i]) {
        assert ToUpperAscii(b[i]) == ToUpperAscii(a[i]);
      }
    }
    if IsBlank(b) {
      forall i | 0 <= i < |a| ensures IsWhiteSpace(a[i]) {
        assert ToUpperAscii(b[i]) == ToUpperAscii(a[i]);
      }
    }
  }

  // ---------------------------------------------------------------------
  // Reads

  /** GetPartition: the partition of a known id. */
  function GetPartition(c: Cache, id: uint): (r: Result<Partition>)
    ensures r.Ok? <==> id in c
    ensures r.Ok? ==> r.value == c[id]
    ensures r.Err? ==> r.error == ArgumentOutOfRange
  {
    if id in c then Ok(c[id]) else Err(ArgumentOutOfRange)
  }

  /** GetAsync(id): every entry of the partition except the hashes, under
      the keys as stored. */
  function GetAll(c: Cache, id: uint): (r: Result<map<string, Value>>)
    requires WellFormed(c)
    ensures r.Ok? <==> id in c
    ensures r.Err? ==> r.error == ArgumentOutOfRange
    ensures r.Ok? ==> forall k ::
      k in r.value <==> (FoldCase(k) in c[id] && c[id][FoldCase(k)].key == k && !c[id][FoldCase(k)].value.Hash?)
    ensures r.Ok? ==> forall k | k in r.value :: r.value[k] == c[id][FoldCase(k)].value
  {
    var p :- GetPartition(c, id);
    Ok(map fk | fk in p && !p[fk].value.Hash? :: p[fk].key := p[fk].value)
  }

  /** The value stored under key, found ignoring case. */
  function Lookup(c: Cache, id: uint, key: Option<string>): (r: Result<Value>)
    ensures r.Ok? <==> !IsNullOrWhiteSpace(key) && id in c && FoldCase(key.value) in c[id]
    ensures r.Ok? ==> r.value == c[id][FoldCase(key.value)].value
    ensures r.Err? ==> r.error == (if IsNullOrWhiteSpace(key) then ArgumentNull else ArgumentOutOfRange)
  {
    if IsNullOrWhiteSpace(key) then Err(ArgumentNull)
    else
      var p :- GetPartition(c, id);
      var fk := FoldCase(key.value);
      if fk in p then Ok(p[fk].value) else Err(ArgumentOutOfRange)
  }

  /** GetAsync<T>(id, key): the stored value converted to T; the cast or
      Convert.ChangeType is the caller-supplied `convert`. */
  function Get<T>(c: Cache, id: uint, key: Option<string>, convert: Value -> Result<T>): (r: Result<T>)
    ensures Lookup(c, id, key).Err? ==> r == Err(Lookup(c, id, key).error)
    ensures Lookup(c, id, key).Ok? ==> r == convert(Lookup(c, id, key).value)
  {
    var v :- Lookup(c, id, key);
    convert(v)
  }

  /** GetAsync(id, key, field): one field of a stored hash. */
  function GetField(c: Cache, id: uint, key: Option<string>, field: Option<string>): (r: Result<real>)
    ensures r.Ok? <==>
      !IsNullOrWhiteSpace(key) && !IsNullOrWhiteSpace(field) && id in c && FoldCase(key.value) in c[id]
      && c[id][FoldCase(key.value)].value.Hash? && field.value in c[id][FoldCase(key.value)].value.h
    ensures r.Ok? ==> r.value == c[id][FoldCase(key.value)].value.h[field.value]
    ensures r.Err? ==> r.error == (if IsNullOrWhiteSpace(key) || IsNullOrWhiteSpace(field) then ArgumentNull else ArgumentOutOfRange)
  {
    if IsNullOrWhiteSpace(key) || IsNullOrWhiteSpace(field) then Err(ArgumentNull)
    else
      var v :- Lookup(c, id, key);
      if !v.Hash? then Err(ArgumentOutOfRange)
      else if field.value !in v.h then Err(ArgumentOutOfRange)
      else Ok(v.h[field.value])
  }

  /** HasAsync: false for an unknown id; a null key reaching the
      partition's ContainsKey throws. */
  function Has(c: Cache, id: uint, key: Option<string>): (r: Result<bool>)
    ensures id !in c ==> r == Ok(false)
    ensures id in c && key.None? ==> r == Err(ArgumentNull)
    ensures id in c && key.Some? ==> r == Ok(FoldCase(key.value) in c[id])
  {
    if id !in c then Ok(false)
    else if key.None? then Err(ArgumentNull)
    else Ok(FoldCase(key.value) in c[id])
  }

  // ---------------------------------------------------------------------
  // Writes

  /** Clear: forget every partition. */
  function Clear(c: Cache): (r: Cache)
    ensures WellFormed(r)
    ensures forall id: uint :: Has(r, id, Some([])) == Ok(false) && GetPartition(r, id).Err?
  {
    map[]
  }

  /** AddOrUpdate on a partition: a new key is stored as spelled; an
      existing one keeps its first spelling and takes the new value. */
  function Put(p: Partition, key: string, v: Value): (r: Partition)
    ensures r.Keys == p.Keys + {FoldCase(key)}
    ensures r[FoldCase(key)].value == v
    ensures r[FoldCase(key)].key == (if FoldCase(key) in p then p[FoldCase(key)].key else key)
    ensures forall fk | fk in p && fk != FoldCase(key) :: r[fk] == p[fk]
  {
    var fk := FoldCase(key);
    p[fk := Entry(if fk in p then p[fk].key else key, v)]
  }

  /** The partition of id, created empty when missing (GetOrAdd). */
  function PartitionOrEmpty(c: Cache, id: uint): Partition {
    if id in c then c[id] else map[]
  }

  /** SetValue and the typed SetAsync overloads (bool, double, string,
      int, uint; a hash goes through SetHash). */
  function SetValue(c: Cache, id: uint, key: Option<string>, v: Value): (r: Result<Cache>)
    ensures r.Ok? <==> !IsNullOrWhiteSpace(key)
    ensures r.Err? ==> r.error == ArgumentNull
    ensures r.Ok? ==> r.value.Keys == c.Keys + {id}
  {
    if IsNullOrWhiteSpace(key) then Err(ArgumentNull)
    else Ok(c[id := Put(PartitionOrEmpty(c, id), key.value, v)])
  }

  /** SetAsync(id, key, hash): the hash is copied (a null one makes the
      copy throw) and stored. */
  function SetHash(c: Cache, id: uint, key: Option<string>, hash: Option<map<string, real>>): (r: Result<Cache>)
    ensures hash.None? ==> r == Err(ArgumentNull)
    ensures hash.Some? ==> r == SetValue(c, id, key, Hash(hash.value))
  {
    if hash.None? then Err(ArgumentNull) else SetValue(c, id, key, Hash(hash.value))
  }

  /** The switch of the dictionary SetAsync: which boxed values it stores. */
  predicate Storable(o: Obj) {
    o.Boxed? && !o.v.Null?
  }

  /** The loop of the dictionary SetAsync over the entries, in order: it
      stops at the first blank key (ArgumentNull) or unsupported value
      (ArgumentOutOfRange), keeping what it wrote before. */
  function SetEntries(p: Partition, values: seq<(string, Obj)>): (r: (Partition, Option<Error>))
    decreases |values|
  {
    if values == [] then (p, None)
    else
      var (k, o) := values[0];
      if IsBlank(k) then (p, Some(ArgumentNull))
      else if !Storable(o) then (p, Some(ArgumentOutOfRange))
      else SetEntries(Put(p, k, o.v), values[1..])
  }

  /** SetAsync(id, values): the partition is created before the loop, so a
      call that throws on its first entry still leaves it behind. */
  function SetMany(c: Cache, id: uint, values: Option<seq<(string, Obj)>>): (r: Outcome)
    ensures values.None? ==> r == Outcome(c, Some(ArgumentNull))
    ensures values.Some? ==> r.cache.Keys == c.Keys + {id}
  {
    if values.None? then Outcome(c, Some(ArgumentNull))
    else
      var (p, err) := SetEntries(PartitionOrEmpty(c, id), values.value);
      Outcome(c[id := p], err)
  }

  /** SetAsync(id, key, field, value) as written: a missing key gets a new
      hash whose one field is named "field", whatever field was asked. */
  function SetField(c: Cache, id: uint, key: Option<string>, field: Option<string>, v: real): (r: Result<Cache>)
    ensures r.Ok? <==>
      !IsNullOrWhiteSpace(key) && !IsNullOrWhiteSpace(field) && id in c
      && (FoldCase(key.value) in c[id] ==> c[id][FoldCase(key.value)].value.Hash?)
    ensures r.Err? ==> r.error == (if IsNullOrWhiteSpace(key) || IsNullOrWhiteSpace(field) then ArgumentNull else ArgumentOutOfRange)
  {
    if IsNullOrWhiteSpace(key) then Err(ArgumentNull)
    else if IsNullOrWhiteSpace(field) then Err(ArgumentNull)
    else
      var p :- GetPartition(c, id);
      var fk := FoldCase(key.value);
      if fk !in p then SetValue(c, id, key, Hash(map["field" := v]))
      else if !p[fk].value.Hash? then Err(ArgumentOutOfRange)
      else Ok(c[id := p[fk := Entry(p[fk].key, Hash(p[fk].value.h[field.value := v]))]])
  }

  /** SetAsync(id, key, field, value) as evidently intended: a missing key
      gets a new hash holding the requested field. */
  function SetFieldIntended(c: Cache, id: uint, key: Option<string>, field: Option<string>, v: real): (r: Result<Cache>)
    ensures r.Ok? <==>
      !IsNullOrWhiteSpace(key) && !IsNullOrWhiteSpace(field) && id in c
      && (FoldCase(key.value) in c[id] ==> c[id][FoldCase(key.value)].value.Hash?)
    ensures r.Err? ==> r.error == (if IsNullOrWhiteSpace(key) || IsNullOrWhiteSpace(field) then ArgumentNull else ArgumentOutOfRange)
  {
    if IsNullOrWhiteSpace(key) then Err(ArgumentNull)
    else if IsNullOrWhiteSpace(field) then Err(ArgumentNull)
    else
      var p :- GetPartition(c, id);
      var fk := FoldCase(key.value);
      if fk !in p then SetValue(c, id, key, Hash(map[field.value := v]))
      else if !p[fk].value.Hash? then Err(ArgumentOutOfRange)
      else Ok(c[id := p[fk := Entry(p[fk].key, Hash(p[fk].value.h[field.value := v]))]])
  }

  // ---------------------------------------------------------------------
  // Properties

  /** Every write keeps the cache well formed. */
  lemma SetValueWellFormed(c: Cache, id: uint, key: Option<string>, v: Value)
    requires WellFormed(c) && SetValue(c, id, key, v).Ok?
    ensures WellFormed(SetValue(c, id, key, v).value)
  {
    var fk := FoldCase(key.value);
    var p := PartitionOrEmpty(c, id);
    if fk in p {
      FoldKeepsBlank(p[fk].key, key.value);
    }
  }

  lemma SetEntriesWellFormed(c: Cache, id: uint, p: Partition, values: seq<(string, Obj)>)
    requires WellFormed(c[id := p])
    ensures WellFormed(c[id := SetEntries(p, values).0])
    decreases |values|
  {
    if values != [] && !IsBlank(values[0].0) && Storable(values[0].1) {
      SetValueWellFormed(c[id := p], id, Some(values[0].0), values[0].1.v);
      assert c[id := p][id := Put(p, values[0].0, values[0].1.v)] == c[id := Put(p, values[0].0, values[0].1.v)];
      SetEntriesWellFormed(c, id, Put(p, values[0].0, values[0].1.v), values[1..]);
    }
  }

  lemma SetManyWellFormed(c: Cache, id: uint, values: Option<seq<(string, Obj)>>)
    requires WellFormed(c)
    ensures WellFormed(SetMany(c, id, values).cache)
  {
    if values.Some? {
      assert c[id := PartitionOrEmpty(c, id)] == c || id !in c;
      SetEntriesWellFormed(c, id, PartitionOrEmpty(c, id), values.value);
    }
  }

  lemma SetFieldWellFormed(c: Cache, id: uint, key: Option<string>, field: Option<string>, v: real)
    requires WellFormed(c)
    ensures SetField(c, id, key, field, v).Ok? ==> WellFormed(SetField(c, id, key, field, v).value)
    ensures SetFieldIntended(c, id, key, field, v).Ok? ==> WellFormed(SetFieldIntended(c, id, key, field, v).value)
  {
    if SetField(c, id, key, field, v).Ok? && FoldCase(key.value) !in c[id] {
      SetValueWellFormed(c, id, key, Hash(map["field" := v]));
      SetValueWellFormed(c, id, key, Hash(map[field.value := v]));
    }
  }

  /** A stored value reads back under any spelling of its key that is equal
      ignoring case; every other key and partition reads as before. */
  lemma SetThenLookup(c: Cache, id: uint, key: Option<string>, v: Value, id2: uint, key2: Option<string>)
    requires SetValue(c, id, key, v).Ok?
    ensures var c2 := SetValue(c, id, key, v).value;
      if id2 == id && key2.Some? && EqualsIgnoreCase(key.value, key2.value)
      then Lookup(c2, id2, key2) == Ok(v)
      else Lookup(c2, id2, key2) == Lookup(c, id2, key2)
  {
    if key2.Some? && EqualsIgnoreCase(key.value, key2.value) {
      FoldKeepsBlank(key.value, key2.value);
    }
  }

  /** GetAsync<T> returns the value SetAsync stored, converted to T. */
  lemma SetThenGet<T>(c: Cache, id: uint, key: Option<string>, v: Value, convert: Value -> Result<T>)
    requires SetValue(c, id, key, v).Ok?
    ensures Get(SetValue(c, id, key, v).value, id, key, convert) == convert(v)
  {
    SetThenLookup(c, id, key, v, id, key);
  }

  /** A hash set on its own is read back field by field. */
  lemma SetHashThenGetField(c: Cache, id: uint, key: Option<string>, hash: map<string, real>, field: string)
    requires SetHash(c, id, key, Some(hash)).Ok? && !IsBlank(field)
    ensures var c2 := SetHash(c, id, key, Some(hash)).value;
      GetField(c2, id, key, Some(field)) == (if field in hash then Ok(hash[field]) else Err(ArgumentOutOfRange))
  {
    SetThenLookup(c, id, key, Hash(hash), id, key);
  }

  /** The whole-partition read agrees with the single-key read and leaves
      out exactly the hashes. */
  lemma GetAllAgrees(c: Cache, id: uint, key: string)
    requires WellFormed(c) && id in c
    ensures key in GetAll(c, id).value ==> Lookup(c, id, Some(key)) == Ok(GetAll(c, id).value[key])
    ensures Lookup(c, id, Some(key)).Ok? && !Lookup(c, id, Some(key)).value.Hash?
      ==> c[id][FoldCase(key)].key in GetAll(c, id).value
  {
  }

  /** HasAsync answers whether the single-key read finds the key: a blank
      key is never stored, so it is absent without the read's
      ArgumentNull. */
  lemma HasAgreesWithLookup(c: Cache, id: uint, key: string)
    requires WellFormed(c)
    ensures Has(c, id, Some(key)) == Ok(Lookup(c, id, Some(key)).Ok?)
  {
    if id in c && FoldCase(key) in c[id] && IsBlank(key) {
      FoldKeepsBlank(c[id][FoldCase(key)].key, key);
      assert false;
    }
  }

  /** The dictionary SetAsync stops at the first rejected entry: the
      entries before it stay written, nothing after it is. */
  lemma {:induction false} SetEntriesStops(p: Partition, values: seq<(string, Obj)>, i: int)
    requires 0 <= i < |values|
    requires forall j | 0 <= j < i :: !IsBlank(values[j].0) && Storable(values[j].1)
    requires IsBlank(values[i].0) || !Storable(values[i].1)
    ensures SetEntries(p, values)
      == (SetEntries(p, values[..i]).0, Some(if IsBlank(values[i].0) then ArgumentNull else ArgumentOutOfRange))
    decreases |values|
  {
    if i > 0 {
      var p1 := Put(p, values[0].0, values[0].1.v);
      assert values[1..][..i - 1] == values[..i][1..];
      SetEntriesStops(p1, values[1..], i - 1);
    }
  }

  /** An entry no later entry overrides is what the partition holds under
      its key after a loop that throws nothing. */
  lemma {:induction false} SetEntriesLastWins(p: Partition, values: seq<(string, Obj)>, i: int)
    requires 0 <= i < |values|
    requires SetEntries(p, values).1.None?
    requires forall j | i < j < |values| :: FoldCase(values[j].0) != FoldCase(values[i].0)
    ensures var fk := FoldCase(values[i].0);
      fk in SetEntries(p, values).0 && Boxed(SetEntries(p, values).0[fk].value) == values[i].1
    decreases |values|
  {
    var p1 := Put(p, values[0].0, values[0].1.v);
    if i > 0 {
      SetEntriesLastWins(p1, values[1..], i - 1);
    } else {
      SetEntriesKeepsOthers(p1, values[1..], FoldCase(values[0].0));
    }
  }

  /** A key no entry of the loop spells is left as it was. */
  lemma {:induction false} SetEntriesKeepsOthers(p: Partition, values: seq<(string, Obj)>, fk: string)
    requires forall j | 0 <= j < |values| :: FoldCase(values[j].0) != fk
    ensures fk in SetEntries(p, values).0 <==> fk in p
    ensures fk in p ==> SetEntries(p, values).0[fk] == p[fk]
    decreases |values|
  {
    if values != [] && !IsBlank(values[0].0) && Storable(values[0].1) {
      SetEntriesKeepsOthers(Put(p, values[0].0, values[0].1.v), values[1..], fk);
    }
  }

  /** On a stored hash, setting one field changes that field only; other
      keys and partitions read as before. */
  lemma SetFieldOnHash(c: Cache, id: uint, key: Option<string>, field: Option<string>, v: real,
                       key2: Option<string>, field2: Option<string>)
    requires SetField(c, id, key, field, v).Ok? && FoldCase(key.value) in c[id]
    ensures var c2 := SetField(c, id, key, field, v).value;
      if key2.Some? && EqualsIgnoreCase(key.value, key2.value)
      then GetField(c2, id, key2, field2) == (if field2 == field then Ok(v) else GetField(c, id, key2, field2))
      else Lookup(c2, id, key2) == Lookup(c, id, key2)
    ensures var c2 := SetField(c, id, key, field, v).value;
      forall id2 | id2 != id :: (id2 in c2 <==> id2 in c) && (id2 in c ==> c2[id2] == c[id2])
  {
    if key2.Some? && EqualsIgnoreCase(key.value, key2.value) {
      FoldKeepsBlank(key.value, key2.value);
    }
  }

  /** As written, a field set on a missing key cannot be read back under
      its own name: the new hash holds "field" instead. */
  lemma SetFieldMisnames(c: Cache, id: uint, key: Option<string>, field: Option<string>, v: real)
    requires SetField(c, id, key, field, v).Ok? && FoldCase(key.value) !in c[id]
    ensures var c2 := SetField(c, id, key, field, v).value;
      GetField(c2, id, key, Some("field")) == Ok(v)
      && (field.value != "field" ==> GetField(c2, id, key, field) == Err(ArgumentOutOfRange))
  {
    SetThenLookup(c, id, key, Hash(map["field" := v]), id, key);
    assert !IsWhiteSpace("field"[0]);
  }

  /** With the intended hash, the field set is the field read back,
      whether or not the key existed. */
  lemma SetFieldIntendedThenGet(c: Cache, id: uint, key: Option<string>, field: Option<string>, v: real)
    requires SetFieldIntended(c, id, key, field, v).Ok?
    ensures GetField(SetFieldIntended(c, id, key, field, v).value, id, key, field) == Ok(v)
  {
    if FoldCase(key.value) !in c[id] {
      SetThenLookup(c, id, key, Hash(map[field.value := v]), id, key);
    }
  }
}
