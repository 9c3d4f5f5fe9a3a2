/** DataStore_Molds: adding a mold with its settings, and updating a mold.
    The settings of the list overload keep their offsets as (short) x. */
module Molds {
  import opened Wrappers
  import opened Numeric
  import opened Text
  import opened MoldStore

  /** The argument checks every mold write makes first: a blank name, then
      a controller id that is given but not positive. */
  function CheckMold(name: Option<string>, controller: Option<int>): (r: Result<string>)
    ensures IsNullOrWhiteSpace(name) ==> r == Err(ArgumentNull)
    ensures !IsNullOrWhiteSpace(name) && controller.Some? && controller.value <= 0 ==> r == Err(ArgumentOutOfRange)
    ensures r.Ok? <==> !IsNullOrWhiteSpace(name) && (controller.None? || controller.value > 0)
    ensures r.Ok? ==> r.value == Trim(name.value) && r.value != []
  {
    if IsNullOrWhiteSpace(name) then Err(ArgumentNull)
    else if controller.Some? && controller.value <= 0 then Err(ArgumentOutOfRange)
    else
      TrimEmptyIffBlank(name.value);
      Ok(Trim(name.value))
  }

  /** A mold of this controller already has this name, ignoring case. */
  predicate NameTaken(st: Store, name: string, controller: Option<int>) {
    exists id | id in st.molds :: st.molds[id].controllerId == controller && EqualsIgnoreCase(st.molds[id].name, name)
  }

  /** The list overload keeps index x when it is the last one or its value
      is non-zero. */
  predicate Kept(data: seq<ushort>, x: int)
    requires 0 <= x < |data|
  {
    x >= |data| - 1 || data[x] != 0
  }

  /** The settings loop of the list overload from index x on: index x is
      kept when it is the last one or its value is non-zero, at offset
      (short) x; two kept indices on the same offset (lists longer than
      65536) make the store refuse the second row. */
  function ListSettings(data: seq<ushort>, x: nat, acc: map<short, Setting>): (r: Result<map<short, Setting>>)
    requires x <= |data|
    decreases |data| - x
  {
    if x == |data| then Ok(acc)
    else if Kept(data, x) then
      var o := ToShort(x);
      if o in acc then Err(InvalidOperation)
      else ListSettings(data, x + 1, acc[o := Setting(ToShort(data[x]), None)])
    else ListSettings(data, x + 1, acc)
  }

  /** The new mold with its settings, under the next id. */
  function Insert(st: Store, mold: Mold, settings: map<short, Setting>): (r: (Store, int))
    ensures r.1 == st.nextId && r.0.nextId == st.nextId + 1
    ensures r.0.molds == st.molds[r.1 := mold]
    ensures r.0.settings == st.settings[r.1 := settings]
  {
    (Store(st.molds[st.nextId := mold], st.settings[st.nextId := settings], st.nextId + 1), st.nextId)
  }

  /** The settings rows of the list overload; none for a null list. */
  function ListRows(data: Option<seq<ushort>>): Result<map<short, Setting>> {
    if data.None? then Ok(map[]) else ListSettings(data.value, 0, map[])
  }

  /** AddMoldAsync(name, controller, enabled, IList<ushort> data): the new
      store and the new mold's id. */
  function AddMoldList(st: Store, name: Option<string>, controller: Option<int>, enabled: bool, data: Option<seq<ushort>>): (r: Result<(Store, int)>)
    ensures CheckMold(name, controller).Err? ==> r == Err(CheckMold(name, controller).error)
    ensures CheckMold(name, controller).Ok? && NameTaken(st, CheckMold(name, controller).value, controller) ==> r == Err(Application)
    ensures r.Ok? ==> ListRows(data).Ok? && r.value == Insert(st, Mold(Trim(name.value), controller, enabled), ListRows(data).value)
  {
    var n :- CheckMold(name, controller);
    if NameTaken(st, n, controller) then Err(Application)
    else
      var settings :- ListRows(data);
      Ok(Insert(st, Mold(n, controller, enabled), settings))
  }

  /** AddMoldAsync(name, controller, enabled, IReadOnlyDictionary data):
      every entry is stored, zeros included, at offset (short) key. */
  function AddMoldDict(st: Store, name: Option<string>, controller: Option<int>, enabled: bool, data: Option<map<ushort, ushort>>): (r: Result<(Store, int)>)
    ensures CheckMold(name, controller).Err? ==> r == Err(CheckMold(name, controller).error)
    ensures CheckMold(name, controller).Ok? && NameTaken(st, CheckMold(name, controller).value, controller) ==> r == Err(Application)
    ensures r.Ok? ==> r.value == Insert(st, Mold(Trim(name.value), controller, enabled), if data.None? then map[] else DictSettings(data.value))
  {
    var n :- CheckMold(name, controller);
    if NameTaken(st, n, controller) then Err(Application)
    else
      var settings := if data.None? then map[] else DictSettings(data.value);
      Ok(Insert(st, Mold(n, controller, enabled), settings))
  }

  function DictSettings(d: map<ushort, ushort>): map<short, Setting> {
    map k | k in d :: ToShort(k) := Setting(ToShort(d[k]), None)
  }

  /** UpdateMoldAsync: the checks, then the mold must exist; its enabled
      flag, trimmed name and controller are replaced. No name check. */
  function UpdateMold(st: Store, id: int, enabled: bool, name: Option<string>, controller: Option<int>): (r: Result<Store>)
    ensures CheckMold(name, controller).Err? ==> r == Err(CheckMold(name, controller).error)
    ensures CheckMold(name, controller).Ok? && id !in st.molds ==> r == Err(ArgumentOutOfRange)
    ensures r.Ok? ==> (r.value.settings == st.settings && r.value.nextId == st.nextId
      && r.value.molds == st.molds[id := Mold(Trim(name.value), controller, enabled)])
  {
    var n :- CheckMold(name, controller);
    if id !in st.molds then Err(ArgumentOutOfRange)
    else Ok(st.(molds := st.molds[id := Mold(n, controller, enabled)]))
  }

  /** With at most 65536 entries the offsets (short) x never collide: the
      loop stores exactly the kept indices after x, each with its value,
      and keeps what it started with. */
  lemma {:induction false} ListSettingsFrom(data: seq<ushort>, x: nat, acc: map<short, Setting>)
    requires x <= |data| <= 0x1_0000
    requires forall o | o in acc :: ToUShort(o) < x
    ensures ListSettings(data, x, acc).Ok?
    ensures var m := ListSettings(data, x, acc).value;
      (forall y: ushort :: ToShort(y) in m <==> ToShort(y) in acc || (x <= y < |data| && Kept(data, y)))
      && (forall y: ushort | x <= y < |data| && Kept(data, y) :: m[ToShort(y)] == Setting(ToShort(data[y]), None))
      && (forall o | o in acc :: o in m && m[o] == acc[o])
    decreases |data| - x
  {
    if x < |data| {
      var o := ToShort(x);
      UShortThroughShort(x);
      if Kept(data, x) {
        var acc2 := acc[o := Setting(ToShort(data[x]), None)];
        forall o' | o' in acc2 ensures ToUShort(o') < x + 1 {
        }
        ListSettingsFrom(data, x + 1, acc2);
        var m := ListSettings(data, x + 1, acc2).value;
        forall y: ushort ensures ToShort(y) in m <==> ToShort(y) in acc || (x <= y < |data| && Kept(data, y)) {
          if ToShort(y) == o {
            ToShortInjectiveOnUShort(y, x);
          }
        }
      } else {
        ListSettingsFrom(data, x + 1, acc);
        var m := ListSettings(data, x + 1, acc).value;
        forall y: ushort ensures ToShort(y) in m <==> ToShort(y) in acc || (x <= y < |data| && Kept(data, y)) {
        }
      }
    }
  }

  /** Every offset is (short) y for the ushort y it reads back as. */
  lemma OffsetOf(o: short)
    ensures ToShort(ToUShort(o)) == o
  {
  }

  /** A new mold goes under an id no mold has, keeps the store well
      formed and touches no other mold's settings. */
  lemma InsertSpec(st: Store, mold: Mold, settings: map<short, Setting>)
    requires WellFormed(st)
    ensures var (st2, id) := Insert(st, mold, settings);
      id !in st.molds && WellFormed(st2) && st2.molds == st.molds[id := mold]
      && SettingsOf(st2, id) == settings
      && (forall other | other != id :: SettingsOf(st2, other) == SettingsOf(st, other))
  {
  }

  /** With at most 65536 entries the list overload fails only on its
      argument checks and on a clash of names. */
  lemma AddMoldListOk(st: Store, name: Option<string>, controller: Option<int>, enabled: bool, data: Option<seq<ushort>>)
    requires data.Some? ==> |data.value| <= 0x1_0000
    ensures AddMoldList(st, name, controller, enabled, data).Ok?
      <==> CheckMold(name, controller).Ok? && !NameTaken(st, Trim(name.value), controller)
  {
    if data.Some? {
      ListSettingsFrom(data.value, 0, map[]);
    }
  }

  /** The list overload's rows: index y is at offset (short) y exactly
      when it is kept, holding its value. */
  lemma ListRowsReads(data: seq<ushort>)
    requires |data| <= 0x1_0000
    ensures ListRows(Some(data)).Ok?
    ensures var m := ListRows(Some(data)).value;
      forall y | 0 <= y < |data| :: (ToShort(y) in m <==> Kept(data, y))
        && (Kept(data, y) ==> RawData(m[ToShort(y)]) == data[y])
  {
    ListSettingsFrom(data, 0, map[]);
    var m := ListRows(Some(data)).value;
    forall y | 0 <= y < |data| && Kept(data, y) ensures RawData(m[ToShort(y)]) == data[y] {
      UShortThroughShort(data[y]);
    }
  }

  /** The value read at a short offset is the row's RawData, or 0. */
  lemma ReadsOf(st: Store, id: int, m: map<short, Setting>, o: short)
    requires SettingsOf(st, id) == m
    ensures SettingValue(st, id, o) == if o in m then RawData(m[o]) else 0
  {
  }

  /** AddMoldAsync with a list: each index reads back at offset (short) x,
      its value when kept and nothing (0) when dropped; a null list adds
      no settings. */
  lemma AddMoldListReads(st: Store, name: Option<string>, controller: Option<int>, enabled: bool, data: Option<seq<ushort>>)
    requires data.Some? ==> |data.value| <= 0x1_0000
    requires AddMoldList(st, name, controller, enabled, data).Ok?
    ensures var (st2, id) := AddMoldList(st, name, controller, enabled, data).value;
      (data.None? ==> SettingsOf(st2, id) == map[])
      && (data.Some? ==> forall y | 0 <= y < |data.value| ::
            SettingValue(st2, id, ToShort(y)) == if Kept(data.value, y) then data.value[y] else 0)
  {
    var (st2, id) := AddMoldList(st, name, controller, enabled, data).value;
    var m := ListRows(data).value;
    assert SettingsOf(st2, id) == m;
    if data.Some? {
      ListRowsReads(data.value);
      forall y | 0 <= y < |data.value|
        ensures SettingValue(st2, id, ToShort(y)) == if Kept(data.value, y) then data.value[y] else 0
      {
        ReadsOf(st2, id, m, ToShort(y));
      }
    }
  }

  /** A list of at most 32768 entries reads back whole: densifying the new
      mold's settings gives the list, zeros included. */
  lemma AddMoldListRoundTrip(st: Store, name: Option<string>, controller: Option<int>, enabled: bool, data: seq<ushort>)
    requires |data| <= 0x8000
    requires AddMoldList(st, name, controller, enabled, Some(data)).Ok?
    ensures var (st2, id) := AddMoldList(st, name, controller, enabled, Some(data)).value;
      Densify(SettingsOf(st2, id)) == Ok(data)
  {
    ListSettingsFrom(data, 0, map[]);
    var (st2, id) := AddMoldList(st, name, controller, enabled, Some(data)).value;
    var m := SettingsOf(st2, id);
    assert m == ListSettings(data, 0, map[]).value;
    forall o | o in m ensures 0 <= o < |data| {
      OffsetOf(o);
    }
    if data != [] {
      var last := |data| - 1;
      assert Kept(data, last);
      assert ToShort(last) in m;
    }
    forall i | 0 <= i < |data| ensures data[i] == (if i as short in m then RawData(m[i as short]) else 0) {
      assert ToShort(i) == i as short;
      UShortThroughShort(data[i]);
    }
    DensifyExact(m, data);
  }

  /** AddMoldAsync with a dictionary fails only on its argument checks
      and on a clash of names. */
  lemma AddMoldDictOk(st: Store, name: Option<string>, controller: Option<int>, enabled: bool, data: Option<map<ushort, ushort>>)
    ensures AddMoldDict(st, name, controller, enabled, data).Ok?
      <==> CheckMold(name, controller).Ok? && !NameTaken(st, Trim(name.value), controller)
  {
  }

  /** The dictionary overload's rows: each key at offset (short) key with
      its value, and no other offsets. */
  lemma DictSettingsReads(d: map<ushort, ushort>)
    ensures forall k | k in d :: ToShort(k) in DictSettings(d) && RawData(DictSettings(d)[ToShort(k)]) == d[k]
    ensures forall o | o in DictSettings(d) :: ToUShort(o) in d
  {
    var m := DictSettings(d);
    forall k | k in d ensures ToShort(k) in m && RawData(m[ToShort(k)]) == d[k] {
      assert ToShort(k) in m;
      var j :| j in d && ToShort(j) == ToShort(k) && m[ToShort(k)] == Setting(ToShort(d[j]), None);
      ToShortInjectiveOnUShort(j, k);
      UShortThroughShort(d[k]);
    }
    forall o | o in m ensures ToUShort(o) in d {
      var k :| k in d && ToShort(k) == o;
      UShortThroughShort(k);
    }
  }

  /** AddMoldAsync with a dictionary: every entry is stored at offset
      (short) key, zeros included, and nothing else. */
  lemma AddMoldDictReads(st: Store, name: Option<string>, controller: Option<int>, enabled: bool, data: map<ushort, ushort>)
    requires AddMoldDict(st, name, controller, enabled, Some(data)).Ok?
    ensures var (st2, id) := AddMoldDict(st, name, controller, enabled, Some(data)).value;
      (forall k | k in data :: SettingValue(st2, id, ToShort(k)) == data[k])
      && (forall o | o in SettingsOf(st2, id) :: ToUShort(o) in data)
  {
    var (st2, id) := AddMoldDict(st, name, controller, enabled, Some(data)).value;
    var m := DictSettings(data);
    assert SettingsOf(st2, id) == m;
    DictSettingsReads(data);
    forall k | k in data ensures SettingValue(st2, id, ToShort(k)) == data[k] {
      ReadsOf(st2, id, m, ToShort(k));
    }
  }

  /** UpdateMoldAsync keeps the store well formed and the id set: it
      changes one existing mold and nothing else. */
  lemma UpdateMoldSpec(st: Store, id: int, enabled: bool, name: Option<string>, controller: Option<int>)
    requires WellFormed(st)
    ensures UpdateMold(st, id, enabled, name, controller).Ok?
      <==> CheckMold(name, controller).Ok? && id in st.molds
    ensures UpdateMold(st, id, enabled, name, controller).Ok? ==>
      var st2 := UpdateMold(st, id, enabled, name, controller).value;
      WellFormed(st2) && st2.molds.Keys == st.molds.Keys
      && (forall other | other in st.molds && other != id :: st2.molds[other] == st.molds[other])
  {
  }

  /** UpdateMoldAsync does not look for a clash of names, so two molds of
      one controller can end up with the same name. */
  lemma UpdateMoldAllowsDuplicate(st: Store, a: int, b: int, name: string)
    requires WellFormed(st) && a in st.molds && b in st.molds && a != b
    requires st.molds[a].name == name && st.molds[a].controllerId == None
    requires !IsBlank(name) && Trim(name) == name
    ensures var r := UpdateMold(st, b, true, Some(name), None);
      r.Ok? && r.value.molds[a].name == r.value.molds[b].name
  {
    CheckedName(name);
    UpdateMoldSpec(st, b, true, Some(name), None);
  }

  /** A name that is already trimmed passes the checks unchanged. */
  lemma CheckedName(name: string)
    requires !IsBlank(name) && Trim(name) == name
    ensures CheckMold(Some(name), None) == Ok(name)
  {
    TrimEmptyIffBlank(name);
  }
}
