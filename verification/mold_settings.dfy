/** DataStore_MoldSettings: adding and replacing the settings of a mold.
    UnpackMoldSettingValue is not part of this model; it is the parameter
    `unpack`, taking a packed ulong to its (value, variable) pair. */
module MoldSettings {
  import opened Wrappers
  import opened Numeric
  import opened MoldStore

  type Unpacker = ulong -> (ushort, int)

  /** The list overloads keep index x when its unpacked value is non-zero
      or x is the last index. */
  predicate KeptIndex(data: seq<ulong>, unpack: Unpacker, x: int)
    requires 0 <= x < |data|
  {
    x >= |data| - 1 || unpack(data[x]).0 != 0
  }

  /** The loop of the list overloads, from index x on: kept entries go into
      the dictionary under (ushort) x, a later index overwriting an earlier
      one that wraps to the same key. */
  function SparseFrom(data: seq<ulong>, unpack: Unpacker, x: nat, acc: map<ushort, ulong>): (r: map<ushort, ulong>)
    requires x <= |data|
    decreases |data| - x
  {
    if x == |data| then acc
    else if KeptIndex(data, unpack, x) then SparseFrom(data, unpack, x + 1, acc[ToUShort(x) := data[x]])
    else SparseFrom(data, unpack, x + 1, acc)
  }

  function Sparse(data: seq<ulong>, unpack: Unpacker): map<ushort, ulong> {
    SparseFrom(data, unpack, 0, map[])
  }

  /** For lists of at most 65536 entries nothing wraps: the dictionary holds
      exactly the kept indices with their packed values. */
  lemma {:induction false} SparseFromSpec(data: seq<ulong>, unpack: Unpacker, x: nat, acc: map<ushort, ulong>)
    requires x <= |data| <= 0x1_0000
    requires forall k | k in acc :: k < x
    ensures var r := SparseFrom(data, unpack, x, acc);
      (forall k: ushort :: k in r <==> k in acc || (x <= k < |data| && KeptIndex(data, unpack, k)))
      && (forall k | k in r :: r[k] == if k in acc then acc[k] else data[k])
    decreases |data| - x
  {
    if x < |data| {
      if KeptIndex(data, unpack, x) {
        SparseFromSpec(data, unpack, x + 1, acc[ToUShort(x) := data[x]]);
      } else {
        SparseFromSpec(data, unpack, x + 1, acc);
      }
    }
  }

  lemma SparseSpec(data: seq<ulong>, unpack: Unpacker)
    requires |data| <= 0x1_0000
    ensures forall k: ushort :: k in Sparse(data, unpack) <==> k < |data| && KeptIndex(data, unpack, k)
    ensures forall k | k in Sparse(data, unpack) :: Sparse(data, unpack)[k] == data[k]
  {
    SparseFromSpec(data, unpack, 0, map[]);
  }

  /** The largest key of a non-empty dictionary (data.Keys.Max()). */
  function MaxKey(d: map<ushort, ulong>): (r: ushort)
    requires d != map[]
    ensures r in d && forall k | k in d :: k <= r
  {
    MaxKeyAtMost(d, 0xFFFF)
  }

  function MaxKeyAtMost(d: map<ushort, ulong>, k: int): (r: ushort)
    requires d != map[] && 0 <= k < 0x1_0000
    requires forall j | j in d :: j <= k
    ensures r in d && forall j | j in d :: j <= r
    decreases k
  {
    if k as ushort in d then k as ushort
    else
      assert k > 0 by {
        var j :| j in d;
      }
      MaxKeyAtMost(d, k - 1)
  }

  /** The dictionary Add skips an entry whose unpacked value is zero unless
      its key is the largest one (0 for an empty dictionary). */
  predicate KeptKey(d: map<ushort, ulong>, unpack: Unpacker, k: ushort)
    requires k in d
  {
    unpack(d[k]).0 != 0 || k == MaxKey(d)
  }

  /** The row a packed value becomes: (short) offset, the unpacked value
      stored through RawData, and its variable. */
  function RowOf(unpack: Unpacker, v: ulong): Setting {
    var (value, variable) := unpack(v);
    Setting(ToShort(value), Some(variable))
  }

  /** The rows a dictionary becomes, under (short) key. */
  function Rows(d: map<ushort, ulong>, unpack: Unpacker): map<short, Setting> {
    map k | k in d :: ToShort(k) := RowOf(unpack, d[k])
  }

  /** Each entry has its row, and each row comes from one entry. */
  lemma RowsSpec(d: map<ushort, ulong>, unpack: Unpacker)
    ensures forall k | k in d :: ToShort(k) in Rows(d, unpack) && Rows(d, unpack)[ToShort(k)] == RowOf(unpack, d[k])
    ensures forall o | o in Rows(d, unpack) :: ToUShort(o) in d && ToShort(ToUShort(o)) == o
  {
    var r := Rows(d, unpack);
    forall k | k in d ensures ToShort(k) in r && r[ToShort(k)] == RowOf(unpack, d[k]) {
      assert ToShort(k) in r;
      var j :| j in d && ToShort(j) == ToShort(k) && r[ToShort(k)] == RowOf(unpack, d[j]);
      ToShortInjectiveOnUShort(j, k);
    }
    forall o | o in r ensures ToUShort(o) in d && ToShort(ToUShort(o)) == o {
      var k :| k in d && ToShort(k) == o;
      UShortThroughShort(k);
    }
  }

  /** A row reads back the unpacked value through RawData. */
  lemma RowReadsBack(unpack: Unpacker, v: ulong)
    ensures RawData(RowOf(unpack, v)) == unpack(v).0
  {
    UShortThroughShort(unpack(v).0);
  }

  /** The entries the dictionary Add keeps. */
  function KeptEntries(d: map<ushort, ulong>, unpack: Unpacker): (r: map<ushort, ulong>)
    ensures forall k :: k in r <==> k in d && KeptKey(d, unpack, k)
    ensures forall k | k in r :: r[k] == d[k]
  {
    map k | k in d && KeptKey(d, unpack, k) :: d[k]
  }

  /** An existing offset equals a new key after the (ushort) cast. */
  predicate Collides(existing: map<short, Setting>, data: map<ushort, ulong>) {
    exists o | o in existing :: ToUShort(o) in data
  }

  /** AddMoldSettingsAsync(moldId, dictionary). A batch is refused whole
      when one of its keys is an offset the mold already has. The store
      rejects rows of a mold it does not have (a foreign key) when there
      is at least one row to save; with none, nothing is saved. */
  function AddSettings(st: Store, moldId: int, data: Option<map<ushort, ulong>>, unpack: Unpacker): (r: Result<Store>)
    ensures moldId <= 0 ==> r == Err(ArgumentOutOfRange)
    ensures moldId > 0 && data.None? ==> r == Err(ArgumentNull)
    ensures moldId > 0 && data.Some? && Collides(SettingsOf(st, moldId), data.value) ==> r == Err(Application)
  {
    if moldId <= 0 then Err(ArgumentOutOfRange)
    else if data.None? then Err(ArgumentNull)
    else
      var d := data.value;
      var existing := SettingsOf(st, moldId);
      if Collides(existing, d) then Err(Application)
      else
        var added := Rows(KeptEntries(d, unpack), unpack);
        if added == map[] then Ok(st)
        else if moldId !in st.molds then Err(DbUpdate)
        else Ok(st.(settings := st.settings[moldId := existing + added]))
  }

  /** AddMoldSettingsAsync(moldId, list): the list is thinned into a
      dictionary first; a null list fails on its Count. */
  function AddSettingsList(st: Store, moldId: int, data: Option<seq<ulong>>, unpack: Unpacker): (r: Result<Store>)
    ensures data.None? ==> r == Err(NullReference)
    ensures data.Some? ==> r == AddSettings(st, moldId, Some(Sparse(data.value, unpack)), unpack)
  {
    if data.None? then Err(NullReference)
    else AddSettings(st, moldId, Some(Sparse(data.value, unpack)), unpack)
  }

  /** ReplaceMoldSettingsAsync(moldId, dictionary): every row of the mold
      is deleted and saved, then every entry is added, zeros included. The
      rows of a mold the store does not have are refused (a foreign key)
      when there is at least one to save. */
  function ReplaceSettings(st: Store, moldId: int, data: Option<map<ushort, ulong>>, unpack: Unpacker): (r: Result<Store>)
    ensures moldId <= 0 ==> r == Err(ArgumentOutOfRange)
    ensures moldId > 0 && data.None? ==> r == Err(ArgumentNull)
  {
    if moldId <= 0 then Err(ArgumentOutOfRange)
    else if data.None? then Err(ArgumentNull)
    else
      var d := data.value;
      var rows := Rows(d, unpack);
      if rows == map[] then Ok(st.(settings := st.settings - {moldId}))
      else if moldId !in st.molds then Err(DbUpdate)
      else Ok(st.(settings := st.settings[moldId := rows]))
  }

  /** ReplaceMoldSettingsAsync(moldId, list) */
  function ReplaceSettingsList(st: Store, moldId: int, data: Option<seq<ulong>>, unpack: Unpacker): (r: Result<Store>)
    ensures data.None? ==> r == Err(NullReference)
    ensures data.Some? ==> r == ReplaceSettings(st, moldId, Some(Sparse(data.value, unpack)), unpack)
  {
    if data.None? then Err(NullReference)
    else ReplaceSettings(st, moldId, Some(Sparse(data.value, unpack)), unpack)
  }

  // ---------------------------------------------------------------------
  // Properties

  /** A successful Add puts the kept rows next to the existing ones, which
      they never overlap, and touches no other mold. */
  lemma AddSettingsRows(st: Store, moldId: int, d: map<ushort, ulong>, unpack: Unpacker)
    requires AddSettings(st, moldId, Some(d), unpack).Ok?
    ensures var st2 := AddSettings(st, moldId, Some(d), unpack).value;
      var added := Rows(KeptEntries(d, unpack), unpack);
      SettingsOf(st2, moldId) == SettingsOf(st, moldId) + added
      && (forall o | o in added :: o !in SettingsOf(st, moldId))
      && (forall id | id != moldId :: SettingsOf(st2, id) == SettingsOf(st, id))
  {
    var existing := SettingsOf(st, moldId);
    var added := Rows(KeptEntries(d, unpack), unpack);
    var st2 := AddSettings(st, moldId, Some(d), unpack).value;
    if added == map[] {
      assert st2 == st;
      assert existing + added == existing;
    } else {
      assert st2 == st.(settings := st.settings[moldId := existing + added]);
      RowsSpec(KeptEntries(d, unpack), unpack);
      assert !Collides(existing, d);
      forall o | o in added ensures o !in existing {
        assert ToUShort(o) in d;
      }
    }
  }

  /** A successful Add keeps every existing row, adds a row for each key it
      keeps, reading back its unpacked value, and touches no other mold. */
  lemma AddSettingsSpec(st: Store, moldId: int, d: map<ushort, ulong>, unpack: Unpacker)
    requires AddSettings(st, moldId, Some(d), unpack).Ok?
    ensures var st2 := AddSettings(st, moldId, Some(d), unpack).value;
      (forall o | o in SettingsOf(st, moldId) :: o in SettingsOf(st2, moldId) && SettingsOf(st2, moldId)[o] == SettingsOf(st, moldId)[o])
      && (forall k | k in d ::
            SettingValue(st2, moldId, ToShort(k)) == if KeptKey(d, unpack, k) then unpack(d[k]).0 else SettingValue(st, moldId, ToShort(k)))
      && (forall o | o in SettingsOf(st2, moldId) :: o in SettingsOf(st, moldId) || (ToUShort(o) in d && KeptKey(d, unpack, ToUShort(o))))
      && (forall id | id != moldId :: SettingsOf(st2, id) == SettingsOf(st, id))
  {
    var st2 := AddSettings(st, moldId, Some(d), unpack).value;
    var kept := KeptEntries(d, unpack);
    var added := Rows(kept, unpack);
    AddSettingsRows(st, moldId, d, unpack);
    RowsSpec(kept, unpack);
    forall k | k in d
      ensures SettingValue(st2, moldId, ToShort(k)) == if KeptKey(d, unpack, k) then unpack(d[k]).0 else SettingValue(st, moldId, ToShort(k))
    {
      if KeptKey(d, unpack, k) {
        RowReadsBack(unpack, d[k]);
      } else if ToShort(k) in added {
        UShortThroughShort(k);
      }
    }
  }

  /** Replace leaves the mold exactly the given entries, zeros included,
      each reading back its unpacked value. */
  lemma ReplaceSettingsSpec(st: Store, moldId: int, d: map<ushort, ulong>, unpack: Unpacker)
    requires ReplaceSettings(st, moldId, Some(d), unpack).Ok?
    ensures var st2 := ReplaceSettings(st, moldId, Some(d), unpack).value;
      (forall k | k in d :: ToShort(k) in SettingsOf(st2, moldId) && SettingValue(st2, moldId, ToShort(k)) == unpack(d[k]).0)
      && (forall o | o in SettingsOf(st2, moldId) :: ToUShort(o) in d && ToShort(ToUShort(o)) == o)
      && (forall id | id != moldId :: SettingsOf(st2, id) == SettingsOf(st, id))
  {
    RowsSpec(d, unpack);
    assert SettingsOf(ReplaceSettings(st, moldId, Some(d), unpack).value, moldId) == Rows(d, unpack);
    forall k | k in d
      ensures SettingValue(ReplaceSettings(st, moldId, Some(d), unpack).value, moldId, ToShort(k)) == unpack(d[k]).0
    {
      RowReadsBack(unpack, d[k]);
    }
  }

  /** Add succeeds exactly when the id is positive, the dictionary is
      there, no key is an existing offset, and either there is nothing to
      save or the mold exists: a non-empty batch always keeps its largest
      key, so it always has a row to save. */
  lemma AddSettingsOk(st: Store, moldId: int, data: Option<map<ushort, ulong>>, unpack: Unpacker)
    ensures AddSettings(st, moldId, data, unpack).Ok?
      <==> moldId > 0 && data.Some? && !Collides(SettingsOf(st, moldId), data.value)
           && (data.value == map[] || moldId in st.molds)
  {
    if moldId > 0 && data.Some? && data.value != map[] {
      var d := data.value;
      var m := MaxKey(d);
      assert m in KeptEntries(d, unpack);
      assert ToShort(m) in Rows(KeptEntries(d, unpack), unpack);
    }
  }

  /** Replace succeeds exactly when the id is positive, the dictionary is
      there, and either it is empty or the mold exists. */
  lemma ReplaceSettingsOk(st: Store, moldId: int, data: Option<map<ushort, ulong>>, unpack: Unpacker)
    ensures ReplaceSettings(st, moldId, data, unpack).Ok?
      <==> moldId > 0 && data.Some? && (data.value == map[] || moldId in st.molds)
  {
    if moldId > 0 && data.Some? && data.value != map[] {
      var k :| k in data.value;
      assert ToShort(k) in Rows(data.value, unpack);
    }
  }

  /** Neither write leaves settings behind for a mold the store does not
      have, nor touches the molds themselves. */
  lemma AddSettingsWellFormed(st: Store, moldId: int, data: Option<map<ushort, ulong>>, unpack: Unpacker)
    requires WellFormed(st)
    ensures AddSettings(st, moldId, data, unpack).Ok? ==>
      WellFormed(AddSettings(st, moldId, data, unpack).value)
      && AddSettings(st, moldId, data, unpack).value.molds == st.molds
  {
  }

  lemma ReplaceSettingsWellFormed(st: Store, moldId: int, data: Option<map<ushort, ulong>>, unpack: Unpacker)
    requires WellFormed(st)
    ensures ReplaceSettings(st, moldId, data, unpack).Ok? ==>
      WellFormed(ReplaceSettings(st, moldId, data, unpack).value)
      && ReplaceSettings(st, moldId, data, unpack).value.molds == st.molds
  {
  }

  /** The list overloads count the list before the dictionary overload
      checks the mold id: a null list is a NullReferenceException even for
      an invalid id, where a null dictionary is an ArgumentOutOfRange. */
  lemma NullListBeforeChecks(st: Store, moldId: int, unpack: Unpacker)
    ensures AddSettingsList(st, moldId, None, unpack) == Err(NullReference)
    ensures ReplaceSettingsList(st, moldId, None, unpack) == Err(NullReference)
    ensures moldId <= 0 ==>
              AddSettings(st, moldId, None, unpack) == Err(ArgumentOutOfRange)
              && ReplaceSettings(st, moldId, None, unpack) == Err(ArgumentOutOfRange)
  {
  }

  /** The dictionary filter keeps everything the list filter passes it:
      applied after the list filter it changes nothing. */
  lemma SparseKeptWhole(data: seq<ulong>, unpack: Unpacker)
    requires |data| <= 0x1_0000
    ensures var d := Sparse(data, unpack);
      d != map[] ==> MaxKey(d) == |data| - 1
    ensures var d := Sparse(data, unpack);
      forall k | k in d :: KeptKey(d, unpack, k)
  {
    SparseSpec(data, unpack);
    var d := Sparse(data, unpack);
    if d != map[] {
      assert (|data| - 1) as ushort in d;
    }
  }

  /** A list Add onto a mold without settings stores index x iff its
      unpacked value is non-zero or x is the last index. */
  lemma AddSettingsListRows(st: Store, moldId: int, data: seq<ulong>, unpack: Unpacker, x: int)
    requires |data| <= 0x1_0000 && 0 <= x < |data|
    requires AddSettingsList(st, moldId, Some(data), unpack).Ok?
    ensures var st2 := AddSettingsList(st, moldId, Some(data), unpack).value;
      SettingValue(st2, moldId, ToShort(x)) == (if KeptIndex(data, unpack, x) then unpack(data[x]).0 else SettingValue(st, moldId, ToShort(x)))
  {
    var d := Sparse(data, unpack);
    SparseSpec(data, unpack);
    SparseKeptWhole(data, unpack);
    AddSettingsSpec(st, moldId, d, unpack);
    var st2 := AddSettingsList(st, moldId, Some(data), unpack).value;
    if !KeptIndex(data, unpack, x) {
      var o := ToShort(x);
      assert x as ushort !in d;
      UShortThroughShort(x);
    }
  }

  /** After a list Replace of at most 32768 entries the offsets run from
      0 to the last index, which is present. */
  lemma ReplaceListBounds(st: Store, moldId: int, data: seq<ulong>, unpack: Unpacker)
    requires |data| <= 0x8000
    requires ReplaceSettingsList(st, moldId, Some(data), unpack).Ok?
    ensures var m := SettingsOf(ReplaceSettingsList(st, moldId, Some(data), unpack).value, moldId);
      (forall o | o in m :: 0 <= o < |data|) && (data != [] ==> (|data| - 1) as short in m)
  {
    var d := Sparse(data, unpack);
    SparseSpec(data, unpack);
    ReplaceSettingsSpec(st, moldId, d, unpack);
    var m := SettingsOf(ReplaceSettingsList(st, moldId, Some(data), unpack).value, moldId);
    forall o | o in m ensures 0 <= o < |data| {
      assert ToUShort(o) in d;
    }
    if data != [] {
      assert (|data| - 1) as ushort in d;
    }
  }

  /** After a list Replace of at most 32768 entries every index reads as
      its unpacked value: a dropped index was a zero. */
  lemma ReplaceListValues(st: Store, moldId: int, data: seq<ulong>, unpack: Unpacker)
    requires |data| <= 0x8000
    requires ReplaceSettingsList(st, moldId, Some(data), unpack).Ok?
    ensures var m := SettingsOf(ReplaceSettingsList(st, moldId, Some(data), unpack).value, moldId);
      forall i | 0 <= i < |data| :: unpack(data[i]).0 == (if i as short in m then RawData(m[i as short]) else 0)
  {
    var d := Sparse(data, unpack);
    SparseSpec(data, unpack);
    ReplaceSettingsSpec(st, moldId, d, unpack);
    var m := SettingsOf(ReplaceSettingsList(st, moldId, Some(data), unpack).value, moldId);
    forall i | 0 <= i < |data|
      ensures unpack(data[i]).0 == (if i as short in m then RawData(m[i as short]) else 0)
    {
      if i as ushort in d {
        assert ToShort(i) == i;
      }
    }
  }

  /** The settings of a list Replace of at most 32768 entries densify back
      to the unpacked values of the whole list, trailing zeros included. */
  lemma ReplaceListRoundTrip(st: Store, moldId: int, data: seq<ulong>, unpack: Unpacker)
    requires |data| <= 0x8000
    requires ReplaceSettingsList(st, moldId, Some(data), unpack).Ok?
    ensures var st2 := ReplaceSettingsList(st, moldId, Some(data), unpack).value;
      Densify(SettingsOf(st2, moldId)) == Ok(seq(|data|, i requires 0 <= i < |data| => unpack(data[i]).0))
  {
    var m := SettingsOf(ReplaceSettingsList(st, moldId, Some(data), unpack).value, moldId);
    var vals := seq(|data|, i requires 0 <= i < |data| => unpack(data[i]).0);
    ReplaceListBounds(st, moldId, data, unpack);
    ReplaceListValues(st, moldId, data, unpack);
    DensifyExact(m, vals);
  }
}
