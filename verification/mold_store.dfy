/** The mold tables as the data store sees them: molds by id, and per mold
    its settings by offset. A setting's offset and value are smallint
    columns (short); RawData reads the value back as a ushort. */
module MoldStore {
  import opened Wrappers
  import opened Numeric

  type ulong = x: int | 0 <= x < 0x1_0000_0000_0000_0000

  /** A MoldSetting row without its key: the value column and the
      Variable the unpacked value carries (None where it is not set). */
  datatype Setting = Setting(value: short, variable: Option<int>)

  /** A Mold row without its id. */
  datatype Mold = Mold(name: string, controllerId: Option<int>, enabled: bool)

  /** The tables: molds by id, settings by mold id and offset (the
      primary key of MoldSettings), and the id the next new mold gets. */
  datatype Store = Store(molds: map<int, Mold>, settings: map<int, map<short, Setting>>, nextId: int)

  /** Ids below nextId are the only ones in use, and settings belong to
      existing molds. */
  predicate WellFormed(st: Store) {
    (forall id | id in st.molds :: id < st.nextId)
    && (forall id | id in st.settings :: id in st.molds)
  }

  /** MoldSetting.RawData */
  function RawData(s: Setting): ushort {
    ToUShort(s.value)
  }

  /** The settings of one mold, none when it has no row. */
  function SettingsOf(st: Store, moldId: int): map<short, Setting> {
    if moldId in st.settings then st.settings[moldId] else map[]
  }

  /** The last offset in use: the largest key at most o. */
  function LastOffset(m: map<short, Setting>, o: int): (r: short)
    requires m != map[] && -0x8000 <= o < 0x8000
    requires forall k | k in m :: k <= o
    ensures r in m && forall k | k in m :: k <= r
    decreases o + 0x8000
  {
    if o as short in m then o as short
    else
      assert o > -0x8000 by {
        var k :| k in m;
      }
      LastOffset(m, o - 1)
  }

  /** The first offset in use: the smallest key at least o. */
  function FirstOffset(m: map<short, Setting>, o: int): (r: short)
    requires m != map[] && -0x8000 <= o < 0x8000
    requires forall k | k in m :: o <= k
    ensures r in m && forall k | k in m :: r <= k
    decreases 0x8000 - o
  {
    if o as short in m then o as short
    else
      assert o < 0x7FFF by {
        var k :| k in m;
      }
      FirstOffset(m, o + 1)
  }

  /** The largest and smallest offsets of a mold with settings. */
  function MaxOffset(m: map<short, Setting>): (r: short)
    requires m != map[]
    ensures r in m && forall k | k in m :: k <= r
  {
    LastOffset(m, 0x7FFF)
  }

  function MinOffset(m: map<short, Setting>): (r: short)
    requires m != map[]
    ensures r in m && forall k | k in m :: r <= k
  {
    FirstOffset(m, -0x8000)
  }

  /** GetMoldSettingsAsync: an array as long as the last offset (in offset
      order) plus one, holding each row's RawData at its offset. A last
      offset below -1 makes the array size negative (OverflowException);
      any other negative offset indexes outside it. */
  function Densify(m: map<short, Setting>): (r: Result<seq<ushort>>)
    ensures m == map[] ==> r == Ok([])
    ensures r.Ok? && m != map[] ==> |r.value| == MaxOffset(m) + 1
    ensures r.Ok? ==> forall i | 0 <= i < |r.value| ::
      r.value[i] == (if i as short in m then RawData(m[i as short]) else 0)
    ensures r.Ok? <==> forall o | o in m :: o >= 0
    ensures r.Err? ==> r.error == (if MaxOffset(m) < -1 then Overflow else IndexOutOfRange)
  {
    if m == map[] then Ok([])
    else
      var hi := MaxOffset(m);
      var lo := MinOffset(m);
      if hi + 1 < 0 then Err(Overflow)
      else if lo < 0 then Err(IndexOutOfRange)
      else Ok(seq(hi + 1, i requires 0 <= i < hi + 1 => if i as short in m then RawData(m[i as short]) else 0))
  }

  /** GetMoldSettingValueAsync: the RawData at an offset, 0 when no row
      has it. */
  function SettingValue(st: Store, moldId: int, offset: int): (r: ushort)
    ensures (-0x8000 <= offset < 0x8000 && offset as short in SettingsOf(st, moldId))
      ==> r == RawData(SettingsOf(st, moldId)[offset as short])
    ensures !(-0x8000 <= offset < 0x8000 && offset as short in SettingsOf(st, moldId)) ==> r == 0
  {
    var m := SettingsOf(st, moldId);
    if -0x8000 <= offset < 0x8000 && offset as short in m then RawData(m[offset as short]) else 0
  }

  /** A densified array agrees with the single-offset read wherever it
      reaches. */
  lemma DensifyAgreesWithValue(st: Store, moldId: int, i: int)
    requires Densify(SettingsOf(st, moldId)).Ok? && 0 <= i < |Densify(SettingsOf(st, moldId)).value|
    ensures Densify(SettingsOf(st, moldId)).value[i] == SettingValue(st, moldId, i)
  {
  }

  /** A mold whose offsets run from 0 to |vals| - 1, the last one present,
      densifies to vals when each offset reads as the matching entry. */
  lemma DensifyExact(m: map<short, Setting>, vals: seq<ushort>)
    requires |vals| <= 0x8000
    requires forall o | o in m :: 0 <= o < |vals|
    requires vals != [] ==> (|vals| - 1) as short in m
    requires forall i | 0 <= i < |vals| :: vals[i] == (if i as short in m then RawData(m[i as short]) else 0)
    ensures Densify(m) == Ok(vals)
  {
    if m != map[] {
      var o :| o in m;
      assert MaxOffset(m) == |vals| - 1;
      var r := Densify(m).value;
      assert |r| == |vals|;
      forall i | 0 <= i < |vals| ensures r[i] == vals[i] {
      }
      assert r == vals;
    }
  }
}
