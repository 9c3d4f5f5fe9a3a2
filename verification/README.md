# iChen.Persistence core, modelled in Dafny

This project models the self-contained logic of the iChen persistence
library. It covers five parts:

- **GuidEncoder**. A GUID becomes 22 URL-safe Base64 characters, and the code
  decodes back to the GUID.
- **Ascii85**. This is the base-85 codec with Adobe's `<~`/`~>` marks, the `z`
  shorthand for an all-zero group and line wrapping. The instance fields that
  outlive a call (`_tuple`, `_linePos`) are fields of an `Ascii85` value, and
  every call returns the instance as it leaves it.
- **InMemoryCache**. The cache maps a device id to a partition of
  case-insensitive keys. Each key holds a scalar value or a hash of named
  doubles.
- **GetIncrementDateFunc**. This is the step from one reporting period to the
  next: a plain time span, the next Sunday, or the first day of the next
  month, quarter or half year in a given time zone. A `DateTimeOffset` is
  modelled as its UTC tick count plus its offset. The civil calendar is that of
  `System.DateTime`, which is the `Calendar` module.
- **The configuration store**:
  - how mold settings are thinned to a sparse table and read back densely;
  - the validation and insertion logic of molds;
  - how a controller's address is normalised (`ProcessIPAddress`);
  - the field checks of adding and updating a controller.

  The database is a value of type `MoldStore.Store` (or `Controllers.Controllers`).
  Every write either returns the new store or the exception it would throw, as
  `Err(kind)`.

Modules:

- `Wrappers` holds `Option`, `Result` and the exception kinds.
- `Text` holds .NET's white space, `Trim`, the ordinal ignore-case
  comparison, `StartsWith`/`EndsWith` and `Replace`.
- `Numeric` holds the `short`/`ushort`/`uint` types and the casts between them.
- `Base64` holds `Convert.ToBase64String` and `FromBase64String`.
- The remaining modules follow the source files: `GuidEncoder`,
  `Ascii85Codec` with its proofs in `Ascii85Proofs`, `InMemoryCache`,
  `Calendar`, `PeriodStep`, `MoldStore`, `MoldSettings`, `Molds` and
  `Controllers`.

## Model

| member | source | states |
|---|---|---|
| `GuidEncoder.Encode` | Cloud/Utils/GuidEncoder.cs:11-20 | the code of any GUID is 22 characters, each a letter, a digit, `-` or `_` |
| `GuidEncoder.Decode` | Cloud/Utils/GuidEncoder.cs:22-29 | a null code is ArgumentNull; an accepted code is the Base64 text whose bytes are the GUID |
| `GuidEncoder.RoundTrip` | Cloud/Utils/GuidEncoder.cs:11-29 | every GUID decodes back from its 22-character code |
| `GuidEncoder.EncodeInjective` | Cloud/Utils/GuidEncoder.cs:11-20 | distinct GUIDs never share a code |
| `Base64.Encode` | Cloud/Utils/GuidEncoder.cs:17 | n bytes encode to 4 * ceil(n / 3) characters |
| `Base64.EncodeShape` | Cloud/Utils/GuidEncoder.cs:17-19 | the encoding is alphabet characters followed by exactly the padding `=`, so 16 bytes end in `==` that the encoder cuts |
| `Base64.Decode` | Cloud/Utils/GuidEncoder.cs:27 | text that is only skipped characters decodes to no bytes; text whose length after skipping is not a multiple of 4 is a FormatException |
| `Base64.RoundTrip` | Cloud/Utils/GuidEncoder.cs:17-27 | FromBase64String inverts ToBase64String for every byte sequence |
| `Ascii85Codec.AppendString` | Cloud/Utils/GuidEncoder.cs:206-215 | a mark is written whole, after a line break when it does not fit on the current line |
| `Ascii85Codec.AppendChar` | Cloud/Utils/GuidEncoder.cs:217-226 | a character is written, followed by a line break at most |
| `Ascii85Codec.EncodeLoop` | Cloud/Utils/GuidEncoder.cs:161-175 | between groups at most three bytes are pending, and the slots of the bytes still to come in `_tuple` are zero |
| `Ascii85Codec.SlotFree` | Cloud/Utils/GuidEncoder.cs:172 | or-ing a byte into its free slot never overflows 32 bits and keeps the later slots free |
| `Ascii85Codec.BlockChars` | Cloud/Utils/GuidEncoder.cs:186-191 | a block is five characters from `!` to `u` |
| `Ascii85Codec.BlockBytes` | Cloud/Utils/GuidEncoder.cs:201-204 | a partial decode yields exactly the requested number of bytes |
| `Ascii85Codec.Decode` | Cloud/Utils/GuidEncoder.cs:76-144 | with EnforceMarks a text missing either mark is rejected; a call changes no field of the instance except `_tuple` |
| `Ascii85Proofs.RoundTrip` | Cloud/Utils/GuidEncoder.cs:76-182 | Encode leaves `_tuple` at zero, so Decode on that instance gives back every byte sequence. This holds when the prefix mark fits on a line and, without enforced marks, no mark can be read as data |
| `Ascii85Proofs.DecodeEncoded` | Cloud/Utils/GuidEncoder.cs:76-144 | Decode with a zero `_tuple` and the same marks inverts Encode |
| `Ascii85Proofs.EncodeShape` | Cloud/Utils/GuidEncoder.cs:161-178 | apart from line breaks, Encode writes between the marks: `z` for a zero group, five digits for any other full group, and n + 1 digits for a trailing group of n bytes |
| `Ascii85Proofs.EncodeMarks` | Cloud/Utils/GuidEncoder.cs:156-179 | with EnforceMarks the output ends with the suffix mark and starts with the prefix mark. When the prefix is longer than a line, a line break comes first |
| `Ascii85Proofs.EncodeLinesFit` | Cloud/Utils/GuidEncoder.cs:206-226 | with a positive LineLength no output line is longer than LineLength. This needs marks without line breaks, a prefix shorter than a line and a suffix that fits on one |
| `Ascii85Proofs.DigitsCount` | Cloud/Utils/GuidEncoder.cs:119-128 | digits advance the group position modulo 5 and raise nothing |
| `Ascii85Proofs.NoErrorAcceptable` | Cloud/Utils/GuidEncoder.cs:91-117 | a decode loop that raises nothing has seen only digits, `z` and the skipped control characters |
| `Ascii85Proofs.DecodeRejectsBadChar` | Cloud/Utils/GuidEncoder.cs:113-114 | a character outside `!`..`u`, other than `z` and the skipped controls, fails the decode |
| `Ascii85Proofs.DecodeRejectsZInOpenGroup` | Cloud/Utils/GuidEncoder.cs:93-94 | a `z` fails the decode after any text that decodes without error and leaves a group part-filled, line breaks and other skipped characters aside |
| `Ascii85Proofs.DecodeRejectsZInGroup` | Cloud/Utils/GuidEncoder.cs:93-94 | a `z` after a number of digits that is not a multiple of five fails the decode |
| `Ascii85Proofs.DecodeRejectsOneDigitGroup` | Cloud/Utils/GuidEncoder.cs:133-134 | text that decodes without error to a group boundary and then ends in one more digit fails the decode, skipped characters aside |
| `Ascii85Proofs.DecodeRejectsSingleDigitTail` | Cloud/Utils/GuidEncoder.cs:133-134 | digits only, one more than a multiple of five, fail the decode |
| `Ascii85Proofs.StaleTupleCorruptsDecode` | Cloud/Utils/GuidEncoder.cs:87-88 | decoding `<~!!~>` leaves `_tuple` at 614125, and the same instance then decodes the encoding of [0, 0, 0, 1] as [0, 9, 94, 238] |
| `Ascii85Proofs.RoundTripFresh` | Cloud/Utils/GuidEncoder.cs:76-144 | with `_tuple` cleared at the start of Decode, decoding inverts Encode whatever the instance's previous state |
| `Ascii85Proofs.FreshTupleDecodes` | Cloud/Utils/GuidEncoder.cs:136-140 | the input that corrupts the stale decode gives [0, 0, 0, 1] back once `_tuple` restarts |
| `InMemoryCache.GetAll` | Config/Caches/InMemoryCache.cs:28-31 | the whole-partition read holds every key whose value is not a hash, under its stored spelling, with its value |
| `InMemoryCache.GetAllAgrees` | Config/Caches/InMemoryCache.cs:28-60 | the whole-partition read agrees with the single-key read and leaves out exactly the hashes |
| `InMemoryCache.Lookup` | Config/Caches/InMemoryCache.cs:49-53 | a key is found ignoring case. A blank key is ArgumentNull, and an unknown id or key is ArgumentOutOfRange |
| `InMemoryCache.Get` | Config/Caches/InMemoryCache.cs:49-60 | GetAsync<T>: fails as the single-key read fails, or returns `convert` of the stored value. `InMemoryCache.SetThenGet` shows a write reads back through it |
| `InMemoryCache.GetField` | Config/Caches/InMemoryCache.cs:33-47 | a field read succeeds exactly on a stored hash that holds the field, and returns its value; the error kinds are in the source's order |
| `InMemoryCache.Has` | Config/Caches/InMemoryCache.cs:124-125 | HasAsync: an unknown id is false, a null key on a known id is ArgumentNull, and otherwise the key is looked up ignoring case. `InMemoryCache.HasAgreesWithLookup` ties it to the single-key read |
| `InMemoryCache.HasAgreesWithLookup` | Config/Caches/InMemoryCache.cs:124-125 | on a well-formed cache, HasAsync is true exactly when the single-key read would find the key, including a blank key, which is never stored |
| `InMemoryCache.Clear` | Config/Caches/InMemoryCache.cs:25 | after Clear no id has a partition and no key is present |
| `InMemoryCache.Put` | Config/Caches/InMemoryCache.cs:65-66 | AddOrUpdate keeps the first spelling of a key, stores the new value and leaves other keys alone |
| `InMemoryCache.SetValue` | Config/Caches/InMemoryCache.cs:62-67 | a blank key is ArgumentNull; otherwise the id gets a partition |
| `InMemoryCache.SetMany` | Config/Caches/InMemoryCache.cs:69-94 | a null dictionary is ArgumentNull; otherwise the partition is created even if an entry is then refused |
| `InMemoryCache.SetEntriesStops` | Config/Caches/InMemoryCache.cs:75-91 | the loop stops at the first blank key or unsupported value, keeping the entries before it |
| `InMemoryCache.SetEntriesLastWins` | Config/Caches/InMemoryCache.cs:75-93 | when no later entry has the same key ignoring case, an entry's value is what the partition holds |
| `InMemoryCache.SetEntriesKeepsOthers` | Config/Caches/InMemoryCache.cs:75-93 | a key no entry names is left as it was |
| `InMemoryCache.SetValueWellFormed` | Config/Caches/InMemoryCache.cs:62-67 | a write keeps every entry under its own folded key with a non-blank name |
| `InMemoryCache.SetManyWellFormed` | Config/Caches/InMemoryCache.cs:69-94 | the dictionary write keeps the cache well formed, even when it stops half-way |
| `InMemoryCache.SetFieldWellFormed` | Config/Caches/InMemoryCache.cs:109-122 | the field write keeps the cache well formed |
| `InMemoryCache.SetThenLookup` | Config/Caches/InMemoryCache.cs:62-67 | a stored value reads back under any spelling of its key that is equal ignoring case, and nothing else changes |
| `InMemoryCache.SetThenGet` | Config/Caches/InMemoryCache.cs:49-67 | the typed read returns the converted value the write stored |
| `InMemoryCache.SetHash` | Config/Caches/InMemoryCache.cs:106-107 | SetAsync(hash): a null hash is ArgumentNull, and a hash is stored as the value write stores any value. `InMemoryCache.SetHashThenGetField` shows it reads back field by field |
| `InMemoryCache.SetHashThenGetField` | Config/Caches/InMemoryCache.cs:106-107 | a hash stored by the hash write is read back field by field: a field of the hash gives its value and any other field is ArgumentOutOfRange |
| `InMemoryCache.SetField` | Config/Caches/InMemoryCache.cs:109-122 | the field write succeeds exactly for a non-blank key and field on a known id whose key is missing or holds a hash; the error kinds are in the source's order |
| `InMemoryCache.SetFieldOnHash` | Config/Caches/InMemoryCache.cs:117-120 | on an existing hash only that field changes; other keys of the partition and all other partitions read as before |
| `InMemoryCache.SetFieldMisnames` | Config/Caches/InMemoryCache.cs:114-115 | as written, a field set on a missing key is stored as `field` and cannot be read back under its own name |
| `InMemoryCache.SetFieldIntended` | Config/Caches/InMemoryCache.cs:109-122 | the intended field write has the same success condition and errors |
| `InMemoryCache.SetFieldIntendedThenGet` | Config/Caches/InMemoryCache.cs:109-122 | with the intended hash the field written is the field read back, whether or not the key existed |
| `Calendar.DayOfWeek` | Analytics/Utils.cs:50 | DayOfWeek is a number from 0 (Sunday) to 6 |
| `Calendar.DateRoundTrip` | Analytics/Utils.cs:67 | a valid date's day number lies in the DateTime range, and the civil date of that day number is the date again, so a date rebuilt from its year, month and day is the same day |
| `PeriodStep.IncrementKind` | Analytics/Utils.cs:44-101 | a non-negative step is a fixed step; `(int) TotalDays` truncating to -7, -30, -90 or -180 selects weekly, monthly, quarterly or half-yearly; any other step is ArgumentOutOfRange |
| `PeriodStep.FromClock` | Analytics/Utils.cs:67 | the DateTimeOffset constructor succeeds exactly for an in-range clock and UTC time with a whole-minute offset of at most 14 hours |
| `PeriodStep.AddSpan` | Analytics/Utils.cs:44 | adding a span moves the instant and keeps the offset, failing outside the DateTime range |
| `PeriodStep.ToOffset` | Analytics/Utils.cs:66 | ToOffset keeps the instant and changes only the offset |
| `PeriodStep.ShiftMonth` | Analytics/Utils.cs:68 | the year and month n months on have a month index n larger |
| `PeriodStep.StartOfMonthSpec` | Analytics/Utils.cs:66-67 | the rebuilt instant is the first of the month at the original time of day to the millisecond, in the time zone |
| `PeriodStep.AddMonthsSpec` | Analytics/Utils.cs:68 | AddMonths moves the month index, clamps the day to the new month's length, and keeps the time of day and the offset |
| `PeriodStep.FixedStep` | Analytics/Utils.cs:44 | a non-negative step is added to the instant as it is |
| `PeriodStep.WeeklyNextSunday` | Analytics/Utils.cs:47-61 | the weekly rule moves 1 to 7 whole days to the next Sunday of the instant's own clock, a full week from a Sunday, keeping the time of day |
| `PeriodStep.CalendarStep` | Analytics/Utils.cs:63-98 | the calendar rules land, seen in the time zone, on the first of a month MonthGap months later, at the original time to the millisecond, later than the input and in its own offset |
| `PeriodStep.MonthGapNextStart` | Analytics/Utils.cs:76-97 | the month counts of the `% 3` and `% 6` switches lead to the next period start, at most one period on, skipping none |
| `PeriodStep.CalendarNextStart` | Analytics/Utils.cs:63-98 | the calendar rules land on the first day of the first month, quarter or half-year start after the input's month |
| `PeriodStep.PeriodStartAfter` | Analytics/Utils.cs:76-97 | a date MonthGap months after a month is the first period start after it |
| `MoldStore.Densify` | Config/DataStore/DataStore_MoldSettings.cs:12-23 | the dense array is as long as the last offset plus one, each offset holds its row's RawData and gaps hold 0. A negative offset throws: Overflow when the last offset is below -1, IndexOutOfRange otherwise |
| `MoldStore.DensifyAgreesWithValue` | Config/DataStore/DataStore_MoldSettings.cs:12-40 | the dense array agrees with the single-offset read wherever it reaches |
| `MoldStore.SettingValue` | Config/DataStore/DataStore_MoldSettings.cs:34-40 | GetMoldSettingValueAsync: the row's RawData, or 0 when the mold has no row at that offset. `MoldStore.DensifyAgreesWithValue` ties it to the dense read |
| `MoldSettings.SparseSpec` | Config/DataStore/DataStore_MoldSettings.cs:51-58 | for at most 65536 entries, the list is thinned to exactly the indices whose unpacked value is non-zero or that are last, with their packed values |
| `MoldSettings.SparseKeptWhole` | Config/DataStore/DataStore_MoldSettings.cs:57-81 | the dictionary filter keeps everything the list filter hands it, because the last index is its largest key |
| `MoldSettings.MaxKey` | Config/DataStore/DataStore_MoldSettings.cs:75 | the largest key of a non-empty dictionary |
| `MoldSettings.RowsSpec` | Config/DataStore/DataStore_MoldSettings.cs:83-89 | each entry becomes one row at offset `(short) key`, and each row comes from one entry |
| `MoldSettings.RowReadsBack` | Config/DataStore/DataStore_MoldSettings.cs:87 | a row's RawData is the unpacked value |
| `MoldSettings.AddSettings` | Config/DataStore/DataStore_MoldSettings.cs:64-94 | a non-positive mold id is ArgumentOutOfRange, a null dictionary ArgumentNull, and a key equal to an existing offset Application. Its success condition is `MoldSettings.AddSettingsOk` |
| `MoldSettings.AddSettingsOk` | Config/DataStore/DataStore_MoldSettings.cs:64-94 | Add succeeds exactly when the id is positive, the dictionary is given, no key is an existing offset, and the batch is empty or the mold exists (a non-empty batch always keeps its largest key, so it has a row to save) |
| `MoldSettings.AddSettingsList` | Config/DataStore/DataStore_MoldSettings.cs:51-60 | the list Add is a NullReference on a null list and otherwise the dictionary Add of the thinned list. `MoldSettings.NullListBeforeChecks` and `MoldSettings.AddSettingsListRows` state what that means |
| `MoldSettings.NullListBeforeChecks` | Config/DataStore/DataStore_MoldSettings.cs:51-112 | the list overloads of Add and Replace take the list's Count before anything else, so a null list is a NullReference even for an invalid mold id, where the dictionary overloads report ArgumentOutOfRange |
| `MoldSettings.AddSettingsSpec` | Config/DataStore/DataStore_MoldSettings.cs:64-94 | a successful Add keeps every existing row and adds a row for each kept key that reads back its unpacked value; no other mold changes |
| `MoldSettings.AddSettingsRows` | Config/DataStore/DataStore_MoldSettings.cs:72-90 | the added rows never overlap the existing ones |
| `MoldSettings.AddSettingsListRows` | Config/DataStore/DataStore_MoldSettings.cs:51-94 | a list Add onto a mold without settings stores index x exactly when its unpacked value is non-zero or x is last |
| `MoldSettings.ReplaceSettings` | Config/DataStore/DataStore_MoldSettings.cs:109-133 | a non-positive id is ArgumentOutOfRange and a null dictionary is ArgumentNull. Its success condition is `MoldSettings.ReplaceSettingsOk` |
| `MoldSettings.ReplaceSettingsOk` | Config/DataStore/DataStore_MoldSettings.cs:109-133 | Replace succeeds exactly when the id is positive, the dictionary is given, and it is empty or the mold exists |
| `MoldSettings.ReplaceSettingsList` | Config/DataStore/DataStore_MoldSettings.cs:97-106 | the list Replace is a NullReference on a null list and otherwise the dictionary Replace of the thinned list. `MoldSettings.NullListBeforeChecks` and `MoldSettings.ReplaceListRoundTrip` state what that means |
| `MoldSettings.AddSettingsWellFormed` | Config/DataStore/DataStore_MoldSettings.cs:64-94 | a successful Add leaves no settings under a mold the store does not have, and leaves the molds alone |
| `MoldSettings.ReplaceSettingsWellFormed` | Config/DataStore/DataStore_MoldSettings.cs:109-133 | a successful Replace leaves no settings under a mold the store does not have, and leaves the molds alone |
| `MoldSettings.ReplaceSettingsSpec` | Config/DataStore/DataStore_MoldSettings.cs:109-133 | after Replace the mold holds exactly the given entries, zeros included, each reading back its unpacked value; no other mold changes |
| `MoldSettings.ReplaceListBounds` | Config/DataStore/DataStore_MoldSettings.cs:97-133 | after a list Replace the offsets lie within the list and the last index is present |
| `MoldSettings.ReplaceListValues` | Config/DataStore/DataStore_MoldSettings.cs:97-133 | after a list Replace every index reads back as its unpacked value |
| `MoldSettings.ReplaceListRoundTrip` | Config/DataStore/DataStore_MoldSettings.cs:12-23 | a list of at most 32768 entries, once replaced, reads back densely as the unpacked values |
| `Molds.CheckMold` | Config/DataStore/DataStore_Molds.cs:62-65 | a blank name is ArgumentNull and a non-positive controller is ArgumentOutOfRange; otherwise the name is trimmed and not empty |
| `Molds.InsertSpec` | Config/DataStore/DataStore_Molds.cs:79-95 | the new id was unused, the store stays well formed and no other mold changes |
| `Molds.AddMoldList` | Config/DataStore/DataStore_Molds.cs:60-99 | the argument checks come first; a name another mold of the same controller has, ignoring case, is Application; success inserts the trimmed name with the list's rows |
| `Molds.ListSettingsFrom` | Config/DataStore/DataStore_Molds.cs:81-92 | for at most 65536 entries the loop raises nothing and keeps exactly the non-zero or last indices, at offset `(short) x` |
| `Molds.AddMoldListOk` | Config/DataStore/DataStore_Molds.cs:60-99 | for at most 65536 entries the list Add fails only on its checks or a name clash |
| `Molds.AddMoldListReads` | Config/DataStore/DataStore_Molds.cs:81-92 | after a list Add each index reads back its value at offset `(short) x` |
| `Molds.AddMoldListRoundTrip` | Config/DataStore/DataStore_Molds.cs:81-92 | a list of at most 32768 entries densifies back to itself |
| `Molds.AddMoldDict` | Config/DataStore/DataStore_Molds.cs:102-136 | the same checks and name clash; success inserts every entry, zeros included |
| `Molds.AddMoldDictOk` | Config/DataStore/DataStore_Molds.cs:102-136 | the dictionary Add fails only on its checks or a name clash |
| `Molds.DictSettingsReads` | Config/DataStore/DataStore_Molds.cs:123-130 | each key becomes a row at `(short) key` reading back its value, and no other row appears |
| `Molds.AddMoldDictReads` | Config/DataStore/DataStore_Molds.cs:123-130 | after a dictionary Add every entry reads back at its offset |
| `Molds.UpdateMold` | Config/DataStore/DataStore_Molds.cs:139-157 | the checks come first and a missing id is ArgumentOutOfRange; success leaves the settings and ids alone |
| `Molds.UpdateMoldSpec` | Config/DataStore/DataStore_Molds.cs:139-157 | Update succeeds exactly when the checks pass and the mold exists; it rewrites that mold only and keeps the store well formed |
| `Molds.UpdateMoldAllowsDuplicate` | Config/DataStore/DataStore_Molds.cs:146-152 | unlike Add, Update does not refuse a name another mold of the same controller already has |
| `Controllers.MatchIPExact` | Config/DataStore/DataStore_Controllers.cs:12 | the IPv4 matcher reports (address, port) if and only if the anchored pattern matches with those groups |
| `Controllers.MatchIPSound` | Config/DataStore/DataStore_Controllers.cs:12 | every match the matcher reports satisfies the pattern |
| `Controllers.MatchIPComplete` | Config/DataStore/DataStore_Controllers.cs:12 | every match of the pattern is the one the matcher reports |
| `Controllers.FirstTagSpec` | Config/DataStore/DataStore_Controllers.cs:13-14 | the unanchored search finds the leftmost case-insensitive match, and none when there is none |
| `Controllers.ProcessIPAddress` | Config/DataStore/DataStore_Controllers.cs:56-58 | a null or blank address normalises to null |
| `Controllers.ProcessIPAddressTrims` | Config/DataStore/DataStore_Controllers.cs:58-60 | only the trimmed input matters |
| `Controllers.ProcessIPAddressIPv4` | Config/DataStore/DataStore_Controllers.cs:62-66 | a dotted quad gives the parser's text followed by `:port` when a port was given, and null when the parser refuses it |
| `Controllers.ProcessIPAddressSerial` | Config/DataStore/DataStore_Controllers.cs:68-70 | otherwise the leftmost COM followed by digits gives `COM` and that whole digit run |
| `Controllers.ProcessIPAddressTty` | Config/DataStore/DataStore_Controllers.cs:72-74 | otherwise input holding `tty` and a word character is kept as trimmed |
| `Controllers.ProcessIPAddressOther` | Config/DataStore/DataStore_Controllers.cs:72-73 | any other input is null |
| `Controllers.ProcessIPAddressCanonical` | Config/DataStore/DataStore_Controllers.cs:62-66 | an address already in canonical dotted form, with or without a port, is returned unchanged when the parser echoes canonical addresses |
| `Controllers.RequiredText` | Config/DataStore/DataStore_Controllers.cs:85-90 | a required text field is refused when null or blank and stored trimmed |
| `Controllers.CheckFields` | Config/DataStore/DataStore_Controllers.cs:87-91 | the checks run in order: name, type at least the minimum, version, model, then address; on success the fields are trimmed and normalised |
| `Controllers.AddController` | Config/DataStore/DataStore_Controllers.cs:80-103 | the organisation is checked first, then the fields with type above 0, then an existing id is Application |
| `Controllers.AddControllerOk` | Config/DataStore/DataStore_Controllers.cs:80-103 | Add succeeds exactly when every field passes, the type is positive and the id is new |
| `Controllers.AddControllerRow` | Config/DataStore/DataStore_Controllers.cs:82-100 | the added row holds the trimmed texts and the normalised address, and no other row changes |
| `Controllers.UpdateController` | Config/DataStore/DataStore_Controllers.cs:106-124 | a missing id is ArgumentOutOfRange before any field check, and then the fields with type at least 0 are checked |
| `Controllers.UpdateControllerOk` | Config/DataStore/DataStore_Controllers.cs:106-124 | Update succeeds exactly when the controller exists and every field passes |
| `Controllers.UpdateControllerRow` | Config/DataStore/DataStore_Controllers.cs:112-119 | Update rewrites that row only and keeps its organisation |
| `Controllers.TypeZeroOnlyOnUpdate` | Config/DataStore/DataStore_Controllers.cs:88-114 | type 0 is refused when a controller is added but accepted when one is updated |

## Left out

- I/O and storage:
  - The database round trips, the EF queries and SaveChanges, `using` scopes and concurrency are not modelled. A store is a value, and each write is atomic.
  - The `ConcurrentDictionary` thread safety and the `lock`s of the cache are not modelled.
- Values taken from the environment:
  - `Guid.NewGuid`, the `Modified = DateTime.Now` stamps and the mold's own Guid are not modelled.
  - New mold ids are the store's `nextId`.
- Foreign code becomes function parameters:
  - `UnpackMoldSettingValue` is the `Unpacker`.
  - `IPAddress.TryParse` followed by `ToString` is the `AddressParser`.
  - `Convert.ChangeType` is the `convert` of `InMemoryCache.Get`.
  - `Controllers.ProcessIPAddressCanonical` assumes the parser echoes canonical dotted quads, and holds only for such a parser.
- Character classes:
  - `StringComparison.OrdinalIgnoreCase` and `RegexOptions.IgnoreCase` are modelled as ASCII upper-casing.
  - The regex classes `\d` and `\w` are ASCII digits and ASCII word characters. Unicode digits and letters are not modelled.
  - The culture-sensitive `StartsWith`/`EndsWith` of the Ascii85 marks are treated as ordinal comparisons.
- Doubles: cache values and geo coordinates are `real`, only stored and returned. No floating-point arithmetic is modelled.
- `Ascii85Proofs.EncodeShape`, `Ascii85Proofs.RoundTrip`, `Ascii85Proofs.DecodeEncoded` and `Ascii85Proofs.RoundTripFresh` cover the configurations where the round trip holds. EncodeShape reads the text between the marks back through StripMarks, so it needs the same configurations:
  - With EnforceMarks, a prefix mark longer than LineLength gets a line break in front of it, and Decode then rejects the text. `Ascii85Proofs.EncodeMarks` states that case.
  - Without EnforceMarks, a mark made of digit characters is read back as data.
- Null arguments to the Ascii85 codec are not modelled: its text, bytes and marks are plain strings and byte sequences. In the source a null text or byte array is a NullReferenceException (`s.StartsWith`, `ba.Length`), and a null mark is an ArgumentNull from `StartsWith`/`EndsWith`.
- `Ascii85Codec.AppendString` measures the marks in characters. The source's `s.Length` counts UTF-16 code units, so a mark holding a character outside the Basic Multilingual Plane counts twice there and the line breaks can fall differently.
- `Ascii85Proofs.EncodeLinesFit` needs marks without line breaks, a prefix shorter than LineLength and a suffix no longer than it. With other marks the source's lines can be longer.
- `PeriodStep.IncrementKind` models `(int) step.TotalDays` as integer division of the ticks, truncating toward zero. The double conversion agrees with it for every step that selects a rule.
- `Molds.AddMoldListOk`, `Molds.AddMoldListReads` and `MoldSettings.SparseSpec` state nothing about lists of more than 65536 entries:
  - `(short) x` and `(ushort) x` wrap.
  - AddMoldAsync then tracks two rows with one key, which is an InvalidOperation (the model returns it).
  - The list overloads of the settings let later indices overwrite earlier ones.
- `Molds.AddMoldListRoundTrip` and `MoldSettings.ReplaceListRoundTrip` are stated for at most 32768 entries. Beyond that the offsets turn negative, and the dense read throws.
- Foreign keys: a settings row of a mold that does not exist makes SaveChanges fail with DbUpdate. A mold's controller id is not checked against the controllers table.
- `InMemoryCache` values and `GetAsync`:
  - The cache stores values, not references. The hash that `GetAsync<T>` returns by reference, and that a later field write would change under the caller, is not modelled.
  - The `IReadOnlyDictionary` cast of `GetAsync<T>` is part of `convert`.
- Other operations of the same files are plain queries, or deletions that move no data through the logic above: GetMoldSettingsDataAsync, GetMoldSettingAsync, DeleteMoldAsync, the controller and organisation queries, and DeleteControllerAsync.

## Findings

| source | as written | input that shows it | evidently intended | confidence | as-written member | corrected member |
|---|---|---|---|---|---|---|
| Cloud/Utils/GuidEncoder.cs:87-88 | Decode resets `count` but not the instance field `_tuple`. A trailing partial group (lines 136-140) leaves it non-zero, and the next Decode on the same instance adds its digits on top | on a new instance, Decode `<~!!~>` and then Decode `<~!!!!"~>` (the encoding of [0, 0, 0, 1]). The second call gives [0, 9, 94, 238] | `_tuple` restarts at zero with every Decode, so every call inverts Encode (`Ascii85Proofs.RoundTripFresh`) | not executed | `Ascii85Proofs.StaleTupleCorruptsDecode` | `Ascii85Codec.DecodeFresh` |
| Config/Caches/InMemoryCache.cs:114-115 | SetAsync(id, key, field, value) on a missing key stores a new hash whose one field is the literal `"field"` | on an id with a partition and no key `k`, SetAsync(id, `k`, `temp`, 3.0) and then GetAsync(id, `k`, `temp`) throws ArgumentOutOfRange | the new hash holds the requested field, so it reads back (`InMemoryCache.SetFieldIntendedThenGet`) | not executed | `InMemoryCache.SetFieldMisnames` | `InMemoryCache.SetFieldIntended` |
