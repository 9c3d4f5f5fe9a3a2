/** The Ascii85 class: the base-85 encoding of the ASCII85Decode filter
    (section 7.4.3 of ISO 32000-1:2008) with Adobe's "<~" and "~>" marks,
    the 'z' shorthand for an all-zero group, and line wrapping.

    The instance fields that carry state between calls (_tuple, _linePos)
    are explicit fields of the Ascii85 datatype; each call returns the
    instance as it leaves it. The scratch arrays _encodedBlock and
    _decodedBlock are rewritten before every read and carry nothing. */
module Ascii85Codec {
  import opened Wrappers
  import opened Numeric
  import opened Text

  datatype Ascii85 = Ascii85(
    prefixMark: string,   // PrefixMark
    suffixMark: string,   // SuffixMark
    lineLength: int,      // LineLength; zero or less means one unbroken line
    enforceMarks: bool,   // EnforceMarks
    tuple: uint,          // _tuple
    linePos: int)         // _linePos

  /** A freshly constructed instance. */
  function NewAscii85(): Ascii85 {
    Ascii85("<~", "~>", 75, true, 0, 0)
  }

  const AsciiOffset: int := 33

  /** pow85[i]: the weight of the i-th character of a five-character group. */
  function Pow85(i: nat): nat
    requires i < 5
  {
    [52200625, 614125, 7225, 85, 1][i]
  }

  /** The weight of the i-th byte of a four-byte group (big-endian). */
  function ByteWeight(i: nat): nat
    requires i < 4
  {
    [0x100_0000, 0x1_0000, 0x100, 1][i]
  }

  /** The characters a group may be written with, '!' to 'u'. */
  predicate IsDigitChar(c: char) {
    '!' <= c <= 'u'
  }

  /** Characters the decoder passes over without effect. */
  predicate IsSkippedChar(c: char) {
    c == '\n' || c == '\r' || c == '\t' || c == '\U{0}' || c == '\U{C}' || c == '\U{8}'
  }

  // ---------------------------------------------------------------------
  // Output with line wrapping (AppendString, AppendChar)

  /** The StringBuilder being written and the current _linePos. */
  datatype Writer = Writer(out: string, linePos: int)

  /** AppendString: starts a new line first when s does not fit on the
      current one; after such a break the position restarts at zero. */
  function AppendString(lineLength: int, w: Writer, s: string): (r: Writer)
    ensures r.out == w.out + s || r.out == w.out + "\n" + s
  {
    if lineLength > 0 && w.linePos + |s| > lineLength then Writer(w.out + "\n" + s, 0)
    else Writer(w.out + s, w.linePos + |s|)
  }

  /** AppendChar: writes c, then breaks the line once it is full. */
  function AppendChar(lineLength: int, w: Writer, c: char): (r: Writer)
    ensures r.out == w.out + [c] || r.out == w.out + [c, '\n']
  {
    var pos := w.linePos + 1;
    if lineLength > 0 && pos >= lineLength then Writer(w.out + [c] + "\n", 0)
    else Writer(w.out + [c], pos)
  }

  /** AppendChar for each character of cs in turn. */
  function AppendChars(lineLength: int, w: Writer, cs: string): (r: Writer)
    decreases |cs|
  {
    if cs == [] then w else AppendChars(lineLength, AppendChar(lineLength, w, cs[0]), cs[1..])
  }

  // ---------------------------------------------------------------------
  // Encoding

  /** The character for a base-85 digit. */
  function DigitChar(d: int): (c: char)
    requires 0 <= d < 85
    ensures IsDigitChar(c)
  {
    (d + AsciiOffset) as char
  }

  /** The five characters EncodeBlock computes into _encodedBlock: it fills
      the block from the end with t % 85 and divides t by 85 each time. */
  function BlockChars(t: nat): (r: string)
    ensures |r| == 5 && forall i | 0 <= i < 5 :: IsDigitChar(r[i])
  {
    var t1 := t / 85;
    var t2 := t1 / 85;
    var t3 := t2 / 85;
    var t4 := t3 / 85;
    [DigitChar(t4 % 85), DigitChar(t3 % 85), DigitChar(t2 % 85), DigitChar(t1 % 85), DigitChar(t % 85)]
  }

  /** EncodeBlock(count): appends the first count characters of the block;
      _tuple is left divided by 85 five times. */
  function EncodeBlock(lineLength: int, w: Writer, t: uint, count: nat): (r: (Writer, uint))
    requires count <= 5
  {
    (AppendChars(lineLength, w, BlockChars(t)[..count]), t / 52200625 / 85)
  }

  /** A complete group: 'z' for a zero tuple, else all five characters. */
  function EmitGroup(lineLength: int, w: Writer, full: uint): Writer {
    if full == 0 then AppendChar(lineLength, w, 'z') else EncodeBlock(lineLength, w, full, 5).0
  }

  /** While count bytes of a group are in _tuple, the slots of the other
      bytes are still zero. */
  predicate FreeSlots(count: nat, t: int) {
    if count == 0 then t == 0
    else if count == 1 then t % 0x100_0000 == 0
    else if count == 2 then t % 0x1_0000 == 0
    else if count == 3 then t % 0x100 == 0
    else true
  }

  /** The byte loop of Encode. The fourth byte of a group completes _tuple;
      a zero tuple is written as 'z', any other as five characters, and the
      tuple and count restart. An earlier byte is or-ed into its slot of
      _tuple; the slot is still zero, so the or is an addition. */
  function EncodeLoop(lineLength: int, w: Writer, count: nat, t: uint, bs: seq<byte>): (r: (Writer, nat, uint))
    requires count <= 3 && FreeSlots(count, t)
    ensures r.1 <= 3 && FreeSlots(r.1, r.2)
    decreases |bs|
  {
    if bs == [] then (w, count, t)
    else if count >= 3 then
      EncodeLoop(lineLength, EmitGroup(lineLength, w, t + bs[0]), 0, 0, bs[1..])
    else
      SlotFree(count, t, bs[0]);
      EncodeLoop(lineLength, w, count + 1, t + bs[0] * ByteWeight(count), bs[1..])
  }

  /** Adding a byte into the free slot keeps the tuple below 2^32 and
      leaves the next slot free. */
  lemma SlotFree(count: nat, t: uint, b: byte)
    requires count <= 3 && FreeSlots(count, t)
    ensures t + b * ByteWeight(count) < 0x1_0000_0000
    ensures FreeSlots(count + 1, t + b * ByteWeight(count))
  {
    if count == 0 {
      DivMulAdd(b, 0, 0x100_0000);
    } else if count == 1 {
      var k := t / 0x100_0000;
      assert t == k * 0x100_0000;
      DivMulAdd(k * 0x100 + b, 0, 0x1_0000);
    } else if count == 2 {
      var k := t / 0x1_0000;
      assert t == k * 0x1_0000;
      DivMulAdd(k * 0x100 + b, 0, 0x100);
    } else {
      var k := t / 0x100;
      assert t == k * 0x100;
    }
  }

  /** Encode: the prefix mark, every byte through the loop, a final partial
      group of n bytes as its first n + 1 characters, then the suffix mark.
      _linePos restarts at zero and _tuple is reset before the loop. */
  function Encode(a: Ascii85, bs: seq<byte>): (r: (Ascii85, string))
  {
    var L := a.lineLength;
    var w0 := Writer([], 0);
    var w1 := if a.enforceMarks then AppendString(L, w0, a.prefixMark) else w0;
    var (w2, count, t) := EncodeLoop(L, w1, 0, 0, bs);
    var (w3, t') := if count > 0 then EncodeBlock(L, w2, t, count + 1) else (w2, t);
    var w4 := if a.enforceMarks then AppendString(L, w3, a.suffixMark) else w3;
    (a.(tuple := t', linePos := w4.linePos), w4.out)
  }

  // ---------------------------------------------------------------------
  // Decoding

  /** DecodeBlock(n): the first n bytes of _tuple, most significant first. */
  function BlockBytes(t: uint, n: nat): (r: seq<byte>)
    requires n <= 4
    ensures |r| == n
  {
    [(t / 0x100_0000) % 0x100, (t / 0x1_0000) % 0x100, (t / 0x100) % 0x100, t % 0x100][..n]
  }

  /** The decoder's loop state: the local count, _tuple, and the bytes so far. */
  datatype DecodeState = DecodeState(count: nat, tuple: uint, out: seq<byte>)

  /** Where the loop stopped: an exception, or the end of the input. */
  datatype DecodeRun = DecodeRun(error: Option<Error>, state: DecodeState)

  /** A digit weighed into _tuple, with unsigned 32-bit wrap-around. */
  function AddDigit(t: uint, c: char, count: nat): uint
    requires count < 5
  {
    (t + (c as int - AsciiOffset) * Pow85(count)) % 0x1_0000_0000
  }

  /** The character loop of Decode. 'z' outside a group stands for four
      zero bytes and inside one is an error; the skipped control characters
      do nothing; any other character outside '!'..'u' is an error; a digit
      is added into _tuple with unsigned 32-bit wrap-around, and the fifth
      digit of a group writes four bytes and restarts tuple and count. */
  function DecodeChars(st: DecodeState, s: string): (r: DecodeRun)
    requires st.count < 5
    ensures r.state.count < 5
    decreases |s|
  {
    if s == [] then DecodeRun(None, st)
    else
      var c := s[0];
      if c == 'z' then
        if st.count != 0 then DecodeRun(Some(Generic), st)
        else DecodeChars(st.(out := st.out + [0, 0, 0, 0]), s[1..])
      else if IsSkippedChar(c) then DecodeChars(st, s[1..])
      else if !IsDigitChar(c) then DecodeRun(Some(Generic), st)
      else
        var t := AddDigit(st.tuple, c, st.count);
        if st.count + 1 == 5 then DecodeChars(DecodeState(0, 0, st.out + BlockBytes(t, 4)), s[1..])
        else DecodeChars(DecodeState(st.count + 1, t, st.out), s[1..])
  }

  /** The end of Decode: a last group of one character is an error; a last
      group of n + 1 characters gets pow85[n] added and gives n bytes. The
      second component is _tuple as Decode leaves it. */
  function FinishDecode(st: DecodeState): (r: (Result<seq<byte>>, uint))
    requires st.count < 5
  {
    if st.count == 0 then (Ok(st.out), st.tuple)
    else if st.count == 1 then (Err(Generic), st.tuple)
    else
      var n := st.count - 1;
      var t := (st.tuple + Pow85(n)) % 0x1_0000_0000;
      (Ok(st.out + BlockBytes(t, n)), t)
  }

  /** The text between the marks: each mark is removed when present. */
  function StripMarks(a: Ascii85, s: string): string {
    var s1 := if StartsWith(s, a.prefixMark) then s[|a.prefixMark|..] else s;
    if EndsWith(s1, a.suffixMark) then s1[..|s1| - |a.suffixMark|] else s1
  }

  /** Decode as written: with EnforceMarks both marks must be present; the
      loop starts from whatever _tuple the instance holds (the local count
      starts at zero, the field is not reset). */
  function Decode(a: Ascii85, s: string): (r: (Result<seq<byte>>, Ascii85))
    ensures a.enforceMarks && !(StartsWith(s, a.prefixMark) && EndsWith(s, a.suffixMark)) ==> r.0 == Err(Generic)
    ensures r.1 == a.(tuple := r.1.tuple)
  {
    if a.enforceMarks && (!StartsWith(s, a.prefixMark) || !EndsWith(s, a.suffixMark)) then (Err(Generic), a)
    else
      var run := DecodeChars(DecodeState(0, a.tuple, []), StripMarks(a, s));
      if run.error.Some? then (Err(run.error.value), a.(tuple := run.state.tuple))
      else
        var (res, t) := FinishDecode(run.state);
        (res, a.(tuple := t))
  }

  /** Decode as evidently intended: _tuple restarts at zero like count. */
  function DecodeFresh(a: Ascii85, s: string): (r: (Result<seq<byte>>, Ascii85))
  {
    Decode(a.(tuple := 0), s)
  }
}
