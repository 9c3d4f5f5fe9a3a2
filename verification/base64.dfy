/** Base64 as defined in section 4 of RFC 4648, as .NET's
    Convert.ToBase64String produces it and Convert.FromBase64String reads it. */
module Base64 {
  import opened Wrappers
  import Text
  import opened Numeric

  /** The 64-character alphabet of section 4 of RFC 4648. */
  predicate IsAlphabetChar(c: char) {
    'A' <= c <= 'Z' || 'a' <= c <= 'z' || '0' <= c <= '9' || c == '+' || c == '/'
  }

  /** The character that encodes the 6-bit value v. */
  function CharOf(v: int): (c: char)
    requires 0 <= v < 64
    ensures IsAlphabetChar(c)
  {
    if v < 26 then ('A' as int + v) as char
    else if v < 52 then ('a' as int + v - 26) as char
    else if v < 62 then ('0' as int + v - 52) as char
    else if v == 62 then '+'
    else '/'
  }

  /** The 6-bit value of an alphabet character. */
  function ValueOf(c: char): (v: int)
    requires IsAlphabetChar(c)
    ensures 0 <= v < 64 && CharOf(v) == c
  {
    if 'A' <= c <= 'Z' then c as int - 'A' as int
    else if 'a' <= c <= 'z' then c as int - 'a' as int + 26
    else if '0' <= c <= '9' then c as int - '0' as int + 52
    else if c == '+' then 62
    else 63
  }

  lemma ValueOfCharOf(v: int)
    requires 0 <= v < 64
    ensures ValueOf(CharOf(v)) == v
  {
  }

  /** Number of '=' characters that end the encoding of n bytes. */
  function Padding(n: nat): nat {
    if n % 3 == 0 then 0 else 3 - n % 3
  }

  /** The four characters that encode three bytes. */
  function EncodeTriple(b0: byte, b1: byte, b2: byte): (r: string)
    ensures |r| == 4 && forall i | 0 <= i < 4 :: IsAlphabetChar(r[i])
  {
    [CharOf(b0 / 4), CharOf((b0 % 4) * 16 + b1 / 16), CharOf((b1 % 16) * 4 + b2 / 64), CharOf(b2 % 64)]
  }

  /** Convert.ToBase64String: every three bytes become four characters and
      a final group of one or two bytes is padded with '='. */
  function Encode(bs: seq<byte>): (r: string)
    ensures |r| % 4 == 0 && |r| / 4 == (|bs| + 2) / 3
  {
    if |bs| == 0 then []
    else if |bs| == 1 then [CharOf(bs[0] / 4), CharOf((bs[0] % 4) * 16), '=', '=']
    else if |bs| == 2 then
      [CharOf(bs[0] / 4), CharOf((bs[0] % 4) * 16 + bs[1] / 16), CharOf((bs[1] % 16) * 4), '=']
    else
      var rest := Encode(bs[3..]);
      assert (|bs| + 2) / 3 == (|bs[3..]| + 2) / 3 + 1;
      EncodeTriple(bs[0], bs[1], bs[2]) + rest
  }

  /** The output is alphabet characters followed by exactly Padding(|bs|) '='. */
  lemma {:induction false} EncodeShape(bs: seq<byte>)
    ensures forall i | 0 <= i < |Encode(bs)| - Padding(|bs|) :: IsAlphabetChar(Encode(bs)[i])
    ensures forall i | |Encode(bs)| - Padding(|bs|) <= i < |Encode(bs)| :: Encode(bs)[i] == '='
    decreases |bs|
  {
    if |bs| > 2 {
      EncodeShape(bs[3..]);
      assert Padding(|bs[3..]|) == Padding(|bs|);
      var q := EncodeTriple(bs[0], bs[1], bs[2]);
      assert Encode(bs) == q + Encode(bs[3..]);
    }
  }

  /** The characters Convert.FromBase64String skips. */
  predicate IsSkipped(c: char) {
    c == ' ' || c == '\t' || c == '\r' || c == '\n'
  }

  function RemoveSkipped(s: string): (r: string)
    ensures |r| <= |s|
    ensures forall i | 0 <= i < |r| :: !IsSkipped(r[i])
    ensures (forall i | 0 <= i < |s| :: !IsSkipped(s[i])) ==> r == s
  {
    if s == [] then []
    else if IsSkipped(s[0]) then RemoveSkipped(s[1..])
    else [s[0]] + RemoveSkipped(s[1..])
  }

  /** The last quartet: complete, or padded with one or two '='. The bits of
      the last character that do not belong to a byte are ignored. */
  function DecodeLastQuartet(q: string): (r: Result<seq<byte>>)
    requires |q| == 4
    ensures r.Ok? ==> 1 <= |r.value| <= 3
  {
    if IsAlphabetChar(q[0]) && IsAlphabetChar(q[1]) && IsAlphabetChar(q[2]) && IsAlphabetChar(q[3]) then
      Ok(DecodeFull(q))
    else if IsAlphabetChar(q[0]) && IsAlphabetChar(q[1]) && q[2] == '=' && q[3] == '=' then
      Ok([ValueOf(q[0]) * 4 + ValueOf(q[1]) / 16])
    else if IsAlphabetChar(q[0]) && IsAlphabetChar(q[1]) && IsAlphabetChar(q[2]) && q[3] == '=' then
      Ok([ValueOf(q[0]) * 4 + ValueOf(q[1]) / 16, (ValueOf(q[1]) % 16) * 16 + ValueOf(q[2]) / 4])
    else
      Err(Format)
  }

  /** Three bytes from four alphabet characters. */
  function DecodeFull(q: string): (r: seq<byte>)
    requires |q| == 4 && forall i | 0 <= i < 4 :: IsAlphabetChar(q[i])
    ensures |r| == 3
  {
    var v0, v1, v2, v3 := ValueOf(q[0]), ValueOf(q[1]), ValueOf(q[2]), ValueOf(q[3]);
    [v0 * 4 + v1 / 16, (v1 % 16) * 16 + v2 / 4, (v2 % 4) * 64 + v3]
  }

  /** Decodes quartets; padding is allowed in the last quartet only. */
  function DecodeQuartets(s: string): (r: Result<seq<byte>>)
    requires |s| % 4 == 0
    ensures r.Ok? ==> |r.value| <= |s| / 4 * 3
    decreases |s|
  {
    if s == [] then Ok([])
    else if |s| == 4 then DecodeLastQuartet(s)
    else if IsAlphabetChar(s[0]) && IsAlphabetChar(s[1]) && IsAlphabetChar(s[2]) && IsAlphabetChar(s[3]) then
      var rest :- DecodeQuartets(s[4..]);
      Ok(DecodeFull(s[..4]) + rest)
    else
      Err(Format)
  }

  /** Convert.FromBase64String: white space is skipped, the rest must be
      whole quartets, otherwise FormatException. */
  function Decode(s: string): (r: Result<seq<byte>>)
    ensures RemoveSkipped(s) == [] ==> r == Ok([])
    ensures |RemoveSkipped(s)| % 4 != 0 ==> r == Err(Format)
  {
    var t := RemoveSkipped(s);
    if |t| % 4 != 0 then Err(Format) else DecodeQuartets(t)
  }

  /** Splitting a number into a quotient and a remainder by a small constant. */
  lemma DivModConst(a: int, x: int, k: int)
    requires k == 4 || k == 16 || k == 64
    requires 0 <= x < k
    ensures (a * k + x) / k == a && (a * k + x) % k == x
  {
  }

  lemma TripleRoundTrip(b0: byte, b1: byte, b2: byte)
    ensures DecodeFull(EncodeTriple(b0, b1, b2)) == [b0, b1, b2]
  {
    var v0, v1, v2, v3 := b0 / 4, (b0 % 4) * 16 + b1 / 16, (b1 % 16) * 4 + b2 / 64, b2 % 64;
    ValueOfCharOf(v0);
    ValueOfCharOf(v1);
    ValueOfCharOf(v2);
    ValueOfCharOf(v3);
    DivModConst(b0 % 4, b1 / 16, 16);
    DivModConst(b1 % 16, b2 / 64, 4);
    assert v0 * 4 + v1 / 16 == b0;
    assert (v1 % 16) * 16 + v2 / 4 == b1;
    assert (v2 % 4) * 64 + v3 == b2;
  }

  lemma NothingSkipped(bs: seq<byte>)
    ensures forall i | 0 <= i < |Encode(bs)| :: !IsSkipped(Encode(bs)[i])
  {
    var e := Encode(bs);
    EncodeShape(bs);
    forall i | 0 <= i < |e| ensures !IsSkipped(e[i]) {
      if i < |e| - Padding(|bs|) { assert IsAlphabetChar(e[i]); } else { assert e[i] == '='; }
    }
  }

  /** Convert.FromBase64String inverts Convert.ToBase64String. */
  lemma {:induction false} RoundTrip(bs: seq<byte>)
    ensures Decode(Encode(bs)) == Ok(bs)
  {
    var e := Encode(bs);
    NothingSkipped(bs);
    var t := RemoveSkipped(e);
    assert t == e;
    QuartetsRoundTrip(bs);
  }

  lemma OneByteRoundTrip(b0: byte)
    ensures DecodeQuartets(Encode([b0])) == Ok([b0])
  {
    var q := [CharOf(b0 / 4), CharOf((b0 % 4) * 16), '=', '='];
    assert Encode([b0]) == q;
    ValueOfCharOf(b0 / 4);
    ValueOfCharOf((b0 % 4) * 16);
    DivModConst(b0 % 4, 0, 16);
    assert ValueOf(q[0]) * 4 + ValueOf(q[1]) / 16 == b0;
  }

  lemma TwoBytesRoundTrip(b0: byte, b1: byte)
    ensures DecodeQuartets(Encode([b0, b1])) == Ok([b0, b1])
  {
    var q := [CharOf(b0 / 4), CharOf((b0 % 4) * 16 + b1 / 16), CharOf((b1 % 16) * 4), '='];
    assert Encode([b0, b1]) == q;
    ValueOfCharOf(b0 / 4);
    ValueOfCharOf((b0 % 4) * 16 + b1 / 16);
    ValueOfCharOf((b1 % 16) * 4);
    DivModConst(b0 % 4, b1 / 16, 16);
    DivModConst(b1 % 16, 0, 4);
    assert ValueOf(q[0]) * 4 + ValueOf(q[1]) / 16 == b0;
    assert (ValueOf(q[1]) % 16) * 16 + ValueOf(q[2]) / 4 == b1;
  }

  lemma {:induction false} QuartetsRoundTrip(bs: seq<byte>)
    ensures DecodeQuartets(Encode(bs)) == Ok(bs)
    decreases |bs|
  {
    if |bs| == 0 {
    } else if |bs| == 1 {
      assert bs == [bs[0]];
      OneByteRoundTrip(bs[0]);
    } else if |bs| == 2 {
      assert bs == [bs[0], bs[1]];
      TwoBytesRoundTrip(bs[0], bs[1]);
    } else if |bs| == 3 {
      ThreeBytesRoundTrip(bs);
    } else {
      QuartetsRoundTrip(bs[3..]);
      LeadingTripleDecodes(bs);
    }
  }

  lemma ThreeBytesRoundTrip(bs: seq<byte>)
    requires |bs| == 3
    ensures DecodeQuartets(Encode(bs)) == Ok(bs)
  {
    TripleRoundTrip(bs[0], bs[1], bs[2]);
    assert bs[3..] == [];
    assert Encode(bs) == EncodeTriple(bs[0], bs[1], bs[2]);
    assert bs == [bs[0], bs[1], bs[2]];
  }

  /** A full quartet in front of further quartets decodes to its three bytes first. */
  lemma DecodeFullQuartetFirst(q: string, rest: string)
    requires |q| == 4 && forall i | 0 <= i < 4 :: IsAlphabetChar(q[i])
    requires |rest| % 4 == 0 && rest != []
    requires DecodeQuartets(rest).Ok?
    ensures DecodeQuartets(q + rest) == Ok(DecodeFull(q) + DecodeQuartets(rest).value)
  {
    var e := q + rest;
    assert e[..4] == q && e[4..] == rest;
  }

  /** A leading full triple decodes ahead of whatever the rest decodes to. */
  lemma LeadingTripleDecodes(bs: seq<byte>)
    requires |bs| > 3
    requires DecodeQuartets(Encode(bs[3..])) == Ok(bs[3..])
    ensures DecodeQuartets(Encode(bs)) == Ok(bs)
  {
    var q := EncodeTriple(bs[0], bs[1], bs[2]);
    assert Encode(bs) == q + Encode(bs[3..]);
    DecodeFullQuartetFirst(q, Encode(bs[3..]));
    TripleRoundTrip(bs[0], bs[1], bs[2]);
    SplitThree(bs);
  }

  lemma SplitThree<T>(s: seq<T>)
    requires |s| >= 3
    ensures s == [s[0], s[1], s[2]] + s[3..]
  {
  }
}
