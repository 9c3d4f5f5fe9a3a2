/** GuidEncoder: a GUID as 22 URL-safe characters (section 5 of RFC 4648,
    without the '=' padding), used as the base of row keys. */
module GuidEncoder {
  import opened Wrappers
  import Text
  import Base64
  import Numeric

  /** A GUID, represented by the 16 bytes Guid.ToByteArray returns;
      new Guid(byte[]) reads the same 16 bytes back. */
  type Guid = b: seq<Numeric.byte> | |b| == 16 witness seq(16, _ => 0)

  /** The alphabet of section 5 of RFC 4648: '-' and '_' replace '+' and '/'. */
  predicate IsUrlSafeChar(c: char) {
    'A' <= c <= 'Z' || 'a' <= c <= 'z' || '0' <= c <= '9' || c == '-' || c == '_'
  }

  /** Base64 of the 16 bytes, '/' and '+' swapped for '_' and '-', and the
      two padding characters cut off. */
  function Encode(g: Guid): (r: string)
    ensures |r| == 22
    ensures forall i | 0 <= i < |r| :: IsUrlSafeChar(r[i])
  {
    var enc := Base64.Encode(g);
    Base64.EncodeShape(g);
    var enc := Text.ReplaceChar(Text.ReplaceChar(enc, '/', '_'), '+', '-');
    enc[..22]
  }

  /** Undoes the substitutions, restores "==", decodes, and rebuilds the
      GUID; null is rejected and a byte count other than 16 is an
      ArgumentException from the Guid constructor. */
  function Decode(code: Option<string>): (r: Result<Guid>)
    ensures code.None? ==> r == Err(ArgumentNull)
    ensures r.Ok? ==> Base64.Decode(Restore(code.value)) == Ok(r.value)
  {
    if code.None? then Err(ArgumentNull)
    else
      var bytes :- Base64.Decode(Restore(code.value));
      if |bytes| != 16 then Err(Argument) else Ok(bytes)
  }

  /** The Base64 text Decode hands to Convert.FromBase64String. */
  function Restore(code: string): string {
    Text.ReplaceChar(Text.ReplaceChar(code, '-', '+'), '_', '/') + "=="
  }

  /** Every GUID survives the trip through its 22-character code. */
  lemma RoundTrip(g: Guid)
    ensures Decode(Some(Encode(g))) == Ok(g)
  {
    var e := Base64.Encode(g);
    Base64.EncodeShape(g);
    assert Base64.Padding(16) == 2;
    var code := Encode(g);
    var back := Restore(code);
    assert |e| == 24;
    forall i | 0 <= i < 22 ensures back[i] == e[i] {
      assert Base64.IsAlphabetChar(e[i]);
    }
    assert back == e;
    Base64.RoundTrip(g);
  }

  /** Distinct GUIDs get distinct codes. */
  lemma EncodeInjective(g1: Guid, g2: Guid)
    requires Encode(g1) == Encode(g2)
    ensures g1 == g2
  {
    RoundTrip(g1);
    RoundTrip(g2);
  }
}
