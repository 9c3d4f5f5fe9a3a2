/** Reference definitions for the Ascii85 codec and the lemmas that tie
    Encode and Decode to them: the round trip, the shape of the output,
    the rejected inputs, line wrapping, and the stale _tuple of Decode. */
module Ascii85Proofs {
  import opened Wrappers
  import opened Numeric
  import opened Text
  import opened Ascii85Codec

  // ---------------------------------------------------------------------
  // Reference encoding, without line breaks

  /** The i-th byte of a group padded with zero bytes to four. */
  function PaddedByte(g: seq<byte>, i: nat): nat {
    if i < |g| then g[i] else 0
  }

  /** The big-endian value of a group of at most four bytes, padded with
      zero bytes on the right. */
  function GroupValue(g: seq<byte>): (v: nat)
    requires |g| <= 4
    ensures v < UInt32Modulus
  {
    PaddedByte(g, 0) * 0x100_0000 + PaddedByte(g, 1) * 0x1_0000 + PaddedByte(g, 2) * 0x100 + PaddedByte(g, 3)
  }

  /** A full group: "z" when all four bytes are zero, else five digits. */
  function GroupChars(g: seq<byte>): string
    requires |g| == 4
  {
    if GroupValue(g) == 0 then "z" else BlockChars(GroupValue(g))
  }

  /** A trailing group of n bytes, 0 <= n <= 3: the first n + 1 digits of
      the group padded with zero bytes, and nothing for n = 0. */
  function TailChars(p: seq<byte>): (r: string)
    requires |p| < 4
    ensures |r| == (if p == [] then 0 else |p| + 1)
    ensures forall i | 0 <= i < |r| :: IsDigitChar(r[i])
  {
    if p == [] then [] else BlockChars(GroupValue(p))[..|p| + 1]
  }

  /** The characters of the complete groups of bs. */
  function FullChars(bs: seq<byte>): string
    decreases |bs|
  {
    if |bs| < 4 then [] else GroupChars(bs[..4]) + FullChars(bs[4..])
  }

  /** The bytes after the last complete group. */
  function Pending(bs: seq<byte>): (p: seq<byte>)
    ensures |p| == |bs| % 4
  {
    bs[|bs| - |bs| % 4..]
  }

  /** The encoding of bs as a sequence of groups, with no marks and no
      line breaks. */
  function Body(bs: seq<byte>): string {
    FullChars(bs) + TailChars(Pending(bs))
  }

  // ---------------------------------------------------------------------
  // Text up to the characters Decode passes over

  /** s without the characters the decoder skips. */
  function Strip(s: string): (r: string)
    decreases |s|
  {
    if s == [] then []
    else if IsSkippedChar(s[0]) then Strip(s[1..])
    else [s[0]] + Strip(s[1..])
  }

  lemma {:induction false} StripConcat(a: string, b: string)
    ensures Strip(a + b) == Strip(a) + Strip(b)
    decreases |a|
  {
    if a != [] {
      assert (a + b)[1..] == a[1..] + b;
      StripConcat(a[1..], b);
    } else {
      assert a + b == b;
    }
  }

  /** The characters Encode can write between the marks. */
  predicate IsBodyChar(c: char) {
    IsDigitChar(c) || c == 'z' || c == '\n'
  }

  predicate AllBody(s: string) {
    forall i | 0 <= i < |s| :: IsBodyChar(s[i])
  }

  /** w2 is w1 with text added whose characters are body characters and
      which, skipped characters removed, reads cs. */
  predicate Extends(w1: Writer, w2: Writer, cs: string) {
    |w1.out| <= |w2.out| && w2.out[..|w1.out|] == w1.out
    && Strip(w2.out[|w1.out|..]) == cs && AllBody(w2.out[|w1.out|..])
  }

  lemma ExtendsTrans(w1: Writer, w2: Writer, w3: Writer, a: string, b: string)
    requires Extends(w1, w2, a) && Extends(w2, w3, b)
    ensures Extends(w1, w3, a + b)
  {
    var x := w2.out[|w1.out|..];
    var y := w3.out[|w2.out|..];
    assert w3.out == w1.out + x + y by {
      assert w3.out == w2.out + y;
      assert w2.out == w1.out + x;
    }
    assert w3.out[|w1.out|..] == x + y;
    StripConcat(x, y);
  }

  lemma AppendCharExtends(L: int, w: Writer, c: char)
    requires IsDigitChar(c) || c == 'z'
    ensures Extends(w, AppendChar(L, w, c), [c])
  {
    var r := AppendChar(L, w, c);
    var x := r.out[|w.out|..];
    if r.out == w.out + [c] {
      assert x == [c];
      assert Strip(x) == [c] + Strip([]);
    } else {
      assert x == [c, '\n'];
      assert Strip(x) == [c] + Strip(['\n']);
      assert Strip(['\n']) == Strip([]);
    }
  }

  lemma {:induction false} AppendCharsExtends(L: int, w: Writer, cs: string)
    requires forall i | 0 <= i < |cs| :: IsDigitChar(cs[i])
    ensures Extends(w, AppendChars(L, w, cs), cs)
    decreases |cs|
  {
    if cs == [] {
      assert w.out[|w.out|..] == [];
    } else {
      var w1 := AppendChar(L, w, cs[0]);
      AppendCharExtends(L, w, cs[0]);
      AppendCharsExtends(L, w1, cs[1..]);
      ExtendsTrans(w, w1, AppendChars(L, w, cs), [cs[0]], cs[1..]);
      assert [cs[0]] + cs[1..] == cs;
    }
  }

  // ---------------------------------------------------------------------
  // The encoder's loop against the reference

  lemma GroupValueSnoc(g: seq<byte>, b: byte)
    requires |g| <= 3
    ensures GroupValue(g + [b]) == GroupValue(g) + b * ByteWeight(|g|)
  {
    assert forall i | 0 <= i < 4 :: PaddedByte(g + [b], i) == (if i == |g| then b else PaddedByte(g, i));
  }

  lemma GroupValueFree(g: seq<byte>)
    requires |g| <= 3
    ensures FreeSlots(|g|, GroupValue(g))
  {
    var b0, b1, b2 := PaddedByte(g, 0), PaddedByte(g, 1), PaddedByte(g, 2);
    if |g| == 1 {
      DivMulAdd(b0, 0, 0x100_0000);
    } else if |g| == 2 {
      DivMulAdd(b0 * 0x100 + b1, 0, 0x1_0000);
    } else if |g| == 3 {
      DivMulAdd(b0 * 0x1_0000 + b1 * 0x100 + b2, 0, 0x100);
    }
  }

  lemma GroupValueZero(g: seq<byte>)
    requires |g| == 4
    ensures GroupValue(g) == 0 <==> g == [0, 0, 0, 0]
  {
    if GroupValue(g) == 0 {
      assert PaddedByte(g, 0) == 0 && PaddedByte(g, 1) == 0 && PaddedByte(g, 2) == 0 && PaddedByte(g, 3) == 0;
    }
  }

  lemma GroupExtends(L: int, w: Writer, g: seq<byte>)
    requires |g| == 4
    ensures Extends(w, EmitGroup(L, w, GroupValue(g)), GroupChars(g))
  {
    if GroupValue(g) == 0 {
      AppendCharExtends(L, w, 'z');
    } else {
      var cs := BlockChars(GroupValue(g));
      assert cs[..5] == cs;
      AppendCharsExtends(L, w, cs);
    }
  }

  /** EncodeLoop with the bytes p of a group already in _tuple writes the
      complete groups of p + bs and leaves their remainder pending. */
  lemma {:induction false} EncodeLoopWrites(L: int, w: Writer, p: seq<byte>, bs: seq<byte>)
    requires |p| <= 3
    ensures FreeSlots(|p|, GroupValue(p))
    ensures LoopWrites(L, w, p, bs)
    decreases |bs|, 1
  {
    GroupValueFree(p);
    if bs == [] {
      LoopWritesNothing(L, w, p);
    } else if |p| == 3 {
      CompleteGroupStep(L, w, p, bs);
    } else {
      var b := bs[0];
      GroupValueSnoc(p, b);
      GroupValueFree(p + [b]);
      EncodeLoopWrites(L, w, p + [b], bs[1..]);
      var r := LoopWritesOut(L, w, p + [b], bs[1..]);
      PartialGroupStep(L, w, p, bs, r);
    }
  }

  lemma LoopWritesNothing(L: int, w: Writer, p: seq<byte>)
    requires |p| <= 3 && FreeSlots(|p|, GroupValue(p))
    ensures LoopWrites(L, w, p, [])
  {
    assert p + [] == p;
    assert w.out[|w.out|..] == [];
  }

  /** The step of EncodeLoopWrites that adds a byte to an incomplete group:
      r is what the loop gives from the longer group. */
  lemma PartialGroupStep(L: int, w: Writer, p: seq<byte>, bs: seq<byte>, r: (Writer, nat, uint))
    requires |p| < 3 && bs != [] && FreeSlots(|p|, GroupValue(p))
    requires FreeSlots(|p| + 1, GroupValue(p + [bs[0]]))
    requires r == EncodeLoop(L, w, |p| + 1, GroupValue(p + [bs[0]]), bs[1..])
    requires Extends(w, r.0, FullChars((p + [bs[0]]) + bs[1..]))
    requires r.1 == |(p + [bs[0]]) + bs[1..]| % 4 && r.2 == GroupValue(Pending((p + [bs[0]]) + bs[1..]))
    ensures LoopWrites(L, w, p, bs)
  {
    LoopTakesGroupByte(L, w, p, bs);
    MoveFirst(p, bs);
    LoopWritesIntro(L, w, p, bs, r);
  }

  /** LoopTakesByte in terms of the group's bytes. */
  lemma LoopTakesGroupByte(L: int, w: Writer, p: seq<byte>, bs: seq<byte>)
    requires |p| < 3 && bs != [] && FreeSlots(|p|, GroupValue(p))
    ensures FreeSlots(|p| + 1, GroupValue(p + [bs[0]]))
    ensures EncodeLoop(L, w, |p|, GroupValue(p), bs) == EncodeLoop(L, w, |p| + 1, GroupValue(p + [bs[0]]), bs[1..])
  {
    GroupValueSnoc(p, bs[0]);
    LoopTakesByte(L, w, |p|, GroupValue(p), bs);
  }

  /** LoopWrites spelled out. */
  lemma LoopWritesOut(L: int, w: Writer, p: seq<byte>, bs: seq<byte>) returns (r: (Writer, nat, uint))
    requires |p| <= 3 && FreeSlots(|p|, GroupValue(p)) && LoopWrites(L, w, p, bs)
    ensures r == EncodeLoop(L, w, |p|, GroupValue(p), bs)
    ensures Extends(w, r.0, FullChars(p + bs)) && r.1 == |p + bs| % 4 && r.2 == GroupValue(Pending(p + bs))
  {
    r := EncodeLoop(L, w, |p|, GroupValue(p), bs);
  }

  lemma LoopWritesIntro(L: int, w: Writer, p: seq<byte>, bs: seq<byte>, r: (Writer, nat, uint))
    requires |p| <= 3 && FreeSlots(|p|, GroupValue(p))
    requires r == EncodeLoop(L, w, |p|, GroupValue(p), bs)
    requires Extends(w, r.0, FullChars(p + bs)) && r.1 == |p + bs| % 4 && r.2 == GroupValue(Pending(p + bs))
    ensures LoopWrites(L, w, p, bs)
  {
  }

  /** One unfolding of EncodeLoop at the fourth byte of a group. */
  lemma LoopCompletesGroup(L: int, w: Writer, t: uint, bs: seq<byte>)
    requires FreeSlots(3, t) && bs != []
    ensures t + bs[0] < 0x1_0000_0000
    ensures EncodeLoop(L, w, 3, t, bs) == EncodeLoop(L, EmitGroup(L, w, t + bs[0]), 0, 0, bs[1..])
  {
    SlotFree(3, t, bs[0]);
  }

  /** One unfolding of EncodeLoop before the fourth byte of a group. */
  lemma LoopTakesByte(L: int, w: Writer, count: nat, t: uint, bs: seq<byte>)
    requires count < 3 && FreeSlots(count, t) && bs != []
    ensures t + bs[0] * ByteWeight(count) < 0x1_0000_0000 && FreeSlots(count + 1, t + bs[0] * ByteWeight(count))
    ensures EncodeLoop(L, w, count, t, bs) == EncodeLoop(L, w, count + 1, t + bs[0] * ByteWeight(count), bs[1..])
  {
    SlotFree(count, t, bs[0]);
  }

  /** The conclusion of EncodeLoopWrites. */
  predicate LoopWrites(L: int, w: Writer, p: seq<byte>, bs: seq<byte>)
    requires |p| <= 3 && FreeSlots(|p|, GroupValue(p))
  {
    var r := EncodeLoop(L, w, |p|, GroupValue(p), bs);
    Extends(w, r.0, FullChars(p + bs)) && r.1 == |p + bs| % 4 && r.2 == GroupValue(Pending(p + bs))
  }

  /** The step of EncodeLoopWrites that completes a group. */
  lemma {:induction false} CompleteGroupStep(L: int, w: Writer, p: seq<byte>, bs: seq<byte>)
    requires |p| == 3 && bs != []
    ensures FreeSlots(|p|, GroupValue(p))
    ensures LoopWrites(L, w, p, bs)
    decreases |bs|, 0
  {
    GroupValueFree(p);
    var g := p + [bs[0]];
    GroupValueSnoc(p, bs[0]);
    assert ByteWeight(3) == 1;
    var full := GroupValue(p) + bs[0];
    assert GroupValue(g) == full;
    var w1 := EmitGroup(L, w, full);
    LoopCompletesGroup(L, w, GroupValue(p), bs);
    EncodeLoopWrites(L, w1, [], bs[1..]);
    var r := LoopFromEmpty(L, w1, bs[1..]);
    assert EncodeLoop(L, w, |p|, GroupValue(p), bs) == r;
    GroupExtends(L, w, g);
    CombineGroup(w, w1, r, p, bs);
  }

  /** LoopWrites from an empty group, spelled out. */
  lemma LoopFromEmpty(L: int, w: Writer, xs: seq<byte>) returns (r: (Writer, nat, uint))
    requires LoopWrites(L, w, [], xs)
    ensures r == EncodeLoop(L, w, 0, 0, xs)
    ensures Extends(w, r.0, FullChars(xs)) && r.1 == |xs| % 4 && r.2 == GroupValue(Pending(xs))
  {
    assert [] + xs == xs;
    r := EncodeLoop(L, w, 0, 0, xs);
  }

  lemma CombineGroup(w: Writer, w1: Writer, r: (Writer, nat, uint), p: seq<byte>, bs: seq<byte>)
    requires |p| == 3 && bs != []
    requires Extends(w, w1, GroupChars(p + [bs[0]]))
    requires Extends(w1, r.0, FullChars(bs[1..])) && r.1 == |bs[1..]| % 4 && r.2 == GroupValue(Pending(bs[1..]))
    ensures Extends(w, r.0, FullChars(p + bs)) && r.1 == |p + bs| % 4 && r.2 == GroupValue(Pending(p + bs))
  {
    ExtendsTrans(w, w1, r.0, GroupChars(p + [bs[0]]), FullChars(bs[1..]));
    CompleteGroupSplit(p, bs);
  }

  lemma CompleteGroupSplit(p: seq<byte>, bs: seq<byte>)
    requires |p| == 3 && bs != []
    ensures FullChars(p + bs) == GroupChars(p + [bs[0]]) + FullChars(bs[1..])
    ensures |p + bs| % 4 == |bs[1..]| % 4 && Pending(p + bs) == Pending(bs[1..])
  {
    GroupSplit(p, bs);
    var n := |bs| - 1;
    assert |p + bs| == n + 4;
    assert (n + 4) % 4 == n % 4;
    DropShift(p + [bs[0]], bs[1..], n - n % 4);
    MoveFirst(p, bs);
  }

  lemma DropShift<T>(a: seq<T>, b: seq<T>, j: nat)
    requires j <= |b|
    ensures (a + b)[|a| + j..] == b[j..]
  {
  }

  lemma GroupSplit<T>(p: seq<T>, bs: seq<T>)
    requires |p| == 3 && bs != []
    ensures (p + bs)[..4] == p + [bs[0]] && (p + bs)[4..] == bs[1..]
  {
  }

  lemma MoveFirst<T>(p: seq<T>, bs: seq<T>)
    requires bs != []
    ensures (p + [bs[0]]) + bs[1..] == p + bs
  {
  }

  /** The output shape of a complete group: "z" for four zero bytes, five
      digits '!'..'u' for any other group. */
  lemma GroupShape(g: seq<byte>)
    requires |g| == 4
    ensures g == [0, 0, 0, 0] ==> GroupChars(g) == "z"
    ensures g != [0, 0, 0, 0] ==> |GroupChars(g)| == 5 && forall i | 0 <= i < 5 :: IsDigitChar(GroupChars(g)[i])
  {
    GroupValueZero(g);
  }

  // ---------------------------------------------------------------------
  // The decoder's loop against the reference

  /** Decoding runs left to right: a prefix that raises no error hands its
      state to the rest, and an error in a prefix is the error of the whole. */
  lemma {:induction false} DecodeConcat(st: DecodeState, a: string, b: string)
    requires st.count < 5
    ensures DecodeChars(st, a).error.None? ==> DecodeChars(st, a + b) == DecodeChars(DecodeChars(st, a).state, b)
    ensures DecodeChars(st, a).error.Some? ==> DecodeChars(st, a + b) == DecodeChars(st, a)
    decreases |a|
  {
    if a == [] {
      assert a + b == b;
    } else {
      assert (a + b)[0] == a[0] && (a + b)[1..] == a[1..] + b;
      var c := a[0];
      if c == 'z' {
        if st.count == 0 {
          DecodeConcat(st.(out := st.out + [0, 0, 0, 0]), a[1..], b);
        }
      } else if IsSkippedChar(c) {
        DecodeConcat(st, a[1..], b);
      } else if IsDigitChar(c) {
        var t := AddDigit(st.tuple, c, st.count);
        if st.count + 1 == 5 {
          DecodeConcat(DecodeState(0, 0, st.out + BlockBytes(t, 4)), a[1..], b);
        } else {
          DecodeConcat(DecodeState(st.count + 1, t, st.out), a[1..], b);
        }
      }
    }
  }

  /** The skipped characters have no effect on decoding, wherever they are. */
  lemma {:induction false} DecodeStrip(st: DecodeState, s: string)
    requires st.count < 5
    ensures DecodeChars(st, s) == DecodeChars(st, Strip(s))
    decreases |s|
  {
    if s != [] {
      var c := s[0];
      if IsSkippedChar(c) {
        DecodeStrip(st, s[1..]);
      } else {
        var r := Strip(s);
        assert r == [c] + Strip(s[1..]);
        assert r[0] == c && r[1..] == Strip(s[1..]);
        if c == 'z' {
          if st.count == 0 {
            DecodeStrip(st.(out := st.out + [0, 0, 0, 0]), s[1..]);
          }
        } else if IsDigitChar(c) {
          var t := AddDigit(st.tuple, c, st.count);
          if st.count + 1 == 5 {
            DecodeStrip(DecodeState(0, 0, st.out + BlockBytes(t, 4)), s[1..]);
          } else {
            DecodeStrip(DecodeState(st.count + 1, t, st.out), s[1..]);
          }
        }
      }
    }
  }

  /** The value of the first k digits of a group, each at its weight. */
  function DigitSum(cs: string, k: nat): int
    requires k <= |cs| && k <= 5
  {
    if k == 0 then 0 else DigitSum(cs, k - 1) + (cs[k - 1] as int - AsciiOffset) * Pow85(k - 1)
  }

  predicate AllDigitChars(cs: string) {
    forall i | 0 <= i < |cs| :: IsDigitChar(cs[i])
  }

  /** The five digits EncodeBlock writes for a 32-bit value weigh back to it. */
  lemma BlockDigits(v: nat)
    requires v < UInt32Modulus
    ensures DigitSum(BlockChars(v), 5) == v
  {
    var t1 := v / 85;
    var t2 := t1 / 85;
    var t3 := t2 / 85;
    var t4 := t3 / 85;
    Base85(v);
    DigitsWeigh(t4 % 85, t3 % 85, t2 % 85, t1 % 85, v % 85);
  }

  /** The base-85 expansion EncodeBlock computes. */
  lemma Base85(v: nat)
    requires v < UInt32Modulus
    ensures var t1 := v / 85; var t2 := t1 / 85; var t3 := t2 / 85; var t4 := t3 / 85;
      t4 < 85 && v == (t4 % 85) * 52200625 + (t3 % 85) * 614125 + (t2 % 85) * 7225 + (t1 % 85) * 85 + v % 85
  {
    var t1 := v / 85;
    var t2 := t1 / 85;
    var t3 := t2 / 85;
    var t4 := t3 / 85;
    assert v == 85 * t1 + v % 85;
    assert t1 == 85 * t2 + t1 % 85;
    assert t2 == 85 * t3 + t2 % 85;
    assert t3 == 85 * t4 + t3 % 85;
  }

  lemma DigitsWeigh(d0: int, d1: int, d2: int, d3: int, d4: int)
    requires 0 <= d0 < 85 && 0 <= d1 < 85 && 0 <= d2 < 85 && 0 <= d3 < 85 && 0 <= d4 < 85
    ensures var cs := [DigitChar(d0), DigitChar(d1), DigitChar(d2), DigitChar(d3), DigitChar(d4)];
      DigitSum(cs, 5) == d0 * 52200625 + d1 * 614125 + d2 * 7225 + d3 * 85 + d4
  {
    var cs := [DigitChar(d0), DigitChar(d1), DigitChar(d2), DigitChar(d3), DigitChar(d4)];
    assert DigitSum(cs, 1) == d0 * 52200625;
    assert DigitSum(cs, 2) == DigitSum(cs, 1) + d1 * 614125;
    assert DigitSum(cs, 3) == DigitSum(cs, 2) + d2 * 7225;
    assert DigitSum(cs, 4) == DigitSum(cs, 3) + d3 * 85;
  }

  /** The digits after the k-th weigh less than the k-th digit's weight. */
  lemma DigitSumBounds(cs: string, k: nat)
    requires |cs| == 5 && AllDigitChars(cs) && 1 <= k <= 5
    ensures 0 <= DigitSum(cs, k - 1) <= DigitSum(cs, k) <= DigitSum(cs, 5)
    ensures DigitSum(cs, 5) - DigitSum(cs, k) < Pow85(k - 1)
  {
    assert forall i | 0 <= i < 5 :: 0 <= cs[i] as int - AsciiOffset <= 84;
    assert DigitSum(cs, 1) == (cs[0] as int - AsciiOffset) * 52200625;
    assert DigitSum(cs, 2) == DigitSum(cs, 1) + (cs[1] as int - AsciiOffset) * 614125;
    assert DigitSum(cs, 3) == DigitSum(cs, 2) + (cs[2] as int - AsciiOffset) * 7225;
    assert DigitSum(cs, 4) == DigitSum(cs, 3) + (cs[3] as int - AsciiOffset) * 85;
    assert DigitSum(cs, 5) == DigitSum(cs, 4) + (cs[4] as int - AsciiOffset);
  }

  /** One digit of a group that the fifth digit does not complete. */
  lemma DigitStep(st: DecodeState, c: char)
    requires st.count < 4 && IsDigitChar(c)
    ensures DecodeChars(st, [c]) == DecodeRun(None, DecodeState(st.count + 1, AddDigit(st.tuple, c, st.count), st.out))
  {
    assert [c][1..] == [];
  }

  /** The first k digits of a group leave k digits weighed into _tuple. */
  lemma {:induction false} DecodeDigitsPrefix(o: seq<byte>, cs: string, k: nat)
    requires |cs| == 5 && AllDigitChars(cs) && DigitSum(cs, 5) < UInt32Modulus && k <= 4
    ensures 0 <= DigitSum(cs, k) < UInt32Modulus
    ensures DecodeChars(DecodeState(0, 0, o), cs[..k]) == DecodeRun(None, DecodeState(k, DigitSum(cs, k), o))
  {
    if k == 0 {
      assert cs[..0] == [];
    } else {
      DigitSumBounds(cs, k);
      DecodeDigitsPrefix(o, cs, k - 1);
      var st := DecodeState(k - 1, DigitSum(cs, k - 1), o);
      DecodeConcat(DecodeState(0, 0, o), cs[..k - 1], [cs[k - 1]]);
      SplitAt(cs, k - 1);
      DigitStep(st, cs[k - 1]);
      DivMulAdd(0, DigitSum(cs, k), 0x1_0000_0000);
      assert AddDigit(st.tuple, cs[k - 1], k - 1) == DigitSum(cs, k);
    }
  }

  /** A whole group of five digits writes the four bytes of its value. */
  lemma DecodeDigitsBlock(o: seq<byte>, cs: string)
    requires |cs| == 5 && AllDigitChars(cs) && DigitSum(cs, 5) < UInt32Modulus
    ensures DigitSum(cs, 5) >= 0
    ensures DecodeChars(DecodeState(0, 0, o), cs) == DecodeRun(None, DecodeState(0, 0, o + BlockBytes(DigitSum(cs, 5), 4)))
  {
    DigitSumBounds(cs, 5);
    var st := DecodeState(4, DigitSum(cs, 4), o);
    DecodeDigitsPrefix(o, cs, 4);
    DecodeConcat(DecodeState(0, 0, o), cs[..4], [cs[4]]);
    SplitLast(cs);
    DigitStepLast(st, cs[4]);
    DivMulAdd(0, DigitSum(cs, 5), 0x1_0000_0000);
    assert AddDigit(st.tuple, cs[4], 4) == DigitSum(cs, 5);
  }

  lemma SplitAt<T>(s: seq<T>, i: nat)
    requires i < |s|
    ensures s[..i + 1] == s[..i] + [s[i]]
  {
  }

  lemma SplitLast<T>(s: seq<T>)
    requires |s| == 5
    ensures s == s[..4] + [s[4]]
  {
  }

  /** The fifth digit of a group writes its four bytes and restarts. */
  lemma DigitStepLast(st: DecodeState, c: char)
    requires st.count == 4 && IsDigitChar(c)
    ensures DecodeChars(st, [c]) == DecodeRun(None, DecodeState(0, 0, st.out + BlockBytes(AddDigit(st.tuple, c, 4), 4)))
  {
    assert [c][1..] == [];
  }

  /** DecodeBlock(4) inverts the big-endian value of a group. */
  lemma ValueBytes(g: seq<byte>)
    requires |g| == 4
    ensures BlockBytes(GroupValue(g), 4) == g
  {
    var b0, b1, b2, b3 := g[0] as int, g[1] as int, g[2] as int, g[3] as int;
    var v := GroupValue(g);
    assert v == (b0 * 0x1_0000 + b1 * 0x100 + b2) * 0x100 + b3;
    DivMulAdd(b0 * 0x1_0000 + b1 * 0x100 + b2, b3, 0x100);
    DivMulAdd(b0 * 0x100 + b1, b2, 0x100);
    DivMulAdd(b0 * 0x100 + b1, b2 * 0x100 + b3, 0x1_0000);
    DivMulAdd(b0, b1, 0x100);
    DivMulAdd(b0, b1 * 0x1_0000 + b2 * 0x100 + b3, 0x100_0000);
    DivMulAdd(0, b0, 0x100);
  }

  /** Decoding the characters of a complete group writes that group. */
  lemma GroupDecodes(o: seq<byte>, g: seq<byte>)
    requires |g| == 4
    ensures DecodeChars(DecodeState(0, 0, o), GroupChars(g)) == DecodeRun(None, DecodeState(0, 0, o + g))
  {
    var v := GroupValue(g);
    GroupValueZero(g);
    if v == 0 {
      assert "z"[1..] == [];
    } else {
      BlockDigits(v);
      DecodeDigitsBlock(o, BlockChars(v));
      ValueBytes(g);
    }
  }

  /** Decoding the complete groups of bs writes the bytes they hold. */
  lemma {:induction false} FullDecodes(o: seq<byte>, bs: seq<byte>)
    ensures DecodeChars(DecodeState(0, 0, o), FullChars(bs)) == DecodeRun(None, DecodeState(0, 0, o + bs[..|bs| - |bs| % 4]))
    decreases |bs|
  {
    if |bs| < 4 {
      assert bs[..|bs| - |bs| % 4] == [];
      assert o + [] == o;
    } else {
      var g := bs[..4];
      GroupDecodes(o, g);
      DecodeConcat(DecodeState(0, 0, o), GroupChars(g), FullChars(bs[4..]));
      FullDecodes(o + g, bs[4..]);
      FullPrefix(o, bs);
    }
  }

  lemma FullPrefix(o: seq<byte>, bs: seq<byte>)
    requires |bs| >= 4
    ensures (o + bs[..4]) + bs[4..][..|bs[4..]| - |bs[4..]| % 4] == o + bs[..|bs| - |bs| % 4]
  {
    var n := |bs| - 4;
    assert (n + 4) % 4 == n % 4;
    PrefixJoin(o, bs, 4, n - n % 4);
  }

  lemma PrefixJoin<T>(o: seq<T>, s: seq<T>, i: nat, j: nat)
    requires i + j <= |s|
    ensures (o + s[..i]) + s[i..][..j] == o + s[..i + j]
  {
  }

  /** A trailing group of one to three bytes: the value of its padded
      group plus any amount up to the weight of its first missing digit
      still has the group's bytes on top (85 ** k < 256 ** k). */
  lemma TailBytes(p: seq<byte>, delta: int)
    requires 1 <= |p| <= 3 && 0 <= delta <= Pow85(|p|)
    ensures GroupValue(p) + delta < UInt32Modulus
    ensures BlockBytes(GroupValue(p) + delta, |p|) == p
  {
    if |p| == 1 {
      TailBytes1(p, delta);
    } else if |p| == 2 {
      TailBytes2(p, delta);
    } else {
      TailBytes3(p, delta);
    }
  }

  lemma TailBytes1(p: seq<byte>, delta: int)
    requires |p| == 1 && 0 <= delta < 0x100_0000
    ensures GroupValue(p) + delta < UInt32Modulus
    ensures BlockBytes(GroupValue(p) + delta, 1) == p
  {
    var b0 := p[0] as int;
    assert GroupValue(p) == b0 * 0x100_0000;
    DivMulAdd(b0, delta, 0x100_0000);
    DivMulAdd(0, b0, 0x100);
  }

  lemma TailBytes2(p: seq<byte>, delta: int)
    requires |p| == 2 && 0 <= delta < 0x1_0000
    ensures GroupValue(p) + delta < UInt32Modulus
    ensures BlockBytes(GroupValue(p) + delta, 2) == p
  {
    var b0, b1 := p[0] as int, p[1] as int;
    assert GroupValue(p) == (b0 * 0x100 + b1) * 0x1_0000;
    DivMulAdd(b0 * 0x100 + b1, delta, 0x1_0000);
    DivMulAdd(b0, b1, 0x100);
    DivMulAdd(b0, b1 * 0x1_0000 + delta, 0x100_0000);
    DivMulAdd(0, b0, 0x100);
  }

  lemma TailBytes3(p: seq<byte>, delta: int)
    requires |p| == 3 && 0 <= delta < 0x100
    ensures GroupValue(p) + delta < UInt32Modulus
    ensures BlockBytes(GroupValue(p) + delta, 3) == p
  {
    var b0, b1, b2 := p[0] as int, p[1] as int, p[2] as int;
    assert GroupValue(p) == (b0 * 0x1_0000 + b1 * 0x100 + b2) * 0x100;
    DivMulAdd(b0 * 0x1_0000 + b1 * 0x100 + b2, delta, 0x100);
    DivMulAdd(b0 * 0x100 + b1, b2, 0x100);
    DivMulAdd(b0 * 0x100 + b1, b2 * 0x100 + delta, 0x1_0000);
    DivMulAdd(b0, b1, 0x100);
    DivMulAdd(b0, b1 * 0x1_0000 + b2 * 0x100 + delta, 0x100_0000);
    DivMulAdd(0, b0, 0x100);
  }

  /** Decoding the characters of a trailing group of n bytes leaves n + 1
      digits pending, and the end of Decode turns them back into the group. */
  lemma TailDecodes(o: seq<byte>, p: seq<byte>)
    requires |p| < 4
    ensures var run := DecodeChars(DecodeState(0, 0, o), TailChars(p));
      run.error == None && FinishDecode(run.state).0 == Ok(o + p)
  {
    if p == [] {
      assert o + p == o;
    } else {
      var n := |p|;
      var cs := BlockChars(GroupValue(p));
      BlockDigits(GroupValue(p));
      DecodeDigitsPrefix(o, cs, n + 1);
      FinishTail(o, p);
    }
  }

  lemma FinishTail(o: seq<byte>, p: seq<byte>)
    requires 1 <= |p| <= 3
    ensures 0 <= DigitSum(BlockChars(GroupValue(p)), |p| + 1) < UInt32Modulus
    ensures FinishDecode(DecodeState(|p| + 1, DigitSum(BlockChars(GroupValue(p)), |p| + 1), o)).0 == Ok(o + p)
  {
    var n := |p|;
    var v := GroupValue(p);
    var delta := TailDelta(p);
    TailBytes(p, delta);
    var d := DigitSum(BlockChars(v), n + 1);
    var t := d + Pow85(n);
    assert t == v + delta;
    DivMulAdd(0, t, UInt32Modulus);
    FinishStep(o, d, n);
  }

  /** The end of Decode with n + 1 digits pending. */
  lemma FinishStep(o: seq<byte>, d: uint, n: nat)
    requires 1 <= n <= 3
    ensures FinishDecode(DecodeState(n + 1, d, o)).0 == Ok(o + BlockBytes((d + Pow85(n)) % 0x1_0000_0000, n))
  {
  }

  /** What the end of Decode adds to the pending digits of a trailing
      group, over the value of the padded group. */
  lemma TailDelta(p: seq<byte>) returns (delta: int)
    requires 1 <= |p| <= 3
    ensures 0 <= DigitSum(BlockChars(GroupValue(p)), |p| + 1) < UInt32Modulus
    ensures 0 < delta <= Pow85(|p|)
    ensures DigitSum(BlockChars(GroupValue(p)), |p| + 1) + Pow85(|p|) == GroupValue(p) + delta
  {
    var v := GroupValue(p);
    var cs := BlockChars(v);
    BlockDigits(v);
    DigitSumBounds(cs, |p| + 1);
    delta := DigitSum(cs, |p| + 1) + Pow85(|p|) - v;
  }

  /** Decoding the reference encoding of bs, from a zero tuple, gives bs. */
  lemma BodyDecodes(bs: seq<byte>)
    ensures var run := DecodeChars(DecodeState(0, 0, []), Body(bs));
      run.error == None && FinishDecode(run.state).0 == Ok(bs)
  {
    var k := |bs| - |bs| % 4;
    FullDecodes([], bs);
    DecodeConcat(DecodeState(0, 0, []), FullChars(bs), TailChars(Pending(bs)));
    TailDecodes([] + bs[..k], Pending(bs));
    PendingJoin(bs, k);
  }

  lemma PendingJoin<T>(s: seq<T>, k: nat)
    requires k <= |s|
    ensures ([] + s[..k]) + s[k..] == s
  {
  }

  // ---------------------------------------------------------------------
  // Encode and Decode

  /** The writer Encode has after the prefix mark. */
  function AfterPrefix(a: Ascii85): Writer {
    if a.enforceMarks then AppendString(a.lineLength, Writer([], 0), a.prefixMark) else Writer([], 0)
  }

  /** The text Encode writes: the prefix part, the groups with any line
      breaks, then the suffix mark, alone on a new line when it does not
      fit. _tuple is left at zero. */
  lemma EncodeWrites(a: Ascii85, bs: seq<byte>) returns (body: Writer)
    ensures Extends(AfterPrefix(a), body, Body(bs))
    ensures Encode(a, bs).0.tuple == 0
    ensures a.enforceMarks ==> Encode(a, bs).1 == body.out + a.suffixMark || Encode(a, bs).1 == body.out + "\n" + a.suffixMark
    ensures !a.enforceMarks ==> Encode(a, bs).1 == body.out
  {
    var L := a.lineLength;
    var w1 := AfterPrefix(a);
    var (w2, count, t) := EncodeLoop(L, w1, 0, 0, bs);
    EncodeLoopWrites(L, w1, [], bs);
    assert [] + bs == bs;
    if count > 0 {
      body := EncodeBlock(L, w2, t, count + 1).0;
      AppendCharsExtends(L, w2, TailChars(Pending(bs)));
      ExtendsTrans(w1, w2, body, FullChars(bs), TailChars(Pending(bs)));
    } else {
      body := w2;
      assert Pending(bs) == [];
      assert FullChars(bs) + [] == Body(bs);
    }
  }

  /** Neither empty nor made of characters Encode writes between the marks,
      so a mark can be told apart from the encoded text. */
  predicate Foreign(m: string) {
    m == [] || exists i | 0 <= i < |m| :: !IsBodyChar(m[i])
  }

  lemma UnmarkedText(a: Ascii85, x: string)
    requires AllBody(x) && Foreign(a.prefixMark) && Foreign(a.suffixMark)
    ensures StripMarks(a, x) == x
  {
    var P, S := a.prefixMark, a.suffixMark;
    if P != [] && StartsWith(x, P) {
      assert false;
    }
    if P == [] {
      assert x[|P|..] == x;
    }
    var x1 := if StartsWith(x, P) then x[|P|..] else x;
    assert x1 == x;
    if S != [] && EndsWith(x, S) {
      assert false;
    }
    if S == [] {
      assert x[..|x| - |S|] == x;
    }
  }

  lemma MarkedText(a: Ascii85, x: string, tail: string)
    requires tail == a.suffixMark || tail == "\n" + a.suffixMark
    ensures var s := a.prefixMark + x + tail;
      StartsWith(s, a.prefixMark) && EndsWith(s, a.suffixMark)
      && Strip(StripMarks(a, s)) == Strip(x)
  {
    var P, S := a.prefixMark, a.suffixMark;
    var s := P + x + tail;
    assert s[..|P|] == P;
    assert s[|P|..] == x + tail;
    var s1 := x + tail;
    assert s1[|s1| - |S|..] == S;
    var nl := if tail == S then [] else "\n";
    assert s1[..|s1| - |S|] == x + nl;
    StripConcat(x, nl);
    assert Strip(nl) == [];
  }

  /** What Decode sees of Encode's output: the marks it checks, and
      between them the reference encoding up to skipped characters. */
  lemma EncodedContent(a: Ascii85, b: Ascii85, bs: seq<byte>)
    requires b.prefixMark == a.prefixMark && b.suffixMark == a.suffixMark && b.enforceMarks == a.enforceMarks
    requires a.enforceMarks ==> a.lineLength <= 0 || |a.prefixMark| <= a.lineLength
    requires !a.enforceMarks ==> Foreign(a.prefixMark) && Foreign(a.suffixMark)
    ensures var s := Encode(a, bs).1;
      (b.enforceMarks ==> StartsWith(s, b.prefixMark) && EndsWith(s, b.suffixMark))
      && Strip(StripMarks(b, s)) == Body(bs)
  {
    var body := EncodeWrites(a, bs);
    if a.enforceMarks {
      MarkedContent(a, b, bs, body);
    } else {
      var x := body.out[|AfterPrefix(a).out|..];
      assert Encode(a, bs).1 == x;
      UnmarkedText(b, x);
    }
  }

  lemma MarkedContent(a: Ascii85, b: Ascii85, bs: seq<byte>, body: Writer)
    requires b.prefixMark == a.prefixMark && b.suffixMark == a.suffixMark && b.enforceMarks == a.enforceMarks
    requires a.enforceMarks && (a.lineLength <= 0 || |a.prefixMark| <= a.lineLength)
    requires Extends(AfterPrefix(a), body, Body(bs))
    requires Encode(a, bs).1 == body.out + a.suffixMark || Encode(a, bs).1 == body.out + "\n" + a.suffixMark
    ensures var s := Encode(a, bs).1;
      StartsWith(s, b.prefixMark) && EndsWith(s, b.suffixMark) && Strip(StripMarks(b, s)) == Body(bs)
  {
    var w1 := AfterPrefix(a);
    var e: string := [];
    assert e + a.prefixMark == a.prefixMark;
    var x, tail := SplitMarked(Encode(a, bs).1, a.prefixMark, body.out, a.suffixMark);
    MarkedText(b, x, tail);
  }

  /** Text made of out and a suffix mark, where out starts with start,
      cut into start, the rest of out, and the suffix part. */
  lemma SplitMarked(s: string, start: string, out: string, suffix: string) returns (x: string, tail: string)
    requires |start| <= |out| && out[..|start|] == start
    requires s == out + suffix || s == out + "\n" + suffix
    ensures x == out[|start|..] && s == start + x + tail
    ensures tail == suffix || tail == "\n" + suffix
  {
    x := out[|start|..];
    tail := s[|out|..];
    assert out == start + x;
  }

  /** Decode from a zero _tuple of any text whose content, skipped
      characters removed, is the reference encoding of bs. */
  lemma DecodeBody(b: Ascii85, s: string, bs: seq<byte>)
    requires b.tuple == 0
    requires b.enforceMarks ==> StartsWith(s, b.prefixMark) && EndsWith(s, b.suffixMark)
    requires Strip(StripMarks(b, s)) == Body(bs)
    ensures Decode(b, s).0 == Ok(bs)
  {
    DecodeStrip(DecodeState(0, 0, []), StripMarks(b, s));
    BodyDecodes(bs);
  }

  /** Decode, from a zero _tuple and with the same marks, inverts Encode. */
  lemma DecodeEncoded(a: Ascii85, b: Ascii85, bs: seq<byte>)
    requires b.prefixMark == a.prefixMark && b.suffixMark == a.suffixMark && b.enforceMarks == a.enforceMarks
    requires b.tuple == 0
    requires a.enforceMarks ==> a.lineLength <= 0 || |a.prefixMark| <= a.lineLength
    requires !a.enforceMarks ==> Foreign(a.prefixMark) && Foreign(a.suffixMark)
    ensures Decode(b, Encode(a, bs).1).0 == Ok(bs)
  {
    EncodedContent(a, b, bs);
    DecodeBody(b, Encode(a, bs).1, bs);
  }

  /** Encode then Decode on the instance Encode leaves gives the bytes back:
      Encode leaves _tuple at zero. The prefix mark must fit on the first
      line, or Encode puts a line break before it and Decode then rejects
      the text; without enforced marks, a mark must not be mistaken for
      encoded text. */
  lemma RoundTrip(a: Ascii85, bs: seq<byte>)
    requires a.enforceMarks ==> a.lineLength <= 0 || |a.prefixMark| <= a.lineLength
    requires !a.enforceMarks ==> Foreign(a.prefixMark) && Foreign(a.suffixMark)
    ensures Encode(a, bs).0.tuple == 0
    ensures Decode(Encode(a, bs).0, Encode(a, bs).1).0 == Ok(bs)
  {
    var _ := EncodeWrites(a, bs);
    DecodeEncoded(a, Encode(a, bs).0, bs);
  }

  /** DecodeFresh inverts Encode whatever state the decoding instance is in. */
  lemma RoundTripFresh(a: Ascii85, b: Ascii85, bs: seq<byte>)
    requires b.prefixMark == a.prefixMark && b.suffixMark == a.suffixMark && b.enforceMarks == a.enforceMarks
    requires a.enforceMarks ==> a.lineLength <= 0 || |a.prefixMark| <= a.lineLength
    requires !a.enforceMarks ==> Foreign(a.prefixMark) && Foreign(a.suffixMark)
    ensures DecodeFresh(b, Encode(a, bs).1).0 == Ok(bs)
  {
    DecodeEncoded(a, b.(tuple := 0), bs);
  }

  /** With EnforceMarks the output ends with the suffix mark and starts with
      the prefix mark, after a line break when the mark is longer than a
      line. */
  lemma EncodeMarks(a: Ascii85, bs: seq<byte>)
    requires a.enforceMarks
    ensures var s := Encode(a, bs).1;
      EndsWith(s, a.suffixMark)
      && (if a.lineLength <= 0 || |a.prefixMark| <= a.lineLength then StartsWith(s, a.prefixMark)
          else StartsWith(s, "\n" + a.prefixMark))
  {
    var body := EncodeWrites(a, bs);
    var w1 := AfterPrefix(a);
    var e: string := [];
    assert e + a.prefixMark == a.prefixMark && e + "\n" + a.prefixMark == "\n" + a.prefixMark;
    MarksAround(Encode(a, bs).1, w1.out, body.out, a.suffixMark);
  }

  /** Text that continues out, followed by the suffix mark on the same or
      the next line, starts like out and ends with the mark. */
  lemma MarksAround(s: string, start: string, out: string, suffix: string)
    requires |start| <= |out| && out[..|start|] == start
    requires s == out + suffix || s == out + "\n" + suffix
    ensures StartsWith(s, start) && EndsWith(s, suffix)
  {
    assert s[..|start|] == out[..|start|];
    assert s[|s| - |suffix|..] == suffix;
  }

  /** The skipped characters aside, Encode writes between the marks the
      groups of the reference encoding: a zero group as "z", any other
      group as five digits, and a trailing group of n bytes as n + 1 digits. */
  lemma EncodeShape(a: Ascii85, bs: seq<byte>)
    requires a.enforceMarks ==> a.lineLength <= 0 || |a.prefixMark| <= a.lineLength
    requires !a.enforceMarks ==> Foreign(a.prefixMark) && Foreign(a.suffixMark)
    ensures Strip(StripMarks(a, Encode(a, bs).1)) == FullChars(bs) + TailChars(Pending(bs))
    ensures |TailChars(Pending(bs))| == (if |bs| % 4 == 0 then 0 else |bs| % 4 + 1)
  {
    EncodedContent(a, a, bs);
  }

  // ---------------------------------------------------------------------
  // Rejected input

  /** A run of digits moves the group position on by its length and
      raises nothing. */
  lemma {:induction false} DigitsCount(st: DecodeState, ds: string)
    requires st.count < 5 && AllDigitChars(ds)
    ensures DecodeChars(st, ds).error == None
    ensures DecodeChars(st, ds).state.count == (st.count + |ds|) % 5
    decreases |ds|
  {
    if ds != [] {
      var c := ds[0];
      var t := AddDigit(st.tuple, c, st.count);
      assert AllDigitChars(ds[1..]);
      assert !IsSkippedChar(c) && c != 'z';
      var n := |ds| - 1;
      if st.count + 1 == 5 {
        DigitsCount(DecodeState(0, 0, st.out + BlockBytes(t, 4)), ds[1..]);
        DivMulAdd(1, n % 5, 5);
        DivMulAdd(n / 5, n % 5, 5);
        DivMulAdd(n / 5 + 1, n % 5, 5);
        assert st.count + |ds| == n + 5;
      } else {
        DigitsCount(DecodeState(st.count + 1, t, st.out), ds[1..]);
      }
    }
  }

  /** The characters the decoder accepts: digits, 'z' and skipped ones. */
  predicate Acceptable(c: char) {
    IsDigitChar(c) || c == 'z' || IsSkippedChar(c)
  }

  /** A run that raises nothing holds only acceptable characters. */
  lemma {:induction false} NoErrorAcceptable(st: DecodeState, s: string)
    requires st.count < 5
    requires DecodeChars(st, s).error == None
    ensures forall i | 0 <= i < |s| :: Acceptable(s[i])
    decreases |s|
  {
    if s != [] {
      var c := s[0];
      if c == 'z' {
        NoErrorAcceptable(st.(out := st.out + [0, 0, 0, 0]), s[1..]);
      } else if IsSkippedChar(c) {
        NoErrorAcceptable(st, s[1..]);
      } else {
        var t := AddDigit(st.tuple, c, st.count);
        if st.count + 1 == 5 {
          NoErrorAcceptable(DecodeState(0, 0, st.out + BlockBytes(t, 4)), s[1..]);
        } else {
          NoErrorAcceptable(DecodeState(st.count + 1, t, st.out), s[1..]);
        }
      }
      assert forall i | 1 <= i < |s| :: s[i] == s[1..][i - 1];
    }
  }

  /** Decode rejects a character other than '!'..'u', 'z' and the skipped
      control characters anywhere between the marks (a space included). */
  lemma DecodeRejectsBadChar(a: Ascii85, s: string, i: nat)
    requires i < |StripMarks(a, s)| && !Acceptable(StripMarks(a, s)[i])
    ensures Decode(a, s).0.Err?
  {
    if !(a.enforceMarks && (!StartsWith(s, a.prefixMark) || !EndsWith(s, a.suffixMark))) {
      var run := DecodeChars(DecodeState(0, a.tuple, []), StripMarks(a, s));
      if run.error == None {
        NoErrorAcceptable(DecodeState(0, a.tuple, []), StripMarks(a, s));
      }
    }
  }

  /** Decode rejects a 'z' inside a group: after any text that decodes
      without error and leaves a group part-filled, skipped characters
      aside. */
  lemma DecodeRejectsZInOpenGroup(a: Ascii85, s: string, u: string, rest: string)
    requires Strip(StripMarks(a, s)) == u + "z" + rest
    requires DecodeChars(DecodeState(0, a.tuple, []), u).error.None?
    requires DecodeChars(DecodeState(0, a.tuple, []), u).state.count != 0
    ensures Decode(a, s).0 == Err(Generic)
  {
    var st := DecodeState(0, a.tuple, []);
    DecodeStrip(st, StripMarks(a, s));
    assert u + "z" + rest == u + ("z" + rest);
    DecodeConcat(st, u, "z" + rest);
  }

  /** The plainest case of the above: a 'z' after a number of digits that
      is not a multiple of five. */
  lemma DecodeRejectsZInGroup(a: Ascii85, s: string, ds: string, rest: string)
    requires Strip(StripMarks(a, s)) == ds + "z" + rest
    requires AllDigitChars(ds) && |ds| % 5 != 0
    ensures Decode(a, s).0 == Err(Generic)
  {
    DigitsCount(DecodeState(0, a.tuple, []), ds);
    DecodeRejectsZInOpenGroup(a, s, ds, rest);
  }

  /** Decode rejects text whose last group is a single digit: any text that
      decodes without error to a group boundary, followed by one digit,
      skipped characters aside. */
  lemma DecodeRejectsOneDigitGroup(a: Ascii85, s: string, u: string, d: char)
    requires Strip(StripMarks(a, s)) == u + [d] && IsDigitChar(d)
    requires DecodeChars(DecodeState(0, a.tuple, []), u).error.None?
    requires DecodeChars(DecodeState(0, a.tuple, []), u).state.count == 0
    ensures Decode(a, s).0 == Err(Generic)
  {
    var st := DecodeState(0, a.tuple, []);
    DecodeStrip(st, StripMarks(a, s));
    DecodeConcat(st, u, [d]);
  }

  /** The plainest case of the above: digits only, one more than a multiple
      of five. */
  lemma DecodeRejectsSingleDigitTail(a: Ascii85, s: string)
    requires AllDigitChars(Strip(StripMarks(a, s))) && |Strip(StripMarks(a, s))| % 5 == 1
    ensures Decode(a, s).0 == Err(Generic)
  {
    var st := DecodeState(0, a.tuple, []);
    DecodeStrip(st, StripMarks(a, s));
    DigitsCount(st, Strip(StripMarks(a, s)));
  }

  // ---------------------------------------------------------------------
  // Line wrapping

  /** The length of the last line of s: the characters after its last
      line break. */
  function LastLine(s: string): nat
    decreases |s|
  {
    if s == [] then 0
    else if s[|s| - 1] == '\n' then 0
    else LastLine(s[..|s| - 1]) + 1
  }

  /** No line of s is longer than L characters: the last line of every
      prefix of s fits. */
  predicate LinesFit(s: string, L: int) {
    forall i | 0 <= i <= |s| :: LastLine(s[..i]) <= L
  }

  predicate NoBreak(s: string) {
    forall i | 0 <= i < |s| :: s[i] != '\n'
  }

  /** Text without a line break lengthens the last line by its length. */
  lemma {:induction false} LastLineAppend(s: string, m: string)
    requires NoBreak(m)
    ensures LastLine(s + m) == LastLine(s) + |m|
    decreases |m|
  {
    if m == [] {
      assert s + m == s;
    } else {
      var m' := m[..|m| - 1];
      assert (s + m)[..|s + m| - 1] == s + m';
      LastLineAppend(s, m');
    }
  }

  /** Appending text without a line break keeps the lines within L when
      the last line, lengthened by the text, does. */
  lemma {:induction false} LinesFitAppend(s: string, m: string, L: int)
    requires NoBreak(m) && LinesFit(s, L) && LastLine(s) + |m| <= L
    ensures LinesFit(s + m, L)
  {
    forall i | 0 <= i <= |s + m|
      ensures LastLine((s + m)[..i]) <= L
    {
      if i <= |s| {
        assert (s + m)[..i] == s[..i];
      } else {
        assert (s + m)[..i] == s + m[..i - |s|];
        LastLineAppend(s, m[..i - |s|]);
      }
    }
  }

  /** A line break ends the line: the lines still fit and the new one is
      empty. */
  lemma LinesFitBreak(s: string, L: int)
    requires LinesFit(s, L) && L >= 0
    ensures LinesFit(s + "\n", L) && LastLine(s + "\n") == 0
  {
    forall i | 0 <= i <= |s + "\n"|
      ensures LastLine((s + "\n")[..i]) <= L
    {
      if i <= |s| {
        assert (s + "\n")[..i] == s[..i];
      }
    }
  }

  /** The writer's position is the length of the last line, which is
      shorter than L, and no line is longer than L. */
  predicate Wrapped(w: Writer, L: int) {
    w.linePos == LastLine(w.out) && 0 <= w.linePos < L && LinesFit(w.out, L)
  }

  lemma AppendCharWraps(L: int, w: Writer, c: char)
    requires Wrapped(w, L) && c != '\n'
    ensures Wrapped(AppendChar(L, w, c), L)
  {
    LastLineAppend(w.out, [c]);
    LinesFitAppend(w.out, [c], L);
    if w.linePos + 1 >= L {
      LinesFitBreak(w.out + [c], L);
    }
  }

  lemma {:induction false} AppendCharsWraps(L: int, w: Writer, cs: string)
    requires Wrapped(w, L) && NoBreak(cs)
    ensures Wrapped(AppendChars(L, w, cs), L)
    decreases |cs|
  {
    if cs != [] {
      AppendCharWraps(L, w, cs[0]);
      AppendCharsWraps(L, AppendChar(L, w, cs[0]), cs[1..]);
    }
  }

  lemma {:induction false} EncodeLoopWraps(L: int, w: Writer, count: nat, t: uint, bs: seq<byte>)
    requires count <= 3 && FreeSlots(count, t) && Wrapped(w, L)
    ensures Wrapped(EncodeLoop(L, w, count, t, bs).0, L)
    decreases |bs|
  {
    if bs != [] {
      var w1, c1, t1 := LoopStepWraps(L, w, count, t, bs);
      EncodeLoopWraps(L, w1, c1, t1, bs[1..]);
    }
  }

  /** One step of EncodeLoop keeps the writer's lines within L. */
  lemma LoopStepWraps(L: int, w: Writer, count: nat, t: uint, bs: seq<byte>) returns (w1: Writer, c1: nat, t1: uint)
    requires count <= 3 && FreeSlots(count, t) && Wrapped(w, L) && bs != []
    ensures c1 <= 3 && FreeSlots(c1, t1) && Wrapped(w1, L)
    ensures EncodeLoop(L, w, count, t, bs) == EncodeLoop(L, w1, c1, t1, bs[1..])
  {
    if count >= 3 {
      LoopCompletesGroup(L, w, t, bs);
      EmitGroupWraps(L, w, t + bs[0]);
      w1, c1, t1 := EmitGroup(L, w, t + bs[0]), 0, 0;
    } else {
      LoopTakesByte(L, w, count, t, bs);
      w1, c1, t1 := w, count + 1, t + bs[0] * ByteWeight(count);
    }
  }

  lemma EmitGroupWraps(L: int, w: Writer, full: uint)
    requires Wrapped(w, L)
    ensures Wrapped(EmitGroup(L, w, full), L)
  {
    if full == 0 {
      AppendCharWraps(L, w, 'z');
    } else {
      AppendCharsWraps(L, w, BlockChars(full)[..5]);
    }
  }

  /** AppendString of a mark that fits on a line leaves every line within L. */
  lemma AppendStringFits(L: int, w: Writer, m: string)
    requires Wrapped(w, L) && NoBreak(m) && |m| <= L
    ensures LinesFit(AppendString(L, w, m).out, L)
  {
    if w.linePos + |m| > L {
      LinesFitBreak(w.out, L);
      LastLineAppend(w.out + "\n", m);
      LinesFitAppend(w.out + "\n", m, L);
      assert w.out + "\n" + m == (w.out + "\n") + m;
    } else {
      LastLineAppend(w.out, m);
      LinesFitAppend(w.out, m, L);
    }
  }

  /** With a positive LineLength, no line of Encode's output is longer
      than LineLength, provided the prefix mark leaves room for a digit on
      the first line, the suffix mark fits on a line, and neither holds a
      line break. */
  lemma EncodeLinesFit(a: Ascii85, bs: seq<byte>)
    requires a.lineLength > 0
    requires a.enforceMarks ==> |a.prefixMark| < a.lineLength && |a.suffixMark| <= a.lineLength
    requires a.enforceMarks ==> NoBreak(a.prefixMark) && NoBreak(a.suffixMark)
    ensures LinesFit(Encode(a, bs).1, a.lineLength)
  {
    var L := a.lineLength;
    var w0 := Writer([], 0);
    var empty: string := [];
    assert LinesFit(empty, L) by {
      assert empty[..0] == empty;
    }
    var w1 := AfterPrefix(a);
    if a.enforceMarks {
      assert empty + a.prefixMark == a.prefixMark;
      LastLineAppend(empty, a.prefixMark);
      LinesFitAppend(empty, a.prefixMark, L);
    }
    assert Wrapped(w1, L);
    var (w2, count, t) := EncodeLoop(L, w1, 0, 0, bs);
    EncodeLoopWraps(L, w1, 0, 0, bs);
    var w3 := if count > 0 then EncodeBlock(L, w2, t, count + 1).0 else w2;
    if count > 0 {
      AppendCharsWraps(L, w2, BlockChars(t)[..count + 1]);
    }
    if a.enforceMarks {
      AppendStringFits(L, w3, a.suffixMark);
    }
  }

  // ---------------------------------------------------------------------
  // The stale _tuple

  /** Decode of a default-marked text runs the loop over the text between
      the marks, starting from the _tuple the instance holds. */
  lemma DecodeMarked(t: uint, body: string)
    ensures var run := DecodeChars(DecodeState(0, t, []), body);
      run.error.None? ==>
        Decode(NewAscii85().(tuple := t), "<~" + body + "~>")
        == (FinishDecode(run.state).0, NewAscii85().(tuple := FinishDecode(run.state).1))
  {
    var s := "<~" + body + "~>";
    assert s[..2] == "<~";
    assert s[2..] == body + "~>";
    assert (body + "~>")[|body|..] == "~>";
    assert (body + "~>")[..|body|] == body;
  }

  /** The digits of the group value 1 decoded on top of a _tuple t. */
  lemma DecodeOne(t: uint)
    ensures DecodeChars(DecodeState(0, t, []), "!!!!\"")
      == DecodeRun(None, DecodeState(0, 0, BlockBytes((t + 1) % 0x1_0000_0000, 4)))
  {
    var s := "!!!!\"";
    var st := DecodeState(0, t, []);
    assert AddDigit(t, '!', 0) == t && AddDigit(t, '!', 1) == t;
    assert AddDigit(t, '!', 2) == t && AddDigit(t, '!', 3) == t;
    assert AddDigit(t, '"', 4) == (t + 1) % 0x1_0000_0000;
    assert DecodeChars(st, s) == DecodeChars(st.(count := 1), s[1..]);
    assert DecodeChars(st.(count := 1), s[1..]) == DecodeChars(st.(count := 2), s[2..]);
    assert DecodeChars(st.(count := 2), s[2..]) == DecodeChars(st.(count := 3), s[3..]);
    assert DecodeChars(st.(count := 3), s[3..]) == DecodeChars(st.(count := 4), s[4..]);
    DigitStepLast(st.(count := 4), '"');
    assert s[4..] == ['"'];
  }

  /** Decode leaves _tuple holding the last partial group, and the next
      Decode on the same instance adds its digits to that value: the
      encoding of [0, 0, 0, 1] then decodes to different bytes. */
  lemma StaleTupleCorruptsDecode()
    ensures Decode(NewAscii85(), "<~!!~>") == (Ok([0]), NewAscii85().(tuple := 614125))
    ensures Encode(NewAscii85(), [0, 0, 0, 1]).1 == "<~!!!!\"~>"
    ensures Decode(NewAscii85().(tuple := 614125), "<~!!!!\"~>").0 == Ok([0, 9, 94, 238])
  {
    StaleLeft(NewAscii85(), "<~!!~>");
    EncodeOne(NewAscii85(), [0, 0, 0, 1]);
    StaleSecond(NewAscii85().(tuple := 614125), "<~!!!!\"~>");
  }

  lemma StaleLeft(a: Ascii85, s: string)
    requires a == NewAscii85() && s == "<~!!~>"
    ensures Decode(a, s) == (Ok([0]), a.(tuple := 614125))
  {
    var body := "!!";
    var st := DecodeState(0, 0, []);
    assert AddDigit(0, '!', 0) == 0 && AddDigit(0, '!', 1) == 0;
    assert DecodeChars(st, body) == DecodeChars(st.(count := 1), body[1..]);
    assert DecodeChars(st.(count := 1), body[1..]) == DecodeChars(st.(count := 2), body[2..]);
    assert body[2..] == [];
    assert DecodeChars(st.(count := 2), []) == DecodeRun(None, st.(count := 2));
    assert Pow85(1) == 614125;
    assert BlockBytes(614125, 1) == [0];
    assert FinishDecode(st.(count := 2)).1 == 614125;
    assert FinishDecode(st.(count := 2)).0 == Ok([] + [0]);
    assert [] + [0] == [0];
    DecodeMarked(0, body);
    assert "<~" + body + "~>" == s;
    assert a.(tuple := 0) == a;
  }

  /** Characters that do not fill the line are written as they are. */
  lemma {:induction false} AppendCharsNoWrap(L: int, w: Writer, cs: string)
    requires L <= 0 || w.linePos + |cs| < L
    ensures AppendChars(L, w, cs) == Writer(w.out + cs, w.linePos + |cs|)
    decreases |cs|
  {
    if cs != [] {
      var w1 := AppendChar(L, w, cs[0]);
      assert w1 == Writer(w.out + [cs[0]], w.linePos + 1);
      AppendCharsNoWrap(L, w1, cs[1..]);
      assert w.out + [cs[0]] + cs[1..] == w.out + cs;
    }
  }

  lemma BlockOne()
    ensures BlockChars(1) == "!!!!\""
  {
    assert 1 / 85 == 0 && 0 / 85 == 0 && 1 % 85 == 1 && 0 % 85 == 0;
    assert DigitChar(0) == '!' && DigitChar(1) == '"';
    assert BlockChars(1) == [DigitChar(0), DigitChar(0), DigitChar(0), DigitChar(0), DigitChar(1)];
  }

  /** The group [0, 0, 0, 1] is written as its five digits. */
  lemma EncodeOneLoop(L: int, w: Writer, bs: seq<byte>)
    requires bs == [0, 0, 0, 1] && (L <= 0 || w.linePos + 5 < L)
    ensures EncodeLoop(L, w, 0, 0, bs) == (Writer(w.out + "!!!!\"", w.linePos + 5), 0, 0)
  {
    var b1, b2, b3 := bs[1..], bs[2..], bs[3..];
    assert b1 == [0, 0, 1] && b2 == [0, 1] && b3 == [1] && b3[1..] == [];
    assert bs[0] == 0 && b1[0] == 0 && b2[0] == 0 && b3[0] == 1;
    LoopTakesByte(L, w, 0, 0, bs);
    assert EncodeLoop(L, w, 0, 0, bs) == EncodeLoop(L, w, 1, 0, b1);
    LoopTakesByte(L, w, 1, 0, b1);
    assert EncodeLoop(L, w, 1, 0, b1) == EncodeLoop(L, w, 2, 0, b2);
    LoopTakesByte(L, w, 2, 0, b2);
    assert EncodeLoop(L, w, 2, 0, b2) == EncodeLoop(L, w, 3, 0, b3);
    LoopCompletesGroup(L, w, 0, b3);
    var w1 := EmitGroup(L, w, 1);
    assert EncodeLoop(L, w, 3, 0, b3) == EncodeLoop(L, w1, 0, 0, []);
    EmitOne(L, w);
  }

  lemma EmitOne(L: int, w: Writer)
    requires L <= 0 || w.linePos + 5 < L
    ensures EmitGroup(L, w, 1) == Writer(w.out + "!!!!\"", w.linePos + 5)
  {
    BlockOne();
    var cs := BlockChars(1);
    assert cs[..5] == cs;
    AppendCharsNoWrap(L, w, cs);
  }

  lemma EncodeOne(a: Ascii85, bs: seq<byte>)
    requires a == NewAscii85() && bs == [0, 0, 0, 1]
    ensures Encode(a, bs).1 == "<~!!!!\"~>"
  {
    var w1 := AppendString(75, Writer([], 0), "<~");
    var e: string := [];
    assert e + "<~" == "<~";
    assert w1 == Writer("<~", 2);
    EncodeOneLoop(75, w1, bs);
    var w2 := Writer("<~!!!!\"", 7);
    assert AppendString(75, w2, "~>") == Writer("<~!!!!\"~>", 9);
  }

  lemma StaleSecond(a: Ascii85, s: string)
    requires a == NewAscii85().(tuple := 614125) && s == "<~!!!!\"~>"
    ensures Decode(a, s).0 == Ok([0, 9, 94, 238])
  {
    GroupOneDecodes(a.tuple, s);
    assert BlockBytes(614126, 4) == [0, 9, 94, 238];
  }

  /** With _tuple restarted, the same second decode gives back the bytes. */
  lemma FreshTupleDecodes(a: Ascii85, s: string)
    requires a == NewAscii85().(tuple := 614125) && s == "<~!!!!\"~>"
    ensures DecodeFresh(a, s).0 == Ok([0, 0, 0, 1])
  {
    GroupOneDecodes(0, s);
    assert BlockBytes(1, 4) == [0, 0, 0, 1];
  }

  /** Decoding the encoding of [0, 0, 0, 1] on top of a _tuple t. */
  lemma GroupOneDecodes(t: uint, s: string)
    requires s == "<~!!!!\"~>"
    ensures Decode(NewAscii85().(tuple := t), s).0 == Ok(BlockBytes((t + 1) % 0x1_0000_0000, 4))
  {
    var body := s[2..7];
    assert body == "!!!!\"";
    DecodeOne(t);
    DecodeMarked(t, body);
    assert "<~" + body + "~>" == s;
  }
}
