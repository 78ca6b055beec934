/** Short streams, bit by bit, and what they inflate to. */
module SampleStreams {
  import opened Bits
  import opened Bytes
  import opened BitStream
  import opened Huffman
  import opened Deflate
  import opened DeflateCodes
  import opened Reader
  import opened Inflate

  // ---- a whole stream that is read past its end ----

  /** In the fixed code the end of a block is seven zero bits. */
  lemma EndCode()
    ensures HasCode(FixedLengths(), END_OF_BLOCK)
    ensures CodeBits(FixedLengths(), END_OF_BLOCK) == [false, false, false, false, false, false, false]
  {
    hide Count, Uniform, First;
    var l := FixedLengths();
    FixedCodes();
    forall s: nat | 1 <= s < 7 ensures Count(l, s) == 0 { FixedCounts(s); }
    FirstIsZero(l, 7);
    assert l[..END_OF_BLOCK] == Uniform(144, 8) + Uniform(112, 9);
    CountUniform(144, 8, 7);
    CountUniform(112, 9, 7);
    CountConcat(Uniform(144, 8), Uniform(112, 9), 7);
    ZeroMsb();
  }

  lemma ZeroMsb()
    ensures MsbBits(0, 7) == [false, false, false, false, false, false, false]
  {
    assert MsbBits(0, 3) == [false, false, false];
  }

  /** One final block under the fixed codes with nothing in it, in two bytes. */
  const EMPTY_STREAM: seq<byte> := [3, 0]

  lemma EmptyStreamBits()
    ensures BytesBits(EMPTY_STREAM) == ToBits(1, 1) + (ToBits(1, 2) + seq(13, _ => false))
  {
    hide BytesBits, ToBits;
    OneByte(3);
    OneByte(0);
    BytesConcat([3], [0]);
    assert EMPTY_STREAM == [3] + [0];
    BitsOfThree();
    BitsOfZero(8);
  }

  lemma BitsOfThree()
    ensures ToBits(3, 8) == [true, true] + seq(6, _ => false)
    ensures ToBits(1, 1) == [true] && ToBits(1, 2) == [true, false]
  {
    BitsOfZero(6);
    BitsOfZero(1);
    NoBitsOfZero();
    assert ToBits(3, 8) == [true] + ToBits(1, 7);
    assert ToBits(1, 7) == [true] + ToBits(0, 6);
  }

  lemma NoBitsOfZero()
    ensures ToBits(0, 0) == []
  {
  }

  lemma {:induction false} BitsOfZero(n: nat)
    ensures ToBits(0, n) == seq(n, _ => false)
  {
    if n > 0 { BitsOfZero(n - 1); }
  }

  lemma EmptyStreamInflates()
    ensures Inflates(BytesBits(EMPTY_STREAM), [], [false, false, false, false, false, false])
  {
    hide BytesBits, ToBits, CodeBits, FixedLengths, FixedDistances, Accepted, IsLengths;
    var rest := [false, false, false, false, false, false];
    var bs := [Fixed([])];
    FixedCodes();
    EndCode();
    EmptyStreamBits();
    assert bs[1..] == [];
    StreamStep(bs, [], rest);
    assert CodeBits(FixedLengths(), END_OF_BLOCK) + ([] + rest) == seq(13, _ => false);
    assert BodyRest(bs[0], 0) == CodeBits(FixedLengths(), END_OF_BLOCK);
    assert WrittenIn(bs, BytesBits(EMPTY_STREAM), rest);
  }

  /** The input holds a whole stream and is read past its end. */
  method EmptyStreamOverrun() returns (z: Inflater)
    ensures z.input == EMPTY_STREAM && z.overrun
    ensures Inflates(BytesBits(EMPTY_STREAM), [], [false, false, false, false, false, false])
  {
    hide BytesBits, Inflates, ReadStream;
    EmptyStreamInflates();
    z := new Inflater(EMPTY_STREAM);
    var ok := z.ParseZlib();
  }

  // ---- a match and a stored block ----

  lemma ByteBits(b: byte)
    ensures ToBits(b, 8) == [b % 2 == 1, b / 2 % 2 == 1, b / 4 % 2 == 1, b / 8 % 2 == 1,
                             b / 16 % 2 == 1, b / 32 % 2 == 1, b / 64 % 2 == 1, b / 128 % 2 == 1]
  {
    hide ToBits;
    SplitBits(b, 4, 4);
    SixteenthOf(b);
    NibbleBits(b);
    NibbleBits(b / 16);
    assert b / 32 == b / 16 / 2 && b / 64 == b / 16 / 4 && b / 128 == b / 16 / 8;
  }

  lemma NibbleBits(v: nat)
    ensures ToBits(v, 4) == [v % 2 == 1, v / 2 % 2 == 1, v / 4 % 2 == 1, v / 8 % 2 == 1]
  {
    var v2, v4, v8 := v / 2, v / 4, v / 8;
    assert v4 == v2 / 2 && v8 == v4 / 2;
    assert ToBits(v8, 1) == [v8 % 2 == 1] + ToBits(v8 / 2, 0);
    assert ToBits(v4, 2) == [v4 % 2 == 1] + ToBits(v8, 1);
    assert ToBits(v2, 3) == [v2 % 2 == 1] + ToBits(v4, 2);
  }

  lemma SixteenthOf(v: nat)
    ensures Shr(v, 4) == v / 16
  {
    var v2, v4, v8 := v / 2, v / 4, v / 8;
    assert v4 == v2 / 2 && v8 == v4 / 2 && v / 16 == v8 / 2;
    assert Shr(v, 4) == Shr(v2, 3) && Shr(v2, 3) == Shr(v4, 2) && Shr(v4, 2) == Shr(v8, 1);
    assert Shr(v8, 1) == Shr(v8 / 2, 0);
  }

  lemma FourBytesBits(a: byte, b: byte, c: byte, d: byte)
    ensures BytesBits([a, b, c, d]) == ToBits(a, 8) + ToBits(b, 8) + ToBits(c, 8) + ToBits(d, 8)
  {
    hide BytesBits, ToBits;
    OneByte(a);
    OneByte(b);
    OneByte(c);
    OneByte(d);
    BytesConcat([a], [b]);
    BytesConcat([a] + [b], [c]);
    BytesConcat([a] + [b] + [c], [d]);
    assert [a, b, c, d] == [a] + [b] + [c] + [d];
  }

  lemma SampleCodes()
    ensures CodeBits(FixedLengths(), 97) == [true, false, false, true, false, false, false, true]
    ensures CodeBits(FixedLengths(), 257) == [false, false, false, false, false, false, true]
    ensures CodeBits(FixedDistances(), 0) == [false, false, false, false, false]
    ensures HasCode(FixedLengths(), 97) && HasCode(FixedLengths(), 257) && HasCode(FixedDistances(), 0)
  {
    hide Code, FixedLengths, FixedDistances;
    FixedLengthOf(97);
    FixedLengthOf(257);
    FixedLengthOf(0);
    FixedCodeOf(97);
    FixedCodeOf(257);
    FixedDistanceOf(0);
    MsbOf145();
    MsbOfOne();
  }

  lemma MsbOf145()
    ensures MsbBits(0x91, 8) == [true, false, false, true, false, false, false, true]
  {
    assert MsbBits(9, 4) == [true, false, false, true];
    assert MsbBits(36, 6) == MsbBits(9, 4) + [false, false];
  }

  lemma MsbOfOne()
    ensures MsbBits(1, 7) == [false, false, false, false, false, false, true]
    ensures MsbBits(0, 5) == [false, false, false, false, false]
  {
    assert MsbBits(0, 3) == [false, false, false];
  }

  /** The letter a, then a match of length three at distance one: four letters in four bytes. */
  const FOUR_AS: seq<byte> := [0x4B, 0x04, 0x02, 0x00]

  lemma FourAsBits()
    ensures BytesBits(FOUR_AS)
            == [true] + [true, false] + [true, false, false, true, false, false, false, true]
               + [false, false, false, false, false, false, true] + [false, false, false, false, false]
               + [false, false, false, false, false, false, false] + [false, false]
  {
    hide BytesBits, ToBits;
    FourBytesBits(0x4B, 0x04, 0x02, 0x00);
    ByteBits(0x4B);
    ByteBits(0x04);
    ByteBits(0x02);
    ByteBits(0x00);
  }

  lemma FourAsTokens(ts: seq<Token>, rest: seq<bool>)
    requires ts == [Literal(97), Match(0, 0, 0, 0)]
    ensures HasCode(FixedLengths(), END_OF_BLOCK)
    ensures ValidTokens(FixedLengths(), FixedDistances(), ts, 0)
    ensures Expand(FixedLengths(), FixedDistances(), [], ts) == [97, 97, 97, 97]
    ensures TokensBits(FixedLengths(), FixedDistances(), ts, 0) + rest
            == [true, false, false, true, false, false, false, true] + [false, false, false, false, false, false, true]
               + [false, false, false, false, false] + [false, false, false, false, false, false, false] + rest
  {
    hide CodeBits, FixedLengths, FixedDistances, ToBits, Pow2;
    EndCode();
    SampleCodes();
    PowOfNone();
    SampleSizes();
    assert ts[1..] == [ts[1]] && ts[1..][1..] == [];
    var ll, dl := FixedLengths(), FixedDistances();
    assert ValidTokens(ll, dl, ts[1..][1..], 4) && ValidTokens(ll, dl, ts[1..], 1);
    ThreeMore();
    Expansion(ll, dl, ts);
    assert TokensBits(ll, dl, ts[1..], 1) == CodeBits(ll, 257) + ([] + (CodeBits(dl, 0) + [])) + CodeBits(ll, 256);
  }

  lemma Expansion(ll: seq<nat>, dl: seq<nat>, ts: seq<Token>)
    requires ts == [Literal(97), Match(0, 0, 0, 0)] && ValidTokens(ll, dl, ts, 0)
    ensures Expand(ll, dl, [], ts) == [97, 97, 97, 97]
  {
    hide CopyMatch, CodeBits, ToBits, Pow2;
    SampleSizes();
    ThreeMore();
    assert ts[1..] == [ts[1]] && ts[1..][1..] == [] && [] + [97] == [97];
    assert ExpandToken([], ts[0]) == [97];
    assert ExpandToken([97], ts[1]) == [97, 97, 97, 97];
    assert Expand(ll, dl, [97], ts[1..]) == [97, 97, 97, 97];
  }

  lemma PowOfNone()
    ensures Pow2(0) == 1 && ToBits(0, 0) == []
  {
  }

  lemma SampleSizes()
    ensures LengthExtra(0) == 0 && DistExtra(0) == 0 && LengthBase(0) == 3 && DistBase(0) == 1
  {
    LengthBits(0);
    DistBits(0);
    LengthFollows(0);
    DistFollows(0);
  }

  lemma ThreeMore()
    ensures CopyMatch([97], 3, 1) == [97, 97, 97, 97]
  {
    assert [97, 97] + [97] == [97, 97, 97];
  }

  lemma FourAsInflate()
    ensures Inflates(BytesBits(FOUR_AS), [97, 97, 97, 97], [false, false])
  {
    hide BytesBits, ToBits, TokensBits, FixedLengths, FixedDistances, Accepted, IsLengths, Expand, ValidTokens;
    hide StreamBits, BodyRest, StreamExpand, ValidStream, Aligned;
    var ts, rest := [Literal(97), Match(0, 0, 0, 0)], [false, false];
    var bs := [Fixed(ts)];
    FixedCodes();
    FourAsTokens(ts, rest);
    FourAsShape(ts, rest);
    BodyRestOf(bs[0]);
    LastBlock(bs, [97, 97, 97, 97]);
    OneBlock(bs, rest);
    assert WrittenIn(bs, BytesBits(FOUR_AS), rest);
  }

  lemma FourAsShape(ts: seq<Token>, rest: seq<bool>)
    requires ts == [Literal(97), Match(0, 0, 0, 0)] && rest == [false, false]
    ensures HasCode(FixedLengths(), END_OF_BLOCK)
    ensures ValidTokens(FixedLengths(), FixedDistances(), ts, 0)
    ensures BytesBits(FOUR_AS)
            == ToBits(1, 1) + (ToBits(1, 2) + (TokensBits(FixedLengths(), FixedDistances(), ts, 0) + rest))
  {
    hide BytesBits, ToBits, TokensBits, FixedLengths, FixedDistances, ValidTokens, Expand;
    FourAsBits();
    FourAsTokens(ts, rest);
    BitsOfThree();
  }

  /** The bits of a stream of one block. */
  lemma OneBlock(bs: seq<Body>, rest: seq<bool>)
    requires |bs| == 1 && ValidStream(bs, [])
    ensures StreamBits(bs, []) + rest == ToBits(1, 1) + (ToBits(BodyType(bs[0]), 2) + (BodyRest(bs[0], 0) + rest))
  {
    hide ToBits, BodyRest, ValidBody, BodyExpand, BodyBits;
    StreamStep(bs, [], rest);
    assert bs[1..] == [] && [] + rest == rest;
  }

  /** A stored block of one byte: five bits of padding, the length, its complement and the letter A. */
  const STORED_A: seq<byte> := [0x01, 0x01, 0x00, 0xFE, 0xFF, 0x41]

  lemma StoredAInflates()
    ensures Inflates(BytesBits(STORED_A), [0x41], [])
  {
    hide BytesBits, ToBits;
    var pad := [false, false, false, false, false];
    var bs := [Stored(pad, [0x41])];
    assert StoredBytes([0x41]) == [0x01, 0x00, 0xFE, 0xFF, 0x41];
    assert STORED_A == [0x01] + StoredBytes([0x41]);
    BytesConcat([0x01], StoredBytes([0x41]));
    OneByte(0x01);
    ByteBits(0x01);
    BitsOfThree();
    BitsOfZero(2);
    assert bs[1..] == [];
    StreamStep(bs, [], []);
    assert BytesBits(STORED_A) == ToBits(1, 1) + (ToBits(0, 2) + (pad + BytesBits(StoredBytes([0x41]))));
    StoredRest(bs[0], []);
    assert ValidStream(bs, []) && Aligned(bs, [], 0) && StreamExpand([], bs) == [0x41];
    assert StreamBits(bs, []) + [] == BytesBits(STORED_A);
    assert WrittenIn(bs, BytesBits(STORED_A), []);
  }

  lemma StoredRest(b: Body, rest: seq<bool>)
    requires ValidBody(b, 0) && b.Stored? && rest == []
    ensures BodyType(b) == 0 && BodyRest(b, 0) + ([] + rest) == b.pad + BytesBits(StoredBytes(b.data))
  {
    hide BytesBits, StoredBytes;
  }

  lemma BodyRestOf(b: Body)
    requires b.Fixed? && ValidBody(b, 0)
    ensures HasCode(FixedLengths(), END_OF_BLOCK) && ValidTokens(FixedLengths(), FixedDistances(), b.ts, 0)
    ensures BodyType(b) == 1 && BodyRest(b, 0) == TokensBits(FixedLengths(), FixedDistances(), b.ts, 0)
  {
    hide TokensBits, FixedLengths, FixedDistances, ValidTokens;
    FixedCodes();
  }

  lemma LastBlock(bs: seq<Body>, out: seq<byte>)
    requires |bs| == 1 && ValidBody(bs[0], 0) && BodyExpand([], bs[0]) == out && !bs[0].Stored?
    ensures ValidStream(bs, []) && Aligned(bs, [], 2) && StreamExpand([], bs) == out
    ensures Aligned(bs, [], 0)
  {
    hide ValidBody, BodyExpand;
    assert bs[1..] == [];
  }
}
