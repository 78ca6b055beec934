/** DEFLATE streams (sections 3.1.1 and 3.2 of RFC 1951) as bit strings: how tokens, code lengths
    and blocks are written, and the bytes they stand for. */
module Deflate {
  import opened Bits
  import opened Bytes
  import opened BitStream
  import opened Huffman

  // ---- bit strings ----

  /** The low `n` bits of `v`, least significant first. */
  function ToBits(v: nat, n: nat): (b: seq<bool>)
    ensures |b| == n
  {
    if n == 0 then [] else [v % 2 == 1] + ToBits(v / 2, n - 1)
  }

  /** The low `n` bits of `v`, most significant first: how codes are packed. */
  function MsbBits(v: nat, n: nat): (b: seq<bool>)
    ensures |b| == n
  {
    if n == 0 then [] else MsbBits(v / 2, n - 1) + [v % 2 == 1]
  }

  function BytesBits(bs: seq<byte>): (b: seq<bool>)
    ensures |b| == 8 * |bs|
  {
    if bs == [] then [] else ToBits(bs[0], 8) + BytesBits(bs[1..])
  }

  lemma {:induction false} JoinBits(a: nat, n: nat, b: nat, m: nat)
    requires a < Pow2(n)
    ensures ToBits(a + Shl(b, n), n + m) == ToBits(a, n) + ToBits(b, m)
    decreases n
  {
    if n > 0 {
      JoinBits(a / 2, n - 1, b, m);
      assert (a + Shl(b, n)) / 2 == a / 2 + Shl(b, n - 1) && (a + Shl(b, n)) % 2 == a % 2;
    }
  }

  lemma {:induction false} SplitBits(v: nat, n: nat, m: nat)
    ensures ToBits(v, n + m) == ToBits(v, n) + ToBits(Shr(v, n), m)
    decreases n
  {
    if n > 0 { SplitBits(v / 2, n - 1, m); }
  }

  lemma {:induction false} BitsOfLow(v: nat, n: nat)
    ensures ToBits(Low(v, n), n) == ToBits(v, n)
    decreases n
  {
    if n > 0 {
      assert Low(v, n) / 2 == Low(v / 2, n - 1) && Low(v, n) % 2 == v % 2;
      BitsOfLow(v / 2, n - 1);
    }
  }

  lemma {:induction false} BitsInjective(a: nat, b: nat, n: nat)
    requires a < Pow2(n) && b < Pow2(n) && ToBits(a, n) == ToBits(b, n)
    ensures a == b
    decreases n
  {
    if n > 0 {
      assert ToBits(a, n)[0] == ToBits(b, n)[0];
      assert ToBits(a, n)[1..] == ToBits(a / 2, n - 1) && ToBits(b, n)[1..] == ToBits(b / 2, n - 1);
      BitsInjective(a / 2, b / 2, n - 1);
    }
  }

  /** Reversing a code turns first-to-last packing into least-significant-first packing. */
  lemma {:induction false} MsbIsReversed(c: nat, n: nat)
    ensures ToBits(RevBits(c, n), n) == MsbBits(c, n)
    decreases n
  {
    if n > 0 {
      MsbIsReversed(c / 2, n - 1);
      var bit := if c % 2 == 1 then 1 else 0;
      ShlOne(bit, n - 1);
      JoinBits(RevBits(c / 2, n - 1), n - 1, bit, 1);
      assert ToBits(bit, 1) == [c % 2 == 1];
    }
  }

  lemma {:induction false} ShlOne(bit: nat, n: nat)
    requires bit <= 1
    ensures Shl(bit, n) == if bit == 1 then Pow2(n) else 0
  {
    if n > 0 { ShlOne(bit, n - 1); }
  }

  /** How symbol `i` is written. */
  function CodeBits(l: seq<nat>, i: nat): seq<bool>
    requires i < |l|
  {
    MsbBits(Code(l, i), l[i])
  }

  // ---- tokens ----

  const LENGTH_BASE: seq<nat> :=
      [3, 4, 5, 6, 7, 8, 9, 10, 11, 13, 15, 17, 19, 23, 27, 31, 35, 43, 51,
       59, 67, 83, 99, 115, 131, 163, 195, 227, 258, 0, 0]
  const LENGTH_EXTRA: seq<nat> :=
      [0, 0, 0, 0, 0, 0, 0, 0, 1, 1, 1, 1, 2, 2, 2, 2, 3, 3, 3, 3, 4, 4, 4, 4, 5, 5, 5, 5, 0, 0, 0]
  const DIST_BASE: seq<nat> :=
      [1, 2, 3, 4, 5, 7, 9, 13, 17, 25, 33, 49, 65, 97, 129, 193, 257, 385, 513, 769,
       1025, 1537, 2049, 3073, 4097, 6145, 8193, 12289, 16385, 24577, 0, 0]
  const DIST_EXTRA: seq<nat> :=
      [0, 0, 0, 0, 1, 1, 2, 2, 3, 3, 4, 4, 5, 5, 6, 6, 7, 7, 8, 8, 9, 9, 10, 10, 11, 11, 12, 12, 13, 13, 0, 0]

  function LengthBase(i: nat): nat
    requires i < LENGTH_CODES
  {
    LENGTH_BASE[i]
  }

  function LengthExtra(i: nat): (n: nat)
    requires i < LENGTH_CODES
    ensures n <= 16
  {
    LENGTH_EXTRA[i]
  }

  function DistBase(i: nat): (n: nat)
    requires i < DIST_CODES
    ensures n >= 1
  {
    DIST_BASE[i]
  }

  function DistExtra(i: nat): (n: nat)
    requires i < DIST_CODES
    ensures n <= 16
  {
    DIST_EXTRA[i]
  }

  const END_OF_BLOCK := 256
  const FIRST_LENGTH := 257
  const LENGTH_CODES := 29
  const DIST_CODES := 30

  /** A literal byte, or a match: a length code and a distance code with their extra bits. */
  datatype Token = Literal(b: byte) | Match(len: nat, lenExtra: nat, dist: nat, distExtra: nat)

  /** Symbol `i` has a code. */
  predicate HasCode(l: seq<nat>, i: nat)
  {
    i < |l| && l[i] > 0
  }

  /** The token's symbols have codes and its extra bits fit. */
  predicate Writable(ll: seq<nat>, dl: seq<nat>, t: Token)
  {
    match t
    case Literal(b) => HasCode(ll, b)
    case Match(len, lenExtra, dist, distExtra) =>
      && len < LENGTH_CODES && HasCode(ll, FIRST_LENGTH + len) && lenExtra < Pow2(LengthExtra(len))
      && dist < DIST_CODES && HasCode(dl, dist) && distExtra < Pow2(DistExtra(dist))
  }

  function TokenLen(t: Token): nat
  {
    match t
    case Literal(_) => 1
    case Match(len, lenExtra, _, _) => if len < LENGTH_CODES then LengthBase(len) + lenExtra else 0
  }

  function TokenDist(t: Token): nat
  {
    match t
    case Literal(_) => 0
    case Match(_, _, dist, distExtra) => if dist < DIST_CODES then DistBase(dist) + distExtra else 0
  }

  /** Every token can be written and every match reaches back into the output before it. */
  predicate ValidTokens(ll: seq<nat>, dl: seq<nat>, ts: seq<Token>, outLen: nat)
  {
    ts == [] || (&& Writable(ll, dl, ts[0]) && TokenDist(ts[0]) <= outLen
                 && ValidTokens(ll, dl, ts[1..], outLen + TokenLen(ts[0])))
  }

  function TokenBits(ll: seq<nat>, dl: seq<nat>, t: Token): seq<bool>
    requires Writable(ll, dl, t)
  {
    match t
    case Literal(b) => CodeBits(ll, b)
    case Match(len, lenExtra, dist, distExtra) =>
      CodeBits(ll, FIRST_LENGTH + len) + (ToBits(lenExtra, LengthExtra(len))
      + (CodeBits(dl, dist) + ToBits(distExtra, DistExtra(dist))))
  }

  /** The tokens of a block, then the end-of-block symbol. */
  function TokensBits(ll: seq<nat>, dl: seq<nat>, ts: seq<Token>, outLen: nat): seq<bool>
    requires HasCode(ll, END_OF_BLOCK) && ValidTokens(ll, dl, ts, outLen)
  {
    if ts == [] then CodeBits(ll, END_OF_BLOCK)
    else TokenBits(ll, dl, ts[0]) + TokensBits(ll, dl, ts[1..], outLen + TokenLen(ts[0]))
  }

  // ---- what tokens stand for ----

  /** Append `len` bytes, each equal to the one `dist` before it. */
  function CopyMatch(out: seq<byte>, len: nat, dist: nat): (r: seq<byte>)
    requires 1 <= dist <= |out|
    ensures |r| == |out| + len && r[..|out|] == out
    decreases len
  {
    if len == 0 then out else
      var r := CopyMatch(out + [out[|out| - dist]], len - 1, dist);
      assert r[..|out|] == r[..|out| + 1][..|out|] == out;
      r
  }

  /** A match, overlapping or not, repeats the last `dist` bytes of the output. */
  lemma {:induction false} CopyMatchRepeats(out: seq<byte>, len: nat, dist: nat, j: nat)
    requires 1 <= dist <= |out| && |out| <= j < |out| + len
    ensures CopyMatch(out, len, dist)[j] == CopyMatch(out, len, dist)[j - dist]
    decreases len
  {
    var out' := out + [out[|out| - dist]];
    var r := CopyMatch(out', len - 1, dist);
    assert r == CopyMatch(out, len, dist);
    if j == |out| {
      assert r[j] == r[..|out'|][j] && r[j - dist] == r[..|out'|][j - dist];
    } else {
      CopyMatchRepeats(out', len - 1, dist, j);
    }
  }

  function ExpandToken(out: seq<byte>, t: Token): seq<byte>
    requires t.Match? ==> t.len < LENGTH_CODES && t.dist < DIST_CODES && TokenDist(t) <= |out|
  {
    match t
    case Literal(b) => out + [b]
    case Match(_, _, _, _) => DistPositive(t); CopyMatch(out, TokenLen(t), TokenDist(t))
  }

  lemma ExpandTokenLen(ll: seq<nat>, dl: seq<nat>, out: seq<byte>, t: Token)
    requires Writable(ll, dl, t) && TokenDist(t) <= |out|
    ensures |ExpandToken(out, t)| == |out| + TokenLen(t)
  {
  }

  lemma DistPositive(t: Token)
    requires t.Match? && t.dist < DIST_CODES
    ensures TokenDist(t) >= 1
  {
    hide DistBase;
  }

  /** The LZ77 expansion of a token sequence. */
  function Expand(ll: seq<nat>, dl: seq<nat>, out: seq<byte>, ts: seq<Token>): seq<byte>
    requires ValidTokens(ll, dl, ts, |out|)
    decreases |ts|
  {
    if ts == [] then out else Expand(ll, dl, ExpandToken(out, ts[0]), ts[1..])
  }

  // ---- code lengths of a dynamic block (section 3.2.7) ----

  const CL_SYMBOLS := 19
  const DEZIGZAG: seq<nat> := [16, 17, 18, 0, 8, 7, 9, 6, 10, 5, 11, 4, 12, 3, 13, 2, 14, 1, 15]

  /** The order in which the lengths of the code length code are sent. */
  function Dezigzag(j: nat): (r: nat)
    requires j < CL_SYMBOLS
    ensures r < CL_SYMBOLS
  {
    DEZIGZAG[j]
  }

  /** A code length, a repetition of the one before, or a run of zeros. */
  datatype LenToken = Plain(len: nat) | Repeat(extra: nat) | Zeros(extra: nat) | ManyZeros(extra: nat)

  function LenSymbol(t: LenToken): nat
  {
    match t
    case Plain(len) => len
    case Repeat(_) => 16
    case Zeros(_) => 17
    case ManyZeros(_) => 18
  }

  function LenExtraBits(t: LenToken): nat
  {
    match t
    case Plain(_) => 0
    case Repeat(_) => 2
    case Zeros(_) => 3
    case ManyZeros(_) => 7
  }

  function LenExtra(t: LenToken): nat
  {
    match t
    case Plain(_) => 0
    case Repeat(extra) => extra
    case Zeros(extra) => extra
    case ManyZeros(extra) => extra
  }

  function LenCount(t: LenToken): (n: nat)
    ensures n > 0
  {
    match t
    case Plain(_) => 1
    case Repeat(extra) => extra + 3
    case Zeros(extra) => extra + 3
    case ManyZeros(extra) => extra + 11
  }

  /** The length a token repeats. */
  function LenFill(ls: seq<nat>, t: LenToken): nat
    requires t.Repeat? ==> ls != []
  {
    match t
    case Plain(len) => len
    case Repeat(_) => ls[|ls| - 1]
    case Zeros(_) => 0
    case ManyZeros(_) => 0
  }

  /** The lengths after one more token. */
  function LenAppend(ls: seq<nat>, t: LenToken): (r: seq<nat>)
    requires t.Repeat? ==> ls != []
    ensures |r| == |ls| + LenCount(t)
  {
    var fill := LenFill(ls, t);
    ls + seq(LenCount(t), _ => fill)
  }

  /** The tokens can be written with the code length code and give exactly `total` lengths. */
  predicate ValidLenTokens(cl: seq<nat>, ts: seq<LenToken>, n: nat, total: nat)
  {
    if ts == [] then n == total
    else
      && HasCode(cl, LenSymbol(ts[0])) && (ts[0].Plain? ==> ts[0].len <= MAX_BITS)
      && LenExtra(ts[0]) < Pow2(LenExtraBits(ts[0])) && (ts[0].Repeat? ==> n > 0)
      && n + LenCount(ts[0]) <= total
      && ValidLenTokens(cl, ts[1..], n + LenCount(ts[0]), total)
  }

  function LenExpand(cl: seq<nat>, ls: seq<nat>, ts: seq<LenToken>, total: nat): (r: seq<nat>)
    requires ValidLenTokens(cl, ts, |ls|, total)
    ensures |r| == total
    decreases |ts|
  {
    if ts == [] then ls else LenExpand(cl, LenAppend(ls, ts[0]), ts[1..], total)
  }

  function LenTokensBits(cl: seq<nat>, ts: seq<LenToken>, n: nat, total: nat): seq<bool>
    requires ValidLenTokens(cl, ts, n, total)
    decreases |ts|
  {
    if ts == [] then []
    else
      CodeBits(cl, LenSymbol(ts[0]))
      + (ToBits(LenExtra(ts[0]), LenExtraBits(ts[0])) + LenTokensBits(cl, ts[1..], n + LenCount(ts[0]), total))
  }

  /** The header of a dynamic block. */
  datatype Header = Header(hlit: nat, hdist: nat, hclen: nat, cl: seq<nat>, ts: seq<LenToken>)

  function Total(h: Header): nat
  {
    (h.hlit + 257) + (h.hdist + 1)
  }

  ghost predicate ValidCodeLengths(h: Header)
  {
    && h.hlit < 32 && h.hdist < 32 && h.hclen < 16
    && |h.cl| == CL_SYMBOLS && (forall i :: 0 <= i < CL_SYMBOLS ==> h.cl[i] < 8)
    && (forall j :: h.hclen + 4 <= j < CL_SYMBOLS ==> h.cl[Dezigzag(j)] == 0)
    && Accepted(h.cl)
    && ValidLenTokens(h.cl, h.ts, 0, Total(h))
  }

  ghost function LitLengths(h: Header): seq<nat>
    requires ValidCodeLengths(h)
  {
    LenExpand(h.cl, [], h.ts, Total(h))[..h.hlit + 257]
  }

  ghost function DistLengths(h: Header): seq<nat>
    requires ValidCodeLengths(h)
  {
    LenExpand(h.cl, [], h.ts, Total(h))[h.hlit + 257..]
  }

  ghost predicate ValidHeader(h: Header)
  {
    ValidCodeLengths(h) && Accepted(LitLengths(h)) && Accepted(DistLengths(h)) && HasCode(LitLengths(h), END_OF_BLOCK)
  }

  /** Lengths `j` to `n - 1` of the code length code, in the order they are sent. */
  function ClBits(cl: seq<nat>, j: nat, n: nat): seq<bool>
    requires |cl| == CL_SYMBOLS && j <= n <= CL_SYMBOLS
    decreases n - j
  {
    if j == n then [] else ToBits(cl[Dezigzag(j)], 3) + ClBits(cl, j + 1, n)
  }

  ghost function HeaderBits(h: Header): seq<bool>
    requires ValidCodeLengths(h)
  {
    ToBits(h.hlit, 5) + (ToBits(h.hdist, 5) + (ToBits(h.hclen, 4)
    + (ClBits(h.cl, 0, h.hclen + 4) + LenTokensBits(h.cl, h.ts, 0, Total(h)))))
  }

  // ---- fixed codes (section 3.2.6) ----

  function Uniform(n: nat, v: nat): (r: seq<nat>)
    ensures |r| == n && forall i :: 0 <= i < n ==> r[i] == v
  {
    seq(n, _ => v)
  }

  function FixedLengths(): seq<nat>
  {
    Uniform(144, 8) + Uniform(112, 9) + Uniform(24, 7) + Uniform(8, 8)
  }

  function FixedDistances(): seq<nat>
  {
    Uniform(32, 5)
  }

  lemma {:induction false} CountConcat(a: seq<nat>, b: seq<nat>, s: nat)
    ensures Count(a + b, s) == Count(a, s) + Count(b, s)
    decreases |b|
  {
    if b == [] {
      assert a + b == a;
    } else {
      assert (a + b)[..|a + b| - 1] == a + b[..|b| - 1];
      CountConcat(a, b[..|b| - 1], s);
    }
  }

  lemma {:induction false} CountUniform(n: nat, v: nat, s: nat)
    ensures Count(Uniform(n, v), s) == if s == v then n else 0
    decreases n
  {
    if n > 0 {
      assert Uniform(n, v)[..n - 1] == Uniform(n - 1, v);
      CountUniform(n - 1, v, s);
    }
  }

  lemma FixedCounts(s: nat)
    ensures Count(FixedLengths(), s) == if s == 7 then 24 else if s == 8 then 152 else if s == 9 then 112 else 0
    ensures Count(FixedDistances(), s) == if s == 5 then 32 else 0
  {
    hide Count, Uniform;
    CountUniform(144, 8, s);
    CountUniform(112, 9, s);
    CountUniform(24, 7, s);
    CountUniform(8, 8, s);
    CountUniform(32, 5, s);
    CountConcat(Uniform(144, 8) + Uniform(112, 9) + Uniform(24, 7), Uniform(8, 8), s);
    CountConcat(Uniform(144, 8) + Uniform(112, 9), Uniform(24, 7), s);
    CountConcat(Uniform(144, 8), Uniform(112, 9), s);
  }

  lemma {:induction false} FirstIsZero(l: seq<nat>, s: nat)
    requires forall k :: 1 <= k < s ==> Count(l, k) == 0
    ensures First(l, s) == 0
  {
    if s > 1 { FirstIsZero(l, s - 1); }
  }

  /** The fixed codes are accepted and have an end-of-block symbol. */
  lemma FixedCodes()
    ensures IsLengths(FixedLengths()) && Accepted(FixedLengths()) && HasCode(FixedLengths(), END_OF_BLOCK)
    ensures IsLengths(FixedDistances()) && Accepted(FixedDistances())
  {
    hide Count, Uniform, First;
    var l, d := FixedLengths(), FixedDistances();
    forall s: nat ensures Count(l, s) == (if s == 7 then 24 else if s == 8 then 152 else if s == 9 then 112 else 0)
      ensures Count(d, s) == if s == 5 then 32 else 0
    {
      FixedCounts(s);
    }
    FirstIsZero(l, 7);
    FirstIsZero(d, 5);
    FirstNext(l, 7);
    FirstNext(l, 8);
    PowerTable(5); PowerTable(7); PowerTable(8); PowerTable(9);
  }

  lemma FirstNext(l: seq<nat>, s: nat)
    requires s >= 1
    ensures First(l, s + 1) == 2 * (First(l, s) + Count(l, s))
  {
  }

  // ---- blocks and streams (section 3.2.3) ----

  datatype Body = Stored(pad: seq<bool>, data: seq<byte>) | Fixed(ts: seq<Token>) | Dynamic(h: Header, ts: seq<Token>)

  ghost predicate ValidBody(b: Body, outLen: nat)
  {
    match b
    case Stored(pad, data) => |pad| < 8 && |data| < 0x1_0000
    case Fixed(ts) => FixedCodes(); ValidTokens(FixedLengths(), FixedDistances(), ts, outLen)
    case Dynamic(h, ts) => ValidHeader(h) && ValidTokens(LitLengths(h), DistLengths(h), ts, outLen)
  }

  ghost function BodyExpand(out: seq<byte>, b: Body): seq<byte>
    requires ValidBody(b, |out|)
  {
    match b
    case Stored(_, data) => out + data
    case Fixed(ts) => Expand(FixedLengths(), FixedDistances(), out, ts)
    case Dynamic(h, ts) => Expand(LitLengths(h), DistLengths(h), out, ts)
  }

  /** The length of a stored block and its complement, then the bytes. */
  function StoredBytes(data: seq<byte>): seq<byte>
    requires |data| < 0x1_0000
  {
    Bytes16(|data|) + Bytes16(0xFFFF - |data|) + data
  }

  ghost function BodyBits(b: Body, outLen: nat): seq<bool>
    requires ValidBody(b, outLen)
  {
    FixedCodes();
    match b
    case Stored(pad, data) => ToBits(0, 2) + (pad + BytesBits(StoredBytes(data)))
    case Fixed(ts) => ToBits(1, 2) + TokensBits(FixedLengths(), FixedDistances(), ts, outLen)
    case Dynamic(h, ts) => ToBits(2, 2) + (HeaderBits(h) + TokensBits(LitLengths(h), DistLengths(h), ts, outLen))
  }

  /** Every block is valid for the output before it. */
  ghost predicate ValidStream(bs: seq<Body>, out: seq<byte>)
    decreases |bs|
  {
    bs == [] || (ValidBody(bs[0], |out|) && ValidStream(bs[1..], BodyExpand(out, bs[0])))
  }

  ghost function StreamExpand(out: seq<byte>, bs: seq<Body>): seq<byte>
    requires ValidStream(bs, out)
    decreases |bs|
  {
    if bs == [] then out else StreamExpand(BodyExpand(out, bs[0]), bs[1..])
  }

  /** Each block behind its final-block flag, which only the last one sets. */
  ghost function StreamBits(bs: seq<Body>, out: seq<byte>): seq<bool>
    requires ValidStream(bs, out)
    decreases |bs|
  {
    if bs == [] then []
    else ToBits(if |bs| == 1 then 1 else 0, 1) + (BodyBits(bs[0], |out|) + StreamBits(bs[1..], BodyExpand(out, bs[0])))
  }

  /** The padding of every stored block reaches a byte boundary, as seen from the end of the input. */
  ghost predicate Aligned(bs: seq<Body>, out: seq<byte>, tailLen: nat)
    requires ValidStream(bs, out)
    decreases |bs|
  {
    bs == [] ||
    (var out' := BodyExpand(out, bs[0]);
     (bs[0].Stored? ==> (|StreamBits(bs[1..], out')| + tailLen) % 8 == 0) && Aligned(bs[1..], out', tailLen))
  }

  // ---- where the fields lie ----

  /** A dynamic header starts with three counts of five, five and four bits, and then the lengths of the code
      length code. */
  lemma HeaderLayout(h: Header)
    requires ValidCodeLengths(h)
    ensures |HeaderBits(h)| >= 14
    ensures HeaderBits(h)[..5] == ToBits(h.hlit, 5) && HeaderBits(h)[5..10] == ToBits(h.hdist, 5)
    ensures HeaderBits(h)[10..14] == ToBits(h.hclen, 4)
    ensures ClBits(h.cl, 0, h.hclen + 4) <= HeaderBits(h)[14..]
  {
    hide ToBits, ClBits, LenTokensBits, ValidLenTokens, Accepted;
    var bits := HeaderBits(h);
    var lens := ClBits(h.cl, 0, h.hclen + 4) + LenTokensBits(h.cl, h.ts, 0, Total(h));
    assert bits[5..] == ToBits(h.hdist, 5) + (ToBits(h.hclen, 4) + lens);
    assert bits[10..] == ToBits(h.hclen, 4) + lens;
    assert bits[14..] == lens;
    assert bits[5..10] == bits[5..][..5] && bits[10..14] == bits[10..][..4];
  }

  /** A match is its length code and the extra bits of the length, then the same of the distance. */
  lemma TokenLayout(ll: seq<nat>, dl: seq<nat>, t: Token)
    requires Writable(ll, dl, t)
    ensures match t
            case Literal(b) => TokenBits(ll, dl, t) == CodeBits(ll, b)
            case Match(len, lenExtra, dist, distExtra) =>
              TokenBits(ll, dl, t) == CodeBits(ll, 257 + len) + ToBits(lenExtra, LengthExtra(len))
                                      + CodeBits(dl, dist) + ToBits(distExtra, DistExtra(dist))
  {
    hide CodeBits, ToBits, Pow2, LengthExtra, DistExtra;
  }

  /** A block starts with its type in two bits: 0 stored, 1 fixed, 2 dynamic. */
  lemma BodyLayout(b: Body, outLen: nat)
    requires ValidBody(b, outLen)
    ensures |BodyBits(b, outLen)| >= 2
    ensures BodyBits(b, outLen)[..2] == match b
                                        case Stored(_, _) => [false, false]
                                        case Fixed(_) => [true, false]
                                        case Dynamic(_, _) => [false, true]
  {
    hide TokensBits, HeaderBits, BytesBits, StoredBytes, FixedLengths, FixedDistances, LitLengths, DistLengths;
    hide ValidTokens, ValidHeader;
    FixedCodes();
    TwoBits();
  }

  lemma TwoBits()
    ensures ToBits(0, 2) == [false, false] && ToBits(1, 2) == [true, false] && ToBits(2, 2) == [false, true]
  {
    assert ToBits(0, 1) == [false] && ToBits(1, 1) == [true];
  }
}
