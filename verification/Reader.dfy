/** Reading bit strings back: what a stream of bits is, if it is anything, by the grammar of module
    Deflate. Each reader inverts an encoding, and answers nothing exactly when there is nothing to invert. */
module Reader {
  import opened Bits
  import opened Bytes
  import opened BitStream
  import opened Huffman
  import opened Deflate

  /** A value and the bits after it; or bits that end too early to tell; or bits that are wrong whatever
      follows them. */
  datatype Read<T> = Got(value: T, rest: seq<bool>) | Cut | Wrong {

    /** The same failure for another kind of value. */
    function Missed<U>(): Read<U>
      requires !Got?
    {
      if Cut? then Cut else Wrong
    }
  }

  /** What `r` found in some bits is what `r'` finds in these bits with `more` behind them. */
  predicate Extends<T(==)>(r: Read<T>, r': Read<T>, more: seq<bool>)
  {
    (r.Got? ==> r' == Got(r.value, r.rest + more)) && (r.Wrong? ==> r'.Wrong?)
  }

  // ---- bit strings ----

  lemma Glue2<T>(a: seq<T>, b: seq<T>, c: seq<T>)
    ensures (a + b) + c == a + (b + c)
  {
  }

  lemma SamePrefix<T>(a: seq<T>, x: seq<T>, b: seq<T>, y: seq<T>)
    requires |a| == |b| && a + x == b + y
    ensures a == b && x == y
  {
    assert (a + x)[..|a|] == a && (b + y)[..|b|] == b;
    assert (a + x)[|a|..] == x && (b + y)[|b|..] == y;
  }

  lemma Halves<T>(a: seq<T>, x: seq<T>)
    ensures (a + x)[..|a|] == a && (a + x)[|a|..] == x
  {
  }

  function FromBits(b: seq<bool>): (v: nat)
    ensures v < Pow2(|b|) && ToBits(v, |b|) == b
  {
    if b == [] then 0 else (if b[0] then 1 else 0) + 2 * FromBits(b[1..])
  }

  /** Whole bytes. */
  function ToBytes(b: seq<bool>): (s: seq<byte>)
    requires |b| % 8 == 0
    ensures BytesBits(s) == b
  {
    if b == [] then []
    else
      ByteOfBits(b[..8]);
      assert b == b[..8] + b[8..];
      [FromBits(b[..8])] + ToBytes(b[8..])
  }

  lemma ByteOfBits(b: seq<bool>)
    requires |b| == 8
    ensures FromBits(b) < 256
  {
    PowerTable(8);
  }

  lemma {:induction false} BytesInjective(a: seq<byte>, b: seq<byte>)
    requires BytesBits(a) == BytesBits(b)
    ensures a == b
  {
    if a != [] {
      assert |BytesBits(a)| == 8 * |a| && |BytesBits(b)| == 8 * |b|;
      PowerTable(8);
      SamePrefix(ToBits(a[0], 8), BytesBits(a[1..]), ToBits(b[0], 8), BytesBits(b[1..]));
      BitsInjective(a[0], b[0], 8);
      BytesInjective(a[1..], b[1..]);
      assert a == [a[0]] + a[1..] && b == [b[0]] + b[1..];
    }
  }

  lemma {:induction false} BytesConcat(a: seq<byte>, b: seq<byte>)
    ensures BytesBits(a + b) == BytesBits(a) + BytesBits(b)
  {
    if a == [] {
      assert a + b == b;
    } else {
      assert (a + b)[0] == a[0] && (a + b)[1..] == a[1..] + b;
      BytesConcat(a[1..], b);
      Glue2(ToBits(a[0], 8), BytesBits(a[1..]), BytesBits(b));
    }
  }

  // ---- numbers and symbols ----

  /** The next `n` bits as a number, least significant first. */
  function ReadNumber(n: nat, bits: seq<bool>): (r: Read<nat>)
    ensures r.Got? <==> n <= |bits|
    ensures !r.Got? ==> r == Cut
    ensures r.Got? ==> r.value < Pow2(n) && bits == ToBits(r.value, n) + r.rest
  {
    if |bits| < n then Cut else Got(FromBits(bits[..n]), bits[n..])
  }

  lemma NumberIs(v: nat, n: nat, rest: seq<bool>)
    requires v < Pow2(n)
    ensures ReadNumber(n, ToBits(v, n) + rest) == Got(v, rest)
  {
    hide ToBits, Pow2, FromBits;
    var bits := ToBits(v, n) + rest;
    var r := ReadNumber(n, bits);
    SamePrefix(ToBits(v, n), rest, ToBits(r.value, n), r.rest);
    BitsInjective(v, r.value, n);
  }

  ghost predicate Starts(l: seq<nat>, i: nat, bits: seq<bool>)
  {
    HasCode(l, i) && CodeBits(l, i) <= bits
  }

  /** The symbol whose code comes next. */
  ghost function ReadSymbol(l: seq<nat>, bits: seq<bool>): (r: Read<nat>)
    ensures r.Got? <==> exists i :: Starts(l, i, bits)
    ensures !r.Got? ==> r == if |bits| < MAX_BITS then Cut else Wrong
    ensures r.Got? ==> HasCode(l, r.value) && bits == CodeBits(l, r.value) + r.rest && |r.rest| < |bits|
  {
    if i: nat :| Starts(l, i, bits) then Got(i, bits[l[i]..]) else if |bits| < MAX_BITS then Cut else Wrong
  }

  /** Bits start with the code of symbol `i` exactly when the reversed buffer matches it. */
  lemma CodeStarts(l: seq<nat>, i: nat, x: nat, num: nat, tail: seq<bool>)
    requires Accepted(l) && IsLengths(l) && HasCode(l, i) && x < Pow2(num) && num >= 16
    ensures CodeBits(l, i) <= ToBits(x, num) + tail <==> Matches(l, i, RevBits(x, 16))
  {
    hide Accepted, Code, Pow2, Shr;
    var s := l[i];
    var c := Code(l, i);
    CodeBound(l, i);
    MsbIsReversed(c, s);
    SplitBits(x, s, num - s);
    BitsOfLow(x, s);
    PrefixMatch(x, s, c);
    assert (ToBits(x, num) + tail)[..s] == ToBits(Low(x, s), s);
    if CodeBits(l, i) <= ToBits(x, num) + tail {
      BitsInjective(Low(x, s), RevBits(c, s), s);
    }
  }

  /** No bit string starts with two codes. */
  lemma CodesPrefixFree(l: seq<nat>, i: nat, j: nat, bits: seq<bool>)
    requires Accepted(l) && IsLengths(l) && Starts(l, i, bits) && Starts(l, j, bits)
    ensures i == j
  {
    hide Accepted, CodeBits, ToBits, RevBits, Matches, FromBits;
    var padded := bits + seq(16, _ => false);
    var x, num := FromBits(padded), |padded|;
    assert ToBits(x, num) + [] == padded;
    assert CodeBits(l, i) <= padded && CodeBits(l, j) <= padded;
    CodeStarts(l, i, x, num, []);
    CodeStarts(l, j, x, num, []);
    MatchUnique(l, i, j, RevBits(x, 16));
  }

  lemma SymbolIs(l: seq<nat>, i: nat, rest: seq<bool>)
    requires Accepted(l) && IsLengths(l) && HasCode(l, i)
    ensures ReadSymbol(l, CodeBits(l, i) + rest) == Got(i, rest)
  {
    hide Accepted, CodeBits;
    var bits := CodeBits(l, i) + rest;
    assert Starts(l, i, bits);
    var r := ReadSymbol(l, bits);
    CodesPrefixFree(l, i, r.value, bits);
    SamePrefix(CodeBits(l, i), rest, CodeBits(l, i), r.rest);
  }

  // ---- tokens ----

  /** What follows a length symbol: extra bits, a distance symbol, extra bits. */
  ghost function ReadMatch(dl: seq<nat>, len: nat, bits: seq<bool>): (r: Read<Token>)
    requires len < LENGTH_CODES
    ensures r.Got? ==> |r.rest| <= |bits|
    ensures r.Got? ==> r.value.Match? && r.value.len == len && r.value.dist < DIST_CODES
  {
    var lenExtra := ReadNumber(LengthExtra(len), bits);
    if !lenExtra.Got? then lenExtra.Missed()
    else
      var dist := ReadSymbol(dl, lenExtra.rest);
      if !dist.Got? then dist.Missed()
      else if dist.value >= DIST_CODES then Wrong
      else
        var distExtra := ReadNumber(DistExtra(dist.value), dist.rest);
        if !distExtra.Got? then distExtra.Missed()
        else Got(Match(len, lenExtra.value, dist.value, distExtra.value), distExtra.rest)
  }

  /** The output after the match that follows a length symbol, if it does not reach back too far. */
  ghost function ReadCopy(dl: seq<nat>, len: nat, bits: seq<bool>, out: seq<byte>): (r: Read<seq<byte>>)
    requires len < LENGTH_CODES
    ensures r.Got? ==> |r.rest| <= |bits|
  {
    var t := ReadMatch(dl, len, bits);
    if !t.Got? then t.Missed()
    else if TokenDist(t.value) > |out| then Wrong
    else Got(ExpandToken(out, t.value), t.rest)
  }

  /** The output after the tokens up to the end of the block. */
  ghost function ReadTokens(ll: seq<nat>, dl: seq<nat>, bits: seq<bool>, out: seq<byte>): (r: Read<seq<byte>>)
    ensures r.Got? ==> |r.rest| <= |bits|
    decreases |bits|
  {
    var z := ReadSymbol(ll, bits);
    if !z.Got? then z.Missed()
    else if z.value < 256 then ReadTokens(ll, dl, z.rest, out + [z.value])
    else if z.value == END_OF_BLOCK then Got(out, z.rest)
    else if z.value >= FIRST_LENGTH + LENGTH_CODES then Wrong
    else
      var c := ReadCopy(dl, z.value - FIRST_LENGTH, z.rest, out);
      if !c.Got? then c.Missed() else ReadTokens(ll, dl, c.rest, c.value)
  }

  /** The bits of a match after its length symbol. */
  function MatchBits(dl: seq<nat>, t: Token): seq<bool>
    requires t.Match? && t.len < LENGTH_CODES && t.dist < DIST_CODES && HasCode(dl, t.dist)
  {
    ToBits(t.lenExtra, LengthExtra(t.len)) + (CodeBits(dl, t.dist) + ToBits(t.distExtra, DistExtra(t.dist)))
  }

  lemma MatchIs(dl: seq<nat>, t: Token, rest: seq<bool>)
    requires Accepted(dl) && IsLengths(dl) && t.Match? && t.len < LENGTH_CODES && t.dist < DIST_CODES
    requires HasCode(dl, t.dist) && t.lenExtra < Pow2(LengthExtra(t.len)) && t.distExtra < Pow2(DistExtra(t.dist))
    ensures ReadMatch(dl, t.len, MatchBits(dl, t) + rest) == Got(t, rest)
  {
    hide ToBits, Pow2, CodeBits, ReadNumber, ReadSymbol, Accepted, IsLengths, LengthExtra, DistExtra;
    var a, b, c := ToBits(t.lenExtra, LengthExtra(t.len)), CodeBits(dl, t.dist),
        ToBits(t.distExtra, DistExtra(t.dist));
    Glue2(a, b + c, rest);
    Glue2(b, c, rest);
    NumberIs(t.lenExtra, LengthExtra(t.len), b + (c + rest));
    SymbolIs(dl, t.dist, c + rest);
    NumberIs(t.distExtra, DistExtra(t.dist), rest);
  }

  lemma MatchOf(dl: seq<nat>, len: nat, bits: seq<bool>)
    requires len < LENGTH_CODES && ReadMatch(dl, len, bits).Got?
    ensures var r := ReadMatch(dl, len, bits); var t := r.value;
            && t.Match? && t.len == len && t.dist < DIST_CODES && HasCode(dl, t.dist)
            && t.lenExtra < Pow2(LengthExtra(len)) && t.distExtra < Pow2(DistExtra(t.dist))
            && bits == MatchBits(dl, t) + r.rest
  {
    hide ToBits, Pow2, CodeBits, LengthExtra, DistExtra;
    var r := ReadMatch(dl, len, bits);
    var t := r.value;
    var a, b, c := ToBits(t.lenExtra, LengthExtra(len)), CodeBits(dl, t.dist),
        ToBits(t.distExtra, DistExtra(t.dist));
    Glue2(a, b + c, r.rest);
    Glue2(b, c, r.rest);
  }

  /** The symbol of the length alphabet that a token starts with. */
  function LengthSymbol(t: Token): nat
  {
    match t
    case Literal(b) => b
    case Match(len, _, _, _) => FIRST_LENGTH + len
  }

  function AfterSymbol(dl: seq<nat>, t: Token): seq<bool>
    requires t.Match? ==> t.len < LENGTH_CODES && t.dist < DIST_CODES && HasCode(dl, t.dist)
  {
    if t.Literal? then [] else MatchBits(dl, t)
  }

  lemma TokensStep(ll: seq<nat>, dl: seq<nat>, ts: seq<Token>, outLen: nat, rest: seq<bool>)
    requires HasCode(ll, END_OF_BLOCK) && ValidTokens(ll, dl, ts, outLen) && ts != []
    ensures HasCode(ll, LengthSymbol(ts[0]))
    ensures TokensBits(ll, dl, ts, outLen) + rest
            == CodeBits(ll, LengthSymbol(ts[0]))
               + (AfterSymbol(dl, ts[0]) + (TokensBits(ll, dl, ts[1..], outLen + TokenLen(ts[0])) + rest))
  {
    hide CodeBits, ToBits, Pow2, LengthExtra, DistExtra;
    var t := ts[0];
    var more := TokensBits(ll, dl, ts[1..], outLen + TokenLen(t));
    Glue2(TokenBits(ll, dl, t), more, rest);
    Glue2(CodeBits(ll, LengthSymbol(t)), AfterSymbol(dl, t), more + rest);
    assert TokenBits(ll, dl, t) == CodeBits(ll, LengthSymbol(t)) + AfterSymbol(dl, t);
    assert t.Literal? ==> [] + (more + rest) == more + rest;
  }

  lemma TokenRead(ll: seq<nat>, dl: seq<nat>, t: Token, out: seq<byte>, more: seq<bool>)
    requires Accepted(ll) && IsLengths(ll) && Accepted(dl) && IsLengths(dl)
    requires Writable(ll, dl, t) && TokenDist(t) <= |out|
    ensures ReadTokens(ll, dl, CodeBits(ll, LengthSymbol(t)) + (AfterSymbol(dl, t) + more), out)
            == ReadTokens(ll, dl, more, ExpandToken(out, t))
  {
    hide ToBits, Pow2, CodeBits, Accepted, IsLengths, ReadSymbol, ReadMatch, LengthExtra, DistExtra, ExpandToken;
    hide MatchBits, TokenDist;
    SymbolIs(ll, LengthSymbol(t), AfterSymbol(dl, t) + more);
    match t
    case Literal(b) =>
      assert [] + more == more;
      LiteralStep(ll, dl, CodeBits(ll, b) + more, out);
      LiteralAppends(out, t);
    case Match(len, _, _, _) =>
      MatchIs(dl, t, more);
      CopyStep(ll, dl, CodeBits(ll, FIRST_LENGTH + len) + (MatchBits(dl, t) + more), out);
  }

  lemma LiteralAppends(out: seq<byte>, t: Token)
    requires t.Literal?
    ensures TokenDist(t) == 0 && ExpandToken(out, t) == out + [t.b]
  {
  }

  lemma LiteralStep(ll: seq<nat>, dl: seq<nat>, bits: seq<bool>, out: seq<byte>)
    requires ReadSymbol(ll, bits).Got? && ReadSymbol(ll, bits).value < 256
    ensures ReadTokens(ll, dl, bits, out)
            == ReadTokens(ll, dl, ReadSymbol(ll, bits).rest, out + [ReadSymbol(ll, bits).value])
  {
    hide ReadSymbol, ReadCopy;
  }

  lemma CopyStep(ll: seq<nat>, dl: seq<nat>, bits: seq<bool>, out: seq<byte>)
    requires var z := ReadSymbol(ll, bits); z.Got? && FIRST_LENGTH <= z.value < FIRST_LENGTH + LENGTH_CODES
    ensures var z := ReadSymbol(ll, bits); var c := ReadCopy(dl, z.value - FIRST_LENGTH, z.rest, out);
            ReadTokens(ll, dl, bits, out) == if !c.Got? then c.Missed() else ReadTokens(ll, dl, c.rest, c.value)
  {
    hide ReadSymbol, ReadCopy;
  }

  lemma EndStep(ll: seq<nat>, dl: seq<nat>, bits: seq<bool>, out: seq<byte>)
    requires var z := ReadSymbol(ll, bits); z.Got? && z.value == END_OF_BLOCK
    ensures ReadTokens(ll, dl, bits, out) == Got(out, ReadSymbol(ll, bits).rest)
  {
    hide ReadSymbol, ReadCopy;
  }

  lemma NoStep(ll: seq<nat>, dl: seq<nat>, bits: seq<bool>, out: seq<byte>)
    requires var z := ReadSymbol(ll, bits); z.Got? ==> z.value >= FIRST_LENGTH + LENGTH_CODES
    ensures var z := ReadSymbol(ll, bits);
            ReadTokens(ll, dl, bits, out) == if z.Got? then Wrong else z.Missed()
  {
    hide ReadSymbol, ReadCopy;
  }

  lemma WritableFits(ll: seq<nat>, dl: seq<nat>, t: Token)
    requires Writable(ll, dl, t)
    ensures HasCode(ll, LengthSymbol(t))
    ensures t.Match? ==> t.len < LENGTH_CODES && t.dist < DIST_CODES && HasCode(dl, t.dist)
  {
  }

  /** Tokens that were written are read back as what they expand to. */
  lemma {:induction false} TokensRead(ll: seq<nat>, dl: seq<nat>, ts: seq<Token>, out: seq<byte>, rest: seq<bool>)
    requires Accepted(ll) && IsLengths(ll) && Accepted(dl) && IsLengths(dl)
    requires HasCode(ll, END_OF_BLOCK) && ValidTokens(ll, dl, ts, |out|)
    ensures ReadTokens(ll, dl, TokensBits(ll, dl, ts, |out|) + rest, out) == Got(Expand(ll, dl, out, ts), rest)
    decreases |ts|
  {
    hide CodeBits, Accepted, IsLengths, ReadSymbol, ReadTokens, Writable, ExpandToken, TokenDist, AfterSymbol;
    hide TokenBits, TokenLen;
    if ts == [] {
      SymbolIs(ll, END_OF_BLOCK, rest);
      EndStep(ll, dl, TokensBits(ll, dl, ts, |out|) + rest, out);
    } else {
      var t := ts[0];
      WritableFits(ll, dl, t);
      TokensStep(ll, dl, ts, |out|, rest);
      ExpandTokenLen(ll, dl, out, t);
      TokenRead(ll, dl, t, out, TokensBits(ll, dl, ts[1..], |out| + TokenLen(t)) + rest);
      TokensRead(ll, dl, ts[1..], ExpandToken(out, t), rest);
    }
  }

  /** The token that reading starts with, when it does not start with the end of the block. */
  lemma TokenOf(ll: seq<nat>, dl: seq<nat>, bits: seq<bool>, out: seq<byte>) returns (t: Token, more: seq<bool>)
    requires ReadTokens(ll, dl, bits, out).Got? && ReadSymbol(ll, bits).value != END_OF_BLOCK
    ensures Writable(ll, dl, t) && TokenDist(t) <= |out|
    ensures bits == CodeBits(ll, LengthSymbol(t)) + (AfterSymbol(dl, t) + more) && |more| < |bits|
    ensures ReadTokens(ll, dl, bits, out) == ReadTokens(ll, dl, more, ExpandToken(out, t))
  {
    hide ToBits, Pow2, CodeBits, ReadMatch, LengthExtra, DistExtra, ExpandToken, MatchBits, TokenDist, ReadTokens;
    var z := ReadSymbol(ll, bits);
    if !z.Got? || z.value >= FIRST_LENGTH + LENGTH_CODES { NoStep(ll, dl, bits, out); }
    if z.value < 256 {
      LiteralStep(ll, dl, bits, out);
      t, more := Literal(z.value), z.rest;
      LiteralAppends(out, t);
      assert [] + more == more;
    } else {
      CopyStep(ll, dl, bits, out);
      var m := ReadMatch(dl, z.value - FIRST_LENGTH, z.rest);
      t, more := m.value, m.rest;
      MatchOf(dl, z.value - FIRST_LENGTH, z.rest);
    }
  }

  /** Whatever is read as tokens was written as tokens. */
  lemma {:induction false} TokensOf(ll: seq<nat>, dl: seq<nat>, bits: seq<bool>, out: seq<byte>)
      returns (ts: seq<Token>)
    requires ReadTokens(ll, dl, bits, out).Got?
    ensures HasCode(ll, END_OF_BLOCK) && ValidTokens(ll, dl, ts, |out|)
    ensures var r := ReadTokens(ll, dl, bits, out);
            bits == TokensBits(ll, dl, ts, |out|) + r.rest && r.value == Expand(ll, dl, out, ts)
    decreases |bits|
  {
    hide CodeBits, Writable, ExpandToken, TokenDist, AfterSymbol, ReadTokens;
    hide TokenBits, TokenLen;
    var r := ReadTokens(ll, dl, bits, out);
    NotEmpty(ll, dl, bits, out);
    if ReadSymbol(ll, bits).value == END_OF_BLOCK {
      EndStep(ll, dl, bits, out);
      return [];
    }
    var t, more := TokenOf(ll, dl, bits, out);
    WritableFits(ll, dl, t);
    var ts' := TokensOf(ll, dl, more, ExpandToken(out, t));
    ExpandTokenLen(ll, dl, out, t);
    ts := [t] + ts';
    assert ts[1..] == ts';
    TokensStep(ll, dl, ts, |out|, r.rest);
  }

  lemma NotEmpty(ll: seq<nat>, dl: seq<nat>, bits: seq<bool>, out: seq<byte>)
    requires ReadTokens(ll, dl, bits, out).Got?
    ensures ReadSymbol(ll, bits).Got?
  {
    if !ReadSymbol(ll, bits).Got? { NoStep(ll, dl, bits, out); }
  }

  // ---- the lengths of the code length code ----

  /** Where a symbol stands in sending order. */
  function Zigzag(k: nat): (j: nat)
    requires k < CL_SYMBOLS
    ensures j < CL_SYMBOLS
  {
    [3, 17, 15, 13, 11, 9, 7, 5, 4, 6, 8, 10, 12, 14, 16, 18, 0, 1, 2][k]
  }

  lemma ZigzagInverts(k: nat)
    requires k < CL_SYMBOLS
    ensures Dezigzag(Zigzag(k)) == k && Zigzag(Dezigzag(k)) == k
  {
    FirstPlaces(k);
    LastPlaces(k);
  }

  lemma FirstPlaces(k: nat)
    ensures k < 10 ==> Dezigzag(Zigzag(k)) == k && Zigzag(Dezigzag(k)) == k
  {
  }

  lemma LastPlaces(k: nat)
    ensures 10 <= k < CL_SYMBOLS ==> Dezigzag(Zigzag(k)) == k && Zigzag(Dezigzag(k)) == k
  {
  }

  /** Lengths `j` to `n - 1`, in the order they are sent, put into `cl` in symbol order. */
  function ReadCl(bits: seq<bool>, j: nat, n: nat, cl: seq<nat>): (r: Read<seq<nat>>)
    requires |cl| == CL_SYMBOLS && j <= n <= CL_SYMBOLS && forall k :: 0 <= k < CL_SYMBOLS ==> cl[k] < 8
    ensures r.Got? ==> |r.rest| <= |bits| && |r.value| == CL_SYMBOLS
    ensures r.Got? ==> forall k :: 0 <= k < CL_SYMBOLS ==> r.value[k] < 8
    decreases n - j
  {
    if j == n then Got(cl, bits)
    else
      var x := ReadNumber(3, bits);
      PowerTable(3);
      if !x.Got? then x.Missed() else ReadCl(x.rest, j + 1, n, cl[Dezigzag(j) := x.value])
  }

  /** Two lists differ at most in the symbols sent from place `j` to place `n - 1`. */
  ghost predicate SameUnsent(a: seq<nat>, b: seq<nat>, j: nat, n: nat)
  {
    && |a| == |b| == CL_SYMBOLS
    && forall k {:trigger a[k]} {:trigger b[k]} :: 0 <= k < CL_SYMBOLS && !(j <= Zigzag(k) < n) ==> a[k] == b[k]
  }

  lemma SentNext(a: seq<nat>, b: seq<nat>, j: nat, n: nat, x: nat)
    requires j < n <= CL_SYMBOLS && |a| == CL_SYMBOLS
    ensures SameUnsent(a[Dezigzag(j) := x], b, j + 1, n)
            <==> SameUnsent(a, b, j, n) && |b| == CL_SYMBOLS && b[Dezigzag(j)] == x
  {
    hide Dezigzag, Zigzag;
    forall k: nat | k < CL_SYMBOLS ensures Dezigzag(Zigzag(k)) == k && Zigzag(Dezigzag(k)) == k { ZigzagInverts(k); }
    var a' := a[Dezigzag(j) := x];
    assert forall k :: 0 <= k < CL_SYMBOLS && k != Dezigzag(j) ==> a'[k] == a[k];
    if SameUnsent(a', b, j + 1, n) {
      assert a'[Dezigzag(j)] == x;
    }
  }

  lemma ClBitsStep(cl: seq<nat>, j: nat, n: nat, rest: seq<bool>)
    requires |cl| == CL_SYMBOLS && j < n <= CL_SYMBOLS
    ensures ClBits(cl, j, n) + rest == ToBits(cl[Dezigzag(j)], 3) + (ClBits(cl, j + 1, n) + rest)
  {
    hide ToBits, Dezigzag;
  }

  lemma {:induction false} ClRead(cl: seq<nat>, j: nat, n: nat, acc: seq<nat>, rest: seq<bool>)
    requires j <= n <= CL_SYMBOLS && SameUnsent(acc, cl, j, n)
    requires forall k :: 0 <= k < CL_SYMBOLS ==> acc[k] < 8 && cl[k] < 8
    ensures ReadCl(ClBits(cl, j, n) + rest, j, n, acc) == Got(cl, rest)
    decreases n - j
  {
    hide ToBits, Dezigzag, Zigzag, ReadNumber;
    if j == n {
      assert acc == cl;
    } else {
      PowerTable(3);
      ClBitsStep(cl, j, n, rest);
      NumberIs(cl[Dezigzag(j)], 3, ClBits(cl, j + 1, n) + rest);
      SentNext(acc, cl, j, n, cl[Dezigzag(j)]);
      ClRead(cl, j + 1, n, acc[Dezigzag(j) := cl[Dezigzag(j)]], rest);
    }
  }

  lemma {:induction false} ClOf(bits: seq<bool>, j: nat, n: nat, acc: seq<nat>)
    requires |acc| == CL_SYMBOLS && j <= n <= CL_SYMBOLS && forall k :: 0 <= k < CL_SYMBOLS ==> acc[k] < 8
    requires ReadCl(bits, j, n, acc).Got?
    ensures var r := ReadCl(bits, j, n, acc); SameUnsent(acc, r.value, j, n) && bits == ClBits(r.value, j, n) + r.rest
    decreases n - j
  {
    hide ToBits, Dezigzag, Zigzag;
    if j < n {
      PowerTable(3);
      var x := ReadNumber(3, bits);
      var r := ReadCl(bits, j, n, acc);
      ClOf(x.rest, j + 1, n, acc[Dezigzag(j) := x.value]);
      SentNext(acc, r.value, j, n, x.value);
      ClBitsStep(r.value, j, n, r.rest);
    }
  }

  // ---- the code lengths ----

  /** A code length token after its symbol. */
  function ReadRun(c: nat, bits: seq<bool>): (r: Read<LenToken>)
    requires c < CL_SYMBOLS
    ensures r.Got? ==> |r.rest| <= |bits| && LenSymbol(r.value) == c && (r.value.Plain? ==> c <= MAX_BITS)
    ensures r.Got? ==> LenExtra(r.value) < Pow2(LenExtraBits(r.value))
    ensures r.Got? ==> bits == ToBits(LenExtra(r.value), LenExtraBits(r.value)) + r.rest
  {
    if c < 16 then Got(Plain(c), bits)
    else
      var extra := ReadNumber(if c == 16 then 2 else if c == 17 then 3 else 7, bits);
      if !extra.Got? then extra.Missed()
      else if c == 16 then Got(Repeat(extra.value), extra.rest)
      else if c == 17 then Got(Zeros(extra.value), extra.rest)
      else Got(ManyZeros(extra.value), extra.rest)
  }

  lemma RunIs(t: LenToken, rest: seq<bool>)
    requires LenExtra(t) < Pow2(LenExtraBits(t)) && (t.Plain? ==> t.len <= MAX_BITS)
    ensures ReadRun(LenSymbol(t), ToBits(LenExtra(t), LenExtraBits(t)) + rest) == Got(t, rest)
  {
    hide ToBits, Pow2, ReadNumber;
    if t.Plain? {
      NoBits(rest);
    } else {
      NumberIs(LenExtra(t), LenExtraBits(t), rest);
    }
  }

  lemma NoBits(rest: seq<bool>)
    ensures ToBits(0, 0) + rest == rest
  {
  }

  predicate Short(l: seq<nat>)
  {
    forall i :: 0 <= i < |l| ==> l[i] <= MAX_BITS
  }

  /** The lengths after `lens` up to `total`, runs expanded. */
  ghost function ReadLens(cl: seq<nat>, bits: seq<bool>, lens: seq<nat>, total: nat): (r: Read<seq<nat>>)
    requires |cl| == CL_SYMBOLS && |lens| <= total && Short(lens)
    ensures r.Got? ==> |r.rest| <= |bits| && |r.value| == total && Short(r.value)
    decreases |bits|
  {
    if |lens| == total then Got(lens, bits)
    else
      var c := ReadSymbol(cl, bits);
      if !c.Got? then c.Missed()
      else
        var t := ReadRun(c.value, c.rest);
        if !t.Got? then t.Missed()
        else if (t.value.Repeat? && lens == []) || |lens| + LenCount(t.value) > total then Wrong
        else ReadLens(cl, t.rest, LenAppend(lens, t.value), total)
  }

  lemma LenTokensStep(cl: seq<nat>, ts: seq<LenToken>, n: nat, total: nat, rest: seq<bool>)
    requires ValidLenTokens(cl, ts, n, total) && ts != []
    ensures LenTokensBits(cl, ts, n, total) + rest
            == CodeBits(cl, LenSymbol(ts[0])) + (ToBits(LenExtra(ts[0]), LenExtraBits(ts[0]))
               + (LenTokensBits(cl, ts[1..], n + LenCount(ts[0]), total) + rest))
  {
    hide ToBits, CodeBits;
    var a, b, c := CodeBits(cl, LenSymbol(ts[0])), ToBits(LenExtra(ts[0]), LenExtraBits(ts[0])),
        LenTokensBits(cl, ts[1..], n + LenCount(ts[0]), total);
    Glue2(a, b + c, rest);
    Glue2(b, c, rest);
  }

  lemma {:induction false} LensRead(cl: seq<nat>, ts: seq<LenToken>, lens: seq<nat>, total: nat, rest: seq<bool>)
    requires |cl| == CL_SYMBOLS && Accepted(cl) && IsLengths(cl) && Short(lens) && |lens| <= total
    requires ValidLenTokens(cl, ts, |lens|, total)
    ensures ReadLens(cl, LenTokensBits(cl, ts, |lens|, total) + rest, lens, total)
            == Got(LenExpand(cl, lens, ts, total), rest)
    decreases |ts|
  {
    hide ToBits, Pow2, CodeBits, Accepted, IsLengths, ReadSymbol, ReadRun, LenExtra, LenExtraBits, LenSymbol;
    if ts == [] {
      assert [] + rest == rest;
    } else {
      var t := ts[0];
      var more := LenTokensBits(cl, ts[1..], |lens| + LenCount(t), total) + rest;
      LenTokensStep(cl, ts, |lens|, total, rest);
      SymbolIs(cl, LenSymbol(t), ToBits(LenExtra(t), LenExtraBits(t)) + more);
      RunIs(t, more);
      LensRead(cl, ts[1..], LenAppend(lens, t), total, rest);
    }
  }

  lemma {:induction false} LensOf(cl: seq<nat>, bits: seq<bool>, lens: seq<nat>, total: nat) returns (ts: seq<LenToken>)
    requires |cl| == CL_SYMBOLS && |lens| <= total && Short(lens) && ReadLens(cl, bits, lens, total).Got?
    ensures ValidLenTokens(cl, ts, |lens|, total)
    ensures var r := ReadLens(cl, bits, lens, total);
            bits == LenTokensBits(cl, ts, |lens|, total) + r.rest && r.value == LenExpand(cl, lens, ts, total)
    decreases |bits|
  {
    hide ToBits, Pow2, CodeBits, ReadRun, LenExtra, LenExtraBits;
    var r := ReadLens(cl, bits, lens, total);
    if |lens| == total {
      assert [] + bits == bits;
      return [];
    }
    var c := ReadSymbol(cl, bits);
    var t := ReadRun(c.value, c.rest);
    var ts' := LensOf(cl, t.rest, LenAppend(lens, t.value), total);
    ts := [t.value] + ts';
    assert ts[1..] == ts';
    LenTokensStep(cl, ts, |lens|, total, r.rest);
  }

  // ---- the header of a dynamic block ----

  /** The three counts that open a dynamic block. */
  datatype Counts = Counts(hlit: nat, hdist: nat, hclen: nat)

  function ReadCounts(bits: seq<bool>): (r: Read<Counts>)
    ensures r.Got? ==> |r.rest| <= |bits| && r.value.hlit < 32 && r.value.hdist < 32 && r.value.hclen < 16
  {
    PowerTable(5);
    PowerTable(4);
    var hlit := ReadNumber(5, bits);
    if !hlit.Got? then hlit.Missed()
    else
      var hdist := ReadNumber(5, hlit.rest);
      if !hdist.Got? then hdist.Missed()
      else
        var hclen := ReadNumber(4, hdist.rest);
        if !hclen.Got? then hclen.Missed() else Got(Counts(hlit.value, hdist.value, hclen.value), hclen.rest)
  }

  function CountsBits(c: Counts): seq<bool>
  {
    ToBits(c.hlit, 5) + (ToBits(c.hdist, 5) + ToBits(c.hclen, 4))
  }

  lemma CountsAre(c: Counts, rest: seq<bool>)
    requires c.hlit < 32 && c.hdist < 32 && c.hclen < 16
    ensures ReadCounts(CountsBits(c) + rest) == Got(c, rest)
  {
    hide ToBits, ReadNumber, Pow2;
    PowerTable(5);
    PowerTable(4);
    var x, y, z := ToBits(c.hlit, 5), ToBits(c.hdist, 5), ToBits(c.hclen, 4);
    Glue2(x, y + z, rest);
    Glue2(y, z, rest);
    NumberIs(c.hlit, 5, y + (z + rest));
    NumberIs(c.hdist, 5, z + rest);
    NumberIs(c.hclen, 4, rest);
  }

  lemma CountsOf(bits: seq<bool>)
    requires ReadCounts(bits).Got?
    ensures bits == CountsBits(ReadCounts(bits).value) + ReadCounts(bits).rest
  {
    hide ToBits;
    var r := ReadCounts(bits);
    var x, y, z := ToBits(r.value.hlit, 5), ToBits(r.value.hdist, 5), ToBits(r.value.hclen, 4);
    Glue2(x, y + z, r.rest);
    Glue2(y, z, r.rest);
  }

  /** The code lengths of both alphabets. */
  datatype Codes = Codes(lits: seq<nat>, dists: seq<nat>)

  ghost predicate Usable(c: Codes)
  {
    IsLengths(c.lits) && IsLengths(c.dists) && Accepted(c.lits) && Accepted(c.dists)
  }

  function NoLengths(): (cl: seq<nat>)
    ensures |cl| == CL_SYMBOLS && forall k :: 0 <= k < CL_SYMBOLS ==> cl[k] == 0
  {
    seq(CL_SYMBOLS, _ => 0)
  }

  /** All lengths, sent under a code of their own. */
  ghost function ReadAllLens(n: Counts, bits: seq<bool>): (r: Read<seq<nat>>)
    requires n.hclen < 16
    ensures r.Got? ==> |r.rest| <= |bits| && |r.value| == n.hlit + 257 + n.hdist + 1 && Short(r.value)
  {
    var cl := ReadCl(bits, 0, n.hclen + 4, NoLengths());
    if !cl.Got? then cl.Missed()
    else if !Accepted(cl.value) then Wrong
    else ReadLens(cl.value, cl.rest, [], n.hlit + 257 + n.hdist + 1)
  }

  ghost function ReadHeader(bits: seq<bool>): (r: Read<Codes>)
    ensures r.Got? ==> |r.rest| <= |bits| && Usable(r.value)
  {
    var n := ReadCounts(bits);
    if !n.Got? then n.Missed()
    else
      var lens := ReadAllLens(n.value, n.rest);
      if !lens.Got? then lens.Missed()
      else
        var codes := Codes(lens.value[..n.value.hlit + 257], lens.value[n.value.hlit + 257..]);
        if Accepted(codes.lits) && Accepted(codes.dists) then Got(codes, lens.rest) else Wrong
  }

  ghost function LensBits(h: Header): seq<bool>
    requires ValidCodeLengths(h)
  {
    ClBits(h.cl, 0, h.hclen + 4) + LenTokensBits(h.cl, h.ts, 0, Total(h))
  }

  lemma HeaderParts(h: Header, rest: seq<bool>)
    requires ValidCodeLengths(h)
    ensures HeaderBits(h) + rest == CountsBits(Counts(h.hlit, h.hdist, h.hclen)) + (LensBits(h) + rest)
  {
    hide ToBits, ClBits, LenTokensBits;
    var x, y, z := ToBits(h.hlit, 5), ToBits(h.hdist, 5), ToBits(h.hclen, 4);
    Glue2(x, y + z, LensBits(h));
    Glue2(y, z, LensBits(h));
    Glue2(CountsBits(Counts(h.hlit, h.hdist, h.hclen)), LensBits(h), rest);
  }

  lemma AllLensRead(h: Header, rest: seq<bool>)
    requires ValidCodeLengths(h)
    ensures ReadAllLens(Counts(h.hlit, h.hdist, h.hclen), LensBits(h) + rest)
            == Got(LenExpand(h.cl, [], h.ts, Total(h)), rest)
  {
    hide ClBits, LenTokensBits, ReadCl, ReadLens, Dezigzag, Zigzag, Accepted, ValidLenTokens, LenExpand;
    forall k: nat | k < CL_SYMBOLS ensures Dezigzag(Zigzag(k)) == k { ZigzagInverts(k); }
    var more := LenTokensBits(h.cl, h.ts, 0, Total(h)) + rest;
    Glue2(ClBits(h.cl, 0, h.hclen + 4), LenTokensBits(h.cl, h.ts, 0, Total(h)), rest);
    ClRead(h.cl, 0, h.hclen + 4, NoLengths(), more);
    LensRead(h.cl, h.ts, [], Total(h), rest);
  }

  lemma AllLensOf(n: Counts, bits: seq<bool>) returns (h: Header)
    requires n.hlit < 32 && n.hdist < 32 && n.hclen < 16 && ReadAllLens(n, bits).Got?
    ensures ValidCodeLengths(h) && n == Counts(h.hlit, h.hdist, h.hclen)
    ensures var r := ReadAllLens(n, bits);
            bits == LensBits(h) + r.rest && r.value == LenExpand(h.cl, [], h.ts, Total(h))
  {
    hide ClBits, LenTokensBits, Dezigzag, Zigzag, Accepted, LenExpand, ValidLenTokens, ReadCl, ReadLens;
    forall k: nat | k < CL_SYMBOLS ensures Zigzag(Dezigzag(k)) == k { ZigzagInverts(k); }
    var cl := ReadCl(bits, 0, n.hclen + 4, NoLengths());
    ClOf(bits, 0, n.hclen + 4, NoLengths());
    var total := n.hlit + 257 + n.hdist + 1;
    var ts := LensOf(cl.value, cl.rest, [], total);
    h := Header(n.hlit, n.hdist, n.hclen, cl.value, ts);
    Glue2(ClBits(h.cl, 0, h.hclen + 4), LenTokensBits(h.cl, h.ts, 0, total), ReadAllLens(n, bits).rest);
  }

  lemma HeaderRead(h: Header, rest: seq<bool>)
    requires ValidCodeLengths(h) && Accepted(LitLengths(h)) && Accepted(DistLengths(h))
    ensures ReadHeader(HeaderBits(h) + rest) == Got(Codes(LitLengths(h), DistLengths(h)), rest)
  {
    hide ReadAllLens, ReadCounts, HeaderBits, LensBits, CountsBits, Accepted, LenExpand, ValidCodeLengths;
    HeaderParts(h, rest);
    HeaderCounts(h);
    CountsAre(Counts(h.hlit, h.hdist, h.hclen), LensBits(h) + rest);
    AllLensRead(h, rest);
  }

  lemma HeaderCounts(h: Header)
    requires ValidCodeLengths(h)
    ensures h.hlit < 32 && h.hdist < 32 && h.hclen < 16
  {
  }

  lemma HeaderOf(bits: seq<bool>) returns (h: Header)
    requires ReadHeader(bits).Got?
    ensures ValidCodeLengths(h) && Accepted(LitLengths(h)) && Accepted(DistLengths(h))
    ensures var r := ReadHeader(bits);
            bits == HeaderBits(h) + r.rest && r.value == Codes(LitLengths(h), DistLengths(h))
  {
    hide ReadAllLens, ReadCounts, HeaderBits, LensBits, CountsBits, Accepted, LenExpand, ValidCodeLengths;
    var n := ReadCounts(bits);
    CountsOf(bits);
    h := AllLensOf(n.value, n.rest);
    HeaderParts(h, ReadHeader(bits).rest);
  }

  // ---- stored blocks ----

  /** The padding up to whole bytes, then the length, its complement and the bytes. */
  function ReadStored(bits: seq<bool>, out: seq<byte>): (r: Read<seq<byte>>)
    ensures r.Got? ==> |r.rest| <= |bits|
  {
    var s := ToBytes(bits[|bits| % 8..]);
    if |s| < 4 then Cut
    else if Le16(s, 2) != 0xFFFF - Le16(s, 0) then Wrong
    else if |s| < 4 + Le16(s, 0) then Cut
    else Got(out + s[4..4 + Le16(s, 0)], BytesBits(s[4 + Le16(s, 0)..]))
  }

  /** The bytes of a stored block by its parts. */
  lemma StoredParts(data: seq<byte>, more: seq<byte>)
    requires |data| < 0x1_0000
    ensures var s := StoredBytes(data) + more;
            && |s| == 4 + |data| + |more| && Le16(s, 0) == |data| && Le16(s, 2) == 0xFFFF - |data|
            && s[4..4 + |data|] == data && s[4 + |data|..] == more
  {
  }

  lemma StoredBytesOf(s: seq<byte>)
    requires |s| >= 4 && Le16(s, 2) == 0xFFFF - Le16(s, 0) && |s| >= 4 + Le16(s, 0)
    ensures Le16(s, 0) < 0x1_0000 && s == StoredBytes(s[4..4 + Le16(s, 0)]) + s[4 + Le16(s, 0)..]
  {
    hide Bytes16;
    var data := s[4..4 + Le16(s, 0)];
    Bytes16Of(s[0], s[1]);
    Bytes16Of(s[2], s[3]);
    assert s == [s[0], s[1]] + [s[2], s[3]] + data + s[4 + Le16(s, 0)..];
  }

  lemma Bytes16Of(a: byte, b: byte)
    ensures var v: nat := a + 256 * b; v < 0x1_0000 && Bytes16(v) == [a, b]
  {
  }

  lemma StoredRead(pad: seq<bool>, data: seq<byte>, out: seq<byte>, rest: seq<bool>)
    requires |pad| < 8 && |data| < 0x1_0000 && |rest| % 8 == 0
    ensures ReadStored(pad + (BytesBits(StoredBytes(data)) + rest), out) == Got(out + data, rest)
  {
    hide BytesBits, StoredBytes, ToBytes, Le16;
    var bits := pad + (BytesBits(StoredBytes(data)) + rest);
    PadIs(|pad|, |StoredBytes(data)|, |rest|);
    Halves(pad, BytesBits(StoredBytes(data)) + rest);
    var more := ToBytes(rest);
    BytesConcat(StoredBytes(data), more);
    BytesInjective(ToBytes(bits[|bits| % 8..]), StoredBytes(data) + more);
    StoredParts(data, more);
  }

  lemma PadIs(pad: nat, bytes: nat, rest: nat)
    requires pad < 8 && rest % 8 == 0
    ensures (pad + (8 * bytes + rest)) % 8 == pad
  {
  }

  lemma StoredOf(bits: seq<bool>, out: seq<byte>) returns (pad: seq<bool>, data: seq<byte>)
    requires ReadStored(bits, out).Got?
    ensures |pad| < 8 && |data| < 0x1_0000
    ensures var r := ReadStored(bits, out);
            bits == pad + (BytesBits(StoredBytes(data)) + r.rest) && r.value == out + data && |r.rest| % 8 == 0
  {
    hide BytesBits, StoredBytes, ToBytes, Le16;
    pad := bits[..|bits| % 8];
    var s := ToBytes(bits[|bits| % 8..]);
    data := s[4..4 + Le16(s, 0)];
    StoredBytesOf(s);
    BytesConcat(StoredBytes(data), s[4 + Le16(s, 0)..]);
    assert bits == pad + bits[|bits| % 8..];
  }

  // ---- blocks and streams ----

  /** The block type field. */
  function BodyType(b: Body): nat
  {
    match b
    case Stored(_, _) => 0
    case Fixed(_) => 1
    case Dynamic(_, _) => 2
  }

  /** The output after a block of type `kind`. */
  ghost function ReadBody(kind: nat, bits: seq<bool>, out: seq<byte>): (r: Read<seq<byte>>)
    ensures r.Got? ==> |r.rest| <= |bits|
  {
    if kind == 0 then ReadStored(bits, out)
    else if kind == 1 then ReadTokens(FixedLengths(), FixedDistances(), bits, out)
    else if kind == 2 then
      var h := ReadHeader(bits);
      if !h.Got? then h.Missed() else ReadTokens(h.value.lits, h.value.dists, h.rest, out)
    else Wrong
  }

  /** The output after the blocks up to the final one. */
  ghost function ReadStream(bits: seq<bool>, out: seq<byte>): (r: Read<seq<byte>>)
    ensures r.Got? ==> |r.rest| <= |bits|
    decreases |bits|
  {
    var fin := ReadNumber(1, bits);
    if !fin.Got? then fin.Missed()
    else
      assert |fin.rest| < |bits|;
      var kind := ReadNumber(2, fin.rest);
      if !kind.Got? then kind.Missed()
      else
        var b := ReadBody(kind.value, kind.rest, out);
        if !b.Got? || fin.value != 0 then b else ReadStream(b.rest, b.value)
  }

  /** The bits of a block after its type field. */
  ghost function BodyRest(b: Body, outLen: nat): seq<bool>
    requires ValidBody(b, outLen)
  {
    FixedCodes();
    match b
    case Stored(pad, data) => pad + BytesBits(StoredBytes(data))
    case Fixed(ts) => TokensBits(FixedLengths(), FixedDistances(), ts, outLen)
    case Dynamic(h, ts) => HeaderBits(h) + TokensBits(LitLengths(h), DistLengths(h), ts, outLen)
  }

  lemma BodyRead(b: Body, out: seq<byte>, rest: seq<bool>)
    requires ValidBody(b, |out|) && (b.Stored? ==> |rest| % 8 == 0)
    ensures ReadBody(BodyType(b), BodyRest(b, |out|) + rest, out) == Got(BodyExpand(out, b), rest)
  {
    hide ReadStored, ReadTokens, ReadHeader, TokensBits, HeaderBits, BytesBits, StoredBytes, Accepted, IsLengths;
    hide FixedLengths, FixedDistances, LitLengths, DistLengths, ValidTokens, Expand;
    FixedCodes();
    match b
    case Stored(pad, data) =>
      Glue2(pad, BytesBits(StoredBytes(data)), rest);
      StoredRead(pad, data, out, rest);
    case Fixed(ts) =>
      TokensRead(FixedLengths(), FixedDistances(), ts, out, rest);
    case Dynamic(h, ts) =>
      var tokens := TokensBits(LitLengths(h), DistLengths(h), ts, |out|);
      Glue2(HeaderBits(h), tokens, rest);
      HeaderRead(h, tokens + rest);
      TokensRead(LitLengths(h), DistLengths(h), ts, out, rest);
  }

  lemma BodyOf(kind: nat, bits: seq<bool>, out: seq<byte>) returns (b: Body)
    requires ReadBody(kind, bits, out).Got?
    ensures ValidBody(b, |out|) && BodyType(b) == kind
    ensures var r := ReadBody(kind, bits, out);
            && bits == BodyRest(b, |out|) + r.rest && r.value == BodyExpand(out, b)
            && (b.Stored? ==> |r.rest| % 8 == 0)
  {
    hide ReadStored, ReadTokens, ReadHeader, TokensBits, HeaderBits, BytesBits, StoredBytes, Accepted, IsLengths;
    hide FixedLengths, FixedDistances, LitLengths, DistLengths, ValidTokens, Expand, ValidCodeLengths;
    FixedCodes();
    var rest := ReadBody(kind, bits, out).rest;
    if kind == 0 {
      var pad, data := StoredOf(bits, out);
      Glue2(pad, BytesBits(StoredBytes(data)), rest);
      b := Stored(pad, data);
    } else if kind == 1 {
      var ts := TokensOf(FixedLengths(), FixedDistances(), bits, out);
      b := Fixed(ts);
    } else {
      var h := HeaderOf(bits);
      var ts := TokensOf(LitLengths(h), DistLengths(h), ReadHeader(bits).rest, out);
      Glue2(HeaderBits(h), TokensBits(LitLengths(h), DistLengths(h), ts, |out|), rest);
      b := Dynamic(h, ts);
    }
  }

  function Flag(last: bool): nat { if last then 1 else 0 }

  lemma StreamStep(bs: seq<Body>, out: seq<byte>, rest: seq<bool>)
    requires bs != [] && ValidStream(bs, out)
    ensures var more := StreamBits(bs[1..], BodyExpand(out, bs[0])) + rest;
            StreamBits(bs, out) + rest
            == ToBits(Flag(|bs| == 1), 1) + (ToBits(BodyType(bs[0]), 2) + (BodyRest(bs[0], |out|) + more))
  {
    hide ToBits, BodyExpand, ValidBody, BodyBits, BodyRest;
    var a, b, c := ToBits(Flag(|bs| == 1), 1), BodyBits(bs[0], |out|), StreamBits(bs[1..], BodyExpand(out, bs[0]));
    Glue2(a, b + c, rest);
    Glue2(b, c, rest);
    BodyParts(bs[0], |out|);
    Glue2(ToBits(BodyType(bs[0]), 2), BodyRest(bs[0], |out|), c + rest);
  }

  lemma BodyParts(b: Body, outLen: nat)
    requires ValidBody(b, outLen)
    ensures BodyBits(b, outLen) == ToBits(BodyType(b), 2) + BodyRest(b, outLen)
  {
    hide ToBits, TokensBits, HeaderBits, BytesBits, StoredBytes, FixedLengths, FixedDistances, LitLengths, DistLengths;
    hide ValidTokens;
  }

  /** One block behind its flag and type. */
  lemma BlockStep(bits: seq<bool>, last: bool, kind: nat, more: seq<bool>, out: seq<byte>)
    requires kind < 4 && bits == ToBits(Flag(last), 1) + (ToBits(kind, 2) + more)
    ensures var b := ReadBody(kind, more, out);
            ReadStream(bits, out) == if !b.Got? || last then b else ReadStream(b.rest, b.value)
  {
    hide ToBits, ReadBody, ReadNumber;
    PowerTable(1);
    PowerTable(2);
    NumberIs(Flag(last), 1, ToBits(kind, 2) + more);
    NumberIs(kind, 2, more);
  }

  /** A stream that was written is read back as what it expands to. */
  lemma {:induction false} StreamRead(bs: seq<Body>, out: seq<byte>, rest: seq<bool>)
    requires bs != [] && ValidStream(bs, out) && Aligned(bs, out, |rest|)
    ensures ReadStream(StreamBits(bs, out) + rest, out) == Got(StreamExpand(out, bs), rest)
    decreases |bs|
  {
    hide ToBits, BodyExpand, ValidBody, BodyBits, BodyRest, ReadBody, ReadStream;
    var out' := BodyExpand(out, bs[0]);
    var more := StreamBits(bs[1..], out') + rest;
    StreamStep(bs, out, rest);
    BlockStep(StreamBits(bs, out) + rest, |bs| == 1, BodyType(bs[0]), BodyRest(bs[0], |out|) + more, out);
    BodyRead(bs[0], out, more);
    if |bs| == 1 {
      assert bs[1..] == [] && [] + rest == rest;
    } else {
      StreamRead(bs[1..], out', rest);
    }
  }

  /** Whatever is read as a stream was written as a stream. */
  lemma {:induction false} StreamOf(bits: seq<bool>, out: seq<byte>) returns (bs: seq<Body>)
    requires ReadStream(bits, out).Got?
    ensures bs != [] && ValidStream(bs, out)
    ensures var r := ReadStream(bits, out);
            && Aligned(bs, out, |r.rest|)
            && bits == StreamBits(bs, out) + r.rest && r.value == StreamExpand(out, bs)
    decreases |bits|
  {
    hide ToBits, BodyExpand, ValidBody, BodyBits, BodyRest, ReadBody;
    var fin := ReadNumber(1, bits);
    assert |fin.rest| < |bits|;
    var kind := ReadNumber(2, fin.rest);
    var b := BodyOf(kind.value, kind.rest, out);
    var r := ReadStream(bits, out);
    var more := ReadBody(kind.value, kind.rest, out).rest;
    if fin.value != 0 {
      PowerTable(1);
      bs := [b];
      assert [] + r.rest == r.rest;
    } else {
      var bs' := StreamOf(more, BodyExpand(out, b));
      bs := [b] + bs';
      assert bs[1..] == bs';
    }
    StreamStep(bs, out, r.rest);
  }

  /** Some stream of blocks is written in `bits` up to `rest`, and it expands to `out`. */
  ghost predicate Inflates(bits: seq<bool>, out: seq<byte>, rest: seq<bool>)
  {
    exists bs :: WrittenIn(bs, bits, rest) && out == StreamExpand([], bs)
  }

  ghost predicate WrittenIn(bs: seq<Body>, bits: seq<bool>, rest: seq<bool>)
  {
    && bs != [] && ValidStream(bs, []) && Aligned(bs, [], |rest|)
    && bits == StreamBits(bs, []) + rest
  }

  /** Reading finds the stream a bit string starts with exactly when there is one; there is at most one. */
  lemma ReadIff(bits: seq<bool>, out: seq<byte>, rest: seq<bool>)
    ensures ReadStream(bits, []) == Got(out, rest) <==> Inflates(bits, out, rest)
  {
    hide ReadStream, StreamBits, StreamExpand, ValidStream, Aligned;
    if Inflates(bits, out, rest) {
      var bs :| WrittenIn(bs, bits, rest) && out == StreamExpand([], bs);
      StreamRead(bs, [], rest);
    }
    if ReadStream(bits, []) == Got(out, rest) {
      var bs := StreamOf(bits, []);
      assert WrittenIn(bs, bits, rest);
    }
  }

  // ---- what follows the bits ----

  lemma NumberExtends(n: nat, bits: seq<bool>, more: seq<bool>)
    ensures Extends(ReadNumber(n, bits), ReadNumber(n, bits + more), more)
  {
    hide ToBits, Pow2;
    var r := ReadNumber(n, bits);
    if r.Got? {
      Glue2(ToBits(r.value, n), r.rest, more);
      NumberIs(r.value, n, r.rest + more);
    }
  }

  /** A code is no longer than fifteen bits. */
  lemma StartsEarly(l: seq<nat>, i: nat, bits: seq<bool>, more: seq<bool>)
    requires IsLengths(l) && |bits| >= MAX_BITS && Starts(l, i, bits + more)
    ensures Starts(l, i, bits)
  {
    hide Code;
    assert CodeBits(l, i) == (bits + more)[..l[i]] == bits[..l[i]];
  }

  lemma SymbolExtends(l: seq<nat>, bits: seq<bool>, more: seq<bool>)
    requires Accepted(l) && IsLengths(l)
    ensures Extends(ReadSymbol(l, bits), ReadSymbol(l, bits + more), more)
  {
    hide Accepted, CodeBits;
    var r, r' := ReadSymbol(l, bits), ReadSymbol(l, bits + more);
    if r.Got? {
      Glue2(CodeBits(l, r.value), r.rest, more);
      SymbolIs(l, r.value, r.rest + more);
    } else if r.Wrong? && r'.Got? {
      StartsEarly(l, r'.value, bits, more);
    }
  }

  lemma CopyExtends(dl: seq<nat>, len: nat, bits: seq<bool>, out: seq<byte>, more: seq<bool>)
    requires Accepted(dl) && IsLengths(dl) && len < LENGTH_CODES
    ensures Extends(ReadCopy(dl, len, bits, out), ReadCopy(dl, len, bits + more, out), more)
  {
    hide ReadNumber, ReadSymbol, Accepted, IsLengths, LengthExtra, DistExtra, TokenDist, ExpandToken, ToBits, Pow2;
    var lenExtra := ReadNumber(LengthExtra(len), bits);
    NumberExtends(LengthExtra(len), bits, more);
    if lenExtra.Got? {
      SymbolExtends(dl, lenExtra.rest, more);
      var dist := ReadSymbol(dl, lenExtra.rest);
      if dist.Got? && dist.value < DIST_CODES { NumberExtends(DistExtra(dist.value), dist.rest, more); }
    }
  }

  lemma {:induction false} TokensExtend(ll: seq<nat>, dl: seq<nat>, bits: seq<bool>, out: seq<byte>, more: seq<bool>)
    requires Accepted(ll) && IsLengths(ll) && Accepted(dl) && IsLengths(dl)
    ensures Extends(ReadTokens(ll, dl, bits, out), ReadTokens(ll, dl, bits + more, out), more)
    decreases |bits|
  {
    hide ReadSymbol, ReadCopy, ReadTokens, Accepted, IsLengths;
    SymbolExtends(ll, bits, more);
    var z := ReadSymbol(ll, bits);
    if !z.Got? || z.value >= FIRST_LENGTH + LENGTH_CODES {
      NoStep(ll, dl, bits, out);
      if !z.Cut? { NoStep(ll, dl, bits + more, out); }
    } else if z.value < 256 {
      LiteralStep(ll, dl, bits, out);
      LiteralStep(ll, dl, bits + more, out);
      TokensExtend(ll, dl, z.rest, out + [z.value], more);
    } else if z.value == END_OF_BLOCK {
      EndStep(ll, dl, bits, out);
      EndStep(ll, dl, bits + more, out);
    } else {
      CopyStep(ll, dl, bits, out);
      CopyStep(ll, dl, bits + more, out);
      CopyExtends(dl, z.value - FIRST_LENGTH, z.rest, out, more);
      var c := ReadCopy(dl, z.value - FIRST_LENGTH, z.rest, out);
      if c.Got? { TokensExtend(ll, dl, c.rest, c.value, more); }
    }
  }

  lemma {:induction false} ClExtends(bits: seq<bool>, j: nat, n: nat, cl: seq<nat>, more: seq<bool>)
    requires |cl| == CL_SYMBOLS && j <= n <= CL_SYMBOLS && forall k :: 0 <= k < CL_SYMBOLS ==> cl[k] < 8
    ensures Extends(ReadCl(bits, j, n, cl), ReadCl(bits + more, j, n, cl), more)
    decreases n - j
  {
    hide ReadNumber, Dezigzag, ToBits;
    if j < n {
      PowerTable(3);
      NumberExtends(3, bits, more);
      var x := ReadNumber(3, bits);
      if x.Got? { ClExtends(x.rest, j + 1, n, cl[Dezigzag(j) := x.value], more); }
    }
  }

  lemma RunExtends(c: nat, bits: seq<bool>, more: seq<bool>)
    requires c < CL_SYMBOLS
    ensures Extends(ReadRun(c, bits), ReadRun(c, bits + more), more)
  {
    hide ReadNumber, ToBits, Pow2;
    if c >= 16 { NumberExtends(if c == 16 then 2 else if c == 17 then 3 else 7, bits, more); }
  }

  lemma {:induction false} LensExtend(cl: seq<nat>, bits: seq<bool>, lens: seq<nat>, total: nat, more: seq<bool>)
    requires Accepted(cl) && IsLengths(cl) && |cl| == CL_SYMBOLS && |lens| <= total && Short(lens)
    ensures Extends(ReadLens(cl, bits, lens, total), ReadLens(cl, bits + more, lens, total), more)
    decreases |bits|
  {
    hide ReadSymbol, ReadRun, Accepted, IsLengths, LenCount, ToBits, Pow2;
    if |lens| < total {
      SymbolExtends(cl, bits, more);
      var c := ReadSymbol(cl, bits);
      if c.Got? {
        RunExtends(c.value, c.rest, more);
        var t := ReadRun(c.value, c.rest);
        if t.Got? && !(t.value.Repeat? && lens == []) && |lens| + LenCount(t.value) <= total {
          LensExtend(cl, t.rest, LenAppend(lens, t.value), total, more);
        }
      }
    }
  }

  lemma CountsExtend(bits: seq<bool>, more: seq<bool>)
    ensures Extends(ReadCounts(bits), ReadCounts(bits + more), more)
  {
    hide ToBits;
    var r := ReadCounts(bits);
    if r.Got? {
      CountsOf(bits);
      Glue2(CountsBits(r.value), r.rest, more);
      CountsAre(r.value, r.rest + more);
    }
  }

  lemma AllLensExtend(n: Counts, bits: seq<bool>, more: seq<bool>)
    requires n.hclen < 16
    ensures Extends(ReadAllLens(n, bits), ReadAllLens(n, bits + more), more)
  {
    hide ReadCl, ReadLens, Accepted;
    ClExtends(bits, 0, n.hclen + 4, NoLengths(), more);
    var cl := ReadCl(bits, 0, n.hclen + 4, NoLengths());
    if cl.Got? && Accepted(cl.value) { LensExtend(cl.value, cl.rest, [], n.hlit + 257 + n.hdist + 1, more); }
  }

  lemma HeaderExtends(bits: seq<bool>, more: seq<bool>)
    ensures Extends(ReadHeader(bits), ReadHeader(bits + more), more)
  {
    hide ReadCounts, ReadAllLens, Accepted;
    CountsExtend(bits, more);
    var n := ReadCounts(bits);
    if n.Got? { AllLensExtend(n.value, n.rest, more); }
  }

  lemma StoredExtends(bits: seq<bool>, out: seq<byte>, more: seq<bool>)
    requires |more| % 8 == 0
    ensures Extends(ReadStored(bits, out), ReadStored(bits + more, out), more)
  {
    hide BytesBits, ToBytes, Le16;
    var pad := |bits| % 8;
    var s, x := ToBytes(bits[pad..]), ToBytes(more);
    assert (bits + more)[pad..] == bits[pad..] + more && |bits + more| % 8 == pad;
    BytesConcat(s, x);
    BytesInjective(ToBytes((bits + more)[pad..]), s + x);
    if |s| >= 4 {
      SameFields(s, x);
      if |s| >= 4 + Le16(s, 0) {
        assert (s + x)[4..4 + Le16(s, 0)] == s[4..4 + Le16(s, 0)];
        assert (s + x)[4 + Le16(s, 0)..] == s[4 + Le16(s, 0)..] + x;
        BytesConcat(s[4 + Le16(s, 0)..], x);
      }
    }
  }

  lemma SameFields(s: seq<byte>, x: seq<byte>)
    requires |s| >= 4
    ensures Le16(s + x, 0) == Le16(s, 0) && Le16(s + x, 2) == Le16(s, 2)
  {
  }

  lemma BodyExtends(kind: nat, bits: seq<bool>, out: seq<byte>, more: seq<bool>)
    requires |more| % 8 == 0
    ensures Extends(ReadBody(kind, bits, out), ReadBody(kind, bits + more, out), more)
  {
    hide ReadStored, ReadTokens, ReadHeader, FixedLengths, FixedDistances, Accepted, IsLengths;
    FixedCodes();
    if kind == 0 {
      StoredExtends(bits, out, more);
    } else if kind == 1 {
      TokensExtend(FixedLengths(), FixedDistances(), bits, out, more);
    } else if kind == 2 {
      HeaderExtends(bits, more);
      var h := ReadHeader(bits);
      if h.Got? { TokensExtend(h.value.lits, h.value.dists, h.rest, out, more); }
    }
  }

  /** What bytes follow a bit string changes nothing about the stream it starts with, nor about its starting
      with none whatever follows. */
  lemma {:induction false} StreamExtends(bits: seq<bool>, out: seq<byte>, more: seq<bool>)
    requires |more| % 8 == 0
    ensures Extends(ReadStream(bits, out), ReadStream(bits + more, out), more)
    decreases |bits|
  {
    hide ReadBody, ReadNumber, ToBits, Pow2;
    NumberExtends(1, bits, more);
    var fin := ReadNumber(1, bits);
    if fin.Got? {
      NumberExtends(2, fin.rest, more);
      var kind := ReadNumber(2, fin.rest);
      if kind.Got? {
        BodyExtends(kind.value, kind.rest, out, more);
        var b := ReadBody(kind.value, kind.rest, out);
        if b.Got? && fin.value == 0 { StreamExtends(b.rest, b.value, more); }
      }
    }
  }

  /** When bytes hold no stream and are wrong, no bytes behind them make one; when bytes behind them complete a
      stream that they begin, they are cut. */
  lemma ReadOf(s: seq<byte>, more: seq<byte>, out: seq<byte>, rest: seq<bool>)
    requires Inflates(BytesBits(s + more), out, rest)
    ensures !ReadStream(BytesBits(s), []).Wrong?
    ensures |rest| < 8 * |more| ==> ReadStream(BytesBits(s), []) == Cut
  {
    hide ReadStream, BytesBits, Inflates;
    BytesConcat(s, more);
    StreamExtends(BytesBits(s), [], BytesBits(more));
    ReadIff(BytesBits(s + more), out, rest);
  }
}
