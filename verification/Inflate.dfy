/** The inflater: an LSB-first bit buffer over the input bytes, the two-level Huffman decoder and
    the block parsers, proved to read exactly what the readers of module Reader read. The model stops
    where the code would read past its input. */
module Inflate {
  import opened Bits
  import opened Bytes
  import opened BitStream
  import opened Huffman
  import opened HuffmanTable
  import opened Deflate
  import opened Reader

  /** Input past the end of the stream that the bit buffer may read ahead: four bytes. */
  const SPARE_BITS := 32

  class Inflater {
    const input: seq<byte>
    var pos: nat
    var numBits: nat
    var codeBuffer: nat
    var out: seq<byte>
    /** The next byte asked for is not in the input. */
    var overrun: bool
    const lengths: Table
    const distances: Table

    constructor (data: seq<byte>)
      ensures input == data && pos == 0 && numBits == 0 && codeBuffer == 0 && out == [] && !overrun
      ensures Apart() && fresh(lengths.Repr()) && fresh(distances.Repr())
    {
      input := data;
      pos, numBits, codeBuffer, out, overrun := 0, 0, 0, [], false;
      lengths := new Table();
      distances := new Table();
    }

    ghost predicate Apart()
    {
      lengths.Shape() && distances.Shape() && lengths.Repr() !! distances.Repr()
    }

    /** The bits not yet consumed: the buffered ones, then those of the remaining input. */
    ghost function Rest(): seq<bool>
      requires pos <= |input|
      reads this`pos, this`numBits, this`codeBuffer
    {
      ToBits(codeBuffer, numBits) + BytesBits(input[pos..])
    }

    ghost predicate Buffered()
      reads this`pos, this`numBits, this`codeBuffer
    {
      pos <= |input| && numBits <= 32 && codeBuffer < Pow2(numBits)
    }

    /** Parsing came to what reader `r` found: its value and what it left, or nothing. Only what the input
        holds all of, with something to spare, is certain to be found inside it. */
    ghost predicate Follows<T>(r: Read<T>, ok: bool, value: T)
      requires pos <= |input|
      reads this`pos, this`numBits, this`codeBuffer, this`overrun
    {
      && (overrun ==> r.Got? ==> |r.rest| < SPARE_BITS)
      && (!overrun ==> r == if ok then Got(value, Rest()) else Wrong)
    }

    /** Or input bytes in above the buffered bits until more than 24 are buffered. */
    method FillBits()
      requires Buffered() && numBits <= 24 && !overrun
      modifies this`pos, this`numBits, this`codeBuffer, this`overrun
      ensures Buffered() && Rest() == old(Rest())
      ensures if overrun then |Rest()| <= 24 else 24 < numBits
    {
      hide ToBits, BytesBits, Shl, Or, Pow2;
      var first := true;
      while first || numBits <= 24
        invariant Buffered() && Rest() == old(Rest()) && (first ==> numBits <= 24) && !overrun
        decreases first, 33 - numBits
      {
        first := false;
        if pos == |input| {
          overrun := true;
          RestLength(codeBuffer, numBits, input[pos..]);
          return;
        }
        FillOne(codeBuffer, numBits, input, pos);
        codeBuffer := Or(codeBuffer, Shl(input[pos], numBits));
        pos := pos + 1;
        numBits := numBits + 8;
      }
    }

    /** The next `n` bits as a number, least significant first. */
    method Receive(n: nat) returns (k: nat)
      requires Buffered() && n <= 16 && !overrun
      modifies this`pos, this`numBits, this`codeBuffer, this`overrun
      ensures Buffered() && Follows(ReadNumber(n, old(Rest())), true, k)
      ensures n <= old(numBits) ==> !overrun && pos == old(pos) && numBits == old(numBits) - n
      ensures n > old(numBits) && |old(Rest())| <= 24 ==> overrun
    {
      hide ToBits, BytesBits, Shr, And, Pow2, Low;
      if numBits < n { FillBits(); }
      if overrun {
        return 0;
      }
      k := And(codeBuffer, Pow2(n) - 1);
      TakeBits(codeBuffer, numBits, n, BytesBits(input[pos..]));
      codeBuffer := Shr(codeBuffer, n);
      numBits := numBits - n;
      assert old(Rest()) == old(Rest())[..n] + old(Rest())[n..];
      NumberIs(k, n, Rest());
    }

    /** Decode a code longer than nine bits by the upper bounds of the lengths; -1 for none. */
    method DecodeSlow(table: Table, ghost l: seq<nat>) returns (r: int)
      requires Buffered() && numBits >= 16 && table.Represents(l)
      requires table.fast[Low(codeBuffer, FAST_BITS)] == 0
      modifies this`numBits, this`codeBuffer
      ensures Buffered() && Decoded(l, old(Rest()), r, Rest())
    {
      hide ToBits, BytesBits, Shr, Pow2, Low, RevBits, BitReverse, Slot, CodeBits, Matches, Start, End;
      hide FirstSymbol, First;
      var k := BitReverse(codeBuffer, 16);
      BitReverseIs(codeBuffer, 16);
      PowerTable(16);
      PowerTable(FAST_BITS);
      NoShortMatch(table, l, codeBuffer);
      ghost var x := codeBuffer;
      var s := FAST_BITS + 1;
      while k >= table.maxCode[s]
        invariant FAST_BITS < s <= 16 && End(l, s - 1) <= k
        decreases 16 - s
      {
        s := s + 1;
      }
      if s == 16 {
        NoMatchPastEnd(l, k);
        NothingDecoded(l, codeBuffer, numBits, BytesBits(input[pos..]));
        return -1;
      }
      ghost var i := LongMatch(l, s, k);
      var b := Shr(k, 16 - s) - table.firstCode[s] + table.firstSymbol[s];
      SlotOfMatch(l, i, k);
      SlotBound(l, i);
      if b >= MAX_SYMBOLS || table.size[b] != s {
        assert false;
        return -1;
      }
      SymbolDecoded(l, i, codeBuffer, numBits, BytesBits(input[pos..]));
      codeBuffer := Shr(codeBuffer, s);
      numBits := numBits - s;
      return table.value[b];
    }

    /** Decode one symbol: through the fast table, else by the upper bounds; -1 for none. */
    method Decode(table: Table, ghost l: seq<nat>) returns (r: int)
      requires Buffered() && table.Represents(l) && !overrun
      modifies this`pos, this`numBits, this`codeBuffer, this`overrun
      ensures Buffered() && Follows(ReadSymbol(l, old(Rest())), r >= 0, if r >= 0 then r else 0)
    {
      hide ToBits, BytesBits, Shr, And, Pow2, Low, RevBits, CodeBits, Accepted, Decoded, FastMatch, IsLengths;
      if numBits < 16 { FillBits(); }
      if overrun {
        return -1;
      }
      AndLowMask(codeBuffer, FAST_BITS);
      PowerTable(FAST_BITS);
      var b := table.fast[And(codeBuffer, FAST_SIZE - 1)];
      if b != 0 {
        var s := b / FAST_SIZE;
        FastHit(table, l, codeBuffer, b);
        SymbolDecoded(l, b % FAST_SIZE, codeBuffer, numBits, BytesBits(input[pos..]));
        codeBuffer := Shr(codeBuffer, s);
        numBits := numBits - s;
        DecodedIsRead(l, old(Rest()), b % FAST_SIZE, Rest());
        return b % FAST_SIZE;
      }
      r := DecodeSlow(table, l);
      DecodedIsRead(l, old(Rest()), r, Rest());
    }

    /** Append `len` bytes copied from `dist` back, byte by byte. */
    method CopyBack(len: nat, dist: nat)
      requires 1 <= dist <= |out|
      modifies this`out
      ensures out == CopyMatch(old(out), len, dist)
    {
      var p := |out| - dist;
      var n := len;
      if dist == 1 {
        var v := out[p];
        while n > 0
          invariant |out| >= 1 && out[|out| - 1] == v && CopyMatch(out, n, 1) == CopyMatch(old(out), len, dist)
        {
          out := out + [v];
          n := n - 1;
        }
      } else {
        while n > 0
          invariant p == |out| - dist && 0 <= p < |out| && CopyMatch(out, n, dist) == CopyMatch(old(out), len, dist)
        {
          out := out + [out[p]];
          p := p + 1;
          n := n - 1;
        }
      }
    }

    /** The `n` extra bits of a base value; no bits are read when there are none. */
    method Extra(n: nat) returns (k: nat)
      requires Buffered() && n <= 16 && !overrun
      modifies this`pos, this`numBits, this`codeBuffer, this`overrun
      ensures Buffered() && Follows(ReadNumber(n, old(Rest())), true, k)
    {
      hide ToBits, BytesBits, Pow2;
      k := 0;
      if n != 0 {
        k := Receive(n);
      } else {
        NumberOfNoBits(Rest());
      }
    }

    /** Parse what follows a length symbol: extra bits, distance symbol, extra bits; then copy. */
    method ParseMatch(lengthIndex: nat, ghost dl: seq<nat>) returns (ok: bool)
      requires Buffered() && distances.Represents(dl) && lengthIndex < LENGTH_CODES && !overrun
      modifies this`pos, this`numBits, this`codeBuffer, this`out, this`overrun
      ensures Buffered() && Follows(ReadCopy(dl, lengthIndex, old(Rest()), old(out)), ok, out)
    {
      hide ToBits, BytesBits, CodeBits, Pow2, CopyMatch, Table.Bounds, Table.Slots, Table.FastOk, Table.Shape;
      hide IsLengths, Accepted, Rest, ReadNumber, ReadSymbol;
      hide LengthBase, LengthExtra, DistBase, DistExtra;
      var lenExtra := Extra(LengthExtra(lengthIndex));
      if overrun { return false; }
      var len := LengthBase(lengthIndex) + lenExtra;
      var z := Decode(distances, dl);
      if overrun { return false; }
      if z < 0 || z >= 30 {
        return false;
      }
      var distExtra := Extra(DistExtra(z));
      if overrun { return false; }
      var dist := DistBase(z) + distExtra;
      if |out| < dist {
        return false;
      }
      DistPositive(Match(lengthIndex, lenExtra, z, distExtra));
      CopyBack(len, dist);
      return true;
    }

    /** Parse the tokens of a block up to its end-of-block symbol. */
    method ParseHuffmanBlock(ghost ll: seq<nat>, ghost dl: seq<nat>) returns (ok: bool)
      requires Buffered() && lengths.Represents(ll) && distances.Represents(dl) && !overrun
      modifies this`pos, this`numBits, this`codeBuffer, this`out, this`overrun
      ensures Buffered() && Follows(ReadTokens(ll, dl, old(Rest()), old(out)), ok, out)
    {
      hide ToBits, BytesBits, CodeBits, Pow2, Accepted, Table.Bounds, Table.Slots, Table.FastOk, Table.Shape;
      hide IsLengths, Rest, ReadTokens, ReadSymbol, ReadCopy;
      while true
        invariant Buffered() && !overrun
        invariant ReadTokens(ll, dl, Rest(), out) == ReadTokens(ll, dl, old(Rest()), old(out))
        decreases |Rest()|
      {
        ghost var bits, before := Rest(), out;
        var z := Decode(lengths, ll);
        if overrun {
          TokensLeave(ll, dl, bits, before);
          return false;
        }
        if z < 256 {
          if z < 0 {
            NoStep(ll, dl, bits, before);
            return false;
          }
          LiteralStep(ll, dl, bits, before);
          out := out + [z];
        } else {
          if z == 256 {
            EndStep(ll, dl, bits, before);
            return true;
          }
          if z >= 286 {
            NoStep(ll, dl, bits, before);
            return false;
          }
          CopyStep(ll, dl, bits, before);
          ok := ParseMatch(z - 257, dl);
          if overrun || !ok { return false; }
        }
      }
    }

    /** The three counts that open a dynamic block. */
    method ParseCounts() returns (hlit: nat, hdist: nat, hclen: nat)
      requires Buffered() && !overrun
      modifies this`pos, this`numBits, this`codeBuffer, this`overrun
      ensures Buffered() && hlit >= 257 && hdist >= 1 && 4 <= hclen
      ensures Follows(ReadCounts(old(Rest())), true, Counts(hlit - 257, hdist - 1, hclen - 4))
      ensures !overrun ==> hclen < 20
    {
      hide ToBits, Pow2, Rest, ReadNumber;
      hlit, hdist, hclen := 257, 1, 4;
      var n := Receive(5);
      if overrun { return; }
      hlit := n + 257;
      n := Receive(5);
      if overrun { return; }
      hdist := n + 1;
      n := Receive(4);
      hclen := n + 4;
    }

    /** Read the code lengths of a dynamic block and build both tables. */
    method ComputeHuffmanCodes() returns (ok: bool, ghost codes: Codes)
      requires Buffered() && Apart() && !overrun
      modifies this`pos, this`numBits, this`codeBuffer, this`overrun, lengths.Repr(), distances.Repr()
      ensures Buffered() && Follows(ReadHeader(old(Rest())), ok, codes)
      ensures !overrun && ok ==> lengths.Represents(codes.lits) && distances.Represents(codes.dists)
    {
      hide ToBits, BytesBits, Accepted, Rest, Table.Bounds, Table.Slots, Table.FastOk, Table.Shape;
      hide IsLengths, ReadAllLens, ReadCounts;
      codes := Codes([], []);
      var hlit, hdist, hclen := ParseCounts();
      if overrun { return false, codes; }
      var lens;
      ok, lens := ParseLengths(hlit, hdist, hclen);
      if overrun || !ok { return false, codes; }
      codes := Codes(lens[..hlit], lens[hlit..]);
      ShortAreLengths(lens, hlit);
      ok := BuildBoth(lens, hlit);
    }

    /** All code lengths, sent under a code of their own that is sent first. */
    method ParseLengths(hlit: nat, hdist: nat, hclen: nat) returns (ok: bool, lens: seq<nat>)
      requires Buffered() && hlit >= 257 && hdist >= 1 && 4 <= hclen < 20 && !overrun
      modifies this`pos, this`numBits, this`codeBuffer, this`overrun
      ensures Buffered()
      ensures Follows(ReadAllLens(Counts(hlit - 257, hdist - 1, hclen - 4), old(Rest())), ok, lens)
    {
      hide ToBits, BytesBits, Accepted, Rest, Table.Bounds, Table.Slots, Table.FastOk, Table.Shape;
      hide IsLengths, ReadCl, ReadLens;
      lens := [];
      var cl := ReadCodeLengthCode(hclen);
      if overrun { return false, lens; }
      var codeLength := new Table();
      ok := codeLength.Build(cl);
      if !ok { return; }
      ok, lens := ReadLengths(codeLength, hlit + hdist, cl);
    }

    method BuildBoth(lens: seq<nat>, hlit: nat) returns (ok: bool)
      requires Apart() && hlit <= |lens| && IsLengths(lens[..hlit]) && IsLengths(lens[hlit..])
      modifies lengths.Repr(), distances.Repr()
      ensures ok <==> Accepted(lens[..hlit]) && Accepted(lens[hlit..])
      ensures ok ==> lengths.Represents(lens[..hlit]) && distances.Represents(lens[hlit..])
    {
      hide Accepted, Table.Bounds, Table.Slots, Table.FastOk, IsLengths;
      ok := lengths.Build(lens[..hlit]);
      if !ok { return; }
      ok := distances.Build(lens[hlit..]);
    }

    /** The lengths of the code length code, put back in symbol order. */
    method ReadCodeLengthCode(hclen: nat) returns (cl: seq<nat>)
      requires Buffered() && hclen <= CL_SYMBOLS && !overrun
      modifies this`pos, this`numBits, this`codeBuffer, this`overrun
      ensures Buffered() && Follows(ReadCl(old(Rest()), 0, hclen, NoLengths()), true, cl)
      ensures !overrun ==> |cl| == CL_SYMBOLS && IsLengths(cl)
    {
      hide ToBits, BytesBits, Pow2, Rest, Dezigzag, ReadNumber;
      var sizes := new nat[CL_SYMBOLS](_ => 0);
      var i := 0;
      assert sizes[..] == NoLengths();
      while i < hclen
        invariant 0 <= i <= hclen && Buffered() && !overrun
        invariant forall k :: 0 <= k < CL_SYMBOLS ==> sizes[k] < 8
        invariant ReadCl(Rest(), i, hclen, sizes[..]) == ReadCl(old(Rest()), 0, hclen, NoLengths())
      {
        PowerTable(3);
        ghost var acc := sizes[..];
        var n := Receive(3);
        if overrun { return []; }
        sizes[Dezigzag(i)] := n;
        assert sizes[..] == acc[Dezigzag(i) := n];
        i := i + 1;
      }
      cl := sizes[..];
    }

    /** How often a code length token repeats which length; false when there is none to repeat. */
    method Run(c: nat, lens: seq<nat>) returns (ok: bool, count: nat, fill: nat)
      requires Buffered() && c < CL_SYMBOLS && !overrun
      modifies this`pos, this`numBits, this`codeBuffer, this`overrun
      ensures Buffered()
      ensures var t := ReadRun(c, old(Rest()));
              if overrun then t.Got? ==> |t.rest| < SPARE_BITS
              else && t.Got? && Rest() == t.rest && (ok <==> t.value.Repeat? ==> lens != [])
                   && (ok ==> count == LenCount(t.value) && fill == LenFill(lens, t.value))
    {
      hide ToBits, Pow2, Rest, ReadNumber;
      if c < 16 {
        return true, 1, c;
      }
      if c == 16 {
        var extra := Receive(2);
        if lens == [] {
          return false, 0, 0;
        }
        return true, extra + 3, lens[|lens| - 1];
      } else if c == 17 {
        var extra := Receive(3);
        return true, extra + 3, 0;
      } else {
        var extra := Receive(7);
        return true, extra + 11, 0;
      }
    }

    /** The code lengths of both alphabets, runs expanded. */
    method ReadLengths(table: Table, total: nat, ghost cl: seq<nat>) returns (ok: bool, lens: seq<nat>)
      requires Buffered() && table.Represents(cl) && |cl| == CL_SYMBOLS && !overrun
      modifies this`pos, this`numBits, this`codeBuffer, this`overrun
      ensures Buffered() && Follows(ReadLens(cl, old(Rest()), [], total), ok, lens)
    {
      hide ToBits, BytesBits, CodeBits, Pow2, Rest, Accepted, Table.Bounds, Table.Slots, Table.FastOk, Table.Shape;
      hide IsLengths, ReadSymbol, ReadRun, LenCount, LenFill;
      lens := [];
      while |lens| < total
        invariant Buffered() && !overrun && |lens| <= total && Short(lens)
        invariant ReadLens(cl, Rest(), lens, total) == ReadLens(cl, old(Rest()), [], total)
        decreases total - |lens|
      {
        ghost var bits := Rest();
        var c := Decode(table, cl);
        if overrun { return false, lens; }
        if c < 0 || c >= 19 {
          return false, lens;
        }
        ghost var t := ReadRun(c, Rest());
        var count, fill;
        ok, count, fill := Run(c, lens);
        if overrun || !ok { return false, lens; }
        if total - |lens| < count {
          return false, lens;
        }
        RunAppends(lens, t.value, count, fill);
        lens := lens + seq(count, _ => fill);
      }
      ok := true;
    }

    /** The four header bytes of a stored block: first the buffered ones, then from the input. */
    method ReadStoredHeader() returns (header: array<byte>)
      requires Buffered() && numBits % 8 == 0 && !overrun
      modifies this`pos, this`numBits, this`codeBuffer, this`overrun
      ensures Buffered() && fresh(header) && header.Length == 4
      ensures if overrun then |old(Rest())| < SPARE_BITS
              else numBits == 0 && old(Rest()) == BytesBits(header[..]) + BytesBits(input[pos..])
    {
      hide ToBits, BytesBits, Pow2, And, Shr;
      header := new byte[4](_ => 0);
      var k := DrainBytes(header);
      while k < 4
        invariant 0 <= k <= 4 && Buffered() && numBits == 0 && !overrun
        invariant old(Rest()) == BytesBits(header[..k]) + BytesBits(input[pos..])
      {
        if pos == |input| {
          overrun := true;
          AllRead(header[..k], input[pos..]);
          return;
        }
        NextByte(header[..k], input, pos);
        header[k] := input[pos];
        assert header[..k + 1] == header[..k] + [input[pos]];
        pos := pos + 1;
        k := k + 1;
      }
      assert header[..4] == header[..];
    }

    /** Take the whole bytes that are still in the bit buffer. */
    method DrainBytes(header: array<byte>) returns (k: nat)
      requires Buffered() && numBits % 8 == 0 && header.Length == 4
      modifies header, this`numBits, this`codeBuffer
      ensures k <= 4 && Buffered() && numBits == 0
      ensures old(Rest()) == BytesBits(header[..k]) + BytesBits(input[pos..])
    {
      hide ToBits, BytesBits, Pow2, And, Shr;
      k := 0;
      NoBytes(Rest());
      assert header[..0] == [];
      while numBits > 0
        invariant Buffered() && numBits % 8 == 0 && 0 <= k && 8 * k + numBits <= 32
        invariant old(Rest()) == BytesBits(header[..k]) + Rest()
        decreases numBits
      {
        TakeByte(header[..k], codeBuffer, numBits, BytesBits(input[pos..]));
        header[k] := And(codeBuffer, 0xFF);
        assert header[..k + 1] == header[..k] + [And(codeBuffer, 0xFF)];
        codeBuffer := Shr(codeBuffer, 8);
        numBits := numBits - 8;
        k := k + 1;
      }
      EmptyBuffer(codeBuffer, input[pos..]);
    }

    /** Append the next `len` input bytes to the output. */
    method CopyInput(len: nat)
      requires pos <= |input| && !overrun
      modifies this`pos, this`out, this`overrun
      ensures overrun <==> old(pos) + len > |input|
      ensures pos == if overrun then old(pos) else old(pos) + len
      ensures !overrun ==> out == old(out) + input[old(pos)..old(pos) + len]
    {
      var j := 0;
      while j < len
        invariant 0 <= j <= len && pos == old(pos) && pos + j <= |input| && out == old(out) + input[pos..pos + j]
        invariant !overrun
      {
        if pos + j == |input| {
          overrun := true;
          return;
        }
        out := out + [input[pos + j]];
        j := j + 1;
      }
      pos := pos + len;
    }

    /** Copy a stored block: drop the padding, read the header, check the length, copy the bytes. */
    method ParseUncompressedBlock() returns (ok: bool)
      requires Buffered() && !overrun
      modifies this`pos, this`numBits, this`codeBuffer, this`out, this`overrun
      ensures Buffered() && Follows(ReadStored(old(Rest()), old(out)), ok, out)
    {
      hide ToBits, BytesBits, Pow2, ToBytes;
      AlignToByte();
      ghost var bits := Rest();
      var header := ReadStoredHeader();
      if overrun {
        TooFewBytes(bits);
        return false;
      }
      ghost var s := header[..] + input[pos..];
      BytesConcat(header[..], input[pos..]);
      BytesInjective(ToBytes(bits), s);
      var b0: nat, b1: nat, b2: nat, b3: nat := header[0], header[1], header[2], header[3];
      var len := b1 * 256 + b0;
      var nlen := b3 * 256 + b2;
      if nlen != 0xFFFF - len {
        return false;
      }
      ghost var from := pos;
      CopyInput(len);
      if overrun { return false; }
      assert s[4..4 + len] == input[from..from + len] && s[4 + len..] == input[pos..];
      EmptyBuffer(codeBuffer, input[pos..]);
      return true;
    }

    /** Drop the bits left over before the next byte boundary. */
    method AlignToByte()
      requires Buffered() && !overrun
      modifies this`pos, this`numBits, this`codeBuffer, this`overrun
      ensures Buffered() && numBits % 8 == 0 && !overrun
      ensures Rest() == old(Rest())[|old(Rest())| % 8..] && |Rest()| % 8 == 0
    {
      hide ToBits, BytesBits, Pow2, ReadNumber;
      RestLength(codeBuffer, numBits, input[pos..]);
      WholeBytes(numBits, |input[pos..]|);
      if numBits % 8 != 0 {
        var ignored := Receive(numBits % 8);
        Halves(ToBits(ignored, old(numBits) % 8), Rest());
        RestLength(codeBuffer, numBits, input[pos..]);
      }
    }

    /** Inflate the blocks of a stream up to and including its final block. When the input holds a stream
        and something to spare, its expansion is the output; when the input ends before its stream does, or
        before four bytes, it is read past its end. False means that the input holds no stream, whatever
        follows it. */
    method ParseZlib() returns (ok: bool)
      requires Apart() && pos == 0 && out == []
      modifies this, lengths.Repr(), distances.Repr()
      ensures Buffered() && Follows(ReadStream(BytesBits(input), []), ok, out)
      ensures !overrun && ok ==> Inflates(BytesBits(input), out, Rest())
      ensures !overrun && !ok ==> forall more: seq<byte>, o, rest :: !Inflates(BytesBits(input + more), o, rest)
      ensures forall o, rest :: Inflates(BytesBits(input), o, rest) && |rest| >= SPARE_BITS ==>
                !overrun && ok && out == o && Rest() == rest
      ensures forall more: seq<byte>, o, rest :: Inflates(BytesBits(input + more), o, rest) ==>
                |rest| < 8 * |more| ==> overrun
      ensures |input| < 4 ==> overrun
    {
      hide ToBits, BytesBits, Pow2, Inflates, ReadStream, Table.Shape;
      numBits, codeBuffer, overrun := 0, 0, false;
      EmptyBuffer(0, input);
      assert input[0..] == input;
      ReadAll(input);
      while true
        invariant Apart() && Buffered() && !overrun
        invariant |input| >= 4 || (numBits == 0 && pos == 0)
        invariant ReadStream(Rest(), out) == ReadStream(BytesBits(input), [])
        decreases |Rest()|
      {
        var fin;
        ok, fin := ParseBlock();
        if overrun || !ok { return false; }
        if fin != 0 {
          return true;
        }
      }
    }

    /** One block behind its final-block flag and its type. */
    method ParseBlock() returns (ok: bool, fin: nat)
      requires Apart() && Buffered() && !overrun
      modifies this`pos, this`numBits, this`codeBuffer, this`out, this`overrun, lengths.Repr(), distances.Repr()
      ensures Buffered()
      ensures var r := ReadStream(old(Rest()), old(out));
              if overrun then r.Got? ==> |r.rest| < SPARE_BITS
              else r == if !ok then Wrong else if fin != 0 then Got(out, Rest()) else ReadStream(Rest(), out)
      ensures !overrun && ok ==> |Rest()| < |old(Rest())|
      ensures old(numBits) == 0 && |input| - old(pos) < 4 ==> overrun
    {
      hide ToBits, BytesBits, Pow2, ReadBody, ReadNumber, ReadStream, Table.Shape;
      ghost var bits := Rest();
      fin := Receive(1);
      if overrun {
        StreamLeaves(bits, out);
        return false, fin;
      }
      var kind := Receive(2);
      if overrun {
        StreamLeaves(bits, out);
        return false, fin;
      }
      StreamUnfolds(bits, out);
      ok := ParseBody(kind);
    }

    /** The contents of one block. */
    method ParseBody(kind: nat) returns (ok: bool)
      requires Apart() && Buffered() && kind < 4 && !overrun
      modifies this`pos, this`numBits, this`codeBuffer, this`out, this`overrun, lengths.Repr(), distances.Repr()
      ensures Buffered() && Follows(ReadBody(kind, old(Rest()), old(out)), ok, out)
    {
      hide ToBits, BytesBits, Pow2, Accepted, Table.Bounds, Table.Slots, Table.FastOk, Table.Shape, FixedLengths;
      hide FixedDistances, IsLengths, ReadTokens, ReadHeader, ReadStored;
      FixedCodes();
      if kind == 0 {
        ok := ParseUncompressedBlock();
      } else if kind == 3 {
        return false;
      } else if kind == 1 {
        ok := lengths.Build(FixedLengths());
        if !ok { return; }
        ok := distances.Build(FixedDistances());
        if !ok { return; }
        ok := ParseHuffmanBlock(FixedLengths(), FixedDistances());
      } else {
        ghost var codes;
        ok, codes := ComputeHuffmanCodes();
        if overrun || !ok { return false; }
        ok := ParseHuffmanBlock(codes.lits, codes.dists);
      }
    }
  }

  lemma RestLength(v: nat, n: nat, tail: seq<byte>)
    ensures |ToBits(v, n) + BytesBits(tail)| == n + 8 * |tail|
  {
  }

  lemma WholeBytes(numBits: nat, bytes: nat)
    ensures (numBits + 8 * bytes) % 8 == numBits % 8
    ensures (numBits - numBits % 8 + 8 * bytes) % 8 == 0 && (numBits - numBits % 8) % 8 == 0
  {
  }

  lemma FillOne(v: nat, n: nat, input: seq<byte>, pos: nat)
    requires v < Pow2(n) && pos < |input|
    ensures Or(v, Shl(input[pos], n)) < Pow2(n + 8)
    ensures ToBits(Or(v, Shl(input[pos], n)), n + 8) + BytesBits(input[pos + 1..])
            == ToBits(v, n) + BytesBits(input[pos..])
  {
    OrAbove(v, input[pos], n);
    JoinBits(v, n, input[pos], 8);
    assert input[pos..][1..] == input[pos + 1..];
    PowerTable(8);
    JoinBound(v, n, input[pos], 8);
  }

  lemma {:induction false} JoinBound(a: nat, n: nat, b: nat, m: nat)
    requires a < Pow2(n) && b < Pow2(m)
    ensures a + Shl(b, n) < Pow2(n + m)
    decreases n
  {
    if n > 0 {
      JoinBound(a / 2, n - 1, b, m);
    }
  }

  lemma {:induction false} ShrPow(v: nat, n: nat, m: nat)
    requires v < Pow2(n + m)
    ensures Shr(v, n) < Pow2(m)
    decreases n
  {
    if n > 0 { ShrPow(v / 2, n - 1, m); }
  }

  /** Masking and shifting `n` bits out of a buffer splits its bit string. */
  lemma TakeBits(v: nat, num: nat, n: nat, tail: seq<bool>)
    requires v < Pow2(num) && n <= num
    ensures And(v, Pow2(n) - 1) < Pow2(n) && Shr(v, n) < Pow2(num - n)
    ensures ToBits(And(v, Pow2(n) - 1), n) == (ToBits(v, num) + tail)[..n]
    ensures ToBits(Shr(v, n), num - n) + tail == (ToBits(v, num) + tail)[n..]
  {
    AndLowMask(v, n);
    BitsOfLow(v, n);
    SplitBits(v, n, num - n);
    ShrPow(v, n, num - n);
  }

  /** What decoding promises: the symbol whose code the bits start with, and the bits after it;
      or -1 and the same bits when no code starts them. */
  ghost predicate Decoded(l: seq<nat>, before: seq<bool>, r: int, after: seq<bool>)
  {
    if r < 0 then
      r == -1 && after == before && forall i :: HasCode(l, i) ==> !(CodeBits(l, i) <= before)
    else
      HasCode(l, r) && CodeBits(l, r) <= before && after == before[l[r]..]
  }

  lemma SymbolDecoded(l: seq<nat>, i: nat, x: nat, num: nat, tail: seq<bool>)
    requires Accepted(l) && IsLengths(l) && x < Pow2(num) && 16 <= num && Matches(l, i, RevBits(x, 16))
    ensures HasCode(l, i) && l[i] <= num && Shr(x, l[i]) < Pow2(num - l[i])
    ensures Decoded(l, ToBits(x, num) + tail, i, ToBits(Shr(x, l[i]), num - l[i]) + tail)
  {
    hide Accepted, Code, Pow2, Shr, RevBits;
    CodeStarts(l, i, x, num, tail);
    TakeBits(x, num, l[i], tail);
  }

  lemma NothingDecoded(l: seq<nat>, x: nat, num: nat, tail: seq<bool>)
    requires Accepted(l) && IsLengths(l) && x < Pow2(num) && 16 <= num
    requires forall i :: !Matches(l, i, RevBits(x, 16))
    ensures Decoded(l, ToBits(x, num) + tail, -1, ToBits(x, num) + tail)
  {
    hide Accepted, Code, Pow2, Shr, RevBits, Matches, CodeBits, ToBits;
    forall i | HasCode(l, i) ensures !(CodeBits(l, i) <= ToBits(x, num) + tail) {
      CodeStarts(l, i, x, num, tail);
    }
  }

  /** A non-zero fast entry names the symbol whose code the buffer starts with. */
  lemma FastHit(table: Table, l: seq<nat>, x: nat, b: nat)
    requires table.Represents(l) && b == table.fast[Low(x, FAST_BITS)] && b != 0 && Low(x, FAST_BITS) < FAST_SIZE
    ensures b % FAST_SIZE < |l| && b / FAST_SIZE == l[b % FAST_SIZE] && Matches(l, b % FAST_SIZE, RevBits(x, 16))
  {
    hide Low, RevBits, FastMatch, Matches, Accepted, table.Bounds, table.Slots;
    assert FastEntryOk(l, |l|, Low(x, FAST_BITS), b);
    FastEntryNames(l, Low(x, FAST_BITS), b);
    ShortMatch(l, b % FAST_SIZE, x);
  }

  lemma FastEntryNames(l: seq<nat>, x: nat, b: nat)
    requires IsLengths(l) && FastEntryOk(l, |l|, x, b) && b != 0
    ensures b % FAST_SIZE < |l| && b / FAST_SIZE == l[b % FAST_SIZE] && FastMatch(l, b % FAST_SIZE, x)
  {
    hide FastMatch;
    var i :| 0 <= i < |l| && FastMatch(l, i, x);
    assert b == l[i] * FAST_SIZE + i;
  }

  lemma ShortMatch(l: seq<nat>, i: nat, x: nat)
    requires Accepted(l) && IsLengths(l) && i < |l|
    ensures FastMatch(l, i, Low(x, FAST_BITS)) <==> Matches(l, i, RevBits(x, 16)) && l[i] <= FAST_BITS
  {
    hide Accepted, Low, RevBits, Code, Shr;
    if 1 <= l[i] <= FAST_BITS { FastMatchIsMatch(l, i, x); }
  }

  /** A zero fast entry: the window lies past the codes of at most nine bits. */
  lemma NoShortMatch(table: Table, l: seq<nat>, x: nat)
    requires table.Represents(l) && Low(x, FAST_BITS) < FAST_SIZE && table.fast[Low(x, FAST_BITS)] == 0
    ensures End(l, FAST_BITS) <= RevBits(x, 16)
  {
    hide Low, RevBits, FastMatch, Matches, Accepted, End, Start;
    assert FastEntryOk(l, |l|, Low(x, FAST_BITS), 0);
    var k := RevBits(x, 16);
    if k < End(l, FAST_BITS) {
      var i := MatchBelow(l, FAST_BITS, k);
      MatchesIndex(l, i, k);
      ShortMatch(l, i, x);
    }
  }

  lemma MatchesIndex(l: seq<nat>, i: nat, k: nat)
    requires Matches(l, i, k)
    ensures i < |l| && 1 <= l[i]
  {
  }

  /** A window below the end of length `s` starts with a code of at most `s` bits. */
  lemma {:induction false} MatchBelow(l: seq<nat>, s: nat, k: nat) returns (i: nat)
    requires 1 <= s <= MAX_BITS && k < End(l, s)
    ensures Matches(l, i, k) && l[i] <= s
    decreases s
  {
    if s > 1 {
      IntervalsMeet(l, s - 1);
      if k < End(l, s - 1) {
        i := MatchBelow(l, s - 1, k);
        return;
      }
    } else {
      StartOfOne(l);
    }
    i := IntervalHasMatch(l, s, k);
  }

  lemma StartOfOne(l: seq<nat>)
    ensures Start(l, 1) == 0
  {
    ShlZero(15);
  }

  lemma {:induction false} ShlZero(n: nat)
    ensures Shl(0, n) == 0
  {
    if n > 0 { ShlZero(n - 1); }
  }

  lemma LongMatch(l: seq<nat>, s: nat, k: nat) returns (i: nat)
    requires FAST_BITS < s <= MAX_BITS && End(l, s - 1) <= k < End(l, s)
    ensures Matches(l, i, k) && l[i] == s
  {
    IntervalsMeet(l, s - 1);
    i := IntervalHasMatch(l, s, k);
  }

  lemma NoMatchPastEnd(l: seq<nat>, k: nat)
    requires End(l, MAX_BITS) <= k
    ensures forall i :: !Matches(l, i, k)
  {
    hide End, Start, Matches;
    forall i: nat ensures !Matches(l, i, k) {
      if Matches(l, i, k) {
        MatchInInterval(l, i, k);
        MatchesLength(l, i, k);
        if l[i] < MAX_BITS { IntervalsAscend(l, l[i], MAX_BITS); }
      }
    }
  }

  lemma MatchesLength(l: seq<nat>, i: nat, k: nat)
    requires Matches(l, i, k)
    ensures i < |l| && 1 <= l[i] <= MAX_BITS
  {
  }

  lemma SlotOfMatch(l: seq<nat>, i: nat, k: nat)
    requires Matches(l, i, k)
    ensures Shr(k, 16 - l[i]) - First(l, l[i]) + FirstSymbol(l, l[i]) == Slot(l, i)
  {
  }

  lemma RunAppends(ls: seq<nat>, t: LenToken, count: nat, fill: nat)
    requires Short(ls) && (t.Repeat? ==> ls != []) && (t.Plain? ==> t.len <= MAX_BITS)
    requires count == LenCount(t) && fill == LenFill(ls, t)
    ensures ls + seq(count, _ => fill) == LenAppend(ls, t) && Short(LenAppend(ls, t))
  {
  }

  lemma ShortAreLengths(lens: seq<nat>, n: nat)
    requires Short(lens) && n <= |lens| && n <= MAX_SYMBOLS && |lens| - n <= MAX_SYMBOLS
    ensures IsLengths(lens[..n]) && IsLengths(lens[n..])
  {
  }

  lemma EmptyBuffer(v: nat, tail: seq<byte>)
    ensures ToBits(v, 0) + BytesBits(tail) == BytesBits(tail) && 0 < Pow2(0)
  {
  }

  lemma ReadAll(s: seq<byte>)
    ensures forall o, rest :: Inflates(BytesBits(s), o, rest) <==> ReadStream(BytesBits(s), []) == Got(o, rest)
    ensures forall more: seq<byte>, o, rest :: Inflates(BytesBits(s + more), o, rest) ==>
              !ReadStream(BytesBits(s), []).Wrong? && (|rest| < 8 * |more| ==> ReadStream(BytesBits(s), []) == Cut)
  {
    hide ReadStream, Inflates, BytesBits;
    forall o, rest ensures Inflates(BytesBits(s), o, rest) <==> ReadStream(BytesBits(s), []) == Got(o, rest) {
      ReadIff(BytesBits(s), o, rest);
    }
    forall more: seq<byte>, o, rest | Inflates(BytesBits(s + more), o, rest)
      ensures !ReadStream(BytesBits(s), []).Wrong?
      ensures |rest| < 8 * |more| ==> ReadStream(BytesBits(s), []) == Cut
    {
      ReadOf(s, more, o, rest);
    }
  }

  /** What decoding promises is what reading a symbol answers. */
  lemma DecodedIsRead(l: seq<nat>, before: seq<bool>, r: int, after: seq<bool>)
    requires Accepted(l) && IsLengths(l) && Decoded(l, before, r, after) && |before| >= MAX_BITS
    ensures ReadSymbol(l, before) == if r >= 0 then Got(r, after) else Wrong
  {
    hide Accepted, Code;
    if r >= 0 {
      assert |CodeBits(l, r)| == l[r] && before == CodeBits(l, r) + after;
      SymbolIs(l, r, after);
    }
  }

  lemma NumberOfNoBits(bits: seq<bool>)
    ensures ReadNumber(0, bits) == Got(0, bits)
  {
    assert bits[..0] == [] && bits[0..] == bits;
  }

  /** What is read as tokens leaves less than its first symbol leaves. */
  lemma TokensLeave(ll: seq<nat>, dl: seq<nat>, bits: seq<bool>, out: seq<byte>)
    ensures ReadTokens(ll, dl, bits, out).Got? ==>
              ReadSymbol(ll, bits).Got? && |ReadTokens(ll, dl, bits, out).rest| <= |ReadSymbol(ll, bits).rest|
  {
    hide ReadSymbol, ReadCopy;
  }

  lemma StreamUnfolds(bits: seq<bool>, out: seq<byte>)
    requires ReadNumber(1, bits).Got? && ReadNumber(2, ReadNumber(1, bits).rest).Got?
    ensures var fin := ReadNumber(1, bits); var kind := ReadNumber(2, fin.rest);
            var b := ReadBody(kind.value, kind.rest, out);
            && kind.value < 4 && |kind.rest| < |bits|
            && ReadStream(bits, out) == if !b.Got? || fin.value != 0 then b else ReadStream(b.rest, b.value)
  {
    hide ReadBody;
    PowerTable(2);
  }

  /** What is read as a stream leaves less than its flag and its type leave. */
  lemma StreamLeaves(bits: seq<bool>, out: seq<byte>)
    ensures var r := ReadStream(bits, out); var fin := ReadNumber(1, bits);
            r.Got? ==> fin.Got? && ReadNumber(2, fin.rest).Got? && |r.rest| <= |ReadNumber(2, fin.rest).rest|
  {
    hide ReadBody, ToBits, Pow2;
  }

  lemma NoBytes(bits: seq<bool>)
    ensures BytesBits([]) + bits == bits
  {
  }

  /** The first byte of the remaining input follows those taken. */
  lemma NextByte(taken: seq<byte>, input: seq<byte>, pos: nat)
    requires pos < |input|
    ensures BytesBits(taken) + BytesBits(input[pos..])
            == BytesBits(taken + [input[pos]]) + BytesBits(input[pos + 1..])
  {
    hide BytesBits;
    assert input[pos..] == [input[pos]] + input[pos + 1..];
    BytesConcat([input[pos]], input[pos + 1..]);
    BytesConcat(taken, [input[pos]]);
    Glue2(BytesBits(taken), BytesBits([input[pos]]), BytesBits(input[pos + 1..]));
  }

  lemma AllRead(taken: seq<byte>, left: seq<byte>)
    requires |taken| < 4 && left == []
    ensures |BytesBits(taken) + BytesBits(left)| < SPARE_BITS
  {
  }

  lemma TooFewBytes(bits: seq<bool>)
    requires |bits| < SPARE_BITS && |bits| % 8 == 0
    ensures |ToBytes(bits)| < 4
  {
    assert |BytesBits(ToBytes(bits))| == |bits|;
  }

  /** The byte at the bottom of the buffer follows those taken. */
  lemma TakeByte(taken: seq<byte>, v: nat, num: nat, rest: seq<bool>)
    requires v < Pow2(num) && num >= 8
    ensures And(v, 0xFF) < 256 && Shr(v, 8) < Pow2(num - 8)
    ensures BytesBits(taken) + (ToBits(v, num) + rest)
            == BytesBits(taken + [And(v, 0xFF)]) + (ToBits(Shr(v, 8), num - 8) + rest)
  {
    hide ToBits, Pow2, And, Shr, BytesBits;
    PowerTable(8);
    TakeBits(v, num, 8, rest);
    var bits := ToBits(v, num) + rest;
    assert bits == bits[..8] + bits[8..];
    OneByte(And(v, 0xFF));
    BytesConcat(taken, [And(v, 0xFF)]);
    Glue2(BytesBits(taken), BytesBits([And(v, 0xFF)]), bits[8..]);
  }

  lemma OneByte(b: byte)
    ensures BytesBits([b]) == ToBits(b, 8)
  {
  }
}
