/** The character table of a font: glyph records in code point order, with run-length codes for the
    code points that have none. The walk over it is a lookup in the expanded table. */
module GlyphTable {
  import opened Bytes
  import opened Wrappers

  const CODE_POINTS := 0x110000
  const LIG_FIRST := 0xF000

  function ByteAt(t: seq<byte>, p: nat): (b: nat)
    requires p < |t|
    ensures b < 256
  {
    t[p]
  }

  /** The bytes of the entry at `p` that the walk looks at are there. */
  predicate Readable(t: seq<byte>, p: nat)
  {
    p < |t| && (ByteAt(t, p) == 0xFF || 0x80 <= ByteAt(t, p) < 0xC0 || p + 1 < |t|)
  }

  /** How many slots of the expanded table the entry at `p` stands for. */
  function Slots(t: seq<byte>, p: nat): nat
    requires Readable(t, p)
  {
    if ByteAt(t, p) == 0xFF then 65536
    else if ByteAt(t, p) >= 0xC0 then (ByteAt(t, p) - 0xC0) * 256 + ByteAt(t, p + 1) + 1
    else if ByteAt(t, p) >= 0x80 then ByteAt(t, p) - 0x80 + 1
    else 1
  }

  /** How many bytes the entry takes. */
  function Size(t: seq<byte>, p: nat): nat
    requires Readable(t, p)
  {
    if ByteAt(t, p) == 0xFF then 1
    else if ByteAt(t, p) >= 0xC0 then 2
    else if ByteAt(t, p) >= 0x80 then 1
    else 6 + ByteAt(t, p + 1) * (if ByteAt(t, p) >= 0x40 then 6 else 5)
  }

  predicate IsGlyph(t: seq<byte>, p: nat)
    requires p < |t|
  {
    ByteAt(t, p) < 0x80
  }

  /** The entries from `p` on, the first standing for code point `i`, reach the end of the code points
      inside the table. */
  predicate WellFormed(t: seq<byte>, p: nat, i: nat)
    decreases CODE_POINTS - i
  {
    i >= CODE_POINTS || (Readable(t, p) && WellFormed(t, p + Size(t, p), i + Slots(t, p)))
  }

  /** The expanded table: for each code point from `i` the position of its glyph record, if any. */
  function Expand(t: seq<byte>, p: nat, i: nat): (s: seq<Option<nat>>)
    requires WellFormed(t, p, i)
    ensures |s| >= CODE_POINTS - i
    decreases CODE_POINTS - i
  {
    if i >= CODE_POINTS then []
    else
      (if IsGlyph(t, p) then [Some(p)] else Empty(Slots(t, p)))
      + Expand(t, p + Size(t, p), i + Slots(t, p))
  }

  function Empty(n: nat): (s: seq<Option<nat>>)
    ensures |s| == n && forall k :: 0 <= k < n ==> s[k] == None
  {
    if n == 0 then [] else [None] + Empty(n - 1)
  }

  /** The record of code point `u` in the expanded table. */
  function Lookup(t: seq<byte>, u: nat): Option<nat>
    requires WellFormed(t, 0, 0)
  {
    if u < CODE_POINTS then Expand(t, 0, 0)[u] else None
  }

  /** There is nothing past the last code point. */
  lemma PastTheLast(t: seq<byte>, u: nat)
    requires WellFormed(t, 0, 0)
    ensures u >= 0x110000 ==> Lookup(t, u) == None
    ensures u < 0x110000 ==> Lookup(t, u) == Expand(t, 0, 0)[u]
  {
  }

  /** One entry of the expanded table: inside it the code points have no glyph or this one, after it
      the table goes on. */
  lemma EntryOf(t: seq<byte>, p: nat, i: nat, u: nat)
    requires WellFormed(t, p, i) && i < CODE_POINTS && i <= u < CODE_POINTS
    ensures Readable(t, p) && WellFormed(t, p + Size(t, p), i + Slots(t, p))
    ensures Expand(t, p, i)[u - i]
            == if u < i + Slots(t, p) then (if IsGlyph(t, p) then Some(p) else None)
               else Expand(t, p + Size(t, p), i + Slots(t, p))[u - (i + Slots(t, p))]
  {
  }

  /** The walk over the table, up to the record of `u` or past the last code point. */
  method Walk(t: seq<byte>, u: nat) returns (chr: Option<nat>)
    requires WellFormed(t, 0, 0)
    ensures chr == Lookup(t, u)
  {
    hide Expand, WellFormed, Slots, Size;
    var ptr: nat, i: nat := 0, 0;
    while i < CODE_POINTS
      invariant WellFormed(t, ptr, i)
      invariant Lookup(t, u) == if i <= u < CODE_POINTS then Expand(t, ptr, i)[u - i] else None
      decreases CODE_POINTS - i
    {
      EntryIs(t, ptr, i);
      if i <= u < CODE_POINTS { EntryOf(t, ptr, i, u); }
      if ByteAt(t, ptr) == 0xFF {
        i := i + 65535;
        ptr := ptr + 1;
      } else if ByteAt(t, ptr) / 64 == 3 {
        var j := ByteAt(t, ptr) % 64 * 256 + ByteAt(t, ptr + 1);
        i := i + j;
        ptr := ptr + 2;
      } else if ByteAt(t, ptr) / 64 == 2 {
        var j := ByteAt(t, ptr) % 64;
        i := i + j;
        ptr := ptr + 1;
      } else {
        if i == u {
          return Some(ptr);
        }
        ptr := ptr + 6 + ByteAt(t, ptr + 1) * (if ByteAt(t, ptr) / 64 % 2 == 1 then 6 else 5);
      }
      i := i + 1;
    }
    return None;
  }

  lemma EntryIs(t: seq<byte>, p: nat, i: nat)
    requires WellFormed(t, p, i) && i < CODE_POINTS
    ensures Readable(t, p) && WellFormed(t, p + Size(t, p), i + Slots(t, p)) && Slots(t, p) > 0
    ensures ByteAt(t, p) == 0xFF ==> Slots(t, p) == 65536 && Size(t, p) == 1
    ensures ByteAt(t, p) != 0xFF && ByteAt(t, p) / 64 == 3 ==>
            Slots(t, p) == ByteAt(t, p) % 64 * 256 + ByteAt(t, p + 1) + 1 && Size(t, p) == 2
    ensures ByteAt(t, p) / 64 == 2 ==> Slots(t, p) == ByteAt(t, p) % 64 + 1 && Size(t, p) == 1
    ensures ByteAt(t, p) / 64 < 2 ==>
            Slots(t, p) == 1 && Size(t, p) == 6 + ByteAt(t, p + 1) * (if ByteAt(t, p) / 64 % 2 == 1 then 6 else 5)
    ensures IsGlyph(t, p) <==> ByteAt(t, p) / 64 < 2
  {
  }

  // ---- strings ----

  /** How many bytes the UTF-8 sequence takes that starts with `b`, as the decoder reads it. */
  function Utf8Length(b: nat): nat
  {
    if b < 128 then 1 else if b / 32 % 2 == 0 then 2 else if b / 16 % 2 == 0 then 3 else if b / 8 % 2 == 0 then 4 else 1
  }

  /** The code point that four bytes start with; 0 for a byte that starts no sequence. */
  function DecodeBytes(b: nat, b1: nat, b2: nat, b3: nat): nat
  {
    if b < 128 then b
    else if b / 32 % 2 == 0 then b % 32 * 64 + b1 % 64
    else if b / 16 % 2 == 0 then b % 16 * 4096 + b1 % 64 * 64 + b2 % 64
    else if b / 8 % 2 == 0 then b % 8 * 262144 + b1 % 64 * 4096 + b2 % 64 * 64 + b3 % 64
    else 0
  }

  /** The code point at the start of a string, which holds as many bytes as its first one asks for. */
  function Decode(s: seq<byte>): nat
    requires s != [] && |s| >= Utf8Length(ByteAt(s, 0))
  {
    var n := Utf8Length(ByteAt(s, 0));
    DecodeBytes(ByteAt(s, 0), if n > 1 then ByteAt(s, 1) else 0,
        if n > 2 then ByteAt(s, 2) else 0, if n > 3 then ByteAt(s, 3) else 0)
  }

  /** UTF-8 (RFC 3629, section 3). */
  function Encode(u: nat): seq<byte>
    requires u < CODE_POINTS
  {
    if u < 0x80 then [u]
    else if u < 0x800 then [0xC0 + u / 64, 0x80 + u % 64]
    else if u < 0x1_0000 then [0xE0 + u / 4096, 0x80 + u / 64 % 64, 0x80 + u % 64]
    else [0xF0 + u / 262144, 0x80 + u / 4096 % 64, 0x80 + u / 64 % 64, 0x80 + u % 64]
  }

  /** The examples of RFC 3629, section 7, and one byte for ASCII. */
  lemma EncodedExamples(b: nat)
    requires b < 128
    ensures Encode(b) == [b] && Encode(0x0391) == [0xCE, 0x91] && Encode(0x2262) == [0xE2, 0x89, 0xA2]
    ensures Encode(0x233B4) == [0xF0, 0xA3, 0x8E, 0xB4]
    ensures Encode(0xD55C) == [0xED, 0x95, 0x9C] && Encode(0x65E5) == [0xE6, 0x97, 0xA5]
  {
  }

  /** Every first byte, well formed or not: bits 7, 5, 4 and 3 say how many bytes are taken. */
  lemma FirstByte(b: nat)
    requires b < 256
    ensures Utf8Length(b) == if b < 128 then 1
                             else if b / 32 % 2 == 0 then 2
                             else if b / 16 % 2 == 0 then 3
                             else if b / 8 % 2 == 0 then 4 else 1
    ensures b >= 248 || (240 <= b && b / 8 % 2 == 1) ==> DecodeBytes(b, 0, 0, 0) == 0
  {
  }

  lemma TwoBytes(x: nat, y: nat)
    requires 2 <= x < 32 && y < 64
    ensures Utf8Length(0xC0 + x) == 2 && DecodeBytes(0xC0 + x, 0x80 + y, 0, 0) == x * 64 + y
  {
  }

  lemma ThreeBytes(x: nat, y: nat, z: nat)
    requires x < 16 && y < 64 && z < 64
    ensures Utf8Length(0xE0 + x) == 3 && DecodeBytes(0xE0 + x, 0x80 + y, 0x80 + z, 0) == x * 4096 + y * 64 + z
  {
    assert (0xE0 + x) / 32 == 7 && (0xE0 + x) / 16 == 14;
  }

  lemma FourBytes(x: nat, y: nat, z: nat, w: nat)
    requires x < 8 && y < 64 && z < 64 && w < 64
    ensures Utf8Length(0xF0 + x) == 4
    ensures DecodeBytes(0xF0 + x, 0x80 + y, 0x80 + z, 0x80 + w) == x * 262144 + y * 4096 + z * 64 + w
  {
    assert (0xF0 + x) / 32 == 7 && (0xF0 + x) / 16 == 15 && (0xF0 + x) / 8 == 30;
  }

  /** The digits of a code point in base 64. */
  lemma Digits64(u: nat)
    ensures u == u / 64 * 64 + u % 64 == u / 4096 * 4096 + u / 64 % 64 * 64 + u % 64
    ensures u == u / 262144 * 262144 + u / 4096 % 64 * 4096 + u / 64 % 64 * 64 + u % 64
  {
    var v := u / 64;
    assert u / 4096 == v / 64;
    var w := v / 64;
    assert u / 262144 == w / 64;
    assert u == v * 64 + u % 64 && v == w * 64 + v % 64 && w == w / 64 * 64 + w % 64;
  }

  /** Decoding finds the code point that was encoded, whatever follows it. */
  lemma DecodeEncoded(u: nat, rest: seq<byte>)
    requires u < CODE_POINTS
    ensures var s := Encode(u) + rest;
            |s| >= Utf8Length(ByteAt(s, 0)) && Decode(s) == u && Utf8Length(ByteAt(s, 0)) == |Encode(u)|
  {
    hide DecodeBytes, Utf8Length;
    Digits64(u);
    if u < 0x80 {
      OneByte(u);
    } else if u < 0x800 {
      TwoBytes(u / 64, u % 64);
    } else if u < 0x1_0000 {
      ThreeBytes(u / 4096, u / 64 % 64, u % 64);
    } else {
      FourBytes(u / 262144, u / 4096 % 64, u / 64 % 64, u % 64);
    }
  }

  lemma OneByte(b: nat)
    requires b < 128
    ensures Utf8Length(b) == 1 && DecodeBytes(b, 0, 0, 0) == b
  {
  }

  /** The first ligature of a list that a string starts with, the list's length when there is none. */
  function LigatureOf(ligatures: seq<CString>, s: seq<byte>): (i: nat)
    ensures i <= |ligatures|
    ensures i < |ligatures| ==> ligatures[i] <= s
    ensures forall k :: 0 <= k < i ==> !(ligatures[k] <= s)
  {
    if ligatures == [] || ligatures[0] <= s then 0
    else
      var i := LigatureOf(ligatures[1..], s);
      assert forall k :: 0 < k < i + 1 ==> ligatures[k] == ligatures[1..][k - 1];
      i + 1
  }

  /** Does the string start with this ligature? */
  method StartsWith(s: seq<byte>, lig: CString) returns (yes: bool)
    ensures yes <==> lig <= s
  {
    var k := 0;
    while k < |lig| && k < |s| && lig[k] == s[k]
      invariant 0 <= k <= |lig| && k <= |s| && lig[..k] == s[..k]
    {
      k := k + 1;
    }
    yes := k == |lig|;
    if yes {
      assert lig == s[..k];
    } else {
      Mismatch(lig, s, k);
    }
  }

  lemma Mismatch(lig: seq<byte>, s: seq<byte>, k: nat)
    requires k < |lig| && (k >= |s| || lig[k] != s[k])
    ensures !(lig <= s)
  {
  }

  /** The glyph of the start of a string, how many bytes it takes and its code point (_ssfn_c). */
  method GlyphOf(t: seq<byte>, ligatures: seq<CString>, s: CString) returns (chr: Option<nat>, len: nat, unicode: nat)
    requires WellFormed(t, 0, 0) && (s != [] ==> |s| >= Utf8Length(ByteAt(s, 0)))
    ensures s == [] ==> chr == None && len == 0 && unicode == 0
    ensures s != [] && LigatureOf(ligatures, s) < |ligatures| ==>
              var i := LigatureOf(ligatures, s);
              unicode == 0xF000 + i && len == |ligatures[i]| && chr == Lookup(t, 0xF000 + i)
    ensures s != [] && LigatureOf(ligatures, s) == |ligatures| ==>
              unicode == Decode(s) && len == Utf8Length(ByteAt(s, 0)) && chr == Lookup(t, Decode(s))
  {
    hide Lookup, WellFormed, LigatureOf;
    if s == [] {
      return None, 0, 0;
    }
    var i := 0;
    while i < |ligatures|
      invariant 0 <= i <= |ligatures| && forall k :: 0 <= k < i ==> !(ligatures[k] <= s)
    {
      var found := StartsWith(s, ligatures[i]);
      if found {
        break;
      }
      i := i + 1;
    }
    LigatureIs(ligatures, s, i);
    if i < |ligatures| {
      unicode, len := LIG_FIRST + i, |ligatures[i]|;
    } else {
      unicode, len := Decode(s), Utf8Length(ByteAt(s, 0));
    }
    chr := Walk(t, unicode);
  }

  lemma {:induction false} LigatureIs(ligatures: seq<CString>, s: seq<byte>, i: nat)
    requires i <= |ligatures| && (i < |ligatures| ==> ligatures[i] <= s)
    requires forall k :: 0 <= k < i ==> !(ligatures[k] <= s)
    ensures LigatureOf(ligatures, s) == i
  {
  }

  /** The walk of the console renderer, which stops at the record instead of returning it (ssfn_putc). */
  method FindForPutc(t: seq<byte>, u: nat) returns (chr: Option<nat>)
    requires WellFormed(t, 0, 0)
    ensures chr == Lookup(t, u)
  {
    hide Expand, WellFormed, Slots, Size;
    chr := None;
    var ptr: nat, i: nat := 0, 0;
    while i < CODE_POINTS
      invariant WellFormed(t, ptr, i) && chr == None
      invariant Lookup(t, u) == if i <= u < CODE_POINTS then Expand(t, ptr, i)[u - i] else None
      decreases CODE_POINTS - i
    {
      EntryIs(t, ptr, i);
      if i <= u < CODE_POINTS { EntryOf(t, ptr, i, u); }
      var b := ByteAt(t, ptr);
      if b == 0xFF {
        i, ptr := i + 65535, ptr + 1;
      } else if b / 64 == 3 {
        i, ptr := i + (b % 64 * 256 + ByteAt(t, ptr + 1)), ptr + 2;
      } else if b / 64 == 2 {
        i, ptr := i + b % 64, ptr + 1;
      } else {
        if i == u {
          chr := Some(ptr);
          break;
        }
        ptr := ptr + 6 + ByteAt(t, ptr + 1) * (if b / 64 % 2 == 1 then 6 else 5);
      }
      i := i + 1;
    }
  }

  /** For a string that starts with the encoding of a code point and with no ligature, _ssfn_c finds the
      glyph that ssfn_putc finds for that code point, and both find the one in the expanded table. */
  method BothLookups(t: seq<byte>, ligatures: seq<CString>, u: nat,
      rest: CString) returns (a: Option<nat>, b: Option<nat>)
    requires WellFormed(t, 0, 0) && 0 < u < CODE_POINTS
    requires LigatureOf(ligatures, Encode(u) + rest) == |ligatures|
    ensures a == b == Expand(t, 0, 0)[u]
  {
    DecodeEncoded(u, rest);
    var s := Encode(u) + rest;
    NoNul(u, rest);
    var len, unicode;
    a, len, unicode := GlyphOf(t, ligatures, s);
    b := FindForPutc(t, u);
  }

  lemma NoNul(u: nat, rest: CString)
    requires 0 < u < CODE_POINTS
    ensures 0 !in Encode(u) + rest
  {
    assert 0 !in Encode(u);
  }
}
