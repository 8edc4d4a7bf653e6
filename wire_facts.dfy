/**
 * What the tag table promises, stated about the reference decoder: the
 * one-byte forms, the container headers and their counts, the raw lengths,
 * the rejected sizes and tags, that more input never changes a decoded
 * token, and that every token decodes back from its encoding.
 */
module WireFacts {
  import opened Wire

  // The one-byte forms: no payload follows the tag.

  /** A tag with the top bit clear is the integer 0..127 itself. */
  lemma PositiveFixnumTag(input: seq<byte>, p: nat)
    requires p < |input| && input[p] < 0x80
    ensures DecodeToken(input, p) == Ok((Int(input[p] as int), p + 1))
  {
  }

  /** A tag with the top three bits set is the integer -32..-1 its bits give as a signed byte. */
  lemma NegativeFixnumTag(input: seq<byte>, p: nat)
    requires p < |input| && 0xe0 <= input[p]
    ensures DecodeToken(input, p) == Ok((Int(input[p] as int - 0x100), p + 1))
    ensures -0x20 <= input[p] as int - 0x100 <= -1
  {
  }

  /** Exactly the tag 0xc0 reads as nil, and it is one byte long. */
  lemma NilTag(input: seq<byte>, p: nat)
    requires p < |input|
    ensures (DecodeToken(input, p).Ok? && DecodeToken(input, p).value.0 == Nil) <==> input[p] == 0xc0
    ensures input[p] == 0xc0 ==> DecodeToken(input, p) == Ok((Nil, p + 1))
  {
  }

  /** Exactly the tags 0xc2 and 0xc3 read as false and true, and they are one byte long. */
  lemma BoolTags(input: seq<byte>, p: nat, b: bool)
    requires p < |input|
    ensures (DecodeToken(input, p).Ok? && DecodeToken(input, p).value.0 == Bool(b)) <==>
      input[p] == (if b then 0xc3 else 0xc2)
    ensures input[p] == (if b then 0xc3 else 0xc2) ==> DecodeToken(input, p) == Ok((Bool(b), p + 1))
  {
  }

  /** The tags outside the table: 0xc1, 0xc4 to 0xc9 and 0xd4 to 0xd9. */
  lemma InvalidTags(b: byte)
    ensures Classify(b).Invalid? <==> b == 0xc1 || 0xc4 <= b <= 0xc9 || 0xd4 <= b <= 0xd9
  {
  }

  /** A tag outside the table fails whatever follows it. */
  lemma InvalidTagFails(input: seq<byte>, p: nat)
    requires p < |input|
    requires input[p] == 0xc1 || 0xc4 <= input[p] <= 0xc9 || 0xd4 <= input[p] <= 0xd9
    ensures DecodeToken(input, p) == Err(InvalidByte)
  {
    InvalidTags(input[p]);
  }

  // Fields.

  /** The first byte of a big-endian field weighs 256 to the power of the bytes after it. */
  lemma {:induction false} UnsignedFront(s: seq<byte>)
    requires |s| > 0
    ensures Unsigned(s) == s[0] as nat * Pow256(|s| - 1) + Unsigned(s[1..])
  {
    if |s| > 1 {
      var init := s[..|s| - 1];
      UnsignedFront(init);
      assert init[1..] == s[1..][..|s| - 2];
      var a, p2, u1 := s[0] as nat, Pow256(|s| - 2), Unsigned(init[1..]);
      assert Unsigned(s) == (a * p2 + u1) * 256 + s[|s| - 1] as nat;
      assert Unsigned(s[1..]) == u1 * 256 + s[|s| - 1] as nat;
      ShiftField(a, p2, u1);
    } else {
      assert s[1..] == [];
      assert s[..0] == [];
    }
  }

  lemma ShiftField(a: nat, p: nat, u: nat)
    ensures (a * p + u) * 256 == a * (p * 256) + u * 256
  {
  }

  /** With u < p, the value a * p + u is in the upper half of 256 * p exactly when a is. */
  lemma UpperHalf(a: nat, p: nat, u: nat)
    requires a < 0x100 && u < p
    ensures 2 * (a * p + u) < 256 * p <==> a < 0x80
  {
    if 0x80 <= a {
      var d: nat := a - 0x80;
      assert a * p == 0x80 * p + d * p;
    } else {
      var d: nat := 0x7f - a;
      assert a * p + d * p == 0x7f * p;
    }
  }

  /** A two's-complement field is negative exactly when the top bit of its first byte is set. */
  lemma SignBit(s: seq<byte>)
    requires |s| > 0
    ensures Signed(s) < 0 <==> 0x80 <= s[0]
  {
    UnsignedFront(s);
    assert Pow256(|s|) == 256 * Pow256(|s| - 1);
    UpperHalf(s[0] as nat, Pow256(|s| - 1), Unsigned(s[1..]));
  }

  lemma TwoByteField(s: seq<byte>)
    requires |s| == 2
    ensures Unsigned(s) == s[0] as nat * 0x100 + s[1] as nat
  {
    assert s[..1][..0] == [];
  }

  // Container headers.

  /** A fixmap or fixarray tag carries its count in its low four bits and has no payload. */
  lemma FixContainerTag(input: seq<byte>, p: nat)
    requires p < |input| && 0x80 <= input[p] < 0xa0
    ensures DecodeToken(input, p) ==
      if input[p] < 0x90 then Ok((MapHeader(input[p] as nat - 0x80), p + 1))
      else Ok((ArrayHeader(input[p] as nat - 0x90), p + 1))
  {
  }

  /** array16 and map16 take their count from the full unsigned 16-bit field after the tag. */
  lemma Container16Tag(input: seq<byte>, p: nat)
    requires p + 3 <= |input| && (input[p] == 0xdc || input[p] == 0xde)
    ensures var n := input[p + 1] as nat * 0x100 + input[p + 2] as nat;
      DecodeToken(input, p) ==
        if input[p] == 0xdc then Ok((ArrayHeader(n), p + 3)) else Ok((MapHeader(n), p + 3))
  {
    TwoByteField(input[p + 1 .. p + 3]);
    DecodeFixedForm(input, p);
  }

  /**
   * array32 and map32 read their count as a Java int: a count with its sign
   * bit set is rejected, any other is taken in full.
   */
  lemma Container32Tag(input: seq<byte>, p: nat)
    requires p + 5 <= |input| && (input[p] == 0xdd || input[p] == 0xdf)
    ensures 0x80 <= input[p + 1] ==> DecodeToken(input, p) == Err(SizeTooLarge)
    ensures input[p + 1] < 0x80 ==> var n := Unsigned(input[p + 1 .. p + 5]);
      n < 0x8000_0000 &&
      DecodeToken(input, p) ==
        if input[p] == 0xdd then Ok((ArrayHeader(n), p + 5)) else Ok((MapHeader(n), p + 5))
  {
    var field := input[p + 1 .. p + 5];
    SignBit(field);
    if input[p + 1] < 0x80 {
      Pow256Values();
      DecodeFixedForm(input, p);
    }
  }

  // Raw payloads.

  /** A fixraw tag carries its body length in its low five bits; the body follows the tag. */
  lemma FixRawTag(input: seq<byte>, p: nat)
    requires p < |input| && 0xa0 <= input[p] < 0xc0
    ensures var n := input[p] as nat - 0xa0;
      DecodeToken(input, p) ==
        if |input| - (p + 1) < n then Err(EndOfInput) else Ok((Raw(input[p + 1 .. p + 1 + n]), p + 1 + n))
  {
    DecodeRawForm(input, p);
  }

  /** raw16 takes its body length from the full unsigned 16-bit field after the tag. */
  lemma Raw16Tag(input: seq<byte>, p: nat)
    requires p + 3 <= |input| && input[p] == 0xda
    ensures var n := input[p + 1] as nat * 0x100 + input[p + 2] as nat;
      DecodeToken(input, p) ==
        if |input| - (p + 3) < n then Err(EndOfInput) else Ok((Raw(input[p + 3 .. p + 3 + n]), p + 3 + n))
  {
    TwoByteField(input[p + 1 .. p + 3]);
    DecodeRawForm(input, p);
  }

  /** raw32 rejects a length with its sign bit set before reading any body. */
  lemma Raw32Tag(input: seq<byte>, p: nat)
    requires p + 5 <= |input| && input[p] == 0xdb
    ensures 0x80 <= input[p + 1] ==> DecodeToken(input, p) == Err(SizeTooLarge)
    ensures input[p + 1] < 0x80 ==> var n := Unsigned(input[p + 1 .. p + 5]);
      DecodeToken(input, p) ==
        if |input| - (p + 5) < n then Err(EndOfInput) else Ok((Raw(input[p + 5 .. p + 5 + n]), p + 5 + n))
  {
    SignBit(input[p + 1 .. p + 5]);
    if input[p + 1] < 0x80 {
      DecodeRawForm(input, p);
    }
  }

  /** A decoded raw is exactly as long as its header declares, and the token ends with its body. */
  lemma RawExtent(input: seq<byte>, p: nat)
    requires DecodeToken(input, p).Ok? && DecodeToken(input, p).value.0.Raw?
    ensures var f := Classify(input[p]); var w := FieldWidth(f);
      IsRaw(f) && p + 1 + w <= |input| &&
      |DecodeToken(input, p).value.0.bytes| == RawLength(input[p], f, input[p + 1 .. p + 1 + w]) &&
      DecodeToken(input, p).value.1 == p + 1 + w + |DecodeToken(input, p).value.0.bytes|
  {
  }

  // Streaming.

  /**
   * Bytes that arrive later never change a token already complete, nor any
   * failure other than running out of input.
   */
  lemma DecodeExtend(input: seq<byte>, more: seq<byte>, p: nat)
    requires DecodeToken(input, p) != Err(EndOfInput)
    ensures DecodeToken(input + more, p) == DecodeToken(input, p)
  {
    var all := input + more;
    if p < |input| {
      var f := Classify(input[p]);
      var w := FieldWidth(f);
      assert all[p] == input[p];
      if !f.Invalid? && p + 1 + w <= |input| {
        assert all[p + 1 .. p + 1 + w] == input[p + 1 .. p + 1 + w];
        if IsRaw(f) {
          var n := RawLength(input[p], f, input[p + 1 .. p + 1 + w]);
          if p + 1 + w + n <= |input| {
            assert all[p + 1 + w .. p + 1 + w + n] == input[p + 1 + w .. p + 1 + w + n];
          }
        }
      }
    }
  }

  /** Likewise for a run of whole values: once it is complete, more input does not change where it ends. */
  lemma {:induction false} SkipValuesExtend(input: seq<byte>, more: seq<byte>, p: nat, n: nat)
    requires p <= |input| && SkipValues(input, p, n).Ok?
    ensures SkipValues(input + more, p, n) == SkipValues(input, p, n)
    decreases |input| - p
  {
    if n > 0 {
      var d := DecodeToken(input, p);
      DecodeExtend(input, more, p);
      match d
      case Ok((t, q)) =>
        SkipValuesStep(input, p, n, t, q);
        SkipValuesStep(input + more, p, n, t, q);
        SkipValuesExtend(input, more, q, n - 1 + Slots(t));
    }
  }

  // Encoding: the form a packer would write, used to state the round trip.

  /** The w-byte big-endian field holding n modulo 256 to the power w. */
  function ToBE(n: nat, w: nat): (r: seq<byte>)
    ensures |r| == w
  {
    if w == 0 then [] else ToBE(n / 0x100, w - 1) + [(n % 0x100) as byte]
  }

  lemma {:induction false} UnsignedToBE(n: nat, w: nat)
    requires n < Pow256(w)
    ensures Unsigned(ToBE(n, w)) == n
  {
    if w > 0 {
      var hi, lo := n / 0x100, n % 0x100;
      SplitLowByte(n, Pow256(w - 1));
      UnsignedToBE(hi, w - 1);
      var s := ToBE(n, w);
      assert s == ToBE(hi, w - 1) + [lo as byte];
      assert s[..|s| - 1] == ToBE(hi, w - 1);
    }
  }

  lemma SplitLowByte(n: nat, p: nat)
    requires n < 0x100 * p
    ensures n / 0x100 < p && (n / 0x100) * 0x100 + n % 0x100 == n
  {
  }

  /** The tokens a MessagePack stream of this revision can carry. */
  predicate Encodable(t: Token) {
    match t
    case Int(i) => -0x8000_0000_0000_0000 <= i < 0x8000_0000_0000_0000
    case UInt(u) => u < 0x1_0000_0000_0000_0000
    case Float32(bits) => |bits| == 4
    case Float64(bits) => |bits| == 8
    case Raw(bytes) => |bytes| < 0x8000_0000
    case ArrayHeader(n) => n < 0x8000_0000
    case MapHeader(n) => n < 0x8000_0000
    case _ => true
  }

  /** The w-byte two's-complement field of i, for i in the signed range of w bytes. */
  function TwosBE(i: int, w: nat): (r: seq<byte>)
    requires -(Pow256(w) as int) <= 2 * i < Pow256(w)
    ensures |r| == w
  {
    ToBE(if i < 0 then i + Pow256(w) else i, w)
  }

  /**
   * The encoding of a token: the smallest form that carries it. Fixnums,
   * fixraw and the fix containers where they fit; then integers in the
   * narrowest of int8/16/32/64 and unsigned ones in the narrowest of
   * uint8/16/32/64; sizes in 16 bits, then in 32.
   */
  function Encode(t: Token): (r: seq<byte>)
    requires Encodable(t)
    ensures |r| > 0
  {
    match t
    case Nil => [0xc0]
    case Bool(b) => [if b then 0xc3 else 0xc2]
    case Int(i) =>
      if 0 <= i < 0x80 then [i as byte]
      else if -0x20 <= i < 0 then [(i + 0x100) as byte]
      else if -0x80 <= i < 0x80 then [0xd0] + TwosBE(i, 1)
      else if -0x8000 <= i < 0x8000 then [0xd1] + TwosBE(i, 2)
      else if -0x8000_0000 <= i < 0x8000_0000 then [0xd2] + TwosBE(i, 4)
      else [0xd3] + TwosBE(i, 8)
    case UInt(u) =>
      if u < 0x100 then [0xcc] + ToBE(u, 1)
      else if u < 0x1_0000 then [0xcd] + ToBE(u, 2)
      else if u < 0x1_0000_0000 then [0xce] + ToBE(u, 4)
      else [0xcf] + ToBE(u, 8)
    case Float32(bits) => [0xca] + bits
    case Float64(bits) => [0xcb] + bits
    case Raw(bytes) =>
      if |bytes| < 0x20 then [(0xa0 + |bytes|) as byte] + bytes
      else if |bytes| < 0x1_0000 then [0xda] + ToBE(|bytes|, 2) + bytes
      else [0xdb] + ToBE(|bytes|, 4) + bytes
    case ArrayHeader(n) =>
      if n < 0x10 then [(0x90 + n) as byte]
      else if n < 0x1_0000 then [0xdc] + ToBE(n, 2)
      else [0xdd] + ToBE(n, 4)
    case MapHeader(n) =>
      if n < 0x10 then [(0x80 + n) as byte]
      else if n < 0x1_0000 then [0xde] + ToBE(n, 2)
      else [0xdf] + ToBE(n, 4)
  }

  /** A field written with ToBE is read back, whatever follows it. */
  lemma FieldAt(tag: byte, field: seq<byte>, tail: seq<byte>)
    ensures var input := [tag] + field + tail;
      input[0] == tag && input[1 .. 1 + |field|] == field && input[1 + |field| ..] == tail
  {
    var input := [tag] + field + tail;
    assert input[1 .. 1 + |field|] == field;
    assert input[1 + |field| ..] == tail;
  }

  /** A form without a body, written at the front: its token, ending after the field. */
  lemma FixedAt(tag: byte, field: seq<byte>, rest: seq<byte>)
    requires var f := Classify(tag); !f.Invalid? && !IsRaw(f) && !HasSignedSize(f) && |field| == FieldWidth(f)
    ensures DecodeToken([tag] + field + rest, 0) == Ok((FixedToken(Classify(tag), tag, field), 1 + |field|))
  {
    FieldAt(tag, field, rest);
    DecodeFixedForm([tag] + field + rest, 0);
  }

  /** uint8, uint16, uint32 and uint64 read back, unsigned, every value of their width. */
  lemma UnsignedForm(tag: byte, w: nat, u: nat, rest: seq<byte>)
    requires (tag == 0xcc && w == 1) || (tag == 0xcd && w == 2) || (tag == 0xce && w == 4) || (tag == 0xcf && w == 8)
    requires u < Pow256(w)
    ensures DecodeToken([tag] + ToBE(u, w) + rest, 0) == Ok((UInt(u), 1 + w))
  {
    UnsignedToBE(u, w);
    FixedAt(tag, ToBE(u, w), rest);
  }

  /** A two's-complement field reads back, as a Java integer, as the value written. */
  lemma SignedTwos(i: int, w: nat)
    requires -(Pow256(w) as int) <= 2 * i < Pow256(w)
    ensures Signed(TwosBE(i, w)) == i
  {
    var u := if i < 0 then i + Pow256(w) else i;
    UnsignedToBE(u, w);
  }

  /** int8, int16, int32 and int64 read back every value of their signed range. */
  lemma SignedForm(tag: byte, w: nat, i: int, rest: seq<byte>)
    requires (tag == 0xd0 && w == 1) || (tag == 0xd1 && w == 2) || (tag == 0xd2 && w == 4) || (tag == 0xd3 && w == 8)
    requires -(Pow256(w) as int) <= 2 * i < Pow256(w)
    ensures DecodeToken([tag] + TwosBE(i, w) + rest, 0) == Ok((Int(i), 1 + w))
  {
    SignedTwos(i, w);
    FixedAt(tag, TwosBE(i, w), rest);
  }

  lemma RoundTripInt(t: Token, rest: seq<byte>)
    requires t.Int? && Encodable(t)
    ensures DecodeToken(Encode(t) + rest, 0) == Ok((t, |Encode(t)|))
  {
    var i := t.i;
    Pow256Values();
    if -0x20 <= i < 0x80 {
    } else if -0x80 <= i < 0x80 {
      SignedForm(0xd0, 1, i, rest);
    } else if -0x8000 <= i < 0x8000 {
      SignedForm(0xd1, 2, i, rest);
    } else if -0x8000_0000 <= i < 0x8000_0000 {
      SignedForm(0xd2, 4, i, rest);
    } else {
      SignedForm(0xd3, 8, i, rest);
    }
  }

  lemma RoundTripUInt(t: Token, rest: seq<byte>)
    requires t.UInt? && Encodable(t)
    ensures DecodeToken(Encode(t) + rest, 0) == Ok((t, |Encode(t)|))
  {
    var u := t.u;
    Pow256Values();
    if u < 0x100 {
      UnsignedForm(0xcc, 1, u, rest);
    } else if u < 0x1_0000 {
      UnsignedForm(0xcd, 2, u, rest);
    } else if u < 0x1_0000_0000 {
      UnsignedForm(0xce, 4, u, rest);
    } else {
      UnsignedForm(0xcf, 8, u, rest);
    }
  }

  lemma RoundTripFloat(t: Token, rest: seq<byte>)
    requires (t.Float32? || t.Float64?) && Encodable(t)
    ensures DecodeToken(Encode(t) + rest, 0) == Ok((t, |Encode(t)|))
  {
    FieldAt(Encode(t)[0], t.bits, rest);
    DecodeFixedForm(Encode(t) + rest, 0);
  }

  /** A 32-bit size below 2 to the power 31 has the top bit of its first byte clear. */
  lemma SmallSize(n: nat)
    requires n < 0x8000_0000
    ensures ToBE(n, 4)[0] < 0x80 && Unsigned(ToBE(n, 4)) == n
  {
    Pow256Values();
    UnsignedToBE(n, 4);
    UnsignedFront(ToBE(n, 4));
  }

  lemma RoundTripRaw(t: Token, rest: seq<byte>)
    requires t.Raw? && Encodable(t)
    ensures DecodeToken(Encode(t) + rest, 0) == Ok((t, |Encode(t)|))
  {
    var bytes := t.bytes;
    var n := |bytes|;
    if n < 0x20 {
      FieldAt((0xa0 + n) as byte, bytes, rest);
      FixRawTag(Encode(t) + rest, 0);
    } else if n < 0x1_0000 {
      RoundTripRaw16(bytes, rest);
    } else {
      RoundTripRaw32(bytes, rest);
    }
  }

  /** Where the parts of an encoding sit in it. */
  lemma Layout(tag: byte, field: seq<byte>, body: seq<byte>, rest: seq<byte>)
    ensures var input := [tag] + field + body + rest;
      var s := 1 + |field|;
      |input| == s + |body| + |rest| && input[0] == tag &&
      input[1 .. s] == field && input[s .. s + |body|] == body
  {
    var input := [tag] + field + body + rest;
    assert input[1 .. 1 + |field|] == field;
    assert input[1 + |field| .. 1 + |field| + |body|] == body;
  }

  lemma RoundTripRaw16(bytes: seq<byte>, rest: seq<byte>)
    requires 0x20 <= |bytes| < 0x1_0000
    ensures DecodeToken([0xda] + ToBE(|bytes|, 2) + bytes + rest, 0) == Ok((Raw(bytes), 3 + |bytes|))
  {
    var n := |bytes|;
    Pow256Values();
    UnsignedToBE(n, 2);
    TwoByteField(ToBE(n, 2));
    Layout(0xda, ToBE(n, 2), bytes, rest);
    Raw16Tag([0xda] + ToBE(n, 2) + bytes + rest, 0);
  }

  lemma RoundTripRaw32(bytes: seq<byte>, rest: seq<byte>)
    requires 0x1_0000 <= |bytes| < 0x8000_0000
    ensures DecodeToken([0xdb] + ToBE(|bytes|, 4) + bytes + rest, 0) == Ok((Raw(bytes), 5 + |bytes|))
  {
    SmallSize(|bytes|);
    Raw32Layout([0xdb] + ToBE(|bytes|, 4) + bytes + rest, ToBE(|bytes|, 4), bytes, rest);
  }

  /** A raw32 whose length field has its top bit clear and counts the body that follows it. */
  lemma Raw32Layout(input: seq<byte>, field: seq<byte>, bytes: seq<byte>, rest: seq<byte>)
    requires |field| == 4 && field[0] < 0x80 && Unsigned(field) == |bytes|
    requires input == [0xdb] + field + bytes + rest
    ensures DecodeToken(input, 0) == Ok((Raw(bytes), 5 + |bytes|))
  {
    Layout(0xdb, field, bytes, rest);
    Raw32Tag(input, 0);
  }

  lemma RoundTripHeader(t: Token, rest: seq<byte>)
    requires (t.ArrayHeader? || t.MapHeader?) && Encodable(t)
    ensures DecodeToken(Encode(t) + rest, 0) == Ok((t, |Encode(t)|))
  {
    var n := if t.ArrayHeader? then t.count else t.pairs;
    var input := Encode(t) + rest;
    if n < 0x10 {
      FixContainerTag(input, 0);
    } else if n < 0x1_0000 {
      Pow256Values();
      UnsignedToBE(n, 2);
      Header16Layout(input, if t.ArrayHeader? then 0xdc else 0xde, ToBE(n, 2), rest);
    } else {
      SmallSize(n);
      Header32Layout(input, if t.ArrayHeader? then 0xdd else 0xdf, ToBE(n, 4), rest);
    }
  }

  /** An array16 or map16 header whose field holds its count. */
  lemma Header16Layout(input: seq<byte>, tag: byte, field: seq<byte>, rest: seq<byte>)
    requires (tag == 0xdc || tag == 0xde) && |field| == 2 && input == [tag] + field + rest
    ensures var n := Unsigned(field);
      DecodeToken(input, 0) == Ok((if tag == 0xdc then ArrayHeader(n) else MapHeader(n), 3))
  {
    Layout(tag, field, [], rest);
    TwoByteField(field);
    Container16Tag(input, 0);
  }

  /** An array32 or map32 header whose field holds its count with the top bit clear. */
  lemma Header32Layout(input: seq<byte>, tag: byte, field: seq<byte>, rest: seq<byte>)
    requires (tag == 0xdd || tag == 0xdf) && |field| == 4 && field[0] < 0x80 && input == [tag] + field + rest
    ensures var n := Unsigned(field);
      DecodeToken(input, 0) == Ok((if tag == 0xdd then ArrayHeader(n) else MapHeader(n), 5))
  {
    Layout(tag, field, [], rest);
    Container32Tag(input, 0);
  }

  /** Every token reads back from its encoding, and the read ends exactly where the encoding does. */
  lemma RoundTrip(t: Token, rest: seq<byte>)
    requires Encodable(t)
    ensures DecodeToken(Encode(t) + rest, 0) == Ok((t, |Encode(t)|))
  {
    if t.Int? {
      RoundTripInt(t, rest);
    } else if t.UInt? {
      RoundTripUInt(t, rest);
    } else if t.Raw? {
      RoundTripRaw(t, rest);
    } else if t.ArrayHeader? || t.MapHeader? {
      RoundTripHeader(t, rest);
    } else if t.Float32? || t.Float64? {
      RoundTripFloat(t, rest);
    }
  }
}
