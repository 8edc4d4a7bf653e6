/**
 * The original MessagePack wire format (fixint, fixraw, raw16 and raw32;
 * before the str and bin types) as the streaming unpacker reads it: the tag
 * table, the tokens it yields, and a pure reference decoder that reads one
 * token, or a run of whole values, from a byte sequence.
 */
module Wire {

  /** An octet of the stream; Java reads it as a signed byte, the model as its unsigned value. */
  newtype byte = x: int | 0 <= x < 0x100

  /** The unpacker's failures: IOException, EOFException and MessageTypeException in the source. */
  datatype Error =
    | EndOfInput       // the byte source ended before a tag, a field or a raw body was complete
    | InvalidByte      // a tag byte that is not in the format table
    | SizeTooLarge     // a 32-bit raw length, array count or map count with its sign bit set
    | TypeMismatch     // the token is not what the typed read asked for, or is out of its range
    | ValueIsEnd       // the innermost open container has no child slot left
    | NotInContainer   // an end call while the innermost open container is not of its kind
    | ContainerNotEnd  // a strict end call while children are left unread

  datatype Result<T> = Ok(value: T) | Err(error: Error)

  datatype Option<T> = None | Some(value: T)

  /** One wire unit. Floats keep their big-endian bits: their decoding is not modelled. */
  datatype Token =
    | Nil
    | Bool(b: bool)
    | Int(i: int)               // the fixnums and the signed families
    | UInt(u: nat)              // the unsigned families
    | Float32(bits: seq<byte>)
    | Float64(bits: seq<byte>)
    | Raw(bytes: seq<byte>)
    | ArrayHeader(count: nat)
    | MapHeader(pairs: nat)

  /** The rows of the tag table. */
  datatype Format =
    | PositiveFixnum | NegativeFixnum | FixRaw | FixArray | FixMap
    | NilTag | FalseTag | TrueTag | FloatTag | DoubleTag
    | UInt8 | UInt16 | UInt32 | UInt64 | Int8 | Int16 | Int32 | Int64
    | Raw16 | Raw32 | Array16 | Array32 | Map16 | Map32
    | Invalid

  /** The tag tests of the dispatcher, in the order the source makes them. */
  function Classify(b: byte): Format {
    if b < 0x80 then PositiveFixnum
    else if 0xe0 <= b then NegativeFixnum
    else if 0xa0 <= b < 0xc0 then FixRaw
    else if 0x90 <= b < 0xa0 then FixArray
    else if b < 0x90 then FixMap
    else match b as int
      case 0xc0 => NilTag
      case 0xc2 => FalseTag
      case 0xc3 => TrueTag
      case 0xca => FloatTag
      case 0xcb => DoubleTag
      case 0xcc => UInt8
      case 0xcd => UInt16
      case 0xce => UInt32
      case 0xcf => UInt64
      case 0xd0 => Int8
      case 0xd1 => Int16
      case 0xd2 => Int32
      case 0xd3 => Int64
      case 0xda => Raw16
      case 0xdb => Raw32
      case 0xdc => Array16
      case 0xdd => Array32
      case 0xde => Map16
      case 0xdf => Map32
      case _ => Invalid
  }

  /**
   * The range tests of Classify are the dispatcher's mask tests on the tag
   * byte, and the fixraw length and the fix container counts are its low bits.
   */
  lemma MaskTests(b: bv8)
    ensures (b & 0x80 == 0) <==> b < 0x80
    ensures (b & 0xe0 == 0xe0) <==> 0xe0 <= b
    ensures (b & 0xe0 == 0xa0) <==> 0xa0 <= b < 0xc0
    ensures (b & 0xf0 == 0x90) <==> 0x90 <= b < 0xa0
    ensures (b & 0xf0 == 0x80) <==> 0x80 <= b < 0x90
    ensures b & 0x1f == b % 0x20 && b & 0x0f == b % 0x10
  {
  }

  /** Width of the fixed field after the tag: a numeric payload, or a length or count. */
  function FieldWidth(f: Format): nat {
    match f
    case UInt8 | Int8 => 1
    case UInt16 | Int16 | Raw16 | Array16 | Map16 => 2
    case FloatTag | UInt32 | Int32 | Raw32 | Array32 | Map32 => 4
    case DoubleTag | UInt64 | Int64 => 8
    case _ => 0
  }

  predicate IsRaw(f: Format) {
    f.FixRaw? || f.Raw16? || f.Raw32?
  }

  /** The forms whose 32-bit size is read as a Java int and rejected when negative. */
  predicate HasSignedSize(f: Format) {
    f.Raw32? || f.Array32? || f.Map32?
  }

  function Pow256(n: nat): (r: nat)
    ensures r > 0
  {
    if n == 0 then 1 else 256 * Pow256(n - 1)
  }

  lemma Pow256Values()
    ensures Pow256(1) == 0x100 && Pow256(2) == 0x1_0000
    ensures Pow256(4) == 0x1_0000_0000 && Pow256(8) == 0x1_0000_0000_0000_0000
  {
  }

  /** The big-endian unsigned value of a field. */
  function Unsigned(s: seq<byte>): (r: nat)
    ensures r < Pow256(|s|)
  {
    if s == [] then 0 else Unsigned(s[..|s| - 1]) * 256 + s[|s| - 1] as nat
  }

  /** The big-endian two's-complement value of a field: Java's byte, short, int and long. */
  function Signed(s: seq<byte>): int {
    if 2 * Unsigned(s) < Pow256(|s|) then Unsigned(s) else Unsigned(s) - Pow256(|s|)
  }

  /** The declared body length of a raw: the low five bits of a fixraw tag, else the length field. */
  function RawLength(b: byte, f: Format, field: seq<byte>): nat {
    if f.FixRaw? then (b % 0x20) as nat else Unsigned(field)
  }

  /** The token of every form whose whole extent is the tag and its fixed field. */
  function FixedToken(f: Format, b: byte, field: seq<byte>): Token
    requires !IsRaw(f) && !f.Invalid?
  {
    match f
    case PositiveFixnum | NegativeFixnum => Int(Signed([b]))
    case FixArray => ArrayHeader((b % 0x10) as nat)
    case FixMap => MapHeader((b % 0x10) as nat)
    case NilTag => Nil
    case FalseTag => Bool(false)
    case TrueTag => Bool(true)
    case FloatTag => Float32(field)
    case DoubleTag => Float64(field)
    // The uint64 form is reported unsigned like the other unsigned forms (line 157 reports it signed).
    case UInt8 | UInt16 | UInt32 | UInt64 => UInt(Unsigned(field))
    case Int8 | Int16 | Int32 | Int64 => Int(Signed(field))
    // The 16-bit counts are read in full (lines 209 and 238 mask them with 0xff).
    case Array16 | Array32 => ArrayHeader(Unsigned(field))
    case Map16 | Map32 => MapHeader(Unsigned(field))
  }

  /**
   * The reference decoder: the token whose tag is input[p], and the index
   * just past it. It reads the whole token from a byte sequence at once; the
   * unpacker reads the same token incrementally.
   */
  function DecodeToken(input: seq<byte>, p: nat): (r: Result<(Token, nat)>)
    ensures r.Ok? ==> p < r.value.1 <= |input|
  {
    if |input| <= p then Err(EndOfInput)
    else
      var b := input[p];
      var f := Classify(b);
      if f.Invalid? then Err(InvalidByte)
      else
        var w := FieldWidth(f);
        if |input| - (p + 1) < w then Err(EndOfInput)
        else
          var field := input[p + 1 .. p + 1 + w];
          if HasSignedSize(f) && Signed(field) < 0 then Err(SizeTooLarge)
          else if IsRaw(f) then
            var n := RawLength(b, f, field);
            if |input| - (p + 1 + w) < n then Err(EndOfInput)
            else Ok((Raw(input[p + 1 + w .. p + 1 + w + n]), p + 1 + w + n))
          else Ok((FixedToken(f, b, field), p + 1 + w))
  }

  // DecodeToken, one branch at a time.

  lemma DecodeInvalid(input: seq<byte>, p: nat)
    requires p < |input| && Classify(input[p]).Invalid?
    ensures DecodeToken(input, p) == Err(InvalidByte)
  {
  }

  lemma DecodeShortField(input: seq<byte>, p: nat)
    requires p < |input| && !Classify(input[p]).Invalid?
    requires |input| - (p + 1) < FieldWidth(Classify(input[p]))
    ensures DecodeToken(input, p) == Err(EndOfInput)
  {
  }

  lemma DecodeNegativeSize(input: seq<byte>, p: nat)
    requires p < |input| && HasSignedSize(Classify(input[p]))
    requires p + 1 + FieldWidth(Classify(input[p])) <= |input|
    requires Signed(input[p + 1 .. p + 1 + FieldWidth(Classify(input[p]))]) < 0
    ensures DecodeToken(input, p) == Err(SizeTooLarge)
  {
  }

  lemma DecodeFixedForm(input: seq<byte>, p: nat)
    requires p < |input|
    requires var f := Classify(input[p]); !f.Invalid? && !IsRaw(f) && p + 1 + FieldWidth(f) <= |input|
    requires var f := Classify(input[p]); !(HasSignedSize(f) && Signed(input[p + 1 .. p + 1 + FieldWidth(f)]) < 0)
    ensures var f := Classify(input[p]); var q := p + 1 + FieldWidth(f);
      DecodeToken(input, p) == Ok((FixedToken(f, input[p], input[p + 1 .. q]), q))
  {
  }

  lemma DecodeRawForm(input: seq<byte>, p: nat)
    requires p < |input|
    requires var f := Classify(input[p]); IsRaw(f) && p + 1 + FieldWidth(f) <= |input|
    requires var f := Classify(input[p]); !(HasSignedSize(f) && Signed(input[p + 1 .. p + 1 + FieldWidth(f)]) < 0)
    ensures var f := Classify(input[p]); var s := p + 1 + FieldWidth(f);
      var n := RawLength(input[p], f, input[p + 1 .. s]);
      DecodeToken(input, p) ==
        if |input| - s < n then Err(EndOfInput) else Ok((Raw(input[s .. s + n]), s + n))
  {
  }

  /** Child slots a token opens: its count for an array, keys and values for a map. */
  function Slots(t: Token): nat {
    match t
    case ArrayHeader(n) => n
    case MapHeader(n) => 2 * n
    case _ => 0
  }

  /**
   * The index just past n consecutive whole values starting at p, a container
   * counting as one value together with all of its children.
   */
  function SkipValues(input: seq<byte>, p: nat, n: nat): (r: Result<nat>)
    requires p <= |input|
    ensures r.Ok? ==> p <= r.value <= |input| && (n > 0 ==> p < r.value)
    decreases |input| - p
  {
    if n == 0 then Ok(p)
    else match DecodeToken(input, p)
      case Err(e) => Err(e)
      case Ok((t, q)) => SkipValues(input, q, n - 1 + Slots(t))
  }

  /** Skipping n > 0 values from p: the token at p, then the rest and the children it opens. */
  lemma SkipValuesStep(input: seq<byte>, p: nat, n: nat, t: Token, q: nat)
    requires p <= |input| && n > 0 && DecodeToken(input, p) == Ok((t, q))
    ensures SkipValues(input, p, n) == SkipValues(input, q, n - 1 + Slots(t))
  {
  }

  /** Skipping n > 0 values fails as the token at p fails. */
  lemma SkipValuesFails(input: seq<byte>, p: nat, n: nat)
    requires p <= |input| && n > 0 && DecodeToken(input, p).Err?
    ensures SkipValues(input, p, n) == Err(DecodeToken(input, p).error)
  {
  }

  /** Skipping m + n values is skipping m values and then n more. */
  lemma {:induction false} SkipValuesSplit(input: seq<byte>, p: nat, m: nat, n: nat)
    requires p <= |input|
    ensures SkipValues(input, p, m + n) ==
      match SkipValues(input, p, m)
      case Err(e) => Err(e)
      case Ok(q) => SkipValues(input, q, n)
    decreases |input| - p
  {
    if m > 0 {
      match DecodeToken(input, p)
      case Err(e) =>
      case Ok((t, q)) =>
        assert m + n - 1 + Slots(t) == (m - 1 + Slots(t)) + n;
        SkipValuesSplit(input, q, m - 1 + Slots(t), n);
    }
  }

  /** Skipping n > 0 values is skipping the first one and then n - 1 more. */
  lemma SkipValuesFirst(input: seq<byte>, p: nat, n: nat)
    requires p <= |input| && n > 0
    ensures SkipValues(input, p, n) ==
      match SkipValues(input, p, 1)
      case Err(e) => Err(e)
      case Ok(q) => SkipValues(input, q, n - 1)
  {
    SkipValuesSplit(input, p, 1, n - 1);
  }
}
