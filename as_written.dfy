/**
 * Places where the unpacker's text does something other than what its
 * surroundings evidently intend. Each is modelled here as written, with an
 * input on which it departs from the intended behaviour; the rest of the
 * model (modules Wire and Unpackers) follows the intended behaviour.
 */
module AsWritten {
  import opened Wire
  import opened Frames
  import opened WireFacts

  // Lines 209 and 238: the 16-bit array and map counts are masked with 0xff.

  /** The count array16 and map16 take as written: Java's short of the field, masked with 0xff. */
  function Count16AsWritten(field: seq<byte>): nat
    requires |field| == 2
  {
    Signed(field) % 0x100
  }

  /** As written, the count keeps only the low byte of the field, so it is right exactly when the high byte is zero. */
  lemma Count16Truncates(field: seq<byte>)
    requires |field| == 2
    ensures Count16AsWritten(field) == field[1] as nat
    ensures Count16AsWritten(field) == Unsigned(field) <==> field[0] == 0
  {
    TwoByteField(field);
    Pow256Values();
    assert Signed(field) == Unsigned(field) || Signed(field) == Unsigned(field) - 0x1_0000;
    assert Unsigned(field) == field[0] as nat * 0x100 + field[1] as nat;
  }

  /** [0xdc, 0x01, 0x00] is an array of 256 elements; as written it opens an empty array. */
  lemma Array16Counterexample()
    ensures Count16AsWritten([0x01, 0x00]) == 0
    ensures DecodeToken([0xdc, 0x01, 0x00], 0) == Ok((ArrayHeader(0x100), 3))
  {
    Count16Truncates([0x01, 0x00]);
    Container16Tag([0xdc, 0x01, 0x00], 0);
  }

  // Lines 281-282: the fill count is decreased, so a short body never raises EOFException.

  /**
   * readRawBody followed by readRawBodyCont as written, for a body of n bytes
   * starting at s: the bytes the Input has are copied into a zeroed buffer,
   * the fill count goes down by their number, and the end is reported only
   * if the count is then positive. Input.read is taken to return a short
   * count, not to throw, when the input runs out.
   */
  function RawBodyAsWritten(input: seq<byte>, s: nat, n: nat): Result<seq<byte>>
    requires s <= |input|
  {
    var len := if |input| - s < n then |input| - s else n;
    var filled := 0 - len;
    if filled > 0 then Err(EndOfInput) else Ok(input[s .. s + len] + Zeros(n - len))
  }

  function Zeros(k: nat): (r: seq<byte>)
    ensures |r| == k && forall i :: 0 <= i < k ==> r[i] == 0
  {
    if k == 0 then [] else Zeros(k - 1) + [0]
  }

  /** As written, a raw body never fails: a short one is delivered padded with zero bytes. */
  lemma RawBodyNeverEnds(input: seq<byte>, s: nat, n: nat)
    requires s <= |input|
    ensures RawBodyAsWritten(input, s, n).Ok? && |RawBodyAsWritten(input, s, n).value| == n
    ensures n <= |input| - s ==> RawBodyAsWritten(input, s, n) == Ok(input[s .. s + n])
  {
    if n <= |input| - s {
      assert Zeros(0) == [];
      assert input[s .. s + n] + [] == input[s .. s + n];
    }
  }

  /** A fixraw of two bytes with one byte available: as written it yields [0x41, 0]; it should end the input. */
  lemma RawBodyCounterexample()
    ensures RawBodyAsWritten([0xa2, 0x41], 1, 2) == Ok([0x41, 0])
    ensures DecodeToken([0xa2, 0x41], 0) == Err(EndOfInput)
  {
    var input: seq<byte> := [0xa2, 0x41];
    assert input[1 .. 1 + 1] == [0x41];
    assert Zeros(1) == Zeros(0) + [0] == [0];
    assert [0x41] + [0] == [0x41, 0];
    FixRawTag(input, 0);
  }

  // Line 71: the resume test is inverted.

  /** Where a read goes after its tag byte. */
  datatype Entry = ResumeBody | DecodeTag | NullDereference

  /**
   * The first branch of readOneWithoutStack as written: with no raw pending
   * it resumes one, and line 280 then reads the length of a null buffer.
   */
  function EntryAsWritten(rawPending: bool): Entry {
    if !rawPending then NullDereference else DecodeTag
  }

  /** The branch the resume test evidently intends. */
  function EntryIntended(rawPending: bool): Entry {
    if rawPending then ResumeBody else DecodeTag
  }

  /**
   * As written, a read with no raw pending, which is every read of a fresh
   * unpacker, fails, and a pending raw is never resumed.
   */
  lemma EntryInverted(rawPending: bool)
    ensures EntryAsWritten(rawPending) != EntryIntended(rawPending)
    ensures EntryAsWritten(rawPending) != ResumeBody
    ensures EntryAsWritten(false) == NullDereference && EntryIntended(false) == DecodeTag
  {
  }

  // Line 387: readArrayEnd's guard lacks the negation readMapEnd has at line 411.

  /** As written, readArrayEnd refuses exactly when the innermost container IS an array. */
  function ArrayEndRefusesAsWritten(s: seq<Frame>): bool {
    TopIs(s, ArrayKind)
  }

  /** The refusal readMapEnd makes for maps, and readArrayEnd evidently intends: the innermost container is not an array. */
  function ArrayEndRefusesIntended(s: seq<Frame>): bool {
    !TopIs(s, ArrayKind)
  }

  /** With a container open, the guard as written refuses exactly the calls the intended guard admits. */
  lemma ArrayEndGuardInverted(s: seq<Frame>)
    requires |s| > 0
    ensures ArrayEndRefusesAsWritten(s) <==> !ArrayEndRefusesIntended(s)
    ensures ArrayEndRefusesAsWritten(s) <==> s[|s| - 1].kind == ArrayKind
  {
  }

  /** After [0x91, 0x01] is read by readArrayBegin and readInt, readArrayEnd as written refuses to close the array. */
  lemma ArrayEndCounterexample()
    ensures ArrayEndRefusesAsWritten([Frame(ArrayKind, 0)])
    ensures !ArrayEndRefusesIntended([Frame(ArrayKind, 0)])
  {
  }

  // Line 157: uint64 is handed to acceptInteger as a Java long.

  /** The token uint64 yields as written: the field read as a signed 64-bit integer. */
  function UInt64AsWritten(field: seq<byte>): Token
    requires |field| == 8
  {
    Int(Signed(field))
  }

  /** As written, a uint64 keeps its value exactly when its top bit is clear; above that it turns negative. */
  lemma UInt64Sign(field: seq<byte>)
    requires |field| == 8
    ensures UInt64AsWritten(field) == Int(Unsigned(field)) <==> field[0] < 0x80
    ensures 0x80 <= field[0] ==> UInt64AsWritten(field).i < 0
  {
    SignBit(field);
  }

  /** Eight 0xff bytes are the big-endian field of 2 to the power 64 minus 1. */
  lemma AllOnesField()
    ensures ToBE(0xffff_ffff_ffff_ffff, 8) == [0xff, 0xff, 0xff, 0xff, 0xff, 0xff, 0xff, 0xff]
    ensures Unsigned([0xff, 0xff, 0xff, 0xff, 0xff, 0xff, 0xff, 0xff]) == 0xffff_ffff_ffff_ffff
  {
    Pow256Values();
    UnsignedToBE(0xffff_ffff_ffff_ffff, 8);
  }

  /** 0xcf followed by eight 0xff is 2 to the power 64 minus 1; as written it reads as -1. */
  lemma UInt64Counterexample()
    ensures UInt64AsWritten([0xff, 0xff, 0xff, 0xff, 0xff, 0xff, 0xff, 0xff]) == Int(-1)
    ensures DecodeToken([0xcf, 0xff, 0xff, 0xff, 0xff, 0xff, 0xff, 0xff, 0xff], 0) ==
      Ok((UInt(0xffff_ffff_ffff_ffff), 9))
  {
    var field: seq<byte> := [0xff, 0xff, 0xff, 0xff, 0xff, 0xff, 0xff, 0xff];
    AllOnesField();
    Pow256Values();
    assert Signed(field) == -1;
    var e := Encode(UInt(0xffff_ffff_ffff_ffff));
    RoundTripUInt(UInt(0xffff_ffff_ffff_ffff), []);
    assert e == [0xcf] + field;
    assert e + [] == [0xcf, 0xff, 0xff, 0xff, 0xff, 0xff, 0xff, 0xff, 0xff];
  }

  // Line 268: the pending head is reset only on an invalid tag.

  /** The cursor of the Input and the pending head byte. */
  datatype Reader = Reader(cursor: nat, head: Option<byte>)

  /**
   * One read as written: getHeadByte keeps a pending head, else takes the
   * next byte and leaves it pending; the rest of the token is read from the
   * cursor; and the head stays pending afterwards.
   */
  function ReadAsWritten(input: seq<byte>, r: Reader): Result<(Token, Reader)>
    requires r.cursor <= |input|
  {
    var (b, c) :=
      if r.head.Some? then (r.head.value, r.cursor)
      else if r.cursor < |input| then (input[r.cursor], r.cursor + 1)
      else (0, r.cursor);
    if r.head.None? && |input| <= r.cursor then Err(EndOfInput)
    else match DecodeToken([b] + input[c..], 0)
      case Err(e) => Err(e)
      case Ok((t, q)) => Ok((t, Reader(c + q - 1, Some(b))))
  }

  /**
   * From a fresh head, the first read as written takes the token the
   * reference decoder finds; after a one-byte token every further read
   * yields that same token again and the cursor never moves.
   */
  lemma HeadNeverCleared(input: seq<byte>, c: nat)
    requires c < |input| && DecodeToken(input, c).Ok? && DecodeToken(input, c).value.1 == c + 1
    ensures var t := DecodeToken(input, c).value.0;
      ReadAsWritten(input, Reader(c, None)) == Ok((t, Reader(c + 1, Some(input[c])))) &&
      ReadAsWritten(input, Reader(c + 1, Some(input[c]))) == Ok((t, Reader(c + 1, Some(input[c]))))
  {
    var b := input[c];
    assert [b] + input[c + 1..] == input[c..];
    DecodeFrom(input, c);
  }

  /** The decoder at c sees only the bytes from c on. */
  lemma DecodeFrom(input: seq<byte>, c: nat)
    requires c < |input|
    ensures DecodeToken(input[c..], 0) == match DecodeToken(input, c)
      case Err(e) => Err(e)
      case Ok((t, q)) => Ok((t, q - c))
  {
    var tail := input[c..];
    var f := Classify(input[c]);
    var w := FieldWidth(f);
    assert tail[0] == input[c];
    if !f.Invalid? && c + 1 + w <= |input| {
      assert tail[1 .. 1 + w] == input[c + 1 .. c + 1 + w];
      if IsRaw(f) {
        var n := RawLength(input[c], f, input[c + 1 .. c + 1 + w]);
        if c + 1 + w + n <= |input| {
          assert tail[1 + w .. 1 + w + n] == input[c + 1 + w .. c + 1 + w + n];
        }
      }
    }
  }

  /** readInt twice over [0x01, 0x02]: as written both reads yield 1; the second should yield 2. */
  lemma HeadCounterexample()
    ensures ReadAsWritten([0x01, 0x02], Reader(0, None)) == Ok((Int(1), Reader(1, Some(0x01))))
    ensures ReadAsWritten([0x01, 0x02], Reader(1, Some(0x01))) == Ok((Int(1), Reader(1, Some(0x01))))
    ensures DecodeToken([0x01, 0x02], 1) == Ok((Int(2), 2))
  {
    var input: seq<byte> := [0x01, 0x02];
    PositiveFixnumTag(input, 0);
    PositiveFixnumTag(input, 1);
    HeadNeverCleared(input, 0);
  }

  // Lines 30 and 55-56: the head byte 0xc6 stands for "no head pending".

  /** REQUIRE_TO_READ_HEAD: the head value that makes getHeadByte read a new byte. */
  const RequireToReadHead: byte := 0xc6

  /** The cursor of the Input and the head byte as the source keeps it, with no separate "none". */
  datatype ByteReader = ByteReader(cursor: nat, headByte: byte)

  /** getHeadByte as written: a head equal to 0xc6 counts as absent, and the next byte is read instead. */
  function HeadByteAsWritten(input: seq<byte>, r: ByteReader): Result<(byte, ByteReader)> {
    if r.headByte != RequireToReadHead then Ok((r.headByte, r))
    else if |input| <= r.cursor then Err(EndOfInput)
    else Ok((input[r.cursor], ByteReader(r.cursor + 1, input[r.cursor])))
  }

  /** tryReadNil as written, on a false answer or a failure: the peeked head is left as it is. */
  function TryReadNilAsWritten(input: seq<byte>, r: ByteReader): (Result<bool>, ByteReader) {
    match HeadByteAsWritten(input, r)
    case Err(e) => (Err(e), r)
    case Ok((b, r2)) => (Ok(b == 0xc0), r2)
  }

  /** readBoolean as written: 0xc2 and 0xc3 are answers; any other head is refused and left as it is. */
  function ReadBooleanAsWritten(input: seq<byte>, r: ByteReader): (Result<bool>, ByteReader) {
    match HeadByteAsWritten(input, r)
    case Err(e) => (Err(e), r)
    case Ok((b, r2)) =>
      if b == 0xc2 then (Ok(false), r2)
      else if b == 0xc3 then (Ok(true), r2)
      else (Err(TypeMismatch), r2)
  }

  /**
   * As written, a byte that a peek refuses stays pending exactly when it is
   * not 0xc6: a peeked 0xc6 leaves the reader as if the byte had never been
   * there, although the decoder rejects it as an invalid tag.
   */
  lemma PeekDropsReserved(input: seq<byte>, c: nat)
    requires c < |input| && input[c] != 0xc0
    ensures var (answer, r) := TryReadNilAsWritten(input, ByteReader(c, RequireToReadHead));
      answer == Ok(false) && r.cursor == c + 1 &&
      (HeadByteAsWritten(input, r) == Ok((input[c], r)) <==> input[c] != 0xc6)
    ensures input[c] == 0xc6 ==>
      TryReadNilAsWritten(input, ByteReader(c, RequireToReadHead)).1 == ByteReader(c + 1, RequireToReadHead) &&
      ReadBooleanAsWritten(input, ByteReader(c, RequireToReadHead)) == (Err(TypeMismatch), ByteReader(c + 1, RequireToReadHead)) &&
      DecodeToken(input, c) == Err(InvalidByte)
  {
    if input[c] == 0xc6 {
      InvalidTagFails(input, c);
    }
  }

  /**
   * tryReadNil, then readInt, over [0xc6, 0x05]: as written false, then 5;
   * readBoolean twice over [0xc6, 0xc3]: as written a refusal, then true.
   * As intended the 0xc6 stays pending and the next read rejects it.
   */
  lemma ReservedHeadCounterexample()
    ensures TryReadNilAsWritten([0xc6, 0x05], ByteReader(0, RequireToReadHead)) == (Ok(false), ByteReader(1, RequireToReadHead))
    ensures HeadByteAsWritten([0xc6, 0x05], ByteReader(1, RequireToReadHead)) == Ok((0x05, ByteReader(2, 0x05)))
    ensures ReadBooleanAsWritten([0xc6, 0xc3], ByteReader(0, RequireToReadHead)) == (Err(TypeMismatch), ByteReader(1, RequireToReadHead))
    ensures ReadBooleanAsWritten([0xc6, 0xc3], ByteReader(1, RequireToReadHead)) == (Ok(true), ByteReader(2, 0xc3))
    ensures DecodeToken([0xc6, 0x05], 0) == Err(InvalidByte)
    ensures DecodeToken([0xc6, 0xc3], 0) == Err(InvalidByte)
  {
    PeekDropsReserved([0xc6, 0x05], 0);
    PeekDropsReserved([0xc6, 0xc3], 0);
  }

  // Line 489: skip pops at most one finished container per value read.

  /**
   * The loop of skip as written, over the counts of the open frames: a
   * header pushes its frame; a whole value reduces the innermost count, and
   * if that reaches zero one frame is popped (counting as a child of its
   * parent) and the loop stops once the depth is back at target.
   */
  function SkipLoopAsWritten(input: seq<byte>, p: nat, counts: seq<int>, target: nat): Result<nat>
    requires p <= |input| && |counts| > 0
    decreases |input| - p
  {
    match DecodeToken(input, p)
    case Err(e) => Err(e)
    case Ok((t, q)) =>
      if Slots(t) > 0 then SkipLoopAsWritten(input, q, counts + [Slots(t) as int], target)
      else
        var reduced := counts[..|counts| - 1] + [counts[|counts| - 1] - 1];
        if reduced[|reduced| - 1] != 0 then SkipLoopAsWritten(input, q, reduced, target)
        else
          var popped := if |reduced| == 1 then [] else reduced[..|reduced| - 2] + [reduced[|reduced| - 2] - 1];
          if |popped| <= target then Ok(q) else SkipLoopAsWritten(input, q, popped, target)
  }

  /**
   * skip at top level over [0x91, 0x91, 0x01], an array holding an array
   * holding 1: as written the loop pops only the inner array, goes on reading
   * and runs out of input; the whole value ends at byte 3.
   */
  lemma SkipCounterexample()
    ensures SkipLoopAsWritten([0x91, 0x91, 0x01], 1, [1], 0) == Err(EndOfInput)
    ensures SkipValues([0x91, 0x91, 0x01], 0, 1) == Ok(3)
  {
    var input: seq<byte> := [0x91, 0x91, 0x01];
    FixContainerTag(input, 0);
    FixContainerTag(input, 1);
    PositiveFixnumTag(input, 2);
    assert DecodeToken(input, 3) == Err(EndOfInput);
    assert SkipLoopAsWritten(input, 3, [0], 0) == Err(EndOfInput);
    assert SkipLoopAsWritten(input, 2, [1, 1], 0) == Err(EndOfInput);
    SkipValuesStep(input, 0, 1, ArrayHeader(1), 1);
    SkipValuesStep(input, 1, 1, ArrayHeader(1), 2);
    SkipValuesStep(input, 2, 1, Int(1), 3);
  }
}
