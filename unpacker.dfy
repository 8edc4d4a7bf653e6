/**
 * The streaming unpacker: it pulls one tag byte at a time from its Input,
 * keeps the tag pending until the token it starts has been taken, fills raw
 * bodies in place so that a short Input can be resumed, and tracks open
 * arrays and maps on an explicit frame stack instead of recursing.
 *
 * Every operation is proved against the pure reference decoder of module
 * Wire: a read takes exactly the token DecodeToken finds at the cursor, and
 * a skip or a lenient end consumes exactly the whole values SkipValues finds.
 */
module Unpackers {
  import opened Wire
  import opened Frames

  /** The visitors the typed reads hand to the dispatcher, each standing for the tokens it takes. */
  datatype Accept =
    | IntAccept
    | LongAccept
    | BigIntegerAccept
    | ByteArrayAccept
    | ArrayAccept
    | MapAccept
    | SkipAccept

  predicate IsInteger(t: Token) {
    t.Int? || t.UInt?
  }

  function IntegerOf(t: Token): int
    requires IsInteger(t)
  {
    if t.Int? then t.i else t.u
  }

  /** Whether visitor a takes token t; a visitor that does not take it raises a type error. */
  predicate Accepts(a: Accept, t: Token) {
    match a
    case IntAccept => IsInteger(t) && -0x8000_0000 <= IntegerOf(t) < 0x8000_0000
    case LongAccept => IsInteger(t) && -0x8000_0000_0000_0000 <= IntegerOf(t) < 0x8000_0000_0000_0000
    case BigIntegerAccept => IsInteger(t)
    case ByteArrayAccept => t.Raw?
    case ArrayAccept => t.ArrayHeader?
    case MapAccept => t.MapHeader?
    case SkipAccept => true
  }

  /** One dispatch as a function: the token at byte c handed to visitor a, and where it ends. */
  function Step(input: seq<byte>, c: nat, a: Accept): (r: Result<(Token, nat)>)
    ensures r.Ok? <==> DecodeToken(input, c).Ok? && Accepts(a, DecodeToken(input, c).value.0)
    ensures r.Ok? ==> r == DecodeToken(input, c)
  {
    match DecodeToken(input, c)
    case Err(e) => Err(e)
    case Ok((t, q)) => if Accepts(a, t) then Ok((t, q)) else Err(TypeMismatch)
  }

  function Taken(s: Result<(Token, nat)>): Result<Token> {
    match s
    case Ok((t, _)) => Ok(t)
    case Err(e) => Err(e)
  }

  /** A dispatch over a token that decodes: visitor a takes it, or the read fails with a type error. */
  lemma StepOf(input: seq<byte>, c: nat, a: Accept, t: Token, q: nat)
    requires DecodeToken(input, c) == Ok((t, q))
    ensures Taken(Step(input, c, a)) == if Accepts(a, t) then Ok(t) else Err(TypeMismatch)
    ensures Accepts(a, t) ==> Step(input, c, a) == Ok((t, q))
  {
  }

  /** What a tracked read through visitor a yields at byte c with stack s: the slot check, then one step. */
  function Outcome(input: seq<byte>, c: nat, s: seq<Frame>, a: Accept): Result<Token> {
    if !HasSlot(s) then Err(ValueIsEnd) else Taken(Step(input, c, a))
  }

  /** The value readInt, readLong and readBigInteger return for a read token. */
  function AsInteger(r: Result<Token>): Result<int> {
    match r
    case Err(e) => Err(e)
    case Ok(t) => if IsInteger(t) then Ok(IntegerOf(t)) else Err(TypeMismatch)
  }

  /** The value readByteArray returns for a read token. */
  function AsBytes(r: Result<Token>): Result<seq<byte>> {
    match r
    case Err(e) => Err(e)
    case Ok(t) => if t.Raw? then Ok(t.bytes) else Err(TypeMismatch)
  }

  /** The size readArrayBegin and readMapBegin return for a read header: elements, or pairs. */
  function AsSize(r: Result<Token>): Result<nat> {
    match r
    case Err(e) => Err(e)
    case Ok(t) =>
      if t.ArrayHeader? then Ok(t.count) else if t.MapHeader? then Ok(t.pairs) else Err(TypeMismatch)
  }

  /** The stack once header t has been taken: a container with children opens its frame. */
  function Opened(s: seq<Frame>, t: Token): seq<Frame> {
    if Slots(t) == 0 then s
    else Open(s, if t.MapHeader? then MapKind else ArrayKind, Slots(t))
  }

  /** The stack once a tracked read took t: a whole value fills a slot, a header opens a frame. */
  function AfterRead(s: seq<Frame>, t: Token): seq<Frame>
    requires HasSlot(s)
  {
    if Slots(t) == 0 then Reduce(s) else Opened(s, t)
  }

  /**
   * A container header of count 0 opens nothing; any other opens exactly one
   * frame of its kind, with one slot per element, or two per map pair.
   */
  lemma OpenedHeader(s: seq<Frame>, t: Token)
    requires t.ArrayHeader? || t.MapHeader?
    ensures Slots(t) == 0 <==> (t.ArrayHeader? && t.count == 0) || (t.MapHeader? && t.pairs == 0)
    ensures Slots(t) == 0 ==> Opened(s, t) == s
    ensures t.ArrayHeader? && t.count > 0 ==> Opened(s, t) == s + [Frame(ArrayKind, t.count)]
    ensures t.MapHeader? && t.pairs > 0 ==> Opened(s, t) == s + [Frame(MapKind, 2 * t.pairs)]
  {
  }

  /**
   * readOne's bookkeeping: a whole value takes exactly one slot of the
   * innermost frame and leaves the frames below it alone; a header leaves
   * every frame alone and opens its own on top.
   */
  lemma AfterReadCounts(s: seq<Frame>, t: Token)
    requires |s| > 0 && HasSlot(s) && Nested(s)
    ensures Nested(AfterRead(s, t)) && HasSlot(Opened(s, t))
    ensures Slots(t) == 0 ==> |AfterRead(s, t)| == |s| && AfterRead(s, t)[..|s| - 1] == s[..|s| - 1]
    ensures Slots(t) == 0 ==> AfterRead(s, t)[|s| - 1] == s[|s| - 1].(remaining := s[|s| - 1].remaining - 1)
    ensures Slots(t) > 0 ==> |AfterRead(s, t)| == |s| + 1 && AfterRead(s, t)[..|s|] == s
  {
    if Slots(t) == 0 {
      ReducePreserves(s);
      assert AfterRead(s, t)[..|s| - 1] == s[..|s| - 1];
    } else {
      OpenPreserves(s, if t.MapHeader? then MapKind else ArrayKind, Slots(t));
      assert AfterRead(s, t)[..|s|] == s;
    }
  }

  class Unpacker {
    /** The bytes the Input has delivered so far. */
    var input: seq<byte>
    /** How many of them have been consumed. */
    var pos: nat
    /** The pending tag byte; None stands for REQUIRE_TO_READ_HEAD. */
    var head: Option<byte>
    /** The body of a raw being filled, and how much of it is filled. */
    var raw: array?<byte>
    var rawFilled: nat
    var stack: seq<Frame>
    /** Where in the input the pending tag byte was read. */
    ghost var tokenStart: nat

    /** The index of the first byte of the next token: the pending tag, or the next unread byte. */
    ghost function Cursor(): nat
      reads this
    {
      if head.Some? then tokenStart else pos
    }

    ghost predicate Valid()
      reads this, raw
    {
      InputValid() && Nested(stack)
    }

    /** The cursor, the pending tag and the pending raw agree with the input. */
    ghost predicate InputValid()
      reads this`input, this`pos, this`head, this`tokenStart, this`raw, this`rawFilled, raw
    {
      && pos <= |input|
      && (head.Some? ==> tokenStart < pos && input[tokenStart] == head.value)
      && (head.Some? && raw == null ==> pos == tokenStart + 1)
      && (raw != null ==> head.Some? && RawPending())
    }

    /**
     * A raw body is being filled: the pending tag is a raw tag whose length
     * field has been consumed, the buffer has the declared length, and its
     * filled part is the input read since the field.
     */
    ghost predicate RawPending()
      reads this`input, this`pos, this`head, this`tokenStart, this`raw, this`rawFilled, raw
      requires raw != null && head.Some? && tokenStart < pos <= |input|
    {
      && BodyStart() <= pos
      && RawHeader()
      && rawFilled == pos - BodyStart()
      && rawFilled <= raw.Length
      && raw[..rawFilled] == input[BodyStart() .. pos]
    }

    /** Where the body of a raw whose tag is pending starts: after the tag and its length field. */
    ghost function BodyStart(): nat
      reads this`head, this`tokenStart
      requires head.Some?
    {
      tokenStart + 1 + FieldWidth(Classify(head.value))
    }

    /** The pending tag is a raw tag with a valid length field, and the buffer has that length. */
    ghost predicate RawHeader()
      reads this`input, this`head, this`tokenStart, this`raw
      requires raw != null && head.Some? && BodyStart() <= |input|
    {
      var f := Classify(head.value);
      var field := input[tokenStart + 1 .. BodyStart()];
      && IsRaw(f)
      && !(HasSignedSize(f) && Signed(field) < 0)
      && raw.Length == RawLength(head.value, f, field)
      && raw.Length > 0
    }

    /** The read took the whole token t that starts at c0, and the stack s0 counted it. */
    ghost predicate Took(c0: nat, s0: seq<Frame>, a: Accept, t: Token)
      reads this
    {
      && head.None? && raw == null && HasSlot(s0)
      && Step(input, c0, a) == Ok((t, pos))
      && stack == AfterRead(s0, t)
    }

    /** A failed read left the stack s0 alone, and, unless the tag was invalid, the token at c0 pending. */
    ghost predicate Kept(c0: nat, s0: seq<Frame>, e: Error)
      reads this
    {
      && stack == s0
      && if e == InvalidByte then head.None? && pos == c0 + 1 else Cursor() == c0
    }

    /** The state a tracked read through visitor a left behind, starting at c0 with stack s0. */
    ghost predicate Read(c0: nat, s0: seq<Frame>, a: Accept)
      reads this
    {
      match Outcome(input, c0, s0, a)
      case Ok(t) => Took(c0, s0, a, t)
      case Err(e) => Kept(c0, s0, e)
    }

    /**
     * The state readByte and readShort leave behind: as a read of an int, except
     * that an int outside lo..hi is consumed without filling its slot.
     */
    ghost predicate NarrowEnded(c0: nat, s0: seq<Frame>, lo: int, hi: int, r: Result<int>)
      reads this
    {
      var s := Step(input, c0, IntAccept);
      if !HasSlot(s0) then r == Err(ValueIsEnd) && Kept(c0, s0, ValueIsEnd)
      else if s.Err? then r == Err(s.error) && Kept(c0, s0, s.error)
      else if lo <= IntegerOf(s.value.0) <= hi then
        r == Ok(IntegerOf(s.value.0)) && Took(c0, s0, IntAccept, s.value.0)
      else r == Err(TypeMismatch) && head.None? && raw == null && pos == s.value.1 && stack == s0
    }

    /**
     * The state skip leaves behind: one whole value, with all its children,
     * consumed and counted in the innermost container. A failure part way
     * through a container leaves its frames open above s0.
     */
    ghost predicate Skipped(c0: nat, s0: seq<Frame>, r: Result<()>)
      reads this
      requires c0 <= |input|
    {
      if !HasSlot(s0) then r == Err(ValueIsEnd) && Kept(c0, s0, ValueIsEnd)
      else match SkipValues(input, c0, 1)
        case Ok(q) => r == Ok(()) && head.None? && raw == null && pos == q && stack == Reduce(s0)
        case Err(e) => r == Err(e) && |s0| <= |stack| && stack[..|s0|] == s0
    }

    /**
     * The state readArrayEnd (k = ArrayKind) and readMapEnd (k = MapKind) leave
     * behind: the innermost container must be of kind k; a strict call needs
     * it finished, a lenient one skips its unread children; then it is closed.
     */
    ghost predicate Closed(c0: nat, s0: seq<Frame>, k: Kind, check: bool, r: Result<()>)
      reads this
      requires c0 <= |input| && Nested(s0)
    {
      if !TopIs(s0, k) then r == Err(NotInContainer) && Kept(c0, s0, NotInContainer)
      else
        var n := s0[|s0| - 1].remaining;
        if check && n > 0 then r == Err(ContainerNotEnd) && Kept(c0, s0, ContainerNotEnd)
        else match SkipValues(input, c0, n)
          case Ok(q) => r == Ok(()) && Cursor() == q && stack == Close(s0)
          case Err(e) => r == Err(e)
    }

    lemma CursorInInput()
      requires Valid()
      ensures Cursor() <= pos <= |input|
    {
    }

    constructor (input: seq<byte>)
      ensures Valid()
      ensures this.input == input && pos == 0 && head.None? && raw == null && stack == []
    {
      this.input := input;
      pos := 0;
      head := None;
      raw := null;
      rawFilled := 0;
      stack := [];
    }

    /** More bytes arrive on the Input; a pending tag or partly filled raw stays pending. */
    method Feed(more: seq<byte>)
      requires Valid()
      modifies this`input
      ensures Valid() && input == old(input) + more && Cursor() == old(Cursor())
    {
      ghost var before := input;
      input := input + more;
      if raw != null {
        var f := Classify(head.value);
        var start := tokenStart + 1 + FieldWidth(f);
        assert input[tokenStart + 1 .. start] == before[tokenStart + 1 .. start];
        assert input[start .. pos] == before[start .. pos];
      }
    }

    /** getHeadByte: the pending tag, or else the next byte of the Input, which becomes pending. */
    method GetHeadByte() returns (r: Result<byte>)
      requires Valid()
      modifies this`head, this`pos, this`tokenStart
      ensures Valid() && Cursor() == old(Cursor())
      ensures r.Ok? <==> old(Cursor()) < |input|
      ensures r.Ok? ==> head == Some(r.value) && input[Cursor()] == r.value
      ensures old(head).Some? || r.Err? ==> unchanged(this)
      ensures r.Err? ==> r.error == EndOfInput
    {
      if head.Some? {
        return Ok(head.value);
      }
      if pos == |input| {
        return Err(EndOfInput);
      }
      head := Some(input[pos]);
      tokenStart := pos;
      pos := pos + 1;
      r := Ok(input[pos - 1]);
    }

    /**
     * readRawBodyCont: copies into the pending body whatever the Input has of
     * its rest, and tells whether the body is now full.
     */
    method ReadRawBodyCont() returns (full: bool)
      requires Valid() && raw != null
      modifies this`pos, this`rawFilled, raw
      ensures Valid() && Cursor() == old(Cursor())
      ensures full <==> rawFilled == raw.Length
      ensures !full ==> pos == |input|
    {
      var at, filled := pos, rawFilled;
      var len := if raw.Length - filled <= |input| - at then raw.Length - filled else |input| - at;
      CopyInto(raw, filled, at, len);
      pos := at + len;
      // The filled count grows by what was read (line 281 subtracts it), and the
      // body is short exactly when it is still below the declared length (line 282).
      rawFilled := filled + len;
      full := rawFilled == raw.Length;
    }

    /** in.read(raw, filled, len): the next len bytes of the Input, from at, land in body from filled on. */
    method CopyInto(body: array<byte>, filled: nat, at: nat, len: nat)
      requires filled + len <= body.Length && filled <= at && at + len <= |input|
      requires body[..filled] == input[at - filled .. at]
      modifies body
      ensures body[..filled + len] == input[at - filled .. at + len]
    {
      var i := 0;
      while i < len
        invariant 0 <= i <= len
        invariant body[..filled + i] == input[at - filled .. at + i]
      {
        body[filled + i] := input[at + i];
        i := i + 1;
      }
    }

    /** Hands token t, whose fixed field is w bytes, to visitor a; once taken it is consumed. */
    method Deliver(a: Accept, t: Token, w: nat) returns (r: Result<Token>)
      requires Valid() && head.Some? && raw == null && HasSlot(stack)
      requires pos + w <= |input|
      requires Slots(t) > 0 ==> t.ArrayHeader? || t.MapHeader?
      modifies this`pos, this`head, this`stack
      ensures Valid()
      ensures r.Ok? <==> Accepts(a, t)
      ensures r.Ok? ==> r.value == t && head.None? && pos == old(pos) + w && stack == Opened(old(stack), t)
      ensures r.Err? ==> r.error == TypeMismatch && unchanged(this)
    {
      if !Accepts(a, t) {
        return Err(TypeMismatch);
      }
      pos := pos + w;
      // The pending tag is cleared once its token is taken (the source clears it only at line 268).
      head := None;
      if Slots(t) > 0 {
        OpenPreserves(stack, if t.MapHeader? then MapKind else ArrayKind, Slots(t));
        stack := Opened(stack, t);
      }
      r := Ok(t);
    }

    /** A full body is the raw token DecodeToken finds at the pending tag. */
    lemma FullRawDecodes()
      requires Valid() && raw != null && rawFilled == raw.Length
      ensures DecodeToken(input, tokenStart) == Ok((Raw(raw[..]), pos))
    {
      assert raw[..] == raw[..rawFilled];
      DecodeRawForm(input, tokenStart);
    }

    /** Resumes the pending raw: fills the rest of its body and hands it to visitor a. */
    method ResumeRaw(a: Accept) returns (r: Result<Token>)
      requires Valid() && raw != null
      modifies this`pos, this`rawFilled, this`head, this`raw, raw
      ensures Valid() && stack == old(stack)
      ensures r == Taken(Step(input, old(Cursor()), a))
      ensures r.Ok? ==> head.None? && raw == null && pos == Step(input, old(Cursor()), a).value.1
      ensures r.Ok? ==> r.value.Raw?
      ensures r.Err? ==> r.error != InvalidByte
      ensures r.Err? ==> Cursor() == old(Cursor())
    {
      var full := ReadRawBodyCont();
      if !full {
        return Err(EndOfInput);
      }
      r := TakeRaw(a);
    }

    /** Hands a full body to visitor a; once taken, the raw and its tag are consumed. */
    method TakeRaw(a: Accept) returns (r: Result<Token>)
      requires Valid() && raw != null && rawFilled == raw.Length
      modifies this`head, this`raw
      ensures Valid() && pos == old(pos)
      ensures r == Taken(Step(input, old(Cursor()), a))
      ensures r.Ok? ==> head.None? && raw == null
      ensures r.Ok? ==> r.value.Raw?
      ensures r.Err? ==> r.error != InvalidByte
      ensures r.Err? ==> Cursor() == old(Cursor())
    {
      FullRawDecodes();
      var t := Raw(raw[..]);
      if !Accepts(a, t) {
        return Err(TypeMismatch);
      }
      raw := null;
      head := None;
      r := Ok(t);
    }

    /** readRawBody: a raw of n > 0 bytes after a w-byte length field gets a fresh body to fill. */
    method ReadRawBody(a: Accept, n: nat, w: nat) returns (r: Result<Token>)
      requires Valid() && head.Some? && raw == null && n > 0
      requires IsRaw(Classify(head.value)) && w == FieldWidth(Classify(head.value))
      requires pos + w <= |input|
      requires !(HasSignedSize(Classify(head.value)) && Signed(input[pos .. pos + w]) < 0)
      requires n == RawLength(head.value, Classify(head.value), input[pos .. pos + w])
      modifies this`pos, this`rawFilled, this`head, this`raw
      ensures Valid() && stack == old(stack)
      ensures r == Taken(Step(input, old(Cursor()), a))
      ensures r.Ok? ==> head.None? && raw == null && pos == Step(input, old(Cursor()), a).value.1
      ensures r.Ok? ==> r.value.Raw?
      ensures r.Err? ==> r.error != InvalidByte
      ensures r.Err? ==> Cursor() == old(Cursor())
    {
      pos := pos + w;
      raw := new byte[n];
      rawFilled := 0;
      assert RawPending();
      r := ResumeRaw(a);
    }

    /**
     * readOneWithoutStack: reads the token at the cursor and hands it to
     * visitor a. A header of a container with children opens its frame; no
     * other slot bookkeeping is done here.
     */
    method ReadOneWithoutStack(a: Accept) returns (r: Result<Token>)
      requires Valid() && HasSlot(stack)
      modifies this, raw
      ensures Valid() && input == old(input)
      ensures r == Taken(Step(input, old(Cursor()), a))
      ensures r.Ok? ==> head.None? && raw == null && pos == Step(input, old(Cursor()), a).value.1
      ensures r.Ok? ==> stack == Opened(old(stack), r.value)
      ensures r.Err? ==> Kept(old(Cursor()), old(stack), r.error)
    {
      var h := GetHeadByte();
      if h.Err? {
        return Err(h.error);
      }
      if raw != null {
        // A raw whose body was cut short is resumed (line 71 tests `raw == null`).
        r := ResumeRaw(a);
        return;
      }
      r := Dispatch(a, h.value);
    }

    /** The tag tests of readOneWithoutStack, once the pending tag b is known and no raw is pending. */
    method Dispatch(a: Accept, b: byte) returns (r: Result<Token>)
      requires Valid() && HasSlot(stack) && head == Some(b) && raw == null
      modifies this`pos, this`rawFilled, this`head, this`raw, this`stack
      ensures Valid()
      ensures r == Taken(Step(input, old(tokenStart), a))
      ensures r.Ok? ==> head.None? && raw == null && pos == Step(input, old(tokenStart), a).value.1
      ensures r.Ok? ==> stack == Opened(old(stack), r.value)
      ensures r.Err? ==> Kept(old(tokenStart), old(stack), r.error)
    {
      var f := Classify(b);
      if f.Invalid? {
        DecodeInvalid(input, tokenStart);
        head := None;
        return Err(InvalidByte);
      }
      var w := FieldWidth(f);
      if |input| - pos < w {
        DecodeShortField(input, tokenStart);
        return Err(EndOfInput);
      }
      var field := input[pos .. pos + w];
      if HasSignedSize(f) && Signed(field) < 0 {
        DecodeNegativeSize(input, tokenStart);
        return Err(SizeTooLarge);
      }
      if !IsRaw(f) {
        r := DeliverFixed(a, f, w);
      } else {
        r := DeliverRaw(a, f, w);
      }
    }

    /** A form with no body: the tag and its w-byte field are the whole token. */
    method DeliverFixed(a: Accept, f: Format, w: nat) returns (r: Result<Token>)
      requires Valid() && HasSlot(stack) && head.Some? && raw == null
      requires f == Classify(head.value) && !f.Invalid? && !IsRaw(f)
      requires w == FieldWidth(f) && pos + w <= |input|
      requires !(HasSignedSize(f) && Signed(input[pos .. pos + w]) < 0)
      modifies this`pos, this`head, this`stack
      ensures Valid()
      ensures r == Taken(Step(input, old(tokenStart), a))
      ensures r.Ok? ==> head.None? && raw == null && pos == Step(input, old(tokenStart), a).value.1
      ensures r.Ok? ==> stack == Opened(old(stack), r.value)
      ensures r.Err? ==> Kept(old(tokenStart), old(stack), r.error)
    {
      DecodeFixedForm(input, tokenStart);
      StepOf(input, tokenStart, a, FixedToken(f, head.value, input[pos .. pos + w]), pos + w);
      r := Deliver(a, FixedToken(f, head.value, input[pos .. pos + w]), w);
    }

    /** A raw form: an empty body is taken at once, any other is filled first. */
    method DeliverRaw(a: Accept, f: Format, w: nat) returns (r: Result<Token>)
      requires Valid() && HasSlot(stack) && head.Some? && raw == null
      requires f == Classify(head.value) && IsRaw(f)
      requires w == FieldWidth(f) && pos + w <= |input|
      requires !(HasSignedSize(f) && Signed(input[pos .. pos + w]) < 0)
      modifies this`pos, this`rawFilled, this`head, this`raw, this`stack
      ensures Valid()
      ensures r == Taken(Step(input, old(tokenStart), a))
      ensures r.Ok? ==> head.None? && raw == null && pos == Step(input, old(tokenStart), a).value.1
      ensures r.Ok? ==> stack == Opened(old(stack), r.value)
      ensures r.Err? ==> Kept(old(tokenStart), old(stack), r.error)
    {
      var n := RawLength(head.value, f, input[pos .. pos + w]);
      if n == 0 {
        r := DeliverEmptyRaw(a, w);
      } else {
        r := ReadRawBody(a, n, w);
      }
    }

    /** A raw of declared length zero: its body is empty and it is taken at once. */
    method DeliverEmptyRaw(a: Accept, w: nat) returns (r: Result<Token>)
      requires Valid() && HasSlot(stack) && head.Some? && raw == null
      requires IsRaw(Classify(head.value)) && w == FieldWidth(Classify(head.value)) && pos + w <= |input|
      requires !(HasSignedSize(Classify(head.value)) && Signed(input[pos .. pos + w]) < 0)
      requires RawLength(head.value, Classify(head.value), input[pos .. pos + w]) == 0
      modifies this`pos, this`head, this`stack
      ensures Valid() && stack == old(stack)
      ensures r == Taken(Step(input, old(tokenStart), a))
      ensures r.Ok? ==> head.None? && pos == Step(input, old(tokenStart), a).value.1
      ensures r.Ok? ==> r.value.Raw?
      ensures r.Err? ==> r.error != InvalidByte
      ensures r.Err? ==> unchanged(this)
    {
      DecodeRawForm(input, tokenStart);
      assert input[pos + w .. pos + w] == [];
      StepOf(input, tokenStart, a, Raw([]), pos + w);
      r := Deliver(a, Raw([]), w);
    }

    /** readOne: the slot check, the dispatch, and a slot filled when a whole value was read. */
    method ReadOne(a: Accept) returns (r: Result<Token>)
      requires Valid()
      modifies this, raw
      ensures Valid() && input == old(input)
      ensures r == Outcome(input, old(Cursor()), old(stack), a)
      ensures Read(old(Cursor()), old(stack), a)
      ensures !HasSlot(old(stack)) ==> unchanged(this)
    {
      if !HasSlot(stack) {
        return Err(ValueIsEnd);
      }
      r := ReadOneWithoutStack(a);
      if r.Ok? && Slots(r.value) == 0 {
        ReducePreserves(stack);
        stack := Reduce(stack);
      }
    }

    /** tryReadNil: whether the pending token is nil; a nil is taken, anything else stays pending. */
    method TryReadNil() returns (r: Result<bool>)
      requires Valid()
      modifies this`head, this`pos, this`tokenStart, this`stack
      ensures Valid() && input == old(input)
      ensures r == if !HasSlot(old(stack)) then Err(ValueIsEnd)
                   else if |input| <= old(Cursor()) then Err(EndOfInput)
                   else Ok(input[old(Cursor())] == 0xc0)
      ensures r == Ok(true) ==> Took(old(Cursor()), old(stack), SkipAccept, Nil)
      ensures r != Ok(true) ==> stack == old(stack) && Cursor() == old(Cursor())
    {
      if !HasSlot(stack) {
        return Err(ValueIsEnd);
      }
      var h := GetHeadByte();
      if h.Err? {
        return Err(h.error);
      }
      if h.value != 0xc0 {
        return Ok(false);
      }
      DecodeFixedForm(input, tokenStart);
      ReducePreserves(stack);
      stack := Reduce(stack);
      // The nil is consumed (the source leaves its tag pending after line 294).
      head := None;
      r := Ok(true);
    }

    /** readNil: takes a nil, or fails with a type error leaving the token pending. */
    method ReadNil() returns (r: Result<()>)
      requires Valid()
      modifies this`head, this`pos, this`tokenStart, this`stack
      ensures Valid() && input == old(input)
      ensures r == if !HasSlot(old(stack)) then Err(ValueIsEnd)
                   else if |input| <= old(Cursor()) then Err(EndOfInput)
                   else if input[old(Cursor())] == 0xc0 then Ok(())
                   else Err(TypeMismatch)
      ensures r.Ok? ==> Took(old(Cursor()), old(stack), SkipAccept, Nil)
      ensures r.Err? ==> stack == old(stack) && Cursor() == old(Cursor())
    {
      var isNil := TryReadNil();
      if isNil.Err? {
        return Err(isNil.error);
      }
      if !isNil.value {
        return Err(TypeMismatch);
      }
      r := Ok(());
    }

    /** readBoolean: takes a false or true tag, or fails with a type error leaving the token pending. */
    method ReadBoolean() returns (r: Result<bool>)
      requires Valid()
      modifies this`head, this`pos, this`tokenStart, this`stack
      ensures Valid() && input == old(input)
      ensures r == if !HasSlot(old(stack)) then Err(ValueIsEnd)
                   else if |input| <= old(Cursor()) then Err(EndOfInput)
                   else if input[old(Cursor())] == 0xc2 then Ok(false)
                   else if input[old(Cursor())] == 0xc3 then Ok(true)
                   else Err(TypeMismatch)
      ensures r.Ok? ==> Took(old(Cursor()), old(stack), SkipAccept, Bool(r.value))
      ensures r.Err? ==> stack == old(stack) && Cursor() == old(Cursor())
    {
      if !HasSlot(stack) {
        return Err(ValueIsEnd);
      }
      var h := GetHeadByte();
      if h.Err? {
        return Err(h.error);
      }
      if h.value != 0xc2 && h.value != 0xc3 {
        return Err(TypeMismatch);
      }
      DecodeFixedForm(input, tokenStart);
      ReducePreserves(stack);
      stack := Reduce(stack);
      // The boolean is consumed (the source leaves its tag pending after lines 311 and 314).
      head := None;
      r := Ok(h.value == 0xc3);
    }

    /** readByte and readShort: an int read that fails with a type error when outside lo..hi. */
    method ReadIntIn(lo: int, hi: int) returns (r: Result<int>)
      requires Valid()
      modifies this, raw
      ensures Valid() && input == old(input)
      ensures NarrowEnded(old(Cursor()), old(stack), lo, hi, r)
      ensures r.Ok? ==> lo <= r.value <= hi
    {
      if !HasSlot(stack) {
        return Err(ValueIsEnd);
      }
      var t := ReadOneWithoutStack(IntAccept);
      if t.Err? {
        return Err(t.error);
      }
      var value := IntegerOf(t.value);
      if value < lo || hi < value {
        return Err(TypeMismatch);
      }
      ReducePreserves(stack);
      stack := Reduce(stack);
      r := Ok(value);
    }

    method ReadByte() returns (r: Result<int>)
      requires Valid()
      modifies this, raw
      ensures Valid() && input == old(input)
      ensures NarrowEnded(old(Cursor()), old(stack), -0x80, 0x7f, r)
      ensures r.Ok? ==> -0x80 <= r.value <= 0x7f
    {
      r := ReadIntIn(-0x80, 0x7f);
    }

    method ReadShort() returns (r: Result<int>)
      requires Valid()
      modifies this, raw
      ensures Valid() && input == old(input)
      ensures NarrowEnded(old(Cursor()), old(stack), -0x8000, 0x7fff, r)
      ensures r.Ok? ==> -0x8000 <= r.value <= 0x7fff
    {
      r := ReadIntIn(-0x8000, 0x7fff);
    }

    method ReadInt() returns (r: Result<int>)
      requires Valid()
      modifies this, raw
      ensures Valid() && input == old(input)
      ensures r == AsInteger(Outcome(input, old(Cursor()), old(stack), IntAccept))
      ensures Read(old(Cursor()), old(stack), IntAccept)
      ensures r.Ok? ==> -0x8000_0000 <= r.value <= 0x7fff_ffff
    {
      var t := ReadOne(IntAccept);
      r := AsInteger(t);
    }

    method ReadLong() returns (r: Result<int>)
      requires Valid()
      modifies this, raw
      ensures Valid() && input == old(input)
      ensures r == AsInteger(Outcome(input, old(Cursor()), old(stack), LongAccept))
      ensures Read(old(Cursor()), old(stack), LongAccept)
      ensures r.Ok? ==> -0x8000_0000_0000_0000 <= r.value <= 0x7fff_ffff_ffff_ffff
    {
      var t := ReadOne(LongAccept);
      r := AsInteger(t);
    }

    method ReadBigInteger() returns (r: Result<int>)
      requires Valid()
      modifies this, raw
      ensures Valid() && input == old(input)
      ensures r == AsInteger(Outcome(input, old(Cursor()), old(stack), BigIntegerAccept))
      ensures Read(old(Cursor()), old(stack), BigIntegerAccept)
    {
      var t := ReadOne(BigIntegerAccept);
      r := AsInteger(t);
    }

    method ReadByteArray() returns (r: Result<seq<byte>>)
      requires Valid()
      modifies this, raw
      ensures Valid() && input == old(input)
      ensures r == AsBytes(Outcome(input, old(Cursor()), old(stack), ByteArrayAccept))
      ensures Read(old(Cursor()), old(stack), ByteArrayAccept)
    {
      var t := ReadOne(ByteArrayAccept);
      r := AsBytes(t);
    }

    /** readArrayBegin: takes an array header and returns its element count. */
    method ReadArrayBegin() returns (r: Result<nat>)
      requires Valid()
      modifies this, raw
      ensures Valid() && input == old(input)
      ensures r == AsSize(Outcome(input, old(Cursor()), old(stack), ArrayAccept))
      ensures Read(old(Cursor()), old(stack), ArrayAccept)
    {
      var t := ReadOne(ArrayAccept);
      r := AsSize(t);
    }

    /** readMapBegin: takes a map header and returns its pair count. */
    method ReadMapBegin() returns (r: Result<nat>)
      requires Valid()
      modifies this, raw
      ensures Valid() && input == old(input)
      ensures r == AsSize(Outcome(input, old(Cursor()), old(stack), MapAccept))
      ensures Read(old(Cursor()), old(stack), MapAccept)
    {
      var t := ReadOne(MapAccept);
      r := AsSize(t);
    }

    /** skip: consumes one whole value, walking into containers on the frame stack without recursion. */
    method Skip() returns (r: Result<()>)
      requires Valid()
      modifies this, raw
      ensures Valid() && input == old(input)
      ensures Skipped(old(Cursor()), old(stack), r)
      ensures !HasSlot(old(stack)) ==> unchanged(this)
    {
      if !HasSlot(stack) {
        return Err(ValueIsEnd);
      }
      ghost var c0, s0 := Cursor(), stack;
      var t := ReadOneWithoutStack(SkipAccept);
      assert Step(input, c0, SkipAccept) == DecodeToken(input, c0);
      if t.Err? {
        SkipValuesFails(input, c0, 1);
        return Err(t.error);
      }
      SkipValuesStep(input, c0, 1, t.value, pos);
      if Slots(t.value) == 0 {
        ReducePreserves(stack);
        stack := Reduce(stack);
        return Ok(());
      }
      r := SkipContainer(s0, |stack| - 1);
    }

    /**
     * The loop of skip, once the value skipped has opened a container above
     * s0: reads on until the depth falls back to targetDepth, the depth of s0.
     */
    method SkipContainer(ghost s0: seq<Frame>, targetDepth: nat) returns (r: Result<()>)
      requires Valid() && head.None? && raw == null
      requires |stack| == |s0| + 1 && stack[..|s0|] == s0 && stack[|s0|].remaining > 0
      requires HasSlot(s0) && targetDepth == |s0|
      modifies this
      ensures Valid() && input == old(input)
      ensures match SkipValues(input, old(pos), old(stack)[|s0|].remaining)
        case Ok(q) => r == Ok(()) && head.None? && raw == null && pos == q && stack == Reduce(s0)
        case Err(e) => r == Err(e) && |s0| <= |stack| && stack[..|s0|] == s0
    {
      ghost var run := [stack[|s0|]];
      assert stack == s0 + run;
      ghost var goal := SkipValues(input, pos, Owed(run));
      while true
        invariant Valid() && input == old(input) && head.None? && raw == null
        invariant |run| > 0 && HasSlot(run) && Nested(run) && stack == s0 + run
        invariant goal == SkipValues(input, pos, Owed(run))
        decreases |input| - pos
      {
        ghost var p, owed := pos, Owed(run);
        var t, done;
        t, done, run := SkipStep(s0, run, targetDepth);
        if t.Err? {
          SkipValuesFails(input, p, owed);
          assert (s0 + run)[..|s0|] == s0;
          return Err(t.error);
        }
        SkipValuesStep(input, p, owed, t.value, pos);
        if done {
          return Ok(());
        }
      }
    }

    /** readOneWithoutStack(skipAccept) between two tokens: every token is taken. */
    method ReadAnyToken() returns (t: Result<Token>)
      requires Valid() && HasSlot(stack) && head.None? && raw == null
      modifies this
      ensures Valid() && input == old(input)
      ensures t.Err? ==> DecodeToken(input, old(pos)) == Err(t.error) && stack == old(stack)
      ensures t.Ok? ==> DecodeToken(input, old(pos)) == Ok((t.value, pos)) && head.None? && raw == null
      ensures t.Ok? ==> stack == Opened(old(stack), t.value)
    {
      t := ReadOneWithoutStack(SkipAccept);
      assert Step(input, old(pos), SkipAccept) == DecodeToken(input, old(pos));
    }

    /**
     * One turn of skip's loop: reads the next token inside the frames run
     * opened above s0, then closes every frame that is finished. It is done
     * once the depth falls to targetDepth, the depth of s0.
     */
    method SkipStep(ghost s0: seq<Frame>, ghost run: seq<Frame>, targetDepth: nat)
      returns (t: Result<Token>, done: bool, ghost run': seq<Frame>)
      requires Valid() && head.None? && raw == null
      requires |run| > 0 && HasSlot(run) && Nested(run) && stack == s0 + run
      requires HasSlot(s0) && targetDepth == |s0|
      modifies this, raw
      ensures Valid() && input == old(input)
      ensures t.Err? ==> DecodeToken(input, old(pos)) == Err(t.error) && stack == s0 + run
      ensures t.Ok? ==> DecodeToken(input, old(pos)) == Ok((t.value, pos)) && head.None? && raw == null
      ensures t.Ok? && done ==> stack == Reduce(s0) && Owed(run) - 1 + Slots(t.value) == 0
      ensures t.Ok? && !done ==> |run'| > 0 && HasSlot(run') && Nested(run') && stack == s0 + run'
      ensures t.Ok? && !done ==> Owed(run') == Owed(run) - 1 + Slots(t.value)
    {
      ReduceAbove(s0, run);
      t := ReadAnyToken();
      if t.Err? {
        return t, false, run;
      }
      if Slots(t.value) > 0 {
        var k := if t.value.MapHeader? then MapKind else ArrayKind;
        OwedOpen(run, k, Slots(t.value));
        assert stack == s0 + Open(run, k, Slots(t.value));
        return t, false, Open(run, k, Slots(t.value));
      }
      OwedReduce(run);
      stack := Reduce(stack);
      var closed;
      closed, run' := CloseFinished(s0, Reduce(run), targetDepth);
      done := closed.value;
    }

    /** Closes the finished frames at the top of the run above s0; done when the run is all closed. */
    method CloseFinished(ghost s0: seq<Frame>, ghost run: seq<Frame>, targetDepth: nat)
      returns (done: Result<bool>, ghost run': seq<Frame>)
      requires Valid() && head.None? && raw == null
      requires |run| > 0 && Nested(run) && stack == s0 + run
      requires HasSlot(s0) && targetDepth == |s0|
      modifies this`stack
      ensures Valid() && done.Ok?
      ensures done.value ==> stack == Reduce(s0) && Owed(run) == 0
      ensures !done.value ==> |run'| > 0 && HasSlot(run') && Nested(run') && stack == s0 + run'
      ensures !done.value ==> Owed(run') == Owed(run)
    {
      run' := run;
      // Finished containers are closed one after another (line 489 tests the count only once).
      while stack[|stack| - 1].remaining == 0
        invariant Valid()
        invariant |run'| > 0 && Nested(run') && stack == s0 + run' && Owed(run') == Owed(run)
        decreases |run'|
      {
        if |run'| > 1 {
          OwedClose(run');
          CloseAbove(s0, run');
          ClosePreserves(run');
        } else {
          assert stack[..|stack| - 1] == s0;
        }
        stack := Close(stack);
        if |stack| <= targetDepth {
          return Ok(true), run';
        }
        run' := Close(run');
      }
      done := Ok(false);
    }

    /** The shared body of readArrayEnd and readMapEnd. */
    method ReadContainerEnd(k: Kind, check: bool) returns (r: Result<()>)
      requires Valid()
      modifies this, raw
      ensures Valid() && input == old(input)
      ensures Closed(old(Cursor()), old(stack), k, check, r)
      ensures !TopIs(old(stack), k) || (check && old(stack)[|old(stack)| - 1].remaining > 0) ==> unchanged(this)
    {
      // The kind test is negated (line 387 raises the error when the kind matches).
      if !TopIs(stack, k) {
        return Err(NotInContainer);
      }
      var remain := stack[|stack| - 1].remaining;
      ghost var s0 := stack;
      if remain > 0 {
        if check {
          return Err(ContainerNotEnd);
        }
        r := SkipChildren(remain);
        if r.Err? {
          return;
        }
        CloseIgnoresTop(s0, stack[|stack| - 1]);
      }
      Pop();
      r := Ok(());
    }

    /** stack.pop(): the innermost container is closed and counts as one child of its parent. */
    method Pop()
      requires Valid() && |stack| > 0
      modifies this`stack
      ensures Valid() && stack == Close(old(stack))
    {
      ClosePreserves(stack);
      stack := Close(stack);
    }

    /** The lenient end's loop: skips the n children the innermost container still expects. */
    method SkipChildren(n: nat) returns (r: Result<()>)
      requires Valid() && |stack| > 0 && stack[|stack| - 1].remaining == n
      modifies this, raw
      ensures Valid() && input == old(input)
      ensures r == match SkipValues(input, old(Cursor()), n) case Ok(_) => Ok(()) case Err(e) => Err(e)
      ensures r.Ok? ==> Cursor() == SkipValues(input, old(Cursor()), n).value
      ensures r.Ok? ==> stack == old(stack)[..|old(stack)| - 1] + [old(stack)[|old(stack)| - 1].(remaining := 0)]
    {
      ghost var below, top := stack[..|stack| - 1], stack[|stack| - 1];
      assert stack == below + [top];
      ghost var goal := SkipValues(input, Cursor(), n);
      var i := 0;
      while i < n
        invariant 0 <= i <= n
        invariant Valid() && input == old(input)
        invariant stack == below + [top.(remaining := n - i)]
        invariant raw == null || raw == old(raw)
        invariant goal == SkipValues(input, Cursor(), n - i)
      {
        SkipValuesFirst(input, Cursor(), n - i);
        var skipped := SkipChild(below, top.(remaining := n - i));
        if skipped.Err? {
          return Err(skipped.error);
        }
        i := i + 1;
      }
      r := Ok(());
    }

    /** One skip of the drain loop, stated as the reference skip of one value. */
    method SkipChild(ghost below: seq<Frame>, ghost top: Frame) returns (r: Result<()>)
      requires Valid() && top.remaining > 0 && stack == below + [top]
      modifies this, raw
      ensures Valid() && input == old(input)
      ensures r.Err? ==> SkipValues(input, old(Cursor()), 1) == Err(r.error)
      ensures r.Ok? ==> SkipValues(input, old(Cursor()), 1) == Ok(Cursor())
      ensures r.Ok? ==> raw == null && stack == below + [top.(remaining := top.remaining - 1)]
    {
      ReduceTop(below, top);
      CursorInInput();
      r := Skip();
    }

    method ReadArrayEnd(check: bool) returns (r: Result<()>)
      requires Valid()
      modifies this, raw
      ensures Valid() && input == old(input)
      ensures Closed(old(Cursor()), old(stack), ArrayKind, check, r)
      ensures !TopIs(old(stack), ArrayKind) || (check && old(stack)[|old(stack)| - 1].remaining > 0) ==> unchanged(this)
    {
      r := ReadContainerEnd(ArrayKind, check);
    }

    method ReadMapEnd(check: bool) returns (r: Result<()>)
      requires Valid()
      modifies this, raw
      ensures Valid() && input == old(input)
      ensures Closed(old(Cursor()), old(stack), MapKind, check, r)
      ensures !TopIs(old(stack), MapKind) || (check && old(stack)[|old(stack)| - 1].remaining > 0) ==> unchanged(this)
    {
      r := ReadContainerEnd(MapKind, check);
    }
  }
}
