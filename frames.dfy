/**
 * The unpacker's container stack: one frame per open array or map, innermost
 * last, each counting the child slots still expected. A map frame has two
 * slots per pair, one for the key and one for the value. The empty stack is
 * the top level, where values may follow one another without limit.
 */
module Frames {

  datatype Kind = ArrayKind | MapKind

  datatype Frame = Frame(kind: Kind, remaining: nat)

  /** The slot check made before each read: the innermost container still expects a child. */
  predicate HasSlot(s: seq<Frame>) {
    |s| == 0 || s[|s| - 1].remaining > 0
  }

  /**
   * Every container below the innermost one is waiting for the child that is
   * open above it, so each still has that child's slot.
   */
  predicate Nested(s: seq<Frame>) {
    forall i :: 0 <= i < |s| - 1 ==> s[i].remaining > 0
  }

  predicate TopIs(s: seq<Frame>, k: Kind) {
    |s| > 0 && s[|s| - 1].kind == k
  }

  /** One child of the innermost container has been read. */
  function Reduce(s: seq<Frame>): (r: seq<Frame>)
    requires HasSlot(s)
  {
    if |s| == 0 then s
    else s[..|s| - 1] + [s[|s| - 1].(remaining := s[|s| - 1].remaining - 1)]
  }

  /** A container has been opened as a child of the innermost one. */
  function Open(s: seq<Frame>, k: Kind, slots: nat): seq<Frame> {
    s + [Frame(k, slots)]
  }

  /**
   * The innermost container is closed: its frame goes, and the closed
   * container counts as one child of the container around it.
   */
  function Close(s: seq<Frame>): (r: seq<Frame>)
    requires |s| > 0 && Nested(s)
  {
    Reduce(s[..|s| - 1])
  }

  lemma ReducePreserves(s: seq<Frame>)
    requires HasSlot(s) && Nested(s)
    ensures Nested(Reduce(s)) && |Reduce(s)| == |s|
    ensures forall i :: 0 <= i < |s| - 1 ==> Reduce(s)[i] == s[i]
    ensures |s| > 0 ==> Reduce(s)[|s| - 1] == Frame(s[|s| - 1].kind, s[|s| - 1].remaining - 1)
  {
  }

  lemma ReduceTop(below: seq<Frame>, f: Frame)
    requires f.remaining > 0
    ensures Reduce(below + [f]) == below + [f.(remaining := f.remaining - 1)]
  {
    assert (below + [f])[..|below|] == below;
  }

  lemma OpenPreserves(s: seq<Frame>, k: Kind, slots: nat)
    requires HasSlot(s) && Nested(s) && slots > 0
    ensures Nested(Open(s, k, slots)) && HasSlot(Open(s, k, slots))
  {
  }

  /** Closing does not look at the count of the frame it drops. */
  lemma CloseIgnoresTop(s: seq<Frame>, f: Frame)
    requires |s| > 0 && Nested(s)
    ensures Nested(s[..|s| - 1] + [f]) && Close(s[..|s| - 1] + [f]) == Close(s)
  {
    assert (s[..|s| - 1] + [f])[..|s| - 1] == s[..|s| - 1];
  }

  lemma ClosePreserves(s: seq<Frame>)
    requires |s| > 0 && Nested(s)
    ensures Nested(Close(s)) && |Close(s)| == |s| - 1
    ensures forall i :: 0 <= i < |s| - 2 ==> Close(s)[i] == s[i]
    ensures |s| > 1 ==> Close(s)[|s| - 2] == Frame(s[|s| - 2].kind, s[|s| - 2].remaining - 1)
  {
    ReducePreserves(s[..|s| - 1]);
  }

  /**
   * The number of values still to be read before every frame of s is closed:
   * the innermost frame's slots, plus for each frame below it the slots other
   * than the one its open child occupies.
   */
  function Owed(s: seq<Frame>): (r: nat)
    requires Nested(s)
    ensures |s| > 0 ==> r >= s[|s| - 1].remaining
  {
    if |s| == 0 then 0
    else if |s| == 1 then s[0].remaining
    else Owed(s[..|s| - 1]) - 1 + s[|s| - 1].remaining
  }

  /** Reading a whole child of the innermost frame leaves one value fewer owed. */
  lemma OwedReduce(s: seq<Frame>)
    requires |s| > 0 && HasSlot(s) && Nested(s)
    ensures Nested(Reduce(s)) && Owed(Reduce(s)) == Owed(s) - 1
  {
    ReducePreserves(s);
    assert Reduce(s)[..|s| - 1] == s[..|s| - 1];
  }

  /** Opening a container of k slots trades the slot it fills for its own k. */
  lemma OwedOpen(s: seq<Frame>, k: Kind, slots: nat)
    requires |s| > 0 && HasSlot(s) && Nested(s) && slots > 0
    ensures Nested(Open(s, k, slots)) && Owed(Open(s, k, slots)) == Owed(s) - 1 + slots
  {
    assert Open(s, k, slots)[..|s|] == s;
  }

  /** Closing a finished inner frame settles the slot it held in its parent: nothing more is owed. */
  lemma OwedClose(s: seq<Frame>)
    requires |s| > 1 && Nested(s) && s[|s| - 1].remaining == 0
    ensures Nested(Close(s)) && Owed(Close(s)) == Owed(s)
  {
    var p := s[..|s| - 1];
    assert Nested(p);
    OwedReduce(p);
  }

  /** The frames below a run of frames are untouched by operations on the run. */
  lemma ReduceAbove(base: seq<Frame>, run: seq<Frame>)
    requires |run| > 0 && HasSlot(run)
    ensures HasSlot(base + run) && Reduce(base + run) == base + Reduce(run)
  {
  }

  lemma CloseAbove(base: seq<Frame>, run: seq<Frame>)
    requires |run| > 1 && Nested(base + run) && Nested(run)
    ensures Close(base + run) == base + Close(run)
  {
    assert (base + run)[..|base + run| - 1] == base + run[..|run| - 1];
    ReduceAbove(base, run[..|run| - 1]);
  }
}
