/** Pushing bytes through a cursor: the writing half of src/pullpush.c. */
module PushCursors {
  import opened Common
  import opened Varint

  /** What a push lays down: a byte, or None where the source is NULL and the buffer keeps what it has. */
  type Cells = seq<Option<byte>>

  function Given(b: seq<byte>): (c: Cells)
    ensures |c| == |b| && forall i :: 0 <= i < |b| ==> c[i] == Some(b[i])
  {
    seq(|b|, i requires 0 <= i < |b| => Some(b[i]))
  }

  /** A cursor into a buffer: *cursor as an index, None for NULL, and *max. */
  datatype Sink = Sink(memory: seq<byte>, pos: Option<nat>, max: nat)

  predicate ValidSink(s: Sink) {
    s.pos.Some? ==> s.pos.value + s.max <= |s.memory|
  }

  function Lay(memory: seq<byte>, at: nat, cells: Cells): (m: seq<byte>)
    requires at + |cells| <= |memory|
    ensures |m| == |memory|
  {
    seq(|memory|, k requires 0 <= k < |memory| =>
      if at <= k < at + |cells| && cells[k - at].Some? then cells[k - at].value else memory[k])
  }

  /** push_bytes: write, write what fits and give up, or only measure. */
  function Push(s: Sink, cells: Cells): (t: Sink)
    requires ValidSink(s)
    ensures ValidSink(t) && |t.memory| == |s.memory|
  {
    if s.pos.None? then s.(max := s.max + |cells|)
    else if |cells| > s.max then Sink(Lay(s.memory, s.pos.value, cells[..s.max]), None, |cells| - s.max)
    else Sink(Lay(s.memory, s.pos.value, cells), Some(s.pos.value + |cells|), s.max - |cells|)
  }

  function PushAll(s: Sink, pushes: seq<Cells>): (t: Sink)
    requires ValidSink(s)
    ensures ValidSink(t)
    decreases |pushes|
  {
    if pushes == [] then s else PushAll(Push(s, pushes[0]), pushes[1..])
  }

  function Flat(pushes: seq<Cells>): Cells {
    if pushes == [] then [] else pushes[0] + Flat(pushes[1..])
  }

  /** Two pushes do what one push of both does, whichever mode the cursor is in or gets into. */
  lemma PushTwice(s: Sink, a: Cells, b: Cells)
    requires ValidSink(s)
    ensures Push(Push(s, a), b) == Push(s, a + b)
  {
    if s.pos.Some? {
      var p := s.pos.value;
      if |a| > s.max {
        assert (a + b)[..s.max] == a[..s.max];
      } else {
        var n := if |b| > s.max - |a| then s.max - |a| else |b|;
        assert (a + b)[..|a| + n] == a + b[..n];
        assert b[..|b|] == b && (a + b)[..|a| + |b|] == a + b;
        LayTwice(s.memory, p, a, b[..n]);
      }
    }
  }

  lemma LayTwice(memory: seq<byte>, at: nat, a: Cells, b: Cells)
    requires at + |a| + |b| <= |memory|
    ensures Lay(Lay(memory, at, a), at + |a|, b) == Lay(memory, at, a + b)
  {
  }

  lemma PushNothing(s: Sink)
    requires ValidSink(s)
    ensures Push(s, []) == s
  {
    if s.pos.Some? {
      assert Lay(s.memory, s.pos.value, []) == s.memory;
    }
  }

  /** Any sequence of pushes is one push of everything. */
  lemma {:induction false} PushAllFlat(s: Sink, pushes: seq<Cells>)
    requires ValidSink(s)
    ensures PushAll(s, pushes) == Push(s, Flat(pushes))
    decreases |pushes|
  {
    if pushes == [] {
      PushNothing(s);
    } else {
      PushAllFlat(Push(s, pushes[0]), pushes[1..]);
      PushTwice(s, pushes[0], Flat(pushes[1..]));
    }
  }

  /**
   The accounting of any run of pushes of bytes. With room, the buffer holds the concatenation and max
   is what is left. Without, it holds the truncated concatenation, the cursor is NULL and max is the number of
   bytes missing. A NULL cursor only adds up the total. Nothing outside the room is written.
   */
  lemma PushAccounting(s: Sink, pushes: seq<Cells>, all: seq<byte>)
    requires ValidSink(s) && Flat(pushes) == Given(all)
    ensures var t := PushAll(s, pushes);
            if s.pos.None? then t == s.(max := s.max + |all|)
            else
              var p, n := s.pos.value, Min(|all|, s.max);
              && (if |all| <= s.max then t.pos == Some(p + |all|) && t.max == s.max - |all|
                  else t.pos == None && t.max == |all| - s.max)
              && t.memory == s.memory[..p] + all[..n] + s.memory[p + n..]
  {
    PushAllFlat(s, pushes);
    hide Lay, PushAll, Flat;
    if s.pos.Some? {
      var n := Min(|all|, s.max);
      GivenPrefix(all, n);
      LayGiven(s.memory, s.pos.value, all[..n]);
    }
  }

  lemma GivenPrefix(b: seq<byte>, n: nat)
    requires n <= |b|
    ensures Given(b)[..n] == Given(b[..n]) && b[..|b|] == b
  {
  }

  lemma LayGiven(memory: seq<byte>, at: nat, b: seq<byte>)
    requires at + |b| <= |memory|
    ensures Lay(memory, at, Given(b)) == memory[..at] + b + memory[at + |b|..]
  {
  }

  lemma GivenConcat(a: seq<byte>, b: seq<byte>)
    ensures Given(a) + Given(b) == Given(a + b)
  {
  }

  /** A witness stack, the items from the bottom up. */
  type Stack = w: seq<seq<byte>> | |w| < TWO_64 && forall i :: 0 <= i < |w| ==> |w[i]| < TWO_64

  function VarbuffBytes(b: seq<byte>): seq<byte>
    requires |b| < TWO_64
  {
    VarintBytes(|b|) + b
  }

  function ItemsBytes(w: Stack): seq<byte> {
    if w == [] then [] else VarbuffBytes(w[0]) + ItemsBytes(w[1..])
  }

  /** The serialization of a witness stack in BIP 144. */
  function StackBytes(w: Stack): seq<byte> {
    VarintBytes(|w|) + ItemsBytes(w)
  }

  class PushCursor {
    const buffer: array<byte>
    var pos: Option<nat>
    var max: nat

    constructor (buffer: array<byte>, pos: Option<nat>, max: nat)
      requires pos.Some? ==> pos.value + max <= buffer.Length
      ensures this.buffer == buffer && this.pos == pos && this.max == max && Valid()
    {
      this.buffer, this.pos, this.max := buffer, pos, max;
    }

    ghost predicate Valid()
      reads this
    {
      pos.Some? ==> pos.value + max <= buffer.Length
    }

    ghost function State(): (s: Sink)
      reads this, buffer
      ensures Valid() <==> ValidSink(s)
    {
      Sink(buffer[..], pos, max)
    }

    /** push_bytes; src is None for NULL. The answer is where the bytes went. */
    method PushBytes(src: Option<seq<byte>>, len: nat) returns (start: Option<nat>)
      requires Valid() && (src.Some? ==> |src.value| == len)
      modifies this`pos, this`max, buffer
      ensures Valid() && State() == Push(old(State()), if src.Some? then Given(src.value) else Repeat(None, len))
      ensures start == if len <= old(max) then old(pos) else None
    {
      if pos.None? {
        max := max + len;
        return None;
      }
      var p := pos.value;
      if len > max {
        if src.Some? {
          forall k | 0 <= k < max {
            buffer[p + k] := src.value[k];
          }
        }
        max := len - max;
        pos := None;
        ghost var cells := if src.Some? then Given(src.value) else Repeat(None, len);
        assert State().memory == Lay(old(buffer[..]), p, cells[..old(max)]);
        return None;
      }
      if src.Some? {
        forall k | 0 <= k < len {
          buffer[p + k] := src.value[k];
        }
      }
      pos := Some(p + len);
      max := max - len;
      ghost var cells := if src.Some? then Given(src.value) else Repeat(None, len);
      assert State().memory == Lay(old(buffer[..]), p, cells);
      return Some(p);
    }

    method PushVarint(v: uint64)
      requires Valid()
      modifies this`pos, this`max, buffer
      ensures Valid() && State() == Push(old(State()), Given(VarintBytes(v)))
      ensures var n := if v < 253 then 1 else if v < 0x1_0000 then 3 else if v < 0x1_0000_0000 then 5 else 9;
              old(pos).Some? && n <= old(max) ==> pos == Some(old(pos).value + n) && max == old(max) - n
    {
      VarintForm(v);
      var buf := VarintBytes(v);
      var _ := PushBytes(Some(buf), |buf|);
    }

    method PushVarbuff(bytes: seq<byte>)
      requires Valid() && |bytes| < TWO_64
      modifies this`pos, this`max, buffer
      ensures Valid() && State() == Push(old(State()), Given(VarbuffBytes(bytes)))
    {
      PushVarint(|bytes|);
      var _ := PushBytes(Some(bytes), |bytes|);
      PushTwice(old(State()), Given(VarintBytes(|bytes|)), Given(bytes));
      GivenConcat(VarintBytes(|bytes|), bytes);
    }

    method PushVarintVarbuff(v: uint64)
      requires Valid()
      modifies this`pos, this`max, buffer
      ensures Valid() && State() == Push(old(State()), Given(VarbuffBytes(VarintBytes(v))))
    {
      PushVarbuff(VarintBytes(v));
    }

    method PushU8(v: byte)
      requires Valid()
      modifies this`pos, this`max, buffer
      ensures Valid() && State() == Push(old(State()), Given([v]))
    {
      var _ := PushBytes(Some([v]), 1);
    }

    method PushLe32(v: uint32)
      requires Valid()
      modifies this`pos, this`max, buffer
      ensures Valid() && State() == Push(old(State()), Given(LittleEndian(v, 4)))
    {
      var _ := PushBytes(Some(LittleEndian(v, 4)), 4);
    }

    method PushLe64(v: uint64)
      requires Valid()
      modifies this`pos, this`max, buffer
      ensures Valid() && State() == Push(old(State()), Given(LittleEndian(v, 8)))
    {
      var _ := PushBytes(Some(LittleEndian(v, 8)), 8);
    }

    /** push_witness_stack */
    method PushWitnessStack(stack: Stack)
      requires Valid()
      modifies this`pos, this`max, buffer
      ensures Valid() && State() == Push(old(State()), Given(StackBytes(stack)))
    {
      hide Push, Lay, VarintBytes;
      PushVarint(|stack|);
      assert ItemsBytes(stack[..0]) == [];
      ghost var done := VarintBytes(|stack|);
      assert done == done + ItemsBytes(stack[..0]);
      for i := 0 to |stack|
        invariant Valid()
        invariant done == VarintBytes(|stack|) + ItemsBytes(stack[..i])
        invariant State() == Push(old(State()), Given(done))
      {
        PushVarbuff(stack[i]);
        PushTwice(old(State()), Given(done), Given(VarbuffBytes(stack[i])));
        GivenConcat(done, VarbuffBytes(stack[i]));
        ItemsSnoc(stack[..i], stack[i]);
        assert stack[..i + 1] == stack[..i] + [stack[i]];
        done := done + VarbuffBytes(stack[i]);
      }
      assert stack[..|stack|] == stack;
    }
  }

  lemma {:induction false} ItemsSnoc(w: Stack, x: seq<byte>)
    requires |w| + 1 < TWO_64 && |x| < TWO_64
    ensures ItemsBytes(w + [x]) == ItemsBytes(w) + VarbuffBytes(x)
  {
    if w == [] {
      assert w + [x] == [x] && [x][1..] == [];
      assert ItemsBytes([]) == [];
    } else {
      assert (w + [x])[1..] == w[1..] + [x];
      ItemsSnoc(w[1..], x);
    }
  }

  /** Each item stands between those before and those behind it, its length in front of it. */
  lemma {:induction false} ItemsInOrder(w: Stack, i: nat)
    requires i < |w|
    ensures ItemsBytes(w) == ItemsBytes(w[..i]) + (VarintBytes(|w[i]|) + w[i]) + ItemsBytes(w[i + 1..])
    decreases i
  {
    hide VarintBytes;
    if i == 0 {
      assert ItemsBytes(w[..0]) == [];
    } else {
      ItemsInOrder(w[1..], i - 1);
      assert w[..i][0] == w[0] && w[..i][1..] == w[1..][..i - 1] && w[1..][i..] == w[i + 1..];
    }
  }

  /** In front of all is their number; no items are no bytes. */
  lemma StackInOrder(w: Stack)
    ensures StackBytes(w) == VarintBytes(|w|) + ItemsBytes(w) && (w == [] ==> StackBytes(w) == [0])
  {
  }
}
