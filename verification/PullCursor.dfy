/** Pulling bytes through a cursor: the reading half of src/pullpush.c. */
module PullCursors {
  import opened Common
  import opened Varint
  import opened PullViews

  class PullCursor {
    const memory: seq<byte>
    var pos: Option<nat>
    var max: nat

    constructor (memory: seq<byte>, pos: Option<nat>, max: nat)
      requires ValidView(memory, View(pos, max))
      ensures this.memory == memory && this.pos == pos && this.max == max && Valid()
    {
      this.memory, this.pos, this.max := memory, pos, max;
    }

    predicate Valid()
      reads this
    {
      ValidView(memory, State())
    }

    function State(): View
      reads this
    {
      View(pos, max)
    }

    /** pull_failed */
    method PullFailed()
      modifies this
      ensures Valid() && State() == FAILED
    {
      pos := None;
      max := 0;
    }

    /** pull_bytes, the destination being the answer. */
    method PullBytes(len: nat) returns (dst: seq<byte>)
      requires Valid()
      modifies this
      ensures Valid() && (dst, State()) == PullViews.PullBytes(memory, old(State()), len)
    {
      ghost var b := Rest(memory, State());
      dst := [];
      if len > max {
        if max > 0 && pos.Some? {
          dst := memory[pos.value..pos.value + max];
        }
        assert dst == b;
        dst := dst + Repeat(0, len - max);
        PullFailed();
        return;
      }
      if len > 0 && pos.Some? {
        dst := memory[pos.value..pos.value + len];
        assert dst == b[..len];
        pos := Some(pos.value + len);
        max := max - len;
      }
    }

    /** pull_skip: the place of the bytes skipped. */
    method PullSkip(len: nat) returns (p: Option<nat>)
      requires Valid()
      modifies this
      ensures Valid() && (p, State()) == PullViews.PullSkip(memory, old(State()), len)
    {
      if pos.None? {
        return None;
      }
      if len > max {
        PullFailed();
        return None;
      }
      p := pos;
      pos := Some(pos.value + len);
      max := max - len;
    }

    method PullU8() returns (v: byte)
      requires Valid()
      modifies this
      ensures Valid() && ([v], State()) == PullViews.PullBytes(memory, old(State()), 1)
    {
      var dst := PullBytes(1);
      v := dst[0];
      assert dst == [v];
    }

    /** Looking at a byte does not move the cursor, but fails it at the end. */
    method PeekU8() returns (v: byte)
      requires Valid()
      modifies this
      ensures Valid()
      ensures if old(max) > 0 then State() == old(State()) && v == memory[pos.value] else State() == FAILED && v == 0
    {
      ghost var b := Rest(memory, State());
      v := PullU8();
      assert v == if old(max) > 0 then b[..1][0] else (b + Repeat(0, 1))[0];
      if pos.Some? {
        pos := Some(pos.value - 1);
        max := max + 1;
      }
    }

    method PullLe32() returns (v: uint32)
      requires Valid()
      modifies this
      ensures Valid()
      ensures var (b, after) := PullViews.PullBytes(memory, old(State()), 4);
              v == FromLittleEndian(b) && State() == after
    {
      var b := PullBytes(4);
      Powers();
      ToFromLittleEndian(b);
      v := FromLittleEndian(b);
    }

    method PullLe64() returns (v: uint64)
      requires Valid()
      modifies this
      ensures Valid()
      ensures var (b, after) := PullViews.PullBytes(memory, old(State()), 8);
              v == FromLittleEndian(b) && State() == after
    {
      var b := PullBytes(8);
      Powers();
      ToFromLittleEndian(b);
      v := FromLittleEndian(b);
    }

    /** pull_varint: the first byte, then as many as it says. */
    method PullVarint() returns (v: uint64)
      requires Valid()
      modifies this
      ensures Valid() && (v, State()) == PullViews.PullVarint(memory, old(State()))
    {
      hide VarintValue, PullViews.PullBytes, PullViews.PullVarint;
      VarintParts(memory, State());
      var buf := PullBytes(1);
      if pos.None? {
        return 0;
      }
      NoBytes(memory, State());
      var len := VarintLength(buf[0]) - 1;
      if len > 0 {
        var tail := PullBytes(len);
        buf := buf + tail;
      }
      if pos.None? {
        return 0;
      }
      assert buf + [] == buf;
      v := VarintValue(buf);
    }

    method PullVarlength() returns (len: uint64)
      requires Valid()
      modifies this
      ensures Valid() && (len, State()) == PullViews.PullVarlength(memory, old(State()))
    {
      len := PullVarint();
      if len > max {
        PullFailed();
        len := 0;
      }
    }

    /** pull_varlength_buff: never answers with a length that is not there. */
    method PullVarlengthBuff() returns (dst: Option<nat>, len: uint64)
      requires Valid()
      modifies this
      ensures var (n, after) := PullViews.PullVarlength(memory, old(State()));
              len == n && (dst, State()) == PullViews.PullSkip(memory, after, n)
      ensures Valid() && (dst.None? ==> len == 0)
    {
      len := PullVarlength();
      dst := PullSkip(len);
    }

    /** pull_varint_buff: the length is as read, also when the bytes are missing. */
    method PullVarintBuff() returns (dst: Option<nat>, len: uint64)
      requires Valid()
      modifies this
      ensures var (n, after) := PullViews.PullVarint(memory, old(State()));
              len == n && (dst, State()) == PullViews.PullSkip(memory, after, n)
      ensures Valid() && (dst.Some? ==> dst.value + len <= |memory|)
    {
      len := PullVarint();
      dst := PullSkip(len);
    }

    method PullSubfieldStart(subfieldLen: nat) returns (sub: PullCursor)
      requires Valid()
      ensures fresh(sub) && sub.Valid() && sub.memory == memory && sub.State() == SubfieldStart(State(), subfieldLen)
    {
      if subfieldLen > max {
        sub := new PullCursor(memory, None, 0);
      } else {
        sub := new PullCursor(memory, pos, subfieldLen);
      }
    }

    method PullSubfieldEnd(sub: PullCursor)
      requires Valid() && sub != this
      modifies this
      ensures Valid() && State() == SubfieldEnd(old(State()), old(sub.State()))
    {
      if sub.pos.None? {
        PullFailed();
      } else if pos.Some? {
        var subend := sub.pos.value + sub.max;
        if sub.pos.value < pos.value || subend > pos.value + max {
          PullFailed();
        } else {
          max := max - (subend - pos.value);
          pos := Some(subend);
        }
      }
    }

    method SubfieldNoMoreEnd(sub: PullCursor)
      requires Valid() && sub != this
      modifies this
      ensures Valid() && State() == NoMoreEnd(old(State()), old(sub.State()))
    {
      if sub.max > 0 {
        PullFailed();
      } else {
        PullSubfieldEnd(sub);
      }
    }
  }
}
