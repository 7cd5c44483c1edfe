/** What pulling bytes does to a cursor: the reading half of src/pullpush.c on values. */
module PullViews {
  import opened Common
  import opened Varint

  /** *cursor as an index into the bytes, None for NULL, and *max. */
  datatype View = View(pos: Option<nat>, max: nat)

  const FAILED := View(None, 0)

  /** A cursor stays inside the bytes; one that is NULL has nothing left. */
  predicate ValidView(m: seq<byte>, v: View) {
    if v.pos.Some? then v.pos.value + v.max <= |m| else v.max == 0
  }

  function Rest(m: seq<byte>, v: View): (b: seq<byte>)
    requires ValidView(m, v)
    ensures |b| == v.max
  {
    if v.pos.Some? then m[v.pos.value..v.pos.value + v.max] else []
  }

  function Advance(v: View, n: nat): View
    requires n <= v.max && v.pos.Some?
  {
    View(Some(v.pos.value + n), v.max - n)
  }

  /** pull_bytes: what is missing reads as zeros, and the cursor has then failed. */
  function PullBytes(m: seq<byte>, v: View, len: nat): (r: (seq<byte>, View))
    requires ValidView(m, v)
    ensures |r.0| == len && ValidView(m, r.1)
  {
    if len > v.max then (Rest(m, v) + Repeat(0, len - v.max), FAILED)
    else if v.pos.Some? then (Rest(m, v)[..len], Advance(v, len))
    else ([], v)
  }

  /** pull_skip */
  function PullSkip(m: seq<byte>, v: View, len: nat): (r: (Option<nat>, View))
    requires ValidView(m, v)
    ensures ValidView(m, r.1) && (r.0.Some? ==> r.0.value + len <= |m|)
  {
    if v.pos.None? then (None, v)
    else if len > v.max then (None, FAILED)
    else (v.pos, Advance(v, len))
  }

  /** pull_varint */
  function PullVarint(m: seq<byte>, v: View): (r: (uint64, View))
    requires ValidView(m, v)
    ensures ValidView(m, r.1)
  {
    var b := Rest(m, v);
    if !HasVarint(b) then (0, FAILED)
    else (VarintValue(b), Advance(v, VarintLength(b[0])))
  }

  /** pull_varlength */
  function PullVarlength(m: seq<byte>, v: View): (r: (uint64, View))
    requires ValidView(m, v)
    ensures ValidView(m, r.1) && r.0 <= r.1.max
  {
    var (len, v1) := PullVarint(m, v);
    if len > v1.max then (0, FAILED) else (len, v1)
  }

  /** pull_subfield_start */
  function SubfieldStart(v: View, len: nat): View {
    if len > v.max then FAILED else View(v.pos, len)
  }

  /** pull_subfield_end: go to where the subfield ends, if it lies within what is left. */
  function SubfieldEnd(v: View, sub: View): View {
    if sub.pos.None? then FAILED
    else if v.pos.None? then v
    else
      var end := sub.pos.value + sub.max;
      if sub.pos.value < v.pos.value || end > v.pos.value + v.max then FAILED
      else Advance(v, end - v.pos.value)
  }

  /** subfield_nomore_end */
  function NoMoreEnd(v: View, sub: View): View {
    if sub.max != 0 then FAILED else SubfieldEnd(v, sub)
  }

  /** A varint is its first byte and then as many as that says. */
  lemma VarintParts(m: seq<byte>, v: View)
    requires ValidView(m, v)
    ensures var (first, v1) := PullBytes(m, v, 1);
            if v1.pos.None? then PullVarint(m, v) == (0, FAILED) && v1 == FAILED
            else
              var (tail, v2) := PullBytes(m, v1, VarintLength(first[0]) - 1);
              if v2.pos.None? then PullVarint(m, v) == (0, FAILED) && v2 == FAILED
              else HasVarint(first + tail) && PullVarint(m, v) == (VarintValue(first + tail), v2)
  {
    hide VarintValue;
    var b := Rest(m, v);
    if v.pos.Some? && HasVarint(b) {
      var n := VarintLength(b[0]);
      assert b[..1] + Rest(m, Advance(v, 1))[..n - 1] == b[..n];
      SameVarint(b, n);
    }
  }

  lemma NoBytes(m: seq<byte>, v: View)
    requires ValidView(m, v)
    ensures PullBytes(m, v, 0) == ([], v)
  {
  }

  /** Byte i of what is pulled is the byte i places behind the cursor, or zero if it is missing. */
  lemma PulledBytes(m: seq<byte>, v: View, len: nat)
    requires ValidView(m, v)
    ensures var (b, t) := PullBytes(m, v, len);
            && |b| == len
            && (forall i :: 0 <= i < len ==> b[i] == if i < v.max && v.pos.Some? then m[v.pos.value + i] else 0)
            && t == if v.pos.None? || len > v.max then View(None, 0) else View(Some(v.pos.value + len), v.max - len)
  {
  }

  /** Skipping answers where the skipped bytes are, or fails. */
  lemma Skipped(m: seq<byte>, v: View, len: nat)
    requires ValidView(m, v)
    ensures PullSkip(m, v, len)
         == if v.pos.None? || len > v.max then (None, View(None, 0))
            else (v.pos, View(Some(v.pos.value + len), v.max - len))
  {
  }

  /** Failure is sticky: a failed cursor reads zeros and NULL, and stays failed. */
  lemma FailureIsSticky(m: seq<byte>, len: nat, sub: View)
    ensures PullBytes(m, FAILED, len) == (Repeat(0, len), FAILED)
    ensures PullSkip(m, FAILED, len) == (None, FAILED)
    ensures PullVarint(m, FAILED) == (0, FAILED) && PullVarlength(m, FAILED) == (0, FAILED)
    ensures SubfieldStart(FAILED, len) == FAILED
    ensures SubfieldEnd(FAILED, sub) == FAILED && NoMoreEnd(FAILED, sub) == FAILED
  {
    assert Rest(m, FAILED) + Repeat(0, len) == Repeat(0, len);
    assert Repeat<byte>(0, 0) == [];
  }

  /**
   A subfield is a view of its own bytes, and closing it after any pulls puts the outer cursor exactly at the
   subfield's end, wherever the pulls stopped; unless they failed.
   */
  lemma SubfieldNests(m: seq<byte>, v: View, len: nat, n: nat)
    requires ValidView(m, v) && v.pos.Some? && n <= len <= v.max
    ensures var sub := SubfieldStart(v, len);
            && ValidView(m, sub) && Rest(m, sub) == Rest(m, v)[..len]
            && SubfieldEnd(v, Advance(sub, n)) == Advance(v, len)
            && NoMoreEnd(v, Advance(sub, n)) == (if n == len then Advance(v, len) else FAILED)
            && SubfieldEnd(v, FAILED) == FAILED && NoMoreEnd(v, FAILED) == FAILED
  {
  }
}
