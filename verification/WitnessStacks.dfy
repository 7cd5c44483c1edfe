/**
 Witness stacks read through pull cursors: pull_witness of src/pullpush.c and its two callers in src/transaction.c.
 */
module WitnessStacks {
  import opened Common
  import opened Varint
  import opened PushCursors
  import opened PullViews
  import opened PullCursors

  /** b is one length-prefixed buffer after the other, those of w. */
  predicate IsItems(b: seq<byte>, w: seq<seq<byte>>)
    decreases |w|
  {
    if w == [] then b == []
    else if !HasVarint(b) then false
    else
      var k := VarintLength(b[0]) + VarintValue(b);
      k <= |b| && b[VarintLength(b[0])..k] == w[0] && IsItems(b[k..], w[1..])
  }

  /** b is the number of items and then the items, the serialization of BIP 144. */
  predicate IsStack(b: seq<byte>, w: seq<seq<byte>>) {
    HasVarint(b) && VarintValue(b) == |w| && IsItems(b[VarintLength(b[0])..], w)
  }

  /** b is a whole subfield: its length, then exactly a witness stack. */
  predicate IsField(b: seq<byte>, w: seq<seq<byte>>) {
    HasVarint(b) && VarintValue(b) == |b| - VarintLength(b[0]) && IsStack(b[VarintLength(b[0])..], w)
  }

  datatype Pulled = Pulled(status: Status, stack: Option<seq<seq<byte>>>, view: View)

  function ItemAt(m: seq<byte>, p: Option<nat>, len: nat): seq<byte>
    requires p.Some? ==> p.value + len <= |m|
  {
    if p.Some? then m[p.value..p.value + len] else []
  }

  /** One item. If its bytes are missing, wally_tx_witness_stack_set refuses it, unless it is empty. */
  function PullItem(m: seq<byte>, v: View): (r: (Option<seq<byte>>, View))
    requires ValidView(m, v)
    ensures ValidView(m, r.1)
  {
    var (len, v1) := PullVarint(m, v);
    var (p, v2) := PullSkip(m, v1, len);
    if p.None? && len > 0 then (None, v2) else (Some(ItemAt(m, p, len)), v2)
  }

  /** The loop of pull_witness: n more items. */
  function PullItems(m: seq<byte>, v: View, n: nat, got: seq<seq<byte>>): (r: Pulled)
    requires ValidView(m, v)
    ensures ValidView(m, r.view) && (r.status == Ok <==> r.stack.Some?)
    decreases n
  {
    if n == 0 then Pulled(Ok, Some(got), v)
    else
      var (x, v1) := PullItem(m, v);
      if x.None? then Pulled(Einval, None, v1) else PullItems(m, v1, n - 1, got + [x.value])
  }

  /** A count, and that many items if there is room for that many lengths. */
  function PullStack(m: seq<byte>, v: View): (r: Pulled)
    requires ValidView(m, v)
    ensures ValidView(m, r.view) && (r.status == Ok <==> r.stack.Some?)
  {
    var (n, v1) := PullVarint(m, v);
    if n > v1.max then Pulled(Einval, None, v1) else PullItems(m, v1, n, [])
  }

  /** pull_witness inside a subfield, as PSBTs have it. */
  function PullField(m: seq<byte>, v: View): (r: Pulled)
    requires ValidView(m, v)
    ensures ValidView(m, r.view) && (r.status == Ok <==> r.stack.Some?)
  {
    var (len, v1) := PullVarint(m, v);
    var r := PullStack(m, SubfieldStart(v1, len));
    if r.status != Ok then Pulled(r.status, None, v1)
    else
      var end := NoMoreEnd(v1, r.view);
      if end == FAILED then Pulled(Einval, None, end) else Pulled(Ok, r.stack, end)
  }

  /** pull_witness on plain bytes: the caller's cursor stays where it is. */
  function PullPlain(m: seq<byte>, v: View): (r: Pulled)
    requires ValidView(m, v)
  {
    var r := PullStack(m, v);
    if r.status != Ok then Pulled(r.status, None, v)
    else if r.view == FAILED then Pulled(Einval, None, v)
    else Pulled(Ok, r.stack, v)
  }

  lemma SliceOfSlice<T>(m: seq<T>, from: nat, to: nat, i: nat, j: nat)
    requires from <= to <= |m| && i <= j <= to - from
    ensures m[from..to][i..j] == m[from + i..from + j]
  {
    var a, b := m[from..to][i..j], m[from + i..from + j];
    assert forall x :: 0 <= x < |a| ==> a[x] == b[x];
  }

  lemma Split<T>(b: seq<T>, h: nat, k: nat, n: nat)
    requires h <= k <= n <= |b|
    ensures b[..n][h..k] == b[h..k] && b[..n][k..] == b[k..][..n - k]
  {
  }

  /** An item is read if it is there, and otherwise the cursor has failed. */
  lemma PullItemExact(m: seq<byte>, v: View)
    requires ValidView(m, v)
    ensures var b := Rest(m, v);
            if HasVarint(b) && VarintLength(b[0]) + VarintValue(b) <= |b| then
              var k := VarintLength(b[0]) + VarintValue(b);
              v.pos.Some? && PullItem(m, v) == (Some(b[VarintLength(b[0])..k]), Advance(v, k))
            else PullItem(m, v).1 == FAILED
  {
    hide VarintValue;
    var b := Rest(m, v);
    if HasVarint(b) && VarintLength(b[0]) + VarintValue(b) <= |b| {
      var p, h, len := v.pos.value, VarintLength(b[0]), VarintValue(b);
      assert PullVarint(m, v) == (len, Advance(v, h));
      assert PullSkip(m, Advance(v, h), len) == (Some(p + h), Advance(v, h + len));
      SliceOfSlice(m, p, p + v.max, h, h + len);
    }
  }

  lemma RestAfter(m: seq<byte>, v: View, k: nat)
    requires ValidView(m, v) && v.pos.Some? && k <= v.max
    ensures ValidView(m, Advance(v, k)) && Rest(m, Advance(v, k)) == Rest(m, v)[k..]
  {
  }

  lemma SliceShift(b: seq<byte>, h: nat, used: nat)
    requires h <= used <= |b|
    ensures b[..used][h..] == b[h..][..used - h]
  {
  }

  lemma PullItemsStep(m: seq<byte>, v: View, n: nat, got: seq<seq<byte>>, x: seq<byte>, v1: View)
    requires ValidView(m, v) && n > 0 && PullItem(m, v) == (Some(x), v1)
    ensures PullItems(m, v, n, got) == PullItems(m, v1, n - 1, got + [x])
  {
  }

  /** The first of the items that begin b. */
  lemma FirstItem(b: seq<byte>, used: nat, w: seq<seq<byte>>)
    requires used <= |b| && w != []
    requires HasVarint(b) && VarintLength(b[0]) + VarintValue(b) <= used
    ensures var k := VarintLength(b[0]) + VarintValue(b);
            IsItems(b[..used], w) <==> b[VarintLength(b[0])..k] == w[0] && IsItems(b[k..][..used - k], w[1..])
  {
    hide VarintValue;
    SameVarint(b, used);
    Split(b, VarintLength(b[0]), VarintLength(b[0]) + VarintValue(b), used);
  }

  lemma ItemsHaveVarint(b: seq<byte>, used: nat, w: seq<seq<byte>>)
    requires used <= |b| && w != [] && IsItems(b[..used], w)
    ensures HasVarint(b) && VarintLength(b[0]) + VarintValue(b) <= used
  {
    hide VarintValue;
    SameVarint(b, used);
  }

  /** The first of the items that are there is read. */
  lemma PullFirst(m: seq<byte>, v: View, used: nat, w: seq<seq<byte>>, got: seq<seq<byte>>) returns (k: nat)
    requires ValidView(m, v) && v.pos.Some? && used <= v.max
    requires w != [] && IsItems(Rest(m, v)[..used], w)
    ensures k <= used && ValidView(m, Advance(v, k)) && IsItems(Rest(m, Advance(v, k))[..used - k], w[1..])
    ensures PullItems(m, v, |w|, got) == PullItems(m, Advance(v, k), |w| - 1, got + [w[0]])
  {
    hide VarintValue, PullItem, PullItems, Rest, ValidView, IsItems;
    var b := Rest(m, v);
    ItemsHaveVarint(b, used, w);
    k := VarintLength(b[0]) + VarintValue(b);
    FirstItem(b, used, w);
    PullItemExact(m, v);
    RestAfter(m, v, k);
    PullItemsStep(m, v, |w|, got, w[0], Advance(v, k));
  }

  lemma NoItems(m: seq<byte>, v: View, used: nat, got: seq<seq<byte>>)
    requires ValidView(m, v) && used <= v.max
    ensures IsItems(Rest(m, v)[..used], []) <==> used == 0
    ensures PullItems(m, v, 0, got) == Pulled(Ok, Some(got + []), v)
    ensures if v.pos.Some? then Advance(v, 0) == v else v == FAILED
  {
    assert |Rest(m, v)[..used]| == used;
    assert got + [] == got;
  }

  lemma Rejoin<T>(got: seq<T>, w: seq<T>)
    requires w != []
    ensures got + [w[0]] + w[1..] == got + w
  {
  }

  /** Items that are there are read. */
  lemma {:induction false} PullItemsComplete(m: seq<byte>, v: View, used: nat, w: seq<seq<byte>>, got: seq<seq<byte>>)
    requires ValidView(m, v) && v.pos.Some? && used <= v.max
    requires IsItems(Rest(m, v)[..used], w)
    ensures PullItems(m, v, |w|, got) == Pulled(Ok, Some(got + w), Advance(v, used))
    decreases |w|
  {
    hide PullItems, Rest, ValidView, IsItems;
    if w == [] {
      NoItems(m, v, used, got);
    } else {
      var k := PullFirst(m, v, used, w, got);
      PullItemsComplete(m, Advance(v, k), used - k, w[1..], got + [w[0]]);
      Rejoin(got, w);
    }
  }

  /** A failed cursor stays failed. */
  lemma {:induction false} PullItemsFailed(m: seq<byte>, n: nat, got: seq<seq<byte>>)
    ensures PullItems(m, FAILED, n, got).view == FAILED
    decreases n
  {
    if n > 0 {
      PullItemExact(m, FAILED);
      var x := PullItem(m, FAILED).0;
      if x.Some? { PullItemsFailed(m, n - 1, got + [x.value]); }
    }
  }

  /** Items that were all read were read without a failure. */
  lemma ItemsGoOn(m: seq<byte>, v: View, n: nat, got: seq<seq<byte>>)
    requires ValidView(m, v) && n > 0
    requires var r := PullItems(m, v, n, got); r.status == Ok && r.view != FAILED
    ensures PullItem(m, v).0.Some? && PullItem(m, v).1 != FAILED
  {
    var (x, v1) := PullItem(m, v);
    if x.Some? && v1 == FAILED { PullItemsFailed(m, n - 1, got + [x.value]); }
  }

  /** The first of the items read was there. */
  lemma PulledFirst(m: seq<byte>, v: View, n: nat, got: seq<seq<byte>>) returns (x: seq<byte>, k: nat)
    requires ValidView(m, v) && n > 0
    requires var r := PullItems(m, v, n, got); r.status == Ok && r.view != FAILED
    ensures v.pos.Some? && k <= v.max && ValidView(m, Advance(v, k))
    ensures PullItems(m, v, n, got) == PullItems(m, Advance(v, k), n - 1, got + [x])
    ensures forall used, w :: k <= used <= v.max && IsItems(Rest(m, Advance(v, k))[..used - k], w)
              ==> IsItems(Rest(m, v)[..used], [x] + w)
  {
    hide VarintValue, PullItem, PullItems, Rest, ValidView, IsItems;
    var b := Rest(m, v);
    PullItemExact(m, v);
    ItemsGoOn(m, v, n, got);
    x, k := PullItem(m, v).0.value, VarintLength(b[0]) + VarintValue(b);
    RestAfter(m, v, k);
    PullItemsStep(m, v, n, got, x, Advance(v, k));
    forall used, w | k <= used <= v.max && IsItems(Rest(m, Advance(v, k))[..used - k], w)
      ensures IsItems(Rest(m, v)[..used], [x] + w)
    {
      assert ([x] + w)[1..] == w && ([x] + w)[0] == x;
      FirstItem(b, used, [x] + w);
    }
  }

  /** Items that were read without the cursor failing were there. */
  lemma {:induction false} PullItemsSound(m: seq<byte>, v: View, n: nat, got: seq<seq<byte>>)
      returns (used: nat, w: seq<seq<byte>>)
    requires ValidView(m, v)
    requires var r := PullItems(m, v, n, got); r.status == Ok && r.view != FAILED
    ensures v.pos.Some? && used <= v.max && |w| == n
    ensures IsItems(Rest(m, v)[..used], w)
    ensures PullItems(m, v, n, got) == Pulled(Ok, Some(got + w), Advance(v, used))
    decreases n
  {
    hide PullItems, Rest, ValidView, IsItems;
    if n == 0 {
      used, w := 0, [];
      NoItems(m, v, 0, got);
    } else {
      var x, k := PulledFirst(m, v, n, got);
      var used', w' := PullItemsSound(m, Advance(v, k), n - 1, got + [x]);
      used, w := k + used', [x] + w';
      assert w[0] == x && w[1..] == w';
      Rejoin(got, w);
    }
  }

  /** Each item takes at least its length byte, so the early check on the count turns no stack away. */
  lemma {:induction false} ItemsAreLong(b: seq<byte>, w: seq<seq<byte>>)
    requires IsItems(b, w)
    ensures |w| <= |b|
    decreases |w|
  {
    if w != [] {
      ItemsAreLong(b[VarintLength(b[0]) + VarintValue(b)..], w[1..]);
    }
  }

  /** A witness stack at the cursor is pulled, whatever follows it. */
  lemma PullStackComplete(m: seq<byte>, v: View, used: nat, w: seq<seq<byte>>)
    requires ValidView(m, v) && used <= v.max && IsStack(Rest(m, v)[..used], w)
    ensures v.pos.Some? && PullStack(m, v) == Pulled(Ok, Some(w), Advance(v, used))
  {
    hide VarintValue, PullItems, IsItems;
    var b := Rest(m, v);
    SameVarint(b, used);
    var h := VarintLength(b[0]);
    SliceShift(b, h, used);
    RestAfter(m, v, h);
    ItemsAreLong(b[..used][h..], w);
    PullItemsComplete(m, Advance(v, h), used - h, w, []);
    assert [] + w == w;
  }

  /** What is pulled without the cursor failing is the witness stack at the cursor. */
  lemma PullStackSound(m: seq<byte>, v: View) returns (used: nat)
    requires ValidView(m, v)
    requires PullStack(m, v).status == Ok && PullStack(m, v).view != FAILED
    ensures v.pos.Some? && used <= v.max && IsStack(Rest(m, v)[..used], PullStack(m, v).stack.value)
    ensures PullStack(m, v).view == Advance(v, used)
  {
    hide VarintValue, PullItems, IsItems, Rest;
    var b := Rest(m, v);
    var (n, v1) := PullVarint(m, v);
    if v1 == FAILED { PullItemsFailed(m, n, []); }
    var h := VarintLength(b[0]);
    RestAfter(m, v, h);
    var used', w := PullItemsSound(m, v1, n, []);
    assert [] + w == w;
    used := h + used';
    SameVarint(b, used);
    SliceShift(b, h, used);
  }

  /** A subfield holding exactly a witness stack is pulled, and the cursor ends up exactly behind the subfield. */
  lemma PullFieldComplete(m: seq<byte>, v: View, used: nat, w: seq<seq<byte>>)
    requires ValidView(m, v) && used <= v.max && IsField(Rest(m, v)[..used], w)
    ensures v.pos.Some? && PullField(m, v) == Pulled(Ok, Some(w), Advance(v, used))
  {
    hide VarintValue, PullStack, IsStack, VarintLength, Rest;
    var b := Rest(m, v);
    SameVarint(b, used);
    var h := VarintLength(b[0]);
    var v1 := Advance(v, h);
    RestAfter(m, v, h);
    SubfieldNests(m, v1, used - h, used - h);
    SliceShift(b, h, used);
    assert b[h..][..used - h] == Rest(m, SubfieldStart(v1, used - h))[..used - h];
    PullStackComplete(m, SubfieldStart(v1, used - h), used - h, w);
  }

  /** Nothing else is accepted: not a short field, not a field with bytes to spare. */
  lemma PullFieldSound(m: seq<byte>, v: View) returns (used: nat)
    requires ValidView(m, v) && PullField(m, v).status == Ok
    ensures v.pos.Some? && used <= v.max && IsField(Rest(m, v)[..used], PullField(m, v).stack.value)
    ensures PullField(m, v).view == Advance(v, used)
  {
    hide VarintValue, PullStack, IsStack, Rest;
    var b := Rest(m, v);
    var (len, v1) := PullVarint(m, v);
    var sub := SubfieldStart(v1, len);
    var stack := PullStack(m, sub);
    var n := PullStackSound(m, sub);
    var h := VarintLength(b[0]);
    RestAfter(m, v, h);
    SubfieldNests(m, v1, len, n);
    used := h + len;
    SameVarint(b, used);
    SliceShift(b, h, used);
    assert b[h..][..len] == Rest(m, sub)[..n];
  }

  /** Plain bytes that start with a witness stack are accepted, whatever follows it. */
  lemma PullPlainComplete(m: seq<byte>, v: View, used: nat, w: seq<seq<byte>>)
    requires ValidView(m, v) && used <= v.max && IsStack(Rest(m, v)[..used], w)
    ensures PullPlain(m, v) == Pulled(Ok, Some(w), v)
  {
    PullStackComplete(m, v, used, w);
  }

  /** And no others. */
  lemma PullPlainSound(m: seq<byte>, v: View) returns (used: nat)
    requires ValidView(m, v) && PullPlain(m, v).status == Ok
    ensures used <= v.max && IsStack(Rest(m, v)[..used], PullPlain(m, v).stack.value)
  {
    used := PullStackSound(m, v);
  }

  /** One string of bytes holds the items of one list only, and nothing can be added to it. */
  lemma {:induction false} ItemsDetermined(a: seq<byte>, extra: seq<byte>, w: seq<seq<byte>>, w': seq<seq<byte>>)
    requires IsItems(a, w) && IsItems(a + extra, w') && |w| == |w'|
    ensures extra == [] && w == w'
    decreases |w|
  {
    hide IsItems, VarintValue;
    var b := a + extra;
    if w == [] {
      NoItemsNoBytes(a);
      NoItemsNoBytes(b);
    } else {
      assert b[..|a|] == a && b[..|b|] == b;
      ItemsHaveVarint(b, |a|, w);
      FirstItem(b, |a|, w);
      FirstItem(b, |b|, w');
      assert w == [w[0]] + w[1..] && w' == [w'[0]] + w'[1..];
      var k := VarintLength(b[0]) + VarintValue(b);
      assert b[k..] == b[k..][..|a| - k] + extra;
      assert b[k..][..|b| - k] == b[k..];
      ItemsDetermined(b[k..][..|a| - k], extra, w[1..], w'[1..]);
    }
  }

  lemma NoItemsNoBytes(b: seq<byte>)
    ensures IsItems(b, []) <==> b == []
  {
  }

  /** The serialization of a stack is one. */
  lemma {:induction false} ItemsBytesAreItems(w: Stack)
    ensures IsItems(ItemsBytes(w), w)
  {
    hide IsItems, VarbuffBytes;
    if w == [] {
      NoItemsNoBytes([]);
    } else {
      ItemsBytesAreItems(w[1..]);
      ItemFirst(w[0], ItemsBytes(w[1..]), w[1..]);
      assert w == [w[0]] + w[1..];
    }
  }

  /** A length-prefixed buffer in front of items. */
  lemma ItemFirst(x: seq<byte>, rest: seq<byte>, w: seq<seq<byte>>)
    requires |x| < TWO_64 && IsItems(rest, w)
    ensures IsItems(VarbuffBytes(x) + rest, [x] + w)
  {
    hide IsItems, VarintValue, VarintBytes;
    var s := VarintBytes(|x|);
    var b := s + (x + rest);
    VarintRoundTrip(|x|, x + rest);
    assert VarbuffBytes(x) + rest == b;
    assert b[..|b|] == b && b[|s|..|s| + |x|] == x && b[|s| + |x|..] == rest;
    assert rest[..|rest|] == rest;
    assert ([x] + w)[0] == x && ([x] + w)[1..] == w;
    FirstItem(b, |b|, [x] + w);
  }

  lemma StackBytesAreStack(w: Stack)
    ensures IsStack(StackBytes(w), w)
  {
    VarintRoundTrip(|w|, ItemsBytes(w));
    ItemsBytesAreItems(w);
  }

  /** A stack pushed in a subfield is pulled back, with the cursor exactly at the end of the subfield. */
  lemma PullPushed(m: seq<byte>, v: View, w: Stack, after: seq<byte>)
    requires ValidView(m, v) && |StackBytes(w)| < TWO_64
    requires Rest(m, v) == VarbuffBytes(StackBytes(w)) + after
    ensures v.pos.Some?
    ensures PullField(m, v) == Pulled(Ok, Some(w), Advance(v, |VarbuffBytes(StackBytes(w))|))
  {
    hide VarintValue, VarintBytes, PullField, IsStack;
    var s := StackBytes(w);
    var used := |VarbuffBytes(s)|;
    assert Rest(m, v)[..used] == VarbuffBytes(s);
    VarintRoundTrip(|s|, s);
    StackBytesAreStack(w);
    assert IsField(VarbuffBytes(s), w);
    PullFieldComplete(m, v, used, w);
  }

  /** With any byte more in the subfield it is refused. */
  lemma ExtraRefused(m: seq<byte>, v: View, w: Stack, extra: seq<byte>, after: seq<byte>)
    requires ValidView(m, v) && |StackBytes(w) + extra| < TWO_64 && extra != []
    requires Rest(m, v) == VarbuffBytes(StackBytes(w) + extra) + after
    ensures PullField(m, v).status != Ok
  {
    hide VarintValue, VarintBytes, PullField, IsStack, StackBytes, Rest;
    if PullField(m, v).status == Ok {
      var used := PullFieldSound(m, v);
      FieldHolds(Rest(m, v), used, PullField(m, v).stack.value, StackBytes(w) + extra, after);
      NoStackContinues(w, extra, PullField(m, v).stack.value);
    }
  }

  /** A field whose prefix announces s holds s. */
  lemma FieldHolds(b: seq<byte>, used: nat, w: seq<seq<byte>>, s: seq<byte>, after: seq<byte>)
    requires |s| < TWO_64 && b == VarbuffBytes(s) + after && used <= |b| && IsField(b[..used], w)
    ensures IsStack(s, w)
  {
    hide VarintValue, VarintBytes, IsStack;
    VarintRoundTrip(|s|, s + after);
    assert b == VarintBytes(|s|) + (s + after);
    SameVarint(b, used);
    assert b[..used][VarintLength(b[0])..] == s;
  }

  lemma NoStackContinues(w: Stack, extra: seq<byte>, w': seq<seq<byte>>)
    requires IsStack(StackBytes(w) + extra, w')
    ensures extra == []
  {
    hide VarintValue, VarintBytes, IsItems;
    VarintRoundTrip(|w|, ItemsBytes(w) + extra);
    assert StackBytes(w) + extra == VarintBytes(|w|) + (ItemsBytes(w) + extra);
    ItemsBytesAreItems(w);
    ItemsDetermined(ItemsBytes(w), extra, w, w');
  }

  /** The stack read from what wally_tx_witness_stack_to_bytes writes is the one written. */
  lemma BytesRoundTrip(w: Stack)
    ensures var b := StackBytes(w);
            b != [] && PullPlain(b, View(Some(0), |b|)) == Pulled(Ok, Some(w), View(Some(0), |b|))
  {
    hide VarintBytes, IsStack;
    var b := StackBytes(w);
    var v := View(Some(0), |b|);
    StackBytesAreStack(w);
    assert Rest(b, v)[..|b|] == b;
    PullPlainComplete(b, v, |b|, w);
  }

  /** The loop of pull_witness. */
  method PullWitnesses(val: PullCursor, n: nat) returns (ret: Status, stack: Option<seq<seq<byte>>>)
    requires val.Valid()
    modifies val
    ensures val.Valid() && Pulled(ret, stack, val.State()) == PullItems(val.memory, old(val.State()), n, [])
  {
    var items := [];
    ret := Ok;
    var i := 0;
    while ret == Ok && i < n
      invariant 0 <= i <= n && val.Valid()
      invariant ret == Ok ==>
        PullItems(val.memory, val.State(), n - i, items) == PullItems(val.memory, old(val.State()), n, [])
      invariant ret != Ok ==>
        Pulled(ret, None, val.State()) == PullItems(val.memory, old(val.State()), n, [])
      decreases n - i, ret == Ok
    {
      var wit, witLen := val.PullVarintBuff();
      if wit.None? && witLen > 0 {
        ret := Einval;
      } else {
        items := items + [ItemAt(val.memory, wit, witLen)];
        i := i + 1;
      }
    }
    stack := if ret == Ok then Some(items) else None;
  }

  /** pull_witness; witness is what *witness_out holds. */
  method PullWitness(cursor: PullCursor, witnessOut: Option<seq<seq<byte>>>, forPsbt: bool)
      returns (ret: Status, out: Option<seq<seq<byte>>>)
    requires cursor.Valid()
    modifies cursor
    ensures cursor.Valid()
    ensures witnessOut.Some? ==> ret == Einval && out == witnessOut && cursor.State() == old(cursor.State())
    ensures witnessOut.None? ==>
              var v := old(cursor.State());
              Pulled(ret, out, cursor.State())
              == if forPsbt then PullField(cursor.memory, v) else PullPlain(cursor.memory, v)
  {
    hide PullVarint, PullItems, Rest, ValidView;
    if witnessOut.Some? {
      return Einval, witnessOut;
    }
    var val;
    if forPsbt {
      var len := cursor.PullVarint();
      val := cursor.PullSubfieldStart(len);
    } else {
      val := new PullCursor(cursor.memory, cursor.pos, cursor.max);
    }
    ghost var start := val.State();
    var numWitnesses := val.PullVarint();
    if numWitnesses > val.max {
      return Einval, None;
    }
    ret, out := PullWitnesses(val, numWitnesses);
    assert Pulled(ret, out, val.State()) == PullStack(cursor.memory, start);
    if ret == Ok {
      if forPsbt {
        cursor.SubfieldNoMoreEnd(val);
        if cursor.pos.None? && cursor.max == 0 {
          ret := Einval;
        }
      } else if val.pos.None? && val.max == 0 {
        ret := Einval;
      }
    }
    if ret != Ok {
      out := None;
    }
  }

  /** wally_tx_witness_stack_from_bytes */
  method WitnessStackFromBytes(bytes: seq<byte>) returns (ret: Status, output: Option<seq<seq<byte>>>)
    ensures if bytes == [] then ret == Einval && output == None
            else var r := PullPlain(bytes, View(Some(0), |bytes|)); ret == r.status && output == r.stack
  {
    if bytes == [] {
      return Einval, None;
    }
    var cursor := new PullCursor(bytes, Some(0), |bytes|);
    ret, output := PullWitness(cursor, None, false);
  }

  /** wally_tx_witness_stack_get_length: pushing through a NULL cursor only measures. */
  method WitnessStackGetLength(stack: Stack) returns (written: nat)
    ensures written == |StackBytes(stack)|
  {
    var nothing := new byte[0];
    var cursor := new PushCursor(nothing, None, 0);
    cursor.PushWitnessStack(stack);
    written := cursor.max;
  }

  /** wally_tx_witness_stack_to_bytes: a buffer that is too small is left alone and the length needed reported. */
  method WitnessStackToBytes(stack: Stack, bytesOut: array<byte>, len: nat) returns (written: nat)
    requires len <= bytesOut.Length
    modifies bytesOut
    ensures written == |StackBytes(stack)|
    ensures bytesOut[..] == if len < written then old(bytesOut[..]) else StackBytes(stack) + old(bytesOut[written..])
  {
    hide StackBytes, Push;
    written := WitnessStackGetLength(stack);
    if len >= written {
      var cursor := new PushCursor(bytesOut, Some(0), len);
      cursor.PushWitnessStack(stack);
      PushedAtStart(old(bytesOut[..]), len, StackBytes(stack));
      assert cursor.State().memory == bytesOut[..];
    }
  }

  lemma PushedAtStart(memory: seq<byte>, len: nat, b: seq<byte>)
    requires |b| <= len <= |memory|
    ensures Push(Sink(memory, Some(0), len), Given(b)).memory == b + memory[|b|..]
  {
    LayGiven(memory, 0, b);
    assert memory[..0] == [];
  }
}
