/** When the items of a map stay those its check accepts: only replacing can let others in. */
module MapVerify {
  import opened Common
  import opened MapItems
  import opened Bip32Key
  import opened Keypath

  /** The keys of a map whose values its check refuses. */
  function Refused(verify: Verify, m: map<MapKey, seq<byte>>): set<MapKey> {
    set k | k in m && !Accepts(verify, k, m[k])
  }

  /** How an operation changes the set of refused keys, from the keys of the map and the operation alone. */
  function RefusedAfter(verify: Verify, keys: set<MapKey>, refused: set<MapKey>, op: Op): set<MapKey> {
    match op
    case Add(_, _, _) => refused
    case Remove(key) => refused - {key}
    case Replace(key, value) =>
      if key !in keys then refused else if Accepts(verify, key, value) then refused - {key} else refused + {key}
    case Combine(_) => refused
    case Assign(src) => if AcceptedCount(verify, src) == |src| then {} else refused
    case Sort => refused
  }

  lemma {:induction false} CountedAccepted(verify: Verify, src: seq<Item>, i: nat)
    requires i < AcceptedCount(verify, src)
    ensures Accepts(verify, src[i].key, src[i].value)
  {
    if i > 0 { CountedAccepted(verify, src[1..], i - 1); }
  }

  /** Items combined into a map are accepted ones. */
  lemma CombinedAccepted(verify: Verify, src: seq<Item>, k: MapKey)
    requires UniqueKeys(src)
    ensures var l := src[..AcceptedCount(verify, src)]; k in ToMap(l) ==> Accepts(verify, k, ToMap(l)[k])
  {
    hide ToMap, Accepts, AcceptedCount;
    var l := src[..AcceptedCount(verify, src)];
    UniquePrefix(src, |l|);
    if k in ToMap(l) {
      var i :| 0 <= i < |l| && l[i].key == k;
      MapAt(l, i);
      CountedAccepted(verify, src, i);
    }
  }

  lemma StepRefused(verify: Verify, m: map<MapKey, seq<byte>>, op: Op)
    requires ValidOp(op)
    ensures Refused(verify, ApplyToMap(verify, m, op)) == RefusedAfter(verify, m.Keys, Refused(verify, m), op)
  {
    hide ToMap, Accepts, AcceptedCount, UniqueKeys;
    if op.Combine? || op.Assign? {
      var n := AcceptedCount(verify, op.src);
      assert n == |op.src| ==> op.src[..n] == op.src;
      forall k
        ensures var l := op.src[..n]; k in ToMap(l) ==> Accepts(verify, k, ToMap(l)[k])
      {
        CombinedAccepted(verify, op.src, k);
      }
    }
  }

  function RefusedRun(verify: Verify, m: map<MapKey, seq<byte>>, refused: set<MapKey>, ops: seq<Op>): set<MapKey>
    decreases |ops|
  {
    if ops == [] then refused
    else RefusedRun(verify, ApplyToMap(verify, m, ops[0]), RefusedAfter(verify, m.Keys, refused, ops[0]), ops[1..])
  }

  /**
   Which keys a run leaves with a refused value: those that a replacement gave one while they were there, and that were
   not removed, replaced with an accepted value or lost to an assignment later.
   */
  lemma {:induction false} RunRefused(verify: Verify, s: seq<Item>, ops: seq<Op>)
    requires UniqueKeys(s) && ValidKeys(s) && forall i :: 0 <= i < |ops| ==> ValidOp(ops[i])
    ensures Refused(verify, ToMap(Run(verify, s, ops)))
         == RefusedRun(verify, ToMap(s), Refused(verify, ToMap(s)), ops)
    decreases |ops|
  {
    hide ToMap, Apply, ApplyToMap, UniqueKeys, ValidKeys, Refused, RefusedAfter;
    if ops != [] {
      ApplyRefines(verify, s, ops[0]);
      StepRefused(verify, ToMap(s), ops[0]);
      RunRefused(verify, Apply(verify, s, ops[0]), ops[1..]);
    }
  }

  /** Every state of a run holds accepted items only. */
  ghost predicate StaysAccepted(verify: Verify, s: seq<Item>, ops: seq<Op>)
    decreases |ops|
  {
    Refused(verify, ToMap(s)) == {} && (ops == [] || StaysAccepted(verify, Apply(verify, s, ops[0]), ops[1..]))
  }

  /** Every value that replaces a present one is accepted. */
  predicate ReplacesAccepted(verify: Verify, m: map<MapKey, seq<byte>>, ops: seq<Op>)
    decreases |ops|
  {
    ops == [] ||
    ((ops[0].Replace? && ops[0].key in m ==> Accepts(verify, ops[0].key, ops[0].value))
     && ReplacesAccepted(verify, ApplyToMap(verify, m, ops[0]), ops[1..]))
  }

  /** From accepted items a run never leaves them exactly if every value that replaces a present one is accepted. */
  lemma {:induction false} AcceptedThroughout(verify: Verify, s: seq<Item>, ops: seq<Op>)
    requires UniqueKeys(s) && ValidKeys(s) && forall i :: 0 <= i < |ops| ==> ValidOp(ops[i])
    requires Refused(verify, ToMap(s)) == {}
    ensures StaysAccepted(verify, s, ops) <==> ReplacesAccepted(verify, ToMap(s), ops)
    decreases |ops|
  {
    hide ToMap, Apply, ApplyToMap, UniqueKeys, ValidKeys, Refused, Accepts;
    if ops != [] {
      var op, t := ops[0], Apply(verify, s, ops[0]);
      ApplyRefines(verify, s, op);
      StepRefused(verify, ToMap(s), op);
      if op.Replace? && op.key in ToMap(s) && !Accepts(verify, op.key, op.value) {
        assert op.key in Refused(verify, ToMap(t));
      } else {
        AcceptedThroughout(verify, t, ops[1..]);
      }
    }
  }

  /** A check of keypaths: fingerprint and whole words. */
  const KEYPATHS: Verify := Some((key: MapKey, value: seq<byte>) => KeypathValid(value))

  const BAD: seq<byte> := [1, 2, 3]

  /**
   One run that lets a refused item in: a keypath is added and its value then replaced by three bytes. From then on
   every search for a full key ends in an error, whether or not the key belongs to the item.
   */
  lemma ReplaceLetsIn(key: MapKey, c: Curve, dec: Decompress, k: Key, flags: KeyFlags)
    requires ValidKey(key)
    ensures var ops := [Add(key, Repeat(0, FINGERPRINT_LEN), false), Replace(key, BAD)];
            var s := Run(KEYPATHS, [], ops);
            && s == [Item(key, BAD)] && Refused(KEYPATHS, ToMap(s)) == {key}
            && !ReplacesAccepted(KEYPATHS, map[], ops)
            && (k.chainCode != ZERO32 ==> GetKey(c, dec, s, 0, k, flags) == Found(Einval, 0, None))
  {
    hide Apply, ApplyToMap, GetKey, PathOf, ToMap, Accepts;
    var good := Repeat(0, FINGERPRINT_LEN);
    var add, replace := Add(key, good, false), Replace(key, BAD);
    var ops, s := [add, replace], [Item(key, good)];
    LetInSteps(key);
    OneItem(key, good);
    OneItem(key, BAD);
    assert ops[1..] == [replace] && [replace][1..] == [];
    assert Run(KEYPATHS, s, [replace]) == Run(KEYPATHS, [Item(key, BAD)], []);
    assert !ReplacesAccepted(KEYPATHS, map[key := good], [replace]);
    if k.chainCode != ZERO32 { BadItemFails(key, c, dec, k, flags); }
  }

  lemma LetInSteps(key: MapKey)
    requires ValidKey(key)
    ensures var good := Repeat(0, FINGERPRINT_LEN);
            && Apply(KEYPATHS, [], Add(key, good, false)) == [Item(key, good)]
            && Apply(KEYPATHS, [Item(key, good)], Replace(key, BAD)) == [Item(key, BAD)]
            && ApplyToMap(KEYPATHS, map[], Add(key, good, false)) == map[key := good]
            && Accepts(KEYPATHS, key, good) && !Accepts(KEYPATHS, key, BAD)
  {
  }

  lemma OneItem(key: MapKey, value: seq<byte>)
    ensures ToMap([Item(key, value)]) == map[key := value]
  {
  }

  lemma BadItemFails(key: MapKey, c: Curve, dec: Decompress, k: Key, flags: KeyFlags)
    requires k.chainCode != ZERO32
    ensures GetKey(c, dec, [Item(key, BAD)], 0, k, flags) == Found(Einval, 0, None)
  {
  }
}
