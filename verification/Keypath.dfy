/** Keypaths: maps from public keys to a root's fingerprint and a derivation path (src/map.c). */
module Keypath {
  import opened Common
  import opened Radix
  import opened Varint
  import opened Bip32Key
  import opened Bip32Derive
  import opened ExtKeys
  import opened MapItems
  import opened WallyMaps

  const FINGERPRINT_LEN: nat := 4
  const UNCOMPRESSED_LEN: nat := 65

  // ---------------------------------------------------------------- values

  /** kp_is_valid */
  predicate KeypathValid(val: seq<byte>) {
    |val| >= FINGERPRINT_LEN && (|val| - FINGERPRINT_LEN) % 4 == 0
  }

  /** The path as little-endian words. */
  function PathBytes(path: seq<uint32>): (b: seq<byte>)
    ensures |b| == 4 * |path|
  {
    if path == [] then [] else PathBytes(path[..|path| - 1]) + LittleEndian(path[|path| - 1], 4)
  }

  function WordAt(b: seq<byte>, i: nat): uint32
    requires i + 4 <= |b|
  {
    Powers();
    ToFromLittleEndian(b[i..i + 4]);
    FromLittleEndian(b[i..i + 4])
  }

  /** The first n words of some bytes. */
  function WordsOf(b: seq<byte>, n: nat): (w: seq<uint32>)
    requires 4 * n <= |b|
    ensures |w| == n && forall i :: 0 <= i < n ==> w[i] == WordAt(b, 4 * i)
  {
    seq(n, i requires 0 <= i < n => WordAt(b, 4 * i))
  }

  /** The path that bytes stand for. */
  function PathOf(b: seq<byte>): (path: seq<uint32>)
    requires |b| % 4 == 0
    ensures |path| == |b| / 4
  {
    WordsOf(b, |b| / 4)
  }

  lemma PathBytesSnoc(path: seq<uint32>, v: uint32)
    ensures PathBytes(path + [v]) == PathBytes(path) + LittleEndian(v, 4)
  {
    hide LittleEndian;
    assert (path + [v])[..|path|] == path;
  }

  lemma WordRead(b: seq<byte>, i: nat, v: uint32)
    requires i + 4 <= |b| && b[i..i + 4] == LittleEndian(v, 4)
    ensures WordAt(b, i) == v
  {
    hide LittleEndian, FromLittleEndian, Pow;
    Powers();
    FromToLittleEndian(v, 4);
  }

  /** Each number stands in its four bytes. */
  lemma {:induction false} PathBytesAt(path: seq<uint32>, i: nat)
    requires i < |path|
    ensures PathBytes(path)[4 * i..4 * i + 4] == LittleEndian(path[i], 4)
  {
    hide LittleEndian, PathBytes;
    var q, last := path[..|path| - 1], path[|path| - 1];
    assert path == q + [last];
    PathBytesSnoc(q, last);
    if i < |q| { PathBytesAt(q, i); }
  }

  /** A path that was stored is read back. */
  lemma PathRoundTrip(path: seq<uint32>)
    ensures PathOf(PathBytes(path)) == path
  {
    hide LittleEndian, PathBytes, WordAt;
    forall i | 0 <= i < |path|
      ensures WordAt(PathBytes(path), 4 * i) == path[i]
    {
      PathBytesAt(path, i);
      WordRead(PathBytes(path), 4 * i, path[i]);
    }
  }

  /** The first words of some bytes are stored as those bytes. */
  lemma {:induction false} WordsRoundTrip(b: seq<byte>, n: nat)
    requires 4 * n <= |b|
    ensures PathBytes(WordsOf(b, n)) == b[..4 * n]
  {
    hide LittleEndian, FromLittleEndian, PathBytes, Pow;
    if n == 0 {
      NoPath(WordsOf(b, 0));
    } else {
      var last := b[4 * n - 4..4 * n];
      WordsRoundTrip(b, n - 1);
      assert WordsOf(b, n) == WordsOf(b, n - 1) + [WordAt(b, 4 * (n - 1))];
      PathBytesSnoc(WordsOf(b, n - 1), WordAt(b, 4 * (n - 1)));
      ToFromLittleEndian(last);
      assert b[4 * (n - 1)..4 * (n - 1) + 4] == last;
      assert b[..4 * n] == b[..4 * (n - 1)] + last;
    }
  }

  lemma NoPath(path: seq<uint32>)
    requires path == []
    ensures PathBytes(path) == []
  {
  }

  /** Bytes of whole words are what storing their path writes. */
  lemma BytesRoundTrip(b: seq<byte>)
    requires |b| % 4 == 0
    ensures PathBytes(PathOf(b)) == b
  {
    hide PathBytes, WordsOf;
    var n := |b| / 4;
    WordsRoundTrip(b, n);
    assert b[..4 * n] == b;
  }

  /** The value that wally_map_keypath_add builds. */
  method KeypathValue(fingerprint: seq<byte>, path: seq<uint32>) returns (value: seq<byte>)
    requires |fingerprint| == FINGERPRINT_LEN
    ensures value == fingerprint + PathBytes(path) && KeypathValid(value)
  {
    hide LittleEndian;
    var buf := new byte[FINGERPRINT_LEN + 4 * |path|];
    forall k | 0 <= k < FINGERPRINT_LEN {
      buf[k] := fingerprint[k];
    }
    assert buf[..FINGERPRINT_LEN] == fingerprint + PathBytes(path[..0]);
    for i := 0 to |path|
      invariant buf[..FINGERPRINT_LEN + 4 * i] == fingerprint + PathBytes(path[..i])
    {
      var at, word := FINGERPRINT_LEN + 4 * i, LittleEndian(path[i], 4);
      forall k | 0 <= k < 4 {
        buf[at + k] := word[k];
      }
      assert path[..i + 1][..i] == path[..i];
      assert buf[..at + 4] == fingerprint + PathBytes(path[..i]) + word;
    }
    assert path[..|path|] == path;
    value := buf[..];
  }

  /** wally_map_keypath_add; a map is for keypaths if it verifies its items with one of the three keypath checks. */
  method KeypathAdd(m: WallyMap, isKeypathMap: bool, pubKey: seq<byte>, fingerprint: seq<byte>, path: seq<uint32>)
      returns (ret: Status)
    requires m.Valid()
    modifies m, m.items
    ensures m.Valid()
    ensures if |fingerprint| != FINGERPRINT_LEN || !isKeypathMap then ret == Einval && m.List() == old(m.List())
            else
              var value := fingerprint + PathBytes(path);
              (ret, m.List()) == AddItem(old(m.verify), old(m.List()), ByteKey(pubKey), value, true)
  {
    hide AddItem;
    if |fingerprint| != FINGERPRINT_LEN || !isKeypathMap {
      return Einval;
    }
    var value := KeypathValue(fingerprint, path);
    ret := m.Add(ByteKey(pubKey), value, true);
  }

  /** wally_keypath_get_path: the words, if there is room for them; otherwise only their number. */
  method KeypathGetPath(val: seq<byte>, pathOut: array<uint32>) returns (ret: Status, written: nat)
    modifies pathOut
    ensures if !KeypathValid(val) then ret == Einval && written == 0 && pathOut[..] == old(pathOut[..])
            else
              var path := PathOf(val[FINGERPRINT_LEN..]);
              ret == Ok && written == |path|
              && pathOut[..] == if |path| > pathOut.Length then old(pathOut[..]) else path + old(pathOut[|path|..])
  {
    hide WordAt;
    if !KeypathValid(val) {
      return Einval, 0;
    }
    written := (|val| - FINGERPRINT_LEN) / 4;
    ret := Ok;
    if pathOut.Length < written {
      return;
    }
    var words := val[FINGERPRINT_LEN..];
    for i := 0 to written
      invariant forall k :: 0 <= k < i ==> pathOut[k] == WordAt(words, 4 * k)
      invariant forall k :: i <= k < pathOut.Length ==> pathOut[k] == old(pathOut[k])
    {
      pathOut[i] := WordAt(words, 4 * i);
    }
    assert pathOut[..written] == PathOf(words);
  }

  // ---------------------------------------------------------------- searching

  /** The uncompressed form of a public key, if it is valid. */
  type Decompress = Bytes33 -> Option<Bytes65>

  type Bytes65 = b: seq<byte> | |b| == UNCOMPRESSED_LEN witness Repeat(0, UNCOMPRESSED_LEN)

  /** key_len of an item, which is the number itself for an integer key. */
  function KeyLen(k: MapKey): nat {
    if k.IntKey? then k.n else |k.b|
  }

  predicate HasKeyLength(s: seq<Item>, index: nat, len: nat) {
    exists i :: index <= i < |s| && KeyLen(s[i].key) == len
  }

  /** wally_map_find_bip32_public_key_from: compressed, then x-only, then uncompressed if such keys are around. */
  function FindPublicKey(dec: Decompress, s: seq<Item>, index: nat, pub: Bytes33): (r: (Status, nat)) {
    var compressed := Find(s, index, ByteKey(pub));
    var xonly := Find(s, index, ByteKey(pub[1..]));
    if compressed > 0 then (Ok, compressed)
    else if xonly > 0 then (Ok, xonly)
    else if !HasKeyLength(s, index, UNCOMPRESSED_LEN) then (Ok, 0)
    else if dec(pub).None? then (Einval, 0)
    else (Ok, Find(s, index, ByteKey(dec(pub).value)))
  }

  /** An item's key is an encoding of the public key. */
  predicate Encodes(dec: Decompress, k: MapKey, pub: Bytes33) {
    k == ByteKey(pub) || k == ByteKey(pub[1..]) || (dec(pub).Some? && k == ByteKey(dec(pub).value))
  }

  lemma FoundEncodes(dec: Decompress, s: seq<Item>, index: nat, pub: Bytes33)
    ensures var r := FindPublicKey(dec, s, index, pub).1;
            r > 0 ==> index < r <= |s| && Encodes(dec, s[r - 1].key, pub)
  {
  }

  /**
   Looking up fails, rather than find nothing, exactly for a public key that is not in the map in 33 or 32 bytes and
   cannot be decompressed, if the map has a key of 65 bytes, or the integer key 65.
   */
  lemma LookupFails(dec: Decompress, s: seq<Item>, index: nat, pub: Bytes33)
    ensures FindPublicKey(dec, s, index, pub).0 != Ok <==>
            && (forall i :: index <= i < |s| ==> s[i].key != ByteKey(pub) && s[i].key != ByteKey(pub[1..]))
            && (exists i :: index <= i < |s| && IsLong(s[i].key)) && dec(pub) == None
  {
    if i :| index <= i < |s| && IsLong(s[i].key) { assert KeyLen(s[i].key) == 65; }
  }

  predicate IsLong(key: MapKey) {
    match key
    case IntKey(n) => n == 65
    case ByteKey(b) => |b| == 65
  }

  function StoredPath(value: seq<byte>): seq<uint32> {
    if KeypathValid(value) then PathOf(value[FINGERPRINT_LEN..]) else []
  }

  /** What the search makes of one item's value: not this root, an error, or a key to look up. */
  datatype Candidate = Skip | Fail | Try(key: Key)

  function CandidateOf(c: Curve, k: Key, value: seq<byte>, flags: KeyFlags): Candidate {
    if |value| >= FINGERPRINT_LEN && value[..FINGERPRINT_LEN] != k.hash160[..FINGERPRINT_LEN] then Skip
    else if !KeypathValid(value) then Fail
    else
      var path := StoredPath(value);
      if |path| + k.depth > PATH_MAX_LEN then Skip
      else if path == [] then Try(k)
      else if DerivePath(c, k, path, flags).None? then Fail
      else Try(DerivePath(c, k, path, flags).value)
  }

  datatype Found = Found(ret: Status, written: nat, key: Option<Key>)

  /** The loop over the items from i on; only a key found at its own item counts. */
  function Search(c: Curve, dec: Decompress, s: seq<Item>, index: nat, i: nat, k: Key, flags: KeyFlags): Found
    decreases |s| - i
  {
    if i >= |s| then Found(Ok, 0, None)
    else
      match CandidateOf(c, k, s[i].value, flags)
      case Skip => Search(c, dec, s, index, i + 1, k, flags)
      case Fail => Found(Einval, 0, None)
      case Try(x) =>
        var (ret, idx) := FindPublicKey(dec, s, index, x.pubKey);
        if ret != Ok then Found(ret, 0, None)
        else if idx == i + 1 then Found(Ok, idx, Some(x))
        else Search(c, dec, s, index, i + 1, k, flags)
  }

  /** map_keypath_get_bip32_key_from on values: a key without a chain code is only looked up. */
  function GetKey(c: Curve, dec: Decompress, s: seq<Item>, index: nat, k: Key, flags: KeyFlags): Found {
    if k.chainCode == ZERO32 then
      var (ret, idx) := FindPublicKey(dec, s, index, k.pubKey);
      Found(ret, idx, if idx > 0 then Some(k) else None)
    else Search(c, dec, s, index, index, k, flags)
  }

  /**
   The item stores the root's fingerprint and a path along which the root derives x; an empty path is the root
   itself.
   */
  ghost predicate Leads(c: Curve, k: Key, value: seq<byte>, flags: KeyFlags, x: Key) {
    && KeypathValid(value) && value[..FINGERPRINT_LEN] == k.hash160[..FINGERPRINT_LEN]
    && var path := StoredPath(value);
       |path| + k.depth <= PATH_MAX_LEN && (if path == [] then x == k else DerivePath(c, k, path, flags) == Some(x))
  }

  lemma {:induction false} SearchSound(c: Curve, dec: Decompress, s: seq<Item>, index: nat, i: nat, k: Key,
      flags: KeyFlags)
    requires index <= i
    ensures var r := Search(c, dec, s, index, i, k, flags);
            if r.written == 0 then r.key == None
            else r.ret == Ok && i < r.written <= |s| && r.key.Some?
                 && Encodes(dec, s[r.written - 1].key, r.key.value.pubKey)
                 && Leads(c, k, s[r.written - 1].value, flags, r.key.value)
    decreases |s| - i
  {
    hide StoredPath, DerivePath, FindPublicKey, Encodes;
    if i < |s| {
      var x := CandidateOf(c, k, s[i].value, flags);
      if x.Try? { FoundEncodes(dec, s, index, x.key.pubKey); }
      SearchSound(c, dec, s, index, i + 1, k, flags);
    }
  }

  /**
   A reported index names an item whose key encodes the public key of the key returned. For a root with a chain code
   the item's fingerprint is the root's and the key is derived along the item's path; otherwise it is the root itself.
   */
  lemma GetKeySound(c: Curve, dec: Decompress, s: seq<Item>, index: nat, k: Key, flags: KeyFlags)
    ensures var r := GetKey(c, dec, s, index, k, flags);
            if r.written == 0 then r.key == None
            else r.ret == Ok && index < r.written <= |s| && r.key.Some?
                 && Encodes(dec, s[r.written - 1].key, r.key.value.pubKey)
                 && if k.chainCode == ZERO32 then r.key.value == k
                    else Leads(c, k, s[r.written - 1].value, flags, r.key.value)
  {
    hide Encodes, Search, Leads;
    FoundEncodes(dec, s, index, k.pubKey);
    SearchSound(c, dec, s, index, index, k, flags);
  }

  /**
   From a private root the key is the one of deriving every step of the stored path privately, neutered on request.
   */
  lemma GetKeyDerives(c: Curve, dec: Decompress, s: seq<Item>, index: nat, k: Key, flags: KeyFlags)
    requires Lawful(c) && IsPrivate(k) && Consistent(c, k) && k.chainCode != ZERO32 && !flags.undefined
    ensures var r := GetKey(c, dec, s, index, k, flags);
            0 < r.written <= |s| ==>
              var path := StoredPath(s[r.written - 1].value);
              path != [] ==>
                var y := Each(c, k, path, 0, flags.(public := false));
                y.Some? && r.key == Some(if flags.public then Neuter(y.value) else y.value)
  {
    hide Encodes, Each, DerivePath, Lawful, Consistent, StoredPath, GetKey;
    GetKeySound(c, dec, s, index, k, flags);
    var r := GetKey(c, dec, s, index, k, flags);
    if r.written > 0 {
      var path := StoredPath(s[r.written - 1].value);
      if path != [] {
        PathIsNeuteredPrivatePath(c, k, path, flags);
      }
    }
  }

  /** The last step of a path is derived with the flag asked for. */
  lemma {:induction false} PathFromStrips(c: Curve, k: Key, path: seq<uint32>, i: nat, until: nat, flags: KeyFlags)
    requires i < |path| && until <= |path| && flags.public
    ensures var x := PathFrom(c, k, path, i, until, flags); x.Some? ==> !IsPrivate(x.value)
    decreases |path| - i
  {
    var f := StepFlags(flags, i, |path|, until);
    var x := Derive(c, k, path[i], f);
    if x.Some? {
      if i + 1 < |path| {
        PathFromStrips(c, x.value, path, i + 1, until, flags);
      } else {
        PublicChild(c, k, path[i], f);
      }
    }
  }

  lemma PublicChild(c: Curve, k: Key, childNum: uint32, flags: KeyFlags)
    requires flags.public && Derive(c, k, childNum, flags).Some?
    ensures !IsPrivate(Derive(c, k, childNum, flags).value)
  {
    hide DerivationHash, ChildKeys, TweakSumAdd;
    assert STRIPPED[0] == KEY_PUBLIC;
  }

  // ---------------------------------------------------------------- what the search finds

  /** Looked at before the item sought, an item neither ends the search with an error nor with a key of its own. */
  ghost predicate PassedOver(c: Curve, dec: Decompress, s: seq<Item>, index: nat, i: nat, k: Key, flags: KeyFlags)
    requires i < |s|
  {
    match CandidateOf(c, k, s[i].value, flags)
    case Skip => true
    case Fail => false
    case Try(x) => FindPublicKey(dec, s, index, x.pubKey).0 == Ok && FindPublicKey(dec, s, index, x.pubKey).1 != i + 1
  }

  ghost predicate PassesTo(c: Curve, dec: Decompress, s: seq<Item>, index: nat, j: nat, i: nat, k: Key, flags: KeyFlags)
    requires i <= |s|
  {
    forall n :: j <= n < i ==> PassedOver(c, dec, s, index, n, k, flags)
  }

  /** The search gets to an item of the key itself, with its fingerprint and no path. */
  ghost predicate OwnItem(c: Curve, dec: Decompress, s: seq<Item>, index: nat, i: nat, k: Key, flags: KeyFlags)
    requires i < |s|
  {
    && s[i].value == k.hash160[..FINGERPRINT_LEN]
    && FindPublicKey(dec, s, index, k.pubKey) == (Ok, i + 1)
    && PassesTo(c, dec, s, index, index, i, k, flags)
  }

  lemma OwnCandidate(c: Curve, k: Key, value: seq<byte>, flags: KeyFlags)
    requires value == k.hash160[..FINGERPRINT_LEN]
    ensures CandidateOf(c, k, value, flags) == Try(k)
  {
    hide DerivePath;
    assert value[..FINGERPRINT_LEN] == value;
  }

  /** A candidate to look up is what the item leads to. */
  lemma CandidateLeads(c: Curve, k: Key, value: seq<byte>, flags: KeyFlags, x: Key)
    ensures CandidateOf(c, k, value, flags) == Try(x) <==> Leads(c, k, value, flags, x)
  {
    hide DerivePath, StoredPath;
  }

  /** An item is the answer exactly if the search passes over all before it, and it leads to a key of its own. */
  lemma {:induction false} SearchExact(c: Curve, dec: Decompress, s: seq<Item>, index: nat, j: nat, i: nat, k: Key,
      flags: KeyFlags, x: Key)
    requires index <= j <= i < |s|
    ensures Search(c, dec, s, index, j, k, flags) == Found(Ok, i + 1, Some(x))
       <==> PassesTo(c, dec, s, index, j, i, k, flags) && CandidateOf(c, k, s[i].value, flags) == Try(x)
            && FindPublicKey(dec, s, index, x.pubKey) == (Ok, i + 1)
    decreases i - j
  {
    hide CandidateOf, FindPublicKey, Leads, Encodes;
    if j < i {
      assert PassesTo(c, dec, s, index, j, i, k, flags)
        <==> PassedOver(c, dec, s, index, j, k, flags) && PassesTo(c, dec, s, index, j + 1, i, k, flags);
      SearchExact(c, dec, s, index, j + 1, i, k, flags, x);
    } else {
      SearchSound(c, dec, s, index, i + 1, k, flags);
    }
  }

  lemma FoundAt(c: Curve, dec: Decompress, s: seq<Item>, index: nat, i: nat, k: Key, flags: KeyFlags, x: Key)
    requires index <= i < |s| && k.chainCode != ZERO32
    ensures GetKey(c, dec, s, index, k, flags) == Found(Ok, i + 1, Some(x))
       <==> PassesTo(c, dec, s, index, index, i, k, flags) && CandidateOf(c, k, s[i].value, flags) == Try(x)
            && FindPublicKey(dec, s, index, x.pubKey) == (Ok, i + 1)
  {
    hide CandidateOf, FindPublicKey, PassesTo, Search;
    SearchExact(c, dec, s, index, index, i, k, flags, x);
  }

  lemma PartialKey(c: Curve, dec: Decompress, s: seq<Item>, index: nat, k: Key, flags: KeyFlags)
    requires k.chainCode == ZERO32
    ensures var r := GetKey(c, dec, s, index, k, flags);
            r.key == if FindPublicKey(dec, s, index, k.pubKey).1 > 0 then Some(k) else None
  {
    hide FindPublicKey;
  }

  /**
   When a public key is asked for, the answer is private exactly if the key given is private and is itself the answer:
   because it has no chain code and is in the map, or because the search gets to an item of its own that stores its
   fingerprint and no path.
   */
  lemma GetKeyPrivate(c: Curve, dec: Decompress, s: seq<Item>, index: nat, k: Key, flags: KeyFlags)
    requires flags.public
    ensures var r := GetKey(c, dec, s, index, k, flags);
            r.key.Some? && IsPrivate(r.key.value) <==>
            IsPrivate(k) && if k.chainCode == ZERO32 then FindPublicKey(dec, s, index, k.pubKey).1 > 0
                            else exists i :: index <= i < |s| && OwnItem(c, dec, s, index, i, k, flags)
  {
    hide Encodes, PathFrom, FindPublicKey, GetKey;
    GetKeySound(c, dec, s, index, k, flags);
    var r := GetKey(c, dec, s, index, k, flags);
    if k.chainCode == ZERO32 {
      PartialKey(c, dec, s, index, k, flags);
    } else {
      if r.key.Some? && IsPrivate(r.key.value) {
        var value := s[r.written - 1].value;
        var path := StoredPath(value);
        if path != [] { PathFromStrips(c, k, path, 0, UntilFor(path, flags), flags); }
        assert value == value[..FINGERPRINT_LEN];
        FoundAt(c, dec, s, index, r.written - 1, k, flags, k);
        assert OwnItem(c, dec, s, index, r.written - 1, k, flags);
      }
      if i :| index <= i < |s| && OwnItem(c, dec, s, index, i, k, flags) {
        OwnCandidate(c, k, s[i].value, flags);
        FoundAt(c, dec, s, index, i, k, flags, k);
      }
    }
  }

  /** So a root with a chain code never has a private answer where no item is a fingerprint alone. */
  lemma GetKeyNeverPrivate(c: Curve, dec: Decompress, s: seq<Item>, index: nat, k: Key, flags: KeyFlags)
    requires flags.public && k.chainCode != ZERO32
    requires forall i :: index <= i < |s| ==> |s[i].value| != FINGERPRINT_LEN
    ensures var r := GetKey(c, dec, s, index, k, flags); r.key.Some? ==> !IsPrivate(r.key.value)
  {
    hide Encodes, GetKey, PathOf;
    GetKeySound(c, dec, s, index, k, flags);
    GetKeyPrivate(c, dec, s, index, k, flags);
    var r := GetKey(c, dec, s, index, k, flags);
    if r.written > 0 {
      var value := s[r.written - 1].value;
      assert KeypathValid(value) && |value| > FINGERPRINT_LEN;
      assert |StoredPath(value)| > 0;
    }
  }

  /**
   And every key, private or not, is answered as it is under an item of its own without a path, whatever the flags.
   */
  lemma RootIsAnswered(c: Curve, dec: Decompress, k: Key, flags: KeyFlags)
    ensures var s := [Item(ByteKey(k.pubKey), k.hash160[..FINGERPRINT_LEN])];
            GetKey(c, dec, s, 0, k, flags) == Found(Ok, 1, Some(k))
  {
    hide DerivePath;
    var value := k.hash160[..FINGERPRINT_LEN];
    assert value[..FINGERPRINT_LEN] == value && StoredPath(value) == [];
    assert Find([Item(ByteKey(k.pubKey), value)], 0, ByteKey(k.pubKey)) == 1;
  }

  predicate Holds(s: seq<Item>, index: nat, key: MapKey) {
    exists i :: index <= i < |s| && s[i].key == key
  }

  /** The key encodes the public key, in the first of the three forms that the map holds from the index on. */
  predicate StoredFor(dec: Decompress, s: seq<Item>, index: nat, key: MapKey, pub: Bytes33) {
    || key == ByteKey(pub)
    || (key == ByteKey(pub[1..]) && !Holds(s, index, ByteKey(pub)))
    || (dec(pub).Some? && key == ByteKey(dec(pub).value)
        && !Holds(s, index, ByteKey(pub)) && !Holds(s, index, ByteKey(pub[1..])))
  }

  /** In a map with unique keys a public key is found at the item that stores it. */
  lemma FoundIffStored(dec: Decompress, s: seq<Item>, index: nat, i: nat, pub: Bytes33)
    requires UniqueKeys(s) && index <= i < |s|
    ensures FindPublicKey(dec, s, index, pub) == (Ok, i + 1) <==> StoredFor(dec, s, index, s[i].key, pub)
  {
    hide MapItems.Find;
    if dec(pub).Some? && s[i].key == ByteKey(dec(pub).value) {
      assert KeyLen(s[i].key) == UNCOMPRESSED_LEN;
    }
  }

  /**
   A map with unique keys: an item is the answer, with key x, if and only if it leads to x, its key is the form of x
   that the map is searched for first, and the search passes over every item before it.
   */
  lemma GetKeyExact(c: Curve, dec: Decompress, s: seq<Item>, index: nat, i: nat, k: Key, flags: KeyFlags, x: Key)
    requires index <= i < |s| && UniqueKeys(s) && k.chainCode != ZERO32
    ensures GetKey(c, dec, s, index, k, flags) == Found(Ok, i + 1, Some(x))
       <==> Leads(c, k, s[i].value, flags, x) && StoredFor(dec, s, index, s[i].key, x.pubKey)
            && PassesTo(c, dec, s, index, index, i, k, flags)
  {
    hide CandidateOf, FindPublicKey, Leads, StoredFor, PassesTo, GetKey;
    FoundAt(c, dec, s, index, i, k, flags, x);
    CandidateLeads(c, k, s[i].value, flags, x);
    FoundIffStored(dec, s, index, i, x.pubKey);
  }

  /**
   So an item that was added for the root itself or for a key derived from it, under any of the three encodings, is
   found by a search from any place up to it exactly if the search passes over the items in between.
   */
  lemma GetKeyComplete(c: Curve, dec: Decompress, s: seq<Item>, index: nat, i: nat, k: Key, flags: KeyFlags,
                       path: seq<uint32>, x: Key)
    requires index <= i < |s| && UniqueKeys(s) && k.chainCode != ZERO32 && |path| + k.depth <= PATH_MAX_LEN
    requires if path == [] then x == k else DerivePath(c, k, path, flags) == Some(x)
    requires s[i].value == k.hash160[..FINGERPRINT_LEN] + PathBytes(path)
    requires StoredFor(dec, s, index, s[i].key, x.pubKey)
    ensures GetKey(c, dec, s, index, k, flags) == Found(Ok, i + 1, Some(x))
       <==> PassesTo(c, dec, s, index, index, i, k, flags)
  {
    hide DerivePath, PathOf, PathBytes, PassesTo, GetKey, StoredFor;
    var value := s[i].value;
    PathRoundTrip(path);
    assert value[..FINGERPRINT_LEN] == k.hash160[..FINGERPRINT_LEN] && value[FINGERPRINT_LEN..] == PathBytes(path);
    GetKeyExact(c, dec, s, index, i, k, flags, x);
  }

  /** An item that ends the search with an error: its value is malformed, its path underivable, or the lookup fails. */
  ghost predicate EndsInError(c: Curve, dec: Decompress, s: seq<Item>, index: nat, i: nat, k: Key, flags: KeyFlags)
    requires i < |s|
  {
    match CandidateOf(c, k, s[i].value, flags)
    case Skip => false
    case Fail => true
    case Try(x) => FindPublicKey(dec, s, index, x.pubKey).0 != Ok
  }

  lemma {:induction false} SearchFails(c: Curve, dec: Decompress, s: seq<Item>, index: nat, j: nat, k: Key,
      flags: KeyFlags)
    requires index <= j
    ensures Search(c, dec, s, index, j, k, flags) == Found(Ok, 0, None)
       <==> PassesTo(c, dec, s, index, j, |s|, k, flags)
    ensures Search(c, dec, s, index, j, k, flags).ret != Ok
       <==> exists i :: j <= i < |s| && PassesTo(c, dec, s, index, j, i, k, flags)
                        && EndsInError(c, dec, s, index, i, k, flags)
    decreases |s| - j
  {
    hide CandidateOf, FindPublicKey;
    if j < |s| {
      SearchFails(c, dec, s, index, j + 1, k, flags);
      assert PassesTo(c, dec, s, index, j, j, k, flags);
      forall i | j < i <= |s|
        ensures PassesTo(c, dec, s, index, j, i, k, flags)
           <==> PassedOver(c, dec, s, index, j, k, flags) && PassesTo(c, dec, s, index, j + 1, i, k, flags)
      {
      }
    }
  }

  /**
   When nothing is found: with success exactly if every item is passed over, with an error exactly if one that all
   before it lead up to ends the search.
   */
  lemma GetKeyNothing(c: Curve, dec: Decompress, s: seq<Item>, index: nat, k: Key, flags: KeyFlags)
    requires k.chainCode != ZERO32
    ensures GetKey(c, dec, s, index, k, flags) == Found(Ok, 0, None)
       <==> PassesTo(c, dec, s, index, index, |s|, k, flags)
    ensures GetKey(c, dec, s, index, k, flags).ret != Ok
       <==> exists i :: index <= i < |s| && PassesTo(c, dec, s, index, index, i, k, flags)
                        && EndsInError(c, dec, s, index, i, k, flags)
  {
    hide Search, PassesTo, EndsInError;
    SearchFails(c, dec, s, index, index, k, flags);
  }

  /** A public root ends in an error at the first item with its fingerprint whose path is hardened, whoever's it is. */
  lemma HardenedFails(c: Curve, dec: Decompress, k: Key, flags: KeyFlags, key: MapKey, childNum: uint32)
    requires !IsPrivate(k) && k.chainCode != ZERO32 && k.depth < PATH_MAX_LEN && IsHardened(childNum)
    ensures var s := [Item(key, k.hash160[..FINGERPRINT_LEN] + PathBytes([childNum]))];
            GetKey(c, dec, s, 0, k, flags) == Found(Einval, 0, None)
  {
    hide PathOf, PathBytes, FindPublicKey, ChildKeys, DerivationHash;
    var path, value := [childNum], k.hash160[..FINGERPRINT_LEN] + PathBytes([childNum]);
    PathRoundTrip(path);
    assert value[..FINGERPRINT_LEN] == k.hash160[..FINGERPRINT_LEN] && value[FINGERPRINT_LEN..] == PathBytes(path);
    assert Derive(c, k, path[0], StepFlags(flags, 0, 1, UntilFor(path, flags))) == None;
  }

  // ---------------------------------------------------------------- methods

  /** map_contains_key_length */
  method ContainsKeyLength(m: WallyMap, index: nat, len: nat) returns (found: bool)
    requires m.Valid()
    ensures found == HasKeyLength(m.List(), index, len)
  {
    found := false;
    var i := index;
    while i < m.numItems && !found
      invariant i >= index
      invariant found ==> HasKeyLength(m.List(), index, len)
      invariant !found ==> forall j :: index <= j < i && j < m.numItems ==> KeyLen(m.List()[j].key) != len
      decreases m.numItems - i, !found
    {
      if KeyLen(m.items[i].key) == len {
        assert KeyLen(m.List()[i].key) == len;
        found := true;
      } else {
        i := i + 1;
      }
    }
  }

  method FindPublicKeyFrom(dec: Decompress, m: WallyMap, index: nat, pub: Bytes33) returns (ret: Status, written: nat)
    requires m.Valid()
    ensures (ret, written) == FindPublicKey(dec, m.List(), index, pub)
  {
    hide MapItems.Find, HasKeyLength;
    ret, written := m.Find(index, ByteKey(pub));
    if ret == Ok && written > 0 {
      return;
    }
    ret, written := m.Find(index, ByteKey(pub[1..]));
    if ret == Ok && written > 0 {
      return;
    }
    var uncompressed := ContainsKeyLength(m, index, UNCOMPRESSED_LEN);
    if uncompressed {
      var full := dec(pub);
      if full.None? {
        return Einval, 0;
      }
      ret, written := m.Find(index, ByteKey(full.value));
    }
  }

  /** mem_is_zero */
  method MemIsZero(mem: seq<byte>) returns (zero: bool)
    ensures zero <==> mem == Repeat(0, |mem|)
  {
    var i := 0;
    while i < |mem|
      invariant 0 <= i <= |mem| && forall k :: 0 <= k < i ==> mem[k] == 0
    {
      if mem[i] != 0 {
        return false;
      }
      i := i + 1;
    }
    assert mem == Repeat(0, |mem|);
    zero := true;
  }

  /** One item of the search: the key to look up is left in `derived`. */
  method TryItem(c: Curve, hdkey: ExtKey, value: seq<byte>, flags: KeyFlags, path: array<uint32>, derived: ExtKey)
      returns (ret: Status, skip: bool)
    requires hdkey != derived && path.Length == PATH_MAX_LEN
    modifies path, derived
    ensures match CandidateOf(c, hdkey.Contents(), value, flags)
            case Skip => ret == Ok && skip
            case Fail => ret == Einval && !skip
            case Try(x) => ret == Ok && !skip && derived.Contents() == x
  {
    hide DerivePath, PathOf;
    if |value| >= FINGERPRINT_LEN && value[..FINGERPRINT_LEN] != hdkey.hash160[..FINGERPRINT_LEN] {
      return Ok, true;
    }
    var pathLen;
    ret, pathLen := KeypathGetPath(value, path);
    if ret != Ok {
      return ret, false;
    }
    if pathLen + hdkey.depth > PATH_MAX_LEN {
      return Ok, true;
    }
    if pathLen == 0 {
      derived.CopyFrom(hdkey);
      return Ok, false;
    }
    assert path[..pathLen] == StoredPath(value);
    ret := FromParentPath(c, hdkey, path[..pathLen], flags, derived);
    skip := false;
  }

  /** map_keypath_get_bip32_key_from. A key that is the output too has been cleared before it is searched for. */
  method GetBip32KeyFrom(c: Curve, dec: Decompress, m: WallyMap, index: nat, hdkey: ExtKey, flags: KeyFlags,
      output: ExtKey)
      returns (ret: Status, written: nat)
    requires m.Valid()
    modifies output
    ensures var k := if hdkey == output then WIPED else old(hdkey.Contents());
            var r := GetKey(c, dec, m.List(), index, k, flags);
            ret == r.ret && written == r.written && output.Contents() == if r.key.Some? then r.key.value else WIPED
  {
    hide CandidateOf, Search, MapItems.Find;
    output.Wipe();
    ghost var k := hdkey.Contents();
    var found, idx := hdkey, 0;
    ret := Ok;
    var partial := MemIsZero(hdkey.chainCode);
    if partial {
      ret, idx := FindPublicKeyFrom(dec, m, index, hdkey.pubKey);
    } else {
      found, ret, idx := SearchItems(c, dec, m, index, hdkey, flags);
    }
    written := 0;
    if ret == Ok && idx > 0 {
      written := idx;
      output.CopyFrom(found);
    }
  }

  /** The loop over the items. */
  method SearchItems(c: Curve, dec: Decompress, m: WallyMap, index: nat, hdkey: ExtKey, flags: KeyFlags)
      returns (found: ExtKey, ret: Status, idx: nat)
    requires m.Valid()
    ensures var r := Search(c, dec, m.List(), index, index, hdkey.Contents(), flags);
            ret == r.ret && idx == r.written && (r.key.Some? <==> idx > 0)
            && (idx > 0 ==> ret == Ok && r.key == Some(found.Contents()))
  {
    hide CandidateOf, FindPublicKey;
    var path := new uint32[PATH_MAX_LEN];
    var derived := new ExtKey();
    found, ret, idx := hdkey, Ok, 0;
    ghost var s, k := m.List(), hdkey.Contents();
    var i := index;
    while i < m.numItems
      invariant i >= index && m.Valid() && m.List() == s && hdkey.Contents() == k && ret == Ok && idx == 0
      invariant Search(c, dec, s, index, i, k, flags) == Search(c, dec, s, index, index, k, flags)
      decreases m.numItems - i
    {
      var skip;
      ret, skip := TryItem(c, hdkey, m.items[i].value, flags, path, derived);
      if ret != Ok {
        return;
      }
      if !skip {
        ret, idx := FindPublicKeyFrom(dec, m, index, derived.pubKey);
        if ret != Ok {
          idx := 0;
          return;
        }
        if idx == i + 1 {
          found := derived;
          return;
        }
        idx := 0;
      }
      i := i + 1;
    }
  }

  /** A value is one of a keypath exactly if it is four bytes and the words of some path behind them. */
  lemma ValidIfStored(value: seq<byte>)
    ensures KeypathValid(value) <==> |value| >= 4 && exists path :: value[4..] == PathBytes(path)
  {
    hide PathBytes, PathOf;
    if KeypathValid(value) { BytesRoundTrip(value[4..]); }
    if |value| >= 4 && exists path :: value[4..] == PathBytes(path) {
      var path :| value[4..] == PathBytes(path);
      assert |PathBytes(path)| == 4 * |path|;
    }
  }

  /** Word i of a path is stored in four bytes, the least significant first. */
  lemma WordBytes(path: seq<uint32>, i: nat, j: nat)
    requires i < |path| && j < 4
    ensures Pow(256, j) > 0 && PathBytes(path)[4 * i + j] == path[i] / Pow(256, j) % 256
  {
    hide LittleEndian, PathBytes, Pow;
    PathBytesAt(path, i);
    LittleEndianAt(path[i], 4, j);
    assert PathBytes(path)[4 * i..4 * i + 4][j] == PathBytes(path)[4 * i + j];
  }
}
