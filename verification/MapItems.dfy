/** What the operations of src/map.c do to the list of a map's items, and to the map the list stands for. */
module MapItems {
  import opened Common

  /** An integer key, or a byte key, which must not be empty. */
  datatype MapKey = IntKey(n: uint32) | ByteKey(b: seq<byte>)

  /** A value may be empty, which is NULL. */
  datatype Item = Item(key: MapKey, value: seq<byte>)

  /** The verify_fn of a map, if it has one. */
  type Verify = Option<(MapKey, seq<byte>) -> bool>

  predicate ValidKey(k: MapKey) {
    k.ByteKey? ==> k.b != []
  }

  predicate Accepts(verify: Verify, key: MapKey, value: seq<byte>) {
    ValidKey(key) && (verify.Some? ==> verify.value(key, value))
  }

  predicate UniqueKeys(s: seq<Item>) {
    forall i, j :: 0 <= i < j < |s| ==> s[i].key != s[j].key
  }

  predicate ValidKeys(s: seq<Item>) {
    forall i :: 0 <= i < |s| ==> ValidKey(s[i].key)
  }

  /** The map that a list of items stands for. */
  function ToMap(s: seq<Item>): (m: map<MapKey, seq<byte>>)
    ensures forall k :: k in m <==> exists i :: 0 <= i < |s| && s[i].key == k
  {
    if s == [] then map[]
    else
      var m := ToMap(s[..|s| - 1]);
      var last := s[|s| - 1];
      assert forall i :: 0 <= i < |s| - 1 ==> s[..|s| - 1][i] == s[i];
      m[last.key := last.value]
  }

  /** map_find: the first place from index on whose item has the key, plus 1; 0 if there is none. */
  function Find(s: seq<Item>, index: nat, key: MapKey): (r: nat)
    ensures r > 0 ==> index < r <= |s| && s[r - 1].key == key
    ensures forall i :: index <= i < (if r > 0 then r - 1 else |s|) ==> s[i].key != key
    decreases |s| - index
  {
    if index >= |s| then 0 else if s[index].key == key then index + 1 else Find(s, index + 1, key)
  }

  /** map_add */
  function AddItem(verify: Verify, s: seq<Item>, key: MapKey, value: seq<byte>, ignoreDups: bool): (Status, seq<Item>) {
    if !Accepts(verify, key, value) then (Einval, s)
    else if Find(s, 0, key) > 0 then (if ignoreDups then Ok else Einval, s)
    else (Ok, s + [Item(key, value)])
  }

  /** map_remove */
  function RemoveItem(s: seq<Item>, key: MapKey): (Status, seq<Item>) {
    var r := Find(s, 0, key);
    if !ValidKey(key) then (Einval, s) else if r == 0 then (Ok, s) else (Ok, s[..r - 1] + s[r..])
  }

  lemma AddedAt(verify: Verify, s: seq<Item>, key: MapKey, value: seq<byte>, ignoreDups: bool)
    ensures var r := AddItem(verify, s, key, value, ignoreDups);
            if !Accepts(verify, key, value) then r == (Einval, s)
            else
              && ValidKey(key)
              && r == if Find(s, 0, key) > 0 then (if ignoreDups then Ok else Einval, s)
                      else (Ok, s + [Item(key, value)])
  {
  }

  lemma RemovedAt(s: seq<Item>, key: MapKey)
    ensures var r := Find(s, 0, key);
            RemoveItem(s, key) == if !ValidKey(key) then (Einval, s)
                                  else (Ok, if r == 0 then s else s[..r - 1] + s[r - 1 + 1..])
  {
  }

  /** Adding appends the item, or leaves the list alone: for an empty byte key, a refused item, and a present key. */
  lemma AddMeans(verify: Verify, s: seq<Item>, key: MapKey, value: seq<byte>, ignoreDups: bool)
    ensures var refused := key == ByteKey([]) || (verify.Some? && !verify.value(key, value));
            var present := exists i :: 0 <= i < |s| && s[i].key == key;
            AddItem(verify, s, key, value, ignoreDups)
            == if refused || (present && !ignoreDups) then (Einval, s)
               else if present then (Ok, s)
               else (Ok, s + [Item(key, value)])
  {
  }

  /** Removing and replacing concern the item with the key, where it stands; the others stay in their order. */
  lemma PlaceMeans(verify: Verify, s: seq<Item>, key: MapKey, value: seq<byte>, i: nat)
    requires UniqueKeys(s) && i < |s| && s[i].key == key && key != ByteKey([])
    ensures RemoveItem(s, key) == (Ok, s[..i] + s[i + 1..])
    ensures ReplaceItem(verify, s, key, value) == (Ok, s[..i] + [Item(key, value)] + s[i + 1..])
  {
    assert Find(s, 0, key) == i + 1;
    assert s[i := Item(key, value)] == s[..i] + [Item(key, value)] + s[i + 1..];
  }

  /** map_replace: the new value of a key that is there is not verified. */
  function ReplaceItem(verify: Verify, s: seq<Item>, key: MapKey, value: seq<byte>): (Status, seq<Item>) {
    var r := Find(s, 0, key);
    if !ValidKey(key) then (Einval, s)
    else if r > 0 then (Ok, s[r - 1 := Item(key, value)])
    else AddItem(verify, s, key, value, true)
  }

  /** wally_map_combine: items are added one after the other, up to the first that is refused. */
  function CombineItems(verify: Verify, s: seq<Item>, src: seq<Item>): (Status, seq<Item>)
    decreases |src|
  {
    if src == [] then (Ok, s)
    else
      var (ret, s1) := AddItem(verify, s, src[0].key, src[0].value, true);
      if ret != Ok then (ret, s1) else CombineItems(verify, s1, src[1..])
  }

  /** wally_map_assign */
  function AssignItems(verify: Verify, s: seq<Item>, src: seq<Item>): (Status, seq<Item>) {
    var (ret, t) := CombineItems(verify, [], src);
    (ret, if ret == Ok then t else s)
  }

  /** The first bytes that differ decide. */
  function MemCmp(a: seq<byte>, b: seq<byte>): int
    requires |a| == |b|
  {
    if a == [] then 0 else if a[0] != b[0] then a[0] - b[0] else MemCmp(a[1..], b[1..])
  }

  /** map_item_compare: integers first; bytes by their common length, then the shorter first. */
  function Compare(l: MapKey, r: MapKey): int {
    if l.IntKey? != r.IntKey? then (if l.IntKey? then -1 else 1)
    else if l.IntKey? then (if l.n > r.n then 1 else 0) - (if l.n < r.n then 1 else 0)
    else
      var n := Min(|l.b|, |r.b|);
      var cmp := MemCmp(l.b[..n], r.b[..n]);
      if cmp == 0 then (if |l.b| < |r.b| then -1 else 1) else cmp
  }

  predicate Less(l: MapKey, r: MapKey) {
    Compare(l, r) < 0
  }

  /** The lexicographic order of byte strings, a prefix coming first. */
  predicate Lex(a: seq<byte>, b: seq<byte>) {
    b != [] && (a == [] || a[0] < b[0] || (a[0] == b[0] && Lex(a[1..], b[1..])))
  }

  lemma {:induction false} CompareIsLex(a: seq<byte>, b: seq<byte>)
    ensures Less(ByteKey(a), ByteKey(b)) <==> Lex(a, b)
    decreases |a|
  {
    if a != [] && b != [] && a[0] == b[0] {
      var n := Min(|a|, |b|);
      CompareIsLex(a[1..], b[1..]);
      assert a[..n][1..] == a[1..][..n - 1] && b[..n][1..] == b[1..][..n - 1];
    }
  }

  /** Integer keys come before byte keys, in the order of their numbers. */
  lemma IntegersFirst(m: uint32, n: uint32, b: seq<byte>)
    ensures (Less(IntKey(m), IntKey(n)) <==> m < n) && Less(IntKey(m), ByteKey(b)) && !Less(ByteKey(b), IntKey(m))
  {
  }

  lemma {:induction false} LexOrder(a: seq<byte>, b: seq<byte>)
    ensures !(Lex(a, b) && Lex(b, a)) && (a != b ==> Lex(a, b) || Lex(b, a)) && !Lex(a, a)
  {
    if a != [] { LexOrder(a[1..], if b == [] then [] else b[1..]); }
    if a != [] && b != [] && a[0] == b[0] {
      assert a == [a[0]] + a[1..] && b == [b[0]] + b[1..];
    }
  }

  lemma {:induction false} LexTransitive(a: seq<byte>, b: seq<byte>, c: seq<byte>)
    requires Lex(a, b) && Lex(b, c)
    ensures Lex(a, c)
  {
    if a != [] && a[0] == b[0] == c[0] { LexTransitive(a[1..], b[1..], c[1..]); }
  }

  /** The comparison is a strict total order. */
  lemma CompareTotal(a: MapKey, b: MapKey)
    ensures !Less(a, a) && !(Less(a, b) && Less(b, a)) && (a != b ==> Less(a, b) || Less(b, a))
  {
    if a.ByteKey? && b.ByteKey? {
      CompareIsLex(a.b, a.b);
      CompareIsLex(a.b, b.b);
      CompareIsLex(b.b, a.b);
      LexOrder(a.b, b.b);
    } else if a.ByteKey? {
      CompareIsLex(a.b, a.b);
      LexOrder(a.b, a.b);
    }
  }

  lemma CompareTransitive(a: MapKey, b: MapKey, c: MapKey)
    requires Less(a, b) && Less(b, c)
    ensures Less(a, c)
  {
    if a.ByteKey? && b.ByteKey? && c.ByteKey? {
      CompareIsLex(a.b, b.b);
      CompareIsLex(b.b, c.b);
      LexTransitive(a.b, b.b, c.b);
      CompareIsLex(a.b, c.b);
    }
  }

  predicate Sorted(s: seq<Item>) {
    forall i, j :: 0 <= i < j < |s| ==> Less(s[i].key, s[j].key)
  }

  function Insert(x: Item, s: seq<Item>): seq<Item> {
    if s == [] || Less(x.key, s[0].key) then [x] + s else [s[0]] + Insert(x, s[1..])
  }

  /** What qsort makes of the items. */
  function SortItems(s: seq<Item>): seq<Item> {
    if s == [] then [] else Insert(s[0], SortItems(s[1..]))
  }

  lemma TailMultiset(s: seq<Item>)
    requires s != []
    ensures s == [s[0]] + s[1..] && multiset(s[1..]) == multiset(s) - multiset{s[0]}
  {
    assert s == [s[0]] + s[1..];
  }

  lemma {:induction false} InsertAdds(x: Item, s: seq<Item>)
    ensures multiset(Insert(x, s)) == multiset(s) + multiset{x}
  {
    hide Less;
    if s != [] {
      TailMultiset(s);
      if !Less(x.key, s[0].key) {
        InsertAdds(x, s[1..]);
      }
    }
  }

  lemma {:induction false} InsertSorts(x: Item, s: seq<Item>)
    requires Sorted(s) && forall i :: 0 <= i < |s| ==> s[i].key != x.key
    ensures Sorted(Insert(x, s))
  {
    hide Less;
    if s == [] {
    } else if Less(x.key, s[0].key) {
      forall j | 0 < j < |s|
        ensures Less(x.key, s[j].key)
      {
        CompareTransitive(x.key, s[0].key, s[j].key);
      }
    } else {
      var t := Insert(x, s[1..]);
      InsertSorts(x, s[1..]);
      InsertAdds(x, s[1..]);
      CompareTotal(x.key, s[0].key);
      forall j | 0 <= j < |t|
        ensures Less(s[0].key, t[j].key)
      {
        assert t[j] in multiset(t);
        assert t[j] == x || t[j] in s[1..];
      }
    }
  }

  /** Sorting permutes items of different keys into ascending order. */
  lemma {:induction false} SortSorts(s: seq<Item>)
    requires UniqueKeys(s)
    ensures multiset(SortItems(s)) == multiset(s) && Sorted(SortItems(s))
  {
    hide Less;
    if s != [] {
      SortSorts(s[1..]);
      var t := SortItems(s[1..]);
      assert s == [s[0]] + s[1..];
      forall i | 0 <= i < |t|
        ensures t[i].key != s[0].key
      {
        assert t[i] in multiset(t);
        assert t[i] in s[1..];
      }
      InsertSorts(s[0], t);
      InsertAdds(s[0], t);
    }
  }

  /** There is one ascending order: whatever a correct sort does, it ends with the same list. */
  lemma {:induction false} SortUnique(a: seq<Item>, b: seq<Item>)
    requires Sorted(a) && Sorted(b) && multiset(a) == multiset(b)
    ensures a == b
  {
    hide Less;
    assert |a| == |multiset(a)| == |multiset(b)| == |b|;
    if a != [] {
      SameLeast(a, b);
      TailMultiset(a);
      TailMultiset(b);
      SortUnique(a[1..], b[1..]);
    }
  }

  lemma SameLeast(a: seq<Item>, b: seq<Item>)
    requires Sorted(a) && Sorted(b) && multiset(a) == multiset(b) && a != [] && b != []
    ensures a[0] == b[0]
  {
    hide Less;
    assert a[0] in multiset(a) && b[0] in multiset(b);
    var i :| 0 <= i < |b| && b[i] == a[0];
    var j :| 0 <= j < |a| && a[j] == b[0];
    CompareTotal(a[0].key, b[0].key);
  }

  /** The value at a place is the value of its key. */
  lemma {:induction false} MapAt(s: seq<Item>, i: nat)
    requires UniqueKeys(s) && i < |s|
    ensures s[i].key in ToMap(s) && ToMap(s)[s[i].key] == s[i].value
  {
    if i < |s| - 1 {
      MapAt(s[..|s| - 1], i);
    }
  }

  ghost predicate HasKey(s: seq<Item>, k: MapKey) {
    exists i :: 0 <= i < |s| && s[i].key == k
  }

  /** m has the items of s, and no other keys. */
  ghost predicate Stands(s: seq<Item>, m: map<MapKey, seq<byte>>) {
    && (forall i :: 0 <= i < |s| ==> s[i].key in m && m[s[i].key] == s[i].value)
    && forall k :: k in m ==> HasKey(s, k)
  }

  lemma StandsForMap(s: seq<Item>, m: map<MapKey, seq<byte>>)
    requires UniqueKeys(s)
    ensures Stands(s, m) <==> m == ToMap(s)
  {
    hide ToMap;
    forall i | 0 <= i < |s|
      ensures s[i].key in ToMap(s) && ToMap(s)[s[i].key] == s[i].value
    {
      MapAt(s, i);
    }
  }

  /** Lists with the same items, in whatever order, stand for the same map. */
  lemma SameItemsSameMap(s: seq<Item>, t: seq<Item>)
    requires UniqueKeys(s) && UniqueKeys(t) && multiset(s) == multiset(t)
    ensures ToMap(s) == ToMap(t)
  {
    StandsForMap(s, ToMap(s));
    StandsForMap(t, ToMap(s));
    forall i | 0 <= i < |t|
      ensures t[i].key in ToMap(s) && ToMap(s)[t[i].key] == t[i].value
    {
      assert t[i] in multiset(t);
      assert t[i] in s;
    }
    forall k | k in ToMap(s)
      ensures HasKey(t, k)
    {
      var i :| 0 <= i < |s| && s[i].key == k;
      assert s[i] in multiset(s);
      assert s[i] in t;
    }
  }

  /** Adding gives the map one more key, or leaves it alone; the keys stay unique. */
  lemma AddRefines(verify: Verify, s: seq<Item>, key: MapKey, value: seq<byte>, ignoreDups: bool)
    requires UniqueKeys(s) && ValidKeys(s)
    ensures var (ret, t) := AddItem(verify, s, key, value, ignoreDups);
            var m := ToMap(s);
            && UniqueKeys(t) && ValidKeys(t)
            && ToMap(t) == (if key !in m && Accepts(verify, key, value) then m[key := value] else m)
            && ret == (if Accepts(verify, key, value) && (key !in m || ignoreDups) then Ok else Einval)
  {
    var t := s + [Item(key, value)];
    assert t[..|s|] == s;
  }

  /** Removing takes the key away, and leaves the others in their order. */
  lemma RemoveRefines(s: seq<Item>, key: MapKey)
    requires UniqueKeys(s) && ValidKeys(s)
    ensures var (ret, t) := RemoveItem(s, key);
            UniqueKeys(t) && ValidKeys(t) && ToMap(t) == ToMap(s) - {key} && ret == if ValidKey(key) then Ok else Einval
  {
    hide ToMap, UniqueKeys;
    var r := Find(s, 0, key);
    StandsForMap(s, ToMap(s));
    if r > 0 {
      assert ValidKey(s[r - 1].key);
      RemoveAt(s, ToMap(s), r - 1);
      StandsForMap(s[..r - 1] + s[r..], ToMap(s) - {key});
    } else {
      assert ToMap(s) - {key} == ToMap(s);
    }
  }

  /** A list without one of its items. */
  lemma RemoveAt(s: seq<Item>, m: map<MapKey, seq<byte>>, at: nat)
    requires UniqueKeys(s) && ValidKeys(s) && at < |s| && Stands(s, m)
    ensures var t := s[..at] + s[at + 1..];
            UniqueKeys(t) && ValidKeys(t) && Stands(t, m - {s[at].key})
  {
    var t := s[..at] + s[at + 1..];
    WithoutKeys(s, at);
    forall k | k in m - {s[at].key}
      ensures HasKey(t, k)
    {
      assert HasKey(s, k);
      var i :| 0 <= i < |s| && s[i].key == k;
      assert t[if i < at then i else i - 1] == s[i];
    }
  }

  lemma WithoutKeys(s: seq<Item>, at: nat)
    requires UniqueKeys(s) && at < |s|
    ensures var t := s[..at] + s[at + 1..];
            UniqueKeys(t) && forall i :: 0 <= i < |t| ==> t[i] in s && t[i].key != s[at].key
  {
    var t := s[..at] + s[at + 1..];
    assert forall i :: 0 <= i < at ==> t[i] == s[i];
    assert forall i :: at <= i < |t| ==> t[i] == s[i + 1];
  }

  /** A list with another value at a place. */
  lemma ReplaceAt(s: seq<Item>, m: map<MapKey, seq<byte>>, at: nat, value: seq<byte>)
    requires UniqueKeys(s) && ValidKeys(s) && at < |s| && Stands(s, m)
    ensures var t := s[at := Item(s[at].key, value)];
            UniqueKeys(t) && ValidKeys(t) && Stands(t, m[s[at].key := value])
  {
    var t := s[at := Item(s[at].key, value)];
    assert forall i :: 0 <= i < |t| ==> t[i].key == s[i].key;
    forall k | k in m[s[at].key := value]
      ensures HasKey(t, k)
    {
      assert k == s[at].key || HasKey(s, k);
      var i :| 0 <= i < |s| && s[i].key == k;
      assert t[i].key == k;
    }
  }

  /** Replacing sets the key, if it is there or accepted. */
  lemma ReplaceRefines(verify: Verify, s: seq<Item>, key: MapKey, value: seq<byte>)
    requires UniqueKeys(s) && ValidKeys(s)
    ensures var (ret, t) := ReplaceItem(verify, s, key, value);
            var m := ToMap(s);
            var ok := key in m || Accepts(verify, key, value);
            && UniqueKeys(t) && ValidKeys(t)
            && ToMap(t) == (if ok then m[key := value] else m) && ret == if ok then Ok else Einval
  {
    hide ToMap, AddItem, UniqueKeys, ValidKeys;
    var r := Find(s, 0, key);
    AddRefines(verify, s, key, value, true);
    if r > 0 {
      StandsForMap(s, ToMap(s));
      ReplaceAt(s, ToMap(s), r - 1, value);
      StandsForMap(s[r - 1 := Item(key, value)], ToMap(s)[key := value]);
    }
  }

  /** How many items of src are accepted before the first that is refused. */
  function AcceptedCount(verify: Verify, src: seq<Item>): (n: nat)
    ensures n <= |src|
  {
    if src == [] || !Accepts(verify, src[0].key, src[0].value) then 0 else 1 + AcceptedCount(verify, src[1..])
  }

  lemma ToMapCons(x: Item, s: seq<Item>)
    requires UniqueKeys([x] + s)
    ensures x.key !in ToMap(s) && ToMap([x] + s) == ToMap(s)[x.key := x.value]
  {
    hide ToMap, UniqueKeys;
    UniqueTail(x, s);
    StandsForMap(s, ToMap(s));
    StandsCons(x, s, ToMap(s));
    StandsForMap([x] + s, ToMap(s)[x.key := x.value]);
  }

  lemma UniqueTail(x: Item, s: seq<Item>)
    requires UniqueKeys([x] + s)
    ensures UniqueKeys(s) && forall i :: 0 <= i < |s| ==> s[i].key != x.key
  {
    var t := [x] + s;
    assert t[0] == x;
    assert forall i :: 0 <= i < |s| ==> t[i + 1] == s[i];
  }

  lemma StandsCons(x: Item, s: seq<Item>, m: map<MapKey, seq<byte>>)
    requires Stands(s, m) && forall i :: 0 <= i < |s| ==> s[i].key != x.key
    ensures x.key !in m && Stands([x] + s, m[x.key := x.value])
  {
    var t := [x] + s;
    assert forall i :: 0 <= i < |t| ==> t[i] == if i == 0 then x else s[i - 1];
    forall k | k in m[x.key := x.value]
      ensures HasKey(t, k)
    {
      if k == x.key {
        assert t[0].key == k;
      } else {
        assert HasKey(s, k);
        var i :| 0 <= i < |s| && s[i].key == k;
        assert t[i + 1].key == k;
      }
    }
  }

  /**
   Combining is a union in which the target's own values win: of the whole source, if every item of it is accepted,
   and of the items before the first refused one otherwise. What the target has stays in front as it is.
   */
  lemma {:induction false} CombineRefines(verify: Verify, s: seq<Item>, src: seq<Item>)
    requires UniqueKeys(s) && ValidKeys(s) && UniqueKeys(src)
    ensures var (ret, t) := CombineItems(verify, s, src);
            var n := AcceptedCount(verify, src);
            UniqueKeys(t) && ValidKeys(t) && s <= t
            && ToMap(t) == ToMap(src[..n]) + ToMap(s) && ret == if n == |src| then Ok else Einval
    decreases |src|
  {
    hide ToMap, UniqueKeys, ValidKeys, AddItem, CombineItems, AcceptedCount, Accepts;
    var n := AcceptedCount(verify, src);
    CombineStep(verify, s, src);
    if n == 0 {
      ToMapNothing();
      assert src[..n] == [];
      assert ToMap([]) + ToMap(s) == ToMap(s);
    } else {
      var x, rest := src[0], src[1..];
      var s1 := AddItem(verify, s, x.key, x.value, true).1;
      AddRefines(verify, s, x.key, x.value, true);
      FirstAndRest(src, n);
      CombineRefines(verify, s1, rest);
      CombinedMap(rest[..n - 1], x, ToMap(s), ToMap(s1));
    }
  }

  /** The map of a first item and others, joined to a map. */
  lemma CombinedMap(rest: seq<Item>, x: Item, m: map<MapKey, seq<byte>>, m1: map<MapKey, seq<byte>>)
    requires UniqueKeys([x] + rest) && m1 == if x.key in m then m else m[x.key := x.value]
    ensures ToMap([x] + rest) + m == ToMap(rest) + m1
  {
    hide ToMap, UniqueKeys;
    ToMapCons(x, rest);
    UnionStep(ToMap(rest), m, x);
  }

  /** The first item decides whether combining goes on. */
  lemma CombineStep(verify: Verify, s: seq<Item>, src: seq<Item>)
    ensures var n := AcceptedCount(verify, src);
            if n == 0 then CombineItems(verify, s, src) == (if src == [] then Ok else Einval, s)
            else
              && src != [] && Accepts(verify, src[0].key, src[0].value) && n == 1 + AcceptedCount(verify, src[1..])
              && var s1 := AddItem(verify, s, src[0].key, src[0].value, true).1;
                 s <= s1 && CombineItems(verify, s, src) == CombineItems(verify, s1, src[1..])
  {
    hide Find;
  }

  lemma FirstAndRest(s: seq<Item>, n: nat)
    requires UniqueKeys(s) && 0 < n <= |s|
    ensures s[..n] == [s[0]] + s[1..][..n - 1] && UniqueKeys(s[1..]) && UniqueKeys([s[0]] + s[1..][..n - 1])
  {
    assert s == [s[0]] + s[1..];
    UniqueTail(s[0], s[1..]);
    UniquePrefix(s, n);
  }

  lemma UniquePrefix(s: seq<Item>, n: nat)
    requires UniqueKeys(s) && n <= |s|
    ensures UniqueKeys(s[..n])
  {
  }

  lemma ToMapNothing()
    ensures ToMap([]) == map[]
  {
  }

  lemma UnionStep(r: map<MapKey, seq<byte>>, m: map<MapKey, seq<byte>>, x: Item)
    requires x.key !in r
    ensures r + (if x.key in m then m else m[x.key := x.value]) == r[x.key := x.value] + m
  {
  }

  /** A change to a map. */
  datatype Op =
    | Add(key: MapKey, value: seq<byte>, ignoreDups: bool)
    | Remove(key: MapKey)
    | Replace(key: MapKey, value: seq<byte>)
    | Combine(src: seq<Item>)
    | Assign(src: seq<Item>)
    | Sort

  /** The items of another map. */
  predicate ValidOp(op: Op) {
    op.Combine? || op.Assign? ==> UniqueKeys(op.src)
  }

  function Apply(verify: Verify, s: seq<Item>, op: Op): seq<Item> {
    match op
    case Add(key, value, ignoreDups) => AddItem(verify, s, key, value, ignoreDups).1
    case Remove(key) => RemoveItem(s, key).1
    case Replace(key, value) => ReplaceItem(verify, s, key, value).1
    case Combine(src) => CombineItems(verify, s, src).1
    case Assign(src) => AssignItems(verify, s, src).1
    case Sort => SortItems(s)
  }

  /** The same change to a mathematical map. */
  function ApplyToMap(verify: Verify, m: map<MapKey, seq<byte>>, op: Op): map<MapKey, seq<byte>> {
    match op
    case Add(key, value, _) => if key !in m && Accepts(verify, key, value) then m[key := value] else m
    case Remove(key) => m - {key}
    case Replace(key, value) => if key in m || Accepts(verify, key, value) then m[key := value] else m
    case Combine(src) => ToMap(src[..AcceptedCount(verify, src)]) + m
    case Assign(src) => if AcceptedCount(verify, src) == |src| then ToMap(src) else m
    case Sort => m
  }

  lemma ApplyRefines(verify: Verify, s: seq<Item>, op: Op)
    requires UniqueKeys(s) && ValidKeys(s) && ValidOp(op)
    ensures var t := Apply(verify, s, op);
            UniqueKeys(t) && ValidKeys(t) && ToMap(t) == ApplyToMap(verify, ToMap(s), op)
  {
    hide ToMap, AddItem, RemoveItem, ReplaceItem, CombineItems, SortItems;
    match op
    case Add(key, value, ignoreDups) => AddRefines(verify, s, key, value, ignoreDups);
    case Remove(key) => RemoveRefines(s, key);
    case Replace(key, value) => ReplaceRefines(verify, s, key, value);
    case Combine(src) => CombineRefines(verify, s, src);
    case Assign(src) => AssignRefines(verify, s, src);
    case Sort => SortRefines(s);
  }

  lemma AssignRefines(verify: Verify, s: seq<Item>, src: seq<Item>)
    requires UniqueKeys(s) && ValidKeys(s) && UniqueKeys(src)
    ensures var (ret, t) := AssignItems(verify, s, src);
            UniqueKeys(t) && ValidKeys(t)
            && if AcceptedCount(verify, src) == |src| then ret == Ok && ToMap(t) == ToMap(src)
               else ret == Einval && t == s
  {
    hide ToMap;
    CombineRefines(verify, [], src);
    ToMapNothing();
    assert src[..|src|] == src;
    assert ToMap(src) + map[] == ToMap(src);
  }

  lemma SortRefines(s: seq<Item>)
    requires UniqueKeys(s) && ValidKeys(s)
    ensures var t := SortItems(s);
            UniqueKeys(t) && ValidKeys(t) && Sorted(t) && multiset(t) == multiset(s) && ToMap(t) == ToMap(s)
  {
    hide ToMap, Less;
    SortSorts(s);
    var t := SortItems(s);
    forall i | 0 <= i < |t|
      ensures ValidKey(t[i].key)
    {
      assert t[i] in multiset(t);
      assert t[i] in s;
    }
    forall i, j | 0 <= i < j < |t|
      ensures t[i].key != t[j].key
    {
      CompareTotal(t[i].key, t[j].key);
    }
    SameItemsSameMap(s, t);
  }

  function Run(verify: Verify, s: seq<Item>, ops: seq<Op>): seq<Item>
    decreases |ops|
  {
    if ops == [] then s else Run(verify, Apply(verify, s, ops[0]), ops[1..])
  }

  function RunOnMap(verify: Verify, m: map<MapKey, seq<byte>>, ops: seq<Op>): map<MapKey, seq<byte>>
    decreases |ops|
  {
    if ops == [] then m else RunOnMap(verify, ApplyToMap(verify, m, ops[0]), ops[1..])
  }

  /** Every run of operations keeps the keys unique, and ends with the map that the same run on a map ends with. */
  lemma {:induction false} RunRefines(verify: Verify, s: seq<Item>, ops: seq<Op>)
    requires UniqueKeys(s) && ValidKeys(s) && forall i :: 0 <= i < |ops| ==> ValidOp(ops[i])
    ensures var t := Run(verify, s, ops);
            UniqueKeys(t) && ValidKeys(t) && ToMap(t) == RunOnMap(verify, ToMap(s), ops)
    decreases |ops|
  {
    hide ToMap, Apply, ApplyToMap, UniqueKeys, ValidKeys;
    if ops != [] {
      ApplyRefines(verify, s, ops[0]);
      RunRefines(verify, Apply(verify, s, ops[0]), ops[1..]);
    }
  }
}
