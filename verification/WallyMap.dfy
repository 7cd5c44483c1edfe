/**
 struct wally_map: an array of items that is grown, shifted, replaced and sorted in place (src/map.c,
 src/internal.c).
 */
module WallyMaps {
  import opened Common
  import opened MapItems

  class WallyMap {
    /** The allocation; its length is items_allocation_len. */
    var items: array<Item>
    var numItems: nat
    var verify: Verify
    /** The largest number of items the allocation has held. */
    ghost var peak: nat
    /** How many items array_grow has copied to get to this allocation. */
    ghost var copied: nat

    constructor (allocationLen: nat, verify: Verify)
      ensures Valid() && fresh(items) && List() == [] && items.Length == allocationLen && this.verify == verify
    {
      this.items := new Item[allocationLen];
      this.numItems, this.verify, this.peak, this.copied := 0, verify, 0, 0;
    }

    ghost function List(): seq<Item>
      reads this, items
      requires numItems <= items.Length
    {
      items[..numItems]
    }

    /** Keys are unique, and growing has copied fewer than twice as many items as there have been at a time. */
    ghost predicate Valid()
      reads this, items
    {
      && numItems <= items.Length && numItems <= peak
      && UniqueKeys(List()) && ValidKeys(List())
      && (copied > 0 ==> copied < items.Length < 2 * peak)
    }

    /** map_find */
    method Find(index: nat, key: MapKey) returns (ret: Status, written: nat)
      requires Valid()
      ensures if ValidKey(key) then ret == Ok && written == MapItems.Find(List(), index, key)
              else ret == Einval && written == 0
    {
      if !ValidKey(key) {
        return Einval, 0;
      }
      var i := index;
      while i < numItems
        invariant i >= index && MapItems.Find(List(), index, key) == MapItems.Find(List(), i, key)
        decreases numItems - i
      {
        if items[i].key == key {
          return Ok, i + 1;
        }
        i := i + 1;
      }
      return Ok, 0;
    }

    /** map_get */
    method Get(key: MapKey) returns (value: Option<seq<byte>>)
      requires Valid()
      ensures value == if key in ToMap(List()) then Some(ToMap(List())[key]) else None
    {
      hide ToMap, MapItems.Find;
      var ret, index := Find(0, key);
      if ret != Ok || index == 0 {
        assert forall i :: 0 <= i < numItems ==> List()[i].key != key;
        return None;
      }
      MapAt(List(), index - 1);
      return Some(items[index - 1].value);
    }

    /** array_grow: a full allocation is replaced by a copy twice as large. */
    method Grow()
      requires Valid()
      modifies this`items, this`copied
      ensures items == old(items) || fresh(items)
      ensures numItems < items.Length && List() == old(List())
      ensures if old(numItems < items.Length) then items == old(items) && copied == old(copied)
              else copied == old(copied) + numItems && items.Length == (if numItems == 0 then 1 else numItems) * 2
    {
      if numItems == items.Length {
        var n := (if items.Length == 0 then 1 else items.Length) * 2;
        var p := new Item[n];
        forall k | 0 <= k < items.Length {
          p[k] := items[k];
        }
        copied := copied + items.Length;
        items := p;
      }
    }

    /** map_add */
    method Add(key: MapKey, value: seq<byte>, ignoreDups: bool) returns (ret: Status)
      requires Valid()
      modifies this`items, this`numItems, this`peak, this`copied, items
      ensures Valid() && (items == old(items) || fresh(items))
      ensures (ret, List()) == AddItem(verify, old(List()), key, value, ignoreDups)
    {
      hide ToMap, UniqueKeys, ValidKeys, MapItems.Find, Accepts, AddItem;
      AddedAt(verify, List(), key, value, ignoreDups);
      if !Accepts(verify, key, value) {
        return Einval;
      }
      var found, index := Find(0, key);
      if index > 0 {
        return if ignoreDups then Ok else Einval;
      }
      ghost var was := List();
      AddRefines(verify, was, key, value, ignoreDups);
      Grow();
      Append(Item(key, value));
      ret := Ok;
    }

    /** The item behind the last. */
    method Append(item: Item)
      requires numItems < items.Length
      modifies this`numItems, this`peak, items
      ensures numItems == old(numItems) + 1 && List() == old(List()) + [item]
      ensures peak == if numItems > old(peak) then numItems else old(peak)
    {
      ghost var was := List();
      items[numItems] := item;
      numItems := numItems + 1;
      peak := if numItems > peak then numItems else peak;
      assert List() == was + [item];
    }

    /** The memmove of map_remove over the item at a place. */
    method MoveUp(at: nat)
      requires at < numItems <= items.Length
      modifies this`numItems, items
      ensures numItems == old(numItems) - 1 && List() == old(List())[..at] + old(List())[at + 1..]
    {
      ghost var was := List();
      forall k | at <= k < numItems - 1 {
        items[k] := items[k + 1];
      }
      numItems := numItems - 1;
      assert List() == was[..at] + was[at + 1..];
    }

    /** map_remove: the items behind the one removed move up. */
    method Remove(key: MapKey) returns (ret: Status)
      requires Valid()
      modifies this`numItems, items
      ensures Valid() && (ret, List()) == RemoveItem(old(List()), key)
    {
      hide ToMap, UniqueKeys, ValidKeys, MapItems.Find, RemoveItem;
      ghost var was := List();
      RemovedAt(was, key);
      var index;
      ret, index := Find(0, key);
      if ret == Ok && index > 0 {
        RemoveRefines(was, key);
        MoveUp(index - 1);
      }
    }

    /** map_replace: the value of a key that is there is overwritten. */
    method Replace(key: MapKey, value: seq<byte>) returns (ret: Status)
      requires Valid()
      modifies this`items, this`numItems, this`peak, this`copied, items
      ensures Valid() && (items == old(items) || fresh(items))
      ensures (ret, List()) == ReplaceItem(verify, old(List()), key, value)
    {
      hide ToMap, UniqueKeys, ValidKeys, MapItems.Find, AddItem;
      var index;
      ret, index := Find(0, key);
      if ret == Ok {
        if index > 0 {
          ghost var was := List();
          ReplaceRefines(verify, was, key, value);
          items[index - 1] := Item(items[index - 1].key, value);
          assert List() == was[index - 1 := Item(key, value)];
        } else {
          ret := Add(key, value, true);
        }
      }
    }

    /** wally_map_sort; qsort leaves the one ascending list of the items. */
    method Sort(flags: uint32) returns (ret: Status)
      requires Valid()
      modifies items
      ensures Valid()
      ensures if flags != 0 then ret == Einval && List() == old(List())
              else ret == Ok && List() == SortItems(old(List()))
    {
      hide ToMap, UniqueKeys, ValidKeys, MapItems.Sorted, SortItems;
      if flags != 0 {
        return Einval;
      }
      SortRefines(List());
      var sorted := SortItems(items[..numItems]);
      assert |sorted| == |multiset(sorted)| == |multiset(List())| == numItems;
      forall k | 0 <= k < numItems {
        items[k] := sorted[k];
      }
      assert List() == sorted;
      ret := Ok;
    }

    /** wally_map_combine */
    method Combine(src: WallyMap) returns (ret: Status)
      requires Valid() && src.Valid() && (src != this ==> src.items != items)
      modifies this`items, this`numItems, this`peak, this`copied, items
      ensures Valid() && (items == old(items) || fresh(items))
      ensures if src == this then ret == Ok && List() == old(List())
              else (ret, List()) == CombineItems(verify, old(List()), old(src.List()))
      ensures src != this ==> src.Valid() && src.List() == old(src.List())
    {
      hide ToMap, UniqueKeys, ValidKeys, AddItem;
      ret := Ok;
      if src == this {
        return;
      }
      ghost var all := src.List();
      ghost var was := List();
      assert all[0..] == all;
      var i := 0;
      while ret == Ok && i < src.numItems
        invariant 0 <= i <= src.numItems == |all| && Valid() && src.Valid() && src.List() == all
        invariant items == old(items) || fresh(items)
        invariant verify == old(verify)
        invariant if ret == Ok then CombineItems(verify, List(), all[i..]) == CombineItems(verify, was, all)
                  else (ret, List()) == CombineItems(verify, was, all)
        decreases src.numItems - i, ret == Ok
      {
        var item := src.items[i];
        assert all[i..][0] == all[i] == item && all[i..][1..] == all[i + 1..];
        ret := Add(item.key, item.value, true);
        i := i + 1;
      }
    }

    /** wally_map_assign: the target changes only if all of the source is accepted. */
    method Assign(src: WallyMap) returns (ret: Status)
      requires Valid() && src.Valid() && (src != this ==> src.items != items)
      modifies this
      ensures Valid() && verify == old(verify) && (items == old(items) || fresh(items))
      ensures if src == this then ret == Ok && List() == old(List())
              else (ret, List()) == AssignItems(verify, old(List()), old(src.List()))
      ensures ret != Ok ==> items == old(items) && numItems == old(numItems)
    {
      hide ToMap, UniqueKeys, ValidKeys, CombineItems;
      if src == this {
        return Ok;
      }
      var result := new WallyMap(src.items.Length, verify);
      ret := result.Combine(src);
      if ret == Ok {
        items, numItems, peak, copied := result.items, result.numItems, result.peak, result.copied;
      }
    }

    /** wally_map_clear also forgets the check. */
    method Clear()
      modifies this
      ensures Valid() && fresh(items) && List() == [] && items.Length == 0 && verify == None
    {
      items := new Item[0];
      numItems, verify, peak, copied := 0, None, 0, 0;
    }
  }
}
