/** What the item list (amavutils/itemlist.c) holds: data words, each with the address of a record. */
module Items {
  import opened Wrappers

  type Addr = nat

  datatype Item = Item(data: nat, ext: Addr)

  /** `itemlist_find_match_item`: the first item with this data. */
  function Find(list: seq<Item>, data: nat): Option<Addr> {
    if list == [] then None
    else if list[0].data == data then Some(list[0].ext)
    else Find(list[1..], data)
  }

  /** `itemlist_get_match_item`: the list without its first item with this data. */
  function Remove(list: seq<Item>, data: nat): seq<Item> {
    if list == [] then []
    else if list[0].data == data then list[1..]
    else [list[0]] + Remove(list[1..], data)
  }

  /** `itemlist_add_tail_data_ext` on a list that rejects data it has already. */
  function AddTail(list: seq<Item>, item: Item): seq<Item> {
    if Find(list, item.data).Some? then list else list + [item]
  }

  ghost predicate Keyed(list: seq<Item>) {
    forall i, j :: 0 <= i < j < |list| ==> list[i].data != list[j].data
  }

  lemma {:induction false} FindMember(list: seq<Item>, data: nat)
    ensures Find(list, data).Some? ==> Item(data, Find(list, data).value) in list
    ensures Find(list, data).None? ==> forall it :: it in list ==> it.data != data
    ensures Keyed(list) ==> forall it :: it in list && it.data == data ==> Find(list, data) == Some(it.ext)
  {
    if list != [] {
      FindMember(list[1..], data);
      assert forall it :: it in list <==> it == list[0] || it in list[1..];
    }
  }

  lemma {:induction false} RemoveMember(list: seq<Item>, data: nat)
    requires Keyed(list)
    ensures Keyed(Remove(list, data))
    ensures forall it :: it in Remove(list, data) <==> it in list && it.data != data
  {
    if list != [] {
      RemoveMember(list[1..], data);
      assert forall it :: it in list <==> it == list[0] || it in list[1..];
      if list[0].data != data {
        var rest := Remove(list[1..], data);
        assert forall i :: 0 <= i < |rest| ==> rest[i] in rest;
        assert forall it :: it in [list[0]] + rest <==> it == list[0] || it in rest;
      }
    }
  }

  lemma {:induction false} RemoveAbsent(list: seq<Item>, data: nat)
    requires Find(list, data).None?
    ensures Remove(list, data) == list
  {
    if list != [] {
      RemoveAbsent(list[1..], data);
    }
  }

  lemma AddTailMember(list: seq<Item>, item: Item)
    requires Keyed(list) && forall it :: it in list ==> it.data != item.data
    ensures AddTail(list, item) == list + [item] && Keyed(AddTail(list, item))
  {
    FindMember(list, item.data);
    assert forall i :: 0 <= i < |list| ==> list[i] in list;
  }

  /** The first item with this data decides both what is found and what is removed. */
  lemma {:induction false} FirstMatch(list: seq<Item>, data: nat, k: nat)
    requires k <= |list| && (forall i :: 0 <= i < k ==> list[i].data != data) && (k < |list| ==> list[k].data == data)
    ensures Find(list, data) == if k < |list| then Some(list[k].ext) else None
    ensures Remove(list, data) == if k < |list| then list[..k] + list[k + 1..] else list
  {
    if k > 0 {
      var rest := list[1..];
      FirstMatch(rest, data, k - 1);
      assert Find(list, data) == Find(rest, data);
      if k < |list| {
        assert rest[k - 1] == list[k];
        assert list[..k] + list[k + 1..] == [list[0]] + (rest[..k - 1] + rest[k..]);
      } else {
        assert list == [list[0]] + rest;
      }
    }
  }
}
