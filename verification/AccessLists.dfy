/** Transaction access lists (section "Specification" of EIP-2930): flattening to numbers, and merging per address. */
module AccessLists {
  import opened Wrappers
  import Uint256

  /** Addresses and keys are hexadecimal text, as transactions carry them. */
  datatype Access = Access(address: string, storageKeys: seq<string>)

  /** `int(text, 16)` and the Pedersen storage address are library functions. */
  type Parse = string -> nat
  type Slot = (nat, nat) -> nat

  /** An entry as numbers. */
  datatype Entry = Entry(address: nat, keys: seq<nat>)

  // Flattening.

  function FlatKeys(keys: seq<string>, parse: Parse): (flat: seq<nat>)
    ensures |flat| == 2 * |keys|
  {
    if keys == [] then []
    else
      var (low, high) := Uint256.IntToUint256(parse(keys[|keys| - 1]));
      FlatKeys(keys[..|keys| - 1], parse) + [low, high]
  }

  function FlatAccess(access: Access, parse: Parse): seq<nat> {
    [parse(access.address), |access.storageKeys|] + FlatKeys(access.storageKeys, parse)
  }

  function Flat(accessList: seq<Access>, parse: Parse): seq<nat> {
    if accessList == [] then []
    else Flat(accessList[..|accessList| - 1], parse) + FlatAccess(accessList[|accessList| - 1], parse)
  }

  method FlattenTxAccessList(accessList: seq<Access>, parse: Parse) returns (result: seq<nat>)
    ensures result == Flat(accessList, parse)
  {
    result := [];
    for i := 0 to |accessList|
      invariant result == Flat(accessList[..i], parse)
    {
      var item := accessList[i];
      ghost var before := result;
      result := result + [parse(item.address)];
      result := result + [|item.storageKeys|];
      for j := 0 to |item.storageKeys|
        invariant result == before
            + ([parse(item.address), |item.storageKeys|] + FlatKeys(item.storageKeys[..j], parse))
      {
        var (low, high) := Uint256.IntToUint256(parse(item.storageKeys[j]));
        assert item.storageKeys[..j + 1][..j] == item.storageKeys[..j];
        result := result + [low, high];
      }
      assert item.storageKeys[..|item.storageKeys|] == item.storageKeys;
      assert accessList[..i + 1][..i] == accessList[..i];
    }
    assert accessList[..|accessList|] == accessList;
  }

  function Numbers(keys: seq<string>, parse: Parse): (numbers: seq<nat>)
    ensures |numbers| == |keys|
  {
    if keys == [] then [] else Numbers(keys[..|keys| - 1], parse) + [parse(keys[|keys| - 1])]
  }

  function Parsed(accessList: seq<Access>, parse: Parse): seq<Entry> {
    if accessList == [] then []
    else
      var last := accessList[|accessList| - 1];
      Parsed(accessList[..|accessList| - 1], parse) + [Entry(parse(last.address), Numbers(last.storageKeys, parse))]
  }

  /** The reader of the flat form: an address, a count, and that many low/high pairs. */
  function Keys(flat: seq<nat>): seq<nat>
    requires |flat| % 2 == 0
  {
    if flat == [] then []
    else Keys(flat[..|flat| - 2]) + [Uint256.Uint256ToInt(flat[|flat| - 2], flat[|flat| - 1])]
  }

  function Unflat(flat: seq<nat>): Option<seq<Entry>> {
    if flat == [] then Some([])
    else if |flat| < 2 || |flat| < 2 + 2 * flat[1] then None
    else
      var end := 2 + 2 * flat[1];
      match Unflat(flat[end..])
      case None => None
      case Some(rest) => Some([Entry(flat[0], Keys(flat[2..end]))] + rest)
  }

  lemma {:induction false} KeysRoundTrip(keys: seq<string>, parse: Parse)
    ensures Keys(FlatKeys(keys, parse)) == Numbers(keys, parse)
  {
    if keys != [] {
      var init := keys[..|keys| - 1];
      KeysRoundTrip(init, parse);
      Uint256.SplitRoundTrip(parse(keys[|keys| - 1]));
      var flat := FlatKeys(keys, parse);
      assert flat[..|flat| - 2] == FlatKeys(init, parse);
    }
  }

  lemma {:induction false} UnflatAccess(access: Access, parse: Parse, rest: seq<nat>)
    ensures Unflat(FlatAccess(access, parse) + rest) == match Unflat(rest) {
      case None => None
      case Some(entries) => Some([Entry(parse(access.address), Numbers(access.storageKeys, parse))] + entries)
    }
  {
    var flat := FlatAccess(access, parse) + rest;
    var end := 2 + 2 * |access.storageKeys|;
    assert flat[end..] == rest && flat[2..end] == FlatKeys(access.storageKeys, parse);
    KeysRoundTrip(access.storageKeys, parse);
  }

  lemma {:induction false} UnflatAll(accessList: seq<Access>, parse: Parse, rest: seq<nat>)
    ensures Unflat(Flat(accessList, parse) + rest) == match Unflat(rest) {
      case None => None
      case Some(entries) => Some(Parsed(accessList, parse) + entries)
    }
  {
    if accessList == [] {
      assert [] + rest == rest;
      if Unflat(rest).Some? {
        assert [] + Unflat(rest).value == Unflat(rest).value;
      }
    } else {
      var init, last := accessList[..|accessList| - 1], accessList[|accessList| - 1];
      assert Flat(accessList, parse) + rest == Flat(init, parse) + (FlatAccess(last, parse) + rest);
      UnflatAll(init, parse, FlatAccess(last, parse) + rest);
      UnflatAccess(last, parse, rest);
      if Unflat(rest).Some? {
        var entry := Entry(parse(last.address), Numbers(last.storageKeys, parse));
        assert Parsed(init, parse) + ([entry] + Unflat(rest).value)
            == Parsed(init, parse) + [entry] + Unflat(rest).value;
      }
    }
  }

  /** An entry is its address, the number of its keys, and each key as its low and its high 128 bits. */
  lemma {:induction false} FlatAccessAt(access: Access, parse: Parse, i: nat)
    requires i < |access.storageKeys|
    ensures var flat, key := FlatAccess(access, parse), parse(access.storageKeys[i]);
      && |flat| == 2 + 2 * |access.storageKeys|
      && flat[0] == parse(access.address) && flat[1] == |access.storageKeys|
      && flat[2 + 2 * i] == key % Uint256.TWO_128 && flat[3 + 2 * i] == key / Uint256.TWO_128
  {
    FlatKeyAt(access.storageKeys, parse, i);
  }

  lemma {:induction false} FlatKeyAt(keys: seq<string>, parse: Parse, i: nat)
    requires i < |keys|
    ensures FlatKeys(keys, parse)[2 * i] == parse(keys[i]) % Uint256.TWO_128
    ensures FlatKeys(keys, parse)[2 * i + 1] == parse(keys[i]) / Uint256.TWO_128
  {
    if i < |keys| - 1 {
      FlatKeyAt(keys[..|keys| - 1], parse, i);
    }
  }

  lemma {:induction false} ParsedAt(accessList: seq<Access>, parse: Parse, i: nat)
    requires i < |accessList|
    ensures |Parsed(accessList, parse)| == |accessList|
    ensures Parsed(accessList, parse)[i].address == parse(accessList[i].address)
    ensures Parsed(accessList, parse)[i].keys == Numbers(accessList[i].storageKeys, parse)
  {
    var init := accessList[..|accessList| - 1];
    if init != [] {
      ParsedAt(init, parse, if i < |init| then i else 0);
    }
  }

  lemma {:induction false} NumbersAt(keys: seq<string>, parse: Parse, i: nat)
    requires i < |keys|
    ensures Numbers(keys, parse)[i] == parse(keys[i])
  {
    if i < |keys| - 1 {
      NumbersAt(keys[..|keys| - 1], parse, i);
    }
  }

  /** The flat form is decodable, for lists of any shape: it gives back every address and every key. */
  lemma {:induction false} FlatListIsDecodable(accessList: seq<Access>, parse: Parse)
    ensures Unflat(Flat(accessList, parse)) == Some(Parsed(accessList, parse))
  {
    UnflatAll(accessList, parse, []);
    assert Flat(accessList, parse) + [] == Flat(accessList, parse);
    assert Parsed(accessList, parse) + [] == Parsed(accessList, parse);
  }

  // Merging.

  function SlotOf(key: string, parse: Parse, slot: Slot): nat {
    var (low, high) := Uint256.IntToUint256(parse(key));
    slot(low, high)
  }

  function Slots(keys: seq<string>, parse: Parse, slot: Slot): set<nat> {
    set key | key in keys :: SlotOf(key, parse, slot)
  }

  /** One pass over the list; entries are keyed by the text of the address. */
  function Merged(accessList: seq<Access>, parse: Parse, slot: Slot): map<string, set<nat>> {
    if accessList == [] then map[]
    else
      var merged, last := Merged(accessList[..|accessList| - 1], parse, slot), accessList[|accessList| - 1];
      merged[last.address := SlotsAt(merged, last.address) + Slots(last.storageKeys, parse, slot)]
  }

  /** A defaultdict of sets. */
  function SlotsAt(merged: map<string, set<nat>>, address: string): set<nat> {
    if address in merged then merged[address] else {}
  }

  method MergeAccessList(accessList: seq<Access>, parse: Parse, slot: Slot) returns (merged: map<string, set<nat>>)
    ensures merged == Merged(accessList, parse, slot)
  {
    merged := map[];
    for i := 0 to |accessList|
      invariant merged == Merged(accessList[..i], parse, slot)
    {
      var access := accessList[i];
      assert accessList[..i + 1][..i] == accessList[..i];
      merged := merged[access.address := SlotsAt(merged, access.address) + Slots(access.storageKeys, parse, slot)];
    }
    assert accessList[..|accessList|] == accessList;
  }

  /** The address is listed. */
  ghost predicate Lists(accessList: seq<Access>, address: string) {
    exists i :: 0 <= i < |accessList| && accessList[i].address == address
  }

  /** Some entry of the address lists the key. */
  ghost predicate ListsKey(accessList: seq<Access>, address: string, key: string) {
    exists i :: 0 <= i < |accessList| && accessList[i].address == address && key in accessList[i].storageKeys
  }

  lemma {:induction false} ListsSnoc(init: seq<Access>, last: Access, address: string, key: string)
    ensures Lists(init + [last], address) <==> Lists(init, address) || last.address == address
    ensures ListsKey(init + [last], address, key)
        <==> ListsKey(init, address, key) || (last.address == address && key in last.storageKeys)
  {
    var all := init + [last];
    assert all[|init|] == last;
    assert forall i :: 0 <= i < |init| ==> all[i] == init[i];
  }

  /** Merging gives, for every listed address and no other, the union of the mapped keys of all its entries. */
  lemma {:induction false} MergeIsUnion(accessList: seq<Access>, parse: Parse, slot: Slot, address: string, value: nat)
    ensures address in Merged(accessList, parse, slot) <==> Lists(accessList, address)
    ensures value in SlotsAt(Merged(accessList, parse, slot), address)
       <==> exists key :: ListsKey(accessList, address, key)
              && slot(parse(key) % Uint256.TWO_128, parse(key) / Uint256.TWO_128) == value
  {
    if accessList != [] {
      var init, last := accessList[..|accessList| - 1], accessList[|accessList| - 1];
      assert accessList == init + [last];
      MergeIsUnion(init, parse, slot, address, value);
      forall key {
        ListsSnoc(init, last, address, key);
      }
      ListsSnoc(init, last, address, "");
      if last.address == address && value in Slots(last.storageKeys, parse, slot) {
        var key :| key in last.storageKeys && SlotOf(key, parse, slot) == value;
        assert ListsKey(accessList, address, key);
      }
    }
  }

  /** Two lists with the same addresses and the same pairs of address and key merge to the same map. */
  ghost predicate SamePairs(a: seq<Access>, b: seq<Access>) {
    && (forall address :: Lists(a, address) <==> Lists(b, address))
    && (forall address, key :: ListsKey(a, address, key) <==> ListsKey(b, address, key))
  }

  /** So reordering, repeating, splitting or joining entries does not matter. */
  lemma {:induction false} MergeDependsOnPairsOnly(a: seq<Access>, b: seq<Access>, parse: Parse, slot: Slot)
    requires SamePairs(a, b)
    ensures Merged(a, parse, slot) == Merged(b, parse, slot)
  {
    var ma, mb := Merged(a, parse, slot), Merged(b, parse, slot);
    forall address
      ensures address in ma <==> address in mb
    {
      MergeIsUnion(a, parse, slot, address, 0);
      MergeIsUnion(b, parse, slot, address, 0);
    }
    forall address, value: nat
      ensures value in SlotsAt(ma, address) <==> value in SlotsAt(mb, address)
    {
      MergeIsUnion(a, parse, slot, address, value);
      MergeIsUnion(b, parse, slot, address, value);
    }
    assert ma.Keys == mb.Keys;
    forall address | address in ma
      ensures ma[address] == mb[address]
    {
      assert SlotsAt(ma, address) == SlotsAt(mb, address);
    }
  }

  lemma {:induction false} ReorderingKeepsPairs(a: seq<Access>, b: seq<Access>)
    requires multiset(a) == multiset(b)
    ensures SamePairs(a, b)
  {
    EntriesCarryOver(a, b);
    EntriesCarryOver(b, a);
  }

  lemma {:induction false} EntriesCarryOver(a: seq<Access>, b: seq<Access>)
    requires multiset(a) == multiset(b)
    ensures forall address :: Lists(a, address) ==> Lists(b, address)
    ensures forall address, key :: ListsKey(a, address, key) ==> ListsKey(b, address, key)
  {
    forall i | 0 <= i < |a|
      ensures exists j :: 0 <= j < |b| && b[j] == a[i]
    {
      assert a[i] in multiset(a);
      assert a[i] in b;
    }
  }

  lemma {:induction false} RepeatingKeepsPairs(a: seq<Access>, i: nat)
    requires i < |a|
    ensures SamePairs(a, a + [a[i]])
  {
    forall address, key {
      ListsSnoc(a, a[i], address, key);
    }
    forall address {
      ListsSnoc(a, a[i], address, "");
    }
  }

  lemma {:induction false} SplittingKeepsPairs(a: seq<Access>, address: string, front: seq<string>, back: seq<string>)
    ensures SamePairs(a + [Access(address, front + back)], a + [Access(address, front), Access(address, back)])
  {
    var whole, split := a + [Access(address, front + back)], a + [Access(address, front), Access(address, back)];
    forall of
      ensures Lists(whole, of) <==> Lists(split, of)
    {
      SplitPair(a, address, front, back, of, "");
    }
    forall of, key
      ensures ListsKey(whole, of, key) <==> ListsKey(split, of, key)
    {
      SplitPair(a, address, front, back, of, key);
    }
  }

  lemma {:induction false} SplitPair(a: seq<Access>, address: string, front: seq<string>, back: seq<string>,
          of: string, key: string)
    ensures var whole := a + [Access(address, front + back)];
      var split := a + [Access(address, front), Access(address, back)];
      (Lists(whole, of) <==> Lists(split, of)) && (ListsKey(whole, of, key) <==> ListsKey(split, of, key))
  {
    var first, second := Access(address, front), Access(address, back);
    assert a + [first, second] == a + [first] + [second];
    ListsSnoc(a, Access(address, front + back), of, key);
    ListsSnoc(a, first, of, key);
    ListsSnoc(a + [first], second, of, key);
  }

  /** Merging is invariant under reordering, repeating and splitting entries. */
  lemma {:induction false} MergeInvariance(a: seq<Access>, b: seq<Access>, i: nat, address: string, front: seq<string>,
          back: seq<string>, parse: Parse, slot: Slot)
    requires multiset(a) == multiset(b) && i < |a|
    ensures Merged(a, parse, slot) == Merged(b, parse, slot)
    ensures Merged(a, parse, slot) == Merged(a + [a[i]], parse, slot)
    ensures Merged(a + [Access(address, front + back)], parse, slot)
         == Merged(a + [Access(address, front), Access(address, back)], parse, slot)
  {
    ReorderingKeepsPairs(a, b);
    RepeatingKeepsPairs(a, i);
    SplittingKeepsPairs(a, address, front, back);
    MergeDependsOnPairsOnly(a, b, parse, slot);
    MergeDependsOnPairsOnly(a, a + [a[i]], parse, slot);
    MergeDependsOnPairsOnly(a + [Access(address, front + back)], a + [Access(address, front), Access(address, back)],
        parse, slot);
  }

  /** No two keys of the map spell one address. */
  ghost predicate OneEntryEach(merged: map<string, set<nat>>, parse: Parse) {
    forall x, y :: x in merged && y in merged && parse(x) == parse(y) ==> x == y
  }

  /** No two entries spell the address of one account differently. */
  ghost predicate SpelledOneWay(accessList: seq<Access>, parse: Parse) {
    forall i, j :: 0 <= i < |accessList| && 0 <= j < |accessList| ==>
      parse(accessList[i].address) == parse(accessList[j].address) ==> accessList[i].address == accessList[j].address
  }

  /** Addresses are compared as text: an account has a single merged entry exactly when it is spelled in one way. */
  lemma {:induction false} OneEntryPerAccount(accessList: seq<Access>, parse: Parse, slot: Slot)
    ensures OneEntryEach(Merged(accessList, parse, slot), parse) <==> SpelledOneWay(accessList, parse)
  {
    forall address
      ensures address in Merged(accessList, parse, slot) <==> Lists(accessList, address)
    {
      MergeIsUnion(accessList, parse, slot, address, 0);
    }
    if OneEntryEach(Merged(accessList, parse, slot), parse) {
      forall i, j | 0 <= i < |accessList| && 0 <= j < |accessList|
        ensures parse(accessList[i].address) == parse(accessList[j].address) ==>
          accessList[i].address == accessList[j].address
      {
        assert Lists(accessList, accessList[i].address) && Lists(accessList, accessList[j].address);
      }
    }
  }
}
