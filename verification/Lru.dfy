/** The LRU cache with its reverse index (common/cache/lru.go). */
module LruCache {
  import opened Basics

  // ---- the recency list it stands for ----

  /** Entries, most recently used first. */
  type Entries<K, V> = seq<(K, V)>

  function Keys<K, V>(es: Entries<K, V>): (r: seq<K>)
    ensures |r| == |es|
  {
    seq(|es|, i requires 0 <= i < |es| => es[i].0)
  }

  function Values<K, V>(es: Entries<K, V>): (r: seq<V>)
    ensures |r| == |es|
  {
    seq(|es|, i requires 0 <= i < |es| => es[i].1)
  }

  /** Position of x in s, or |s|. */
  function Index<T(==)>(s: seq<T>, x: T): (i: nat)
    ensures i <= |s| && (i < |s| ==> s[i] == x) && x !in s[..i]
  {
    if s == [] || s[0] == x then 0 else 1 + Index(s[1..], x)
  }

  lemma IndexFinds<T>(s: seq<T>, i: nat)
    requires i < |s| && NoDup(s)
    ensures Index(s, s[i]) == i
  {
    var j := Index(s, s[i]);
    if i < j { InPrefix(s, i, j); }
  }

  lemma IndexMisses<T>(s: seq<T>, x: T)
    requires x !in s
    ensures Index(s, x) == |s|
  {
  }

  function ToFront<T>(s: seq<T>, i: nat): seq<T>
    requires i < |s|
  {
    [s[i]] + s[..i] + s[i + 1..]
  }

  function GetSpec<K(==), V>(es: Entries<K, V>, key: K): (Option<V>, Entries<K, V>) {
    var i := Index(Keys(es), key);
    if i < |es| then (Some(es[i].1), ToFront(es, i)) else (None, es)
  }

  /** The same by value: what a reverse lookup should answer. */
  function GetKeySpec<K, V(==)>(es: Entries<K, V>, value: V): (Option<K>, Entries<K, V>) {
    var i := Index(Values(es), value);
    if i < |es| then (Some(es[i].0), ToFront(es, i)) else (None, es)
  }

  /** Put: refresh an entry in place, or push a new one and evict the oldest if that is one too many. */
  function PutSpec<K(==), V>(capacity: int, es: Entries<K, V>, key: K, value: V): Entries<K, V> {
    var i := Index(Keys(es), key);
    if i < |es| then [(key, value)] + es[..i] + es[i + 1..]
    else
      var grown := [(key, value)] + es;
      if |grown| > capacity then grown[..|grown| - 1] else grown
  }

  /**
   * The values that the value index knows after Put: it is not touched for a known key, and forgets the evicted
   * value.
   */
  function IndexedValues<K(==), V(==)>(capacity: int, es: Entries<K, V>, known: set<V>, key: K, value: V): set<V> {
    if Index(Keys(es), key) < |es| then known
    else
      var grown := [(key, value)] + es;
      if |grown| > capacity then known + {value} - {grown[|grown| - 1].1} else known + {value}
  }

  // ---- the cache ----

  /** Elements of the linked list are objects; `store` is their content, by identity. */
  type Id = nat
  type Store<K, V> = map<Id, (K, V)>

  function IdSet(list: seq<Id>): set<Id> {
    set e | e in list
  }

  ghost predicate Stored<K, V>(list: seq<Id>, store: Store<K, V>) {
    forall i :: 0 <= i < |list| ==> list[i] in store
  }

  ghost function EntriesOf<K, V>(list: seq<Id>, store: Store<K, V>): (es: Entries<K, V>)
    requires Stored(list, store)
    ensures |es| == |list|
  {
    seq(|list|, i requires 0 <= i < |list| => store[list[i]])
  }

  /** The key index is exactly that of the elements in the list. */
  ghost predicate KeyIndexed<K, V>(ids: set<Id>, store: Store<K, V>, km: map<K, Id>) {
    && (forall e :: e in ids ==> e in store && store[e].0 in km && km[store[e].0] == e)
    && (forall k :: k in km ==> km[k] in ids && store[km[k]].0 == k)
  }

  /** The value index is exactly their inverse. */
  ghost predicate ValueIndexed<K, V>(ids: set<Id>, store: Store<K, V>, vm: map<V, Id>) {
    && (forall e :: e in ids ==> e in store && store[e].1 in vm && vm[store[e].1] == e)
    && (forall v :: v in vm ==> vm[v] in ids && store[vm[v]].1 == v)
  }

  class Lru<K(==), V(==)> {
    const capacity: int
    var list: seq<Id>                                  // doubleLinkedlist, front first
    var store: Store<K, V>
    var keyToElement: map<K, Id>
    var valueToElement: map<V, Id>
    var next: Id                                       // identity of the next element made

    constructor (capacity: int)
      ensures Valid() && ReverseExact() && this.capacity == capacity
      ensures Entries() == [] && valueToElement == map[]
    {
      this.capacity := capacity;
      list, store, keyToElement, valueToElement, next := [], map[], map[], map[], 0;
    }

    ghost predicate Valid()
      reads this
    {
      Indexed() && (list == [] || |list| <= capacity)
    }

    /** Valid but for the number of entries. */
    ghost predicate Indexed()
      reads this
    {
      && NoDup(list) && KeyIndexed(IdSet(list), store, keyToElement)
      && (forall e :: e in store ==> e < next)
      && (forall v :: v in valueToElement ==> valueToElement[v] in store)
    }

    ghost predicate ReverseExact()
      reads this
    {
      ValueIndexed(IdSet(list), store, valueToElement)
    }

    ghost function Entries(): Entries<K, V>
      requires Valid()
      reads this
    {
      EntriesOf(list, store)
    }

    /** list.MoveToFront: no effect on an element that is no longer in the list. */
    method MoveToFront(e: Id)
      requires Valid()
      modifies this`list
      ensures Valid() && IdSet(list) == old(IdSet(list))
      ensures e !in old(list) ==> list == old(list)
      ensures e in old(list) ==>
        var i := Index(old(list), e);
        i < |old(list)| && Entries() == ToFront(old(Entries()), i)
    {
      hide ToFront, NoDup, KeyIndexed, EntriesOf;
      var i := Index(list, e);
      if i < |list| {
        FrontKeeps(list, i);
        FrontEntries(list, store, keyToElement, i);
        list := ToFront(list, i);
      }
    }

    method Get(key: K) returns (r: Option<V>)
      requires Valid()
      modifies this`list
      ensures Valid() && (old(ReverseExact()) ==> ReverseExact())
      ensures (r, Entries()) == GetSpec(old(Entries()), key)
    {
      KeyPosition(list, store, keyToElement, key);
      if key in keyToElement {
        var e := keyToElement[key];
        MoveToFront(e);
        return Some(store[e].1);
      }
      return None;
    }

    /**
     * A reverse lookup answers from the element the value index holds; with an exact index, as the recency list
     * would.
     */
    method GetKeyFromValue(value: V) returns (r: Option<K>)
      requires Valid()
      modifies this`list
      ensures Valid() && (old(ReverseExact()) ==> ReverseExact())
      ensures r == if value in valueToElement then Some(store[valueToElement[value]].0) else None
      ensures old(ReverseExact()) ==> (r, Entries()) == GetKeySpec(old(Entries()), value)
    {
      if ReverseExact() {
        ValuePosition(list, store, valueToElement, value);
      }
      if value in valueToElement {
        var e := valueToElement[value];
        MoveToFront(e);
        return Some(store[e].0);
      }
      return None;
    }

    /** Whether storing this pair keeps keys and values paired one to one. */
    ghost predicate Pairs(key: K, value: V)
      requires Valid()
      reads this
    {
      PairsWith(Entries(), key, value)
    }

    /**
     * Put refines the recency list. From an exact value index it leaves an exact one exactly when the key
     * keeps its value and the value is not already another key's.
     */
    method Put(key: K, value: V)
      requires Valid()
      modifies this
      ensures Valid() && Entries() == PutSpec(capacity, old(Entries()), key, value)
      ensures valueToElement.Keys == IndexedValues(capacity, old(Entries()), old(valueToElement.Keys), key, value)
      ensures old(ReverseExact()) ==> (ReverseExact() <==> old(Pairs(key, value)))
    {
      KeyPosition(list, store, keyToElement, key);
      if key in keyToElement {
        Refresh(keyToElement[key], key, value);
      } else {
        Push(key, value);
      }
    }

    /** Put on a key that is present: the element gets the new value, the value index is left as it was. */
    method Refresh(e: Id, key: K, value: V)
      requires Valid() && key in keyToElement && keyToElement[key] == e
      modifies this`list, this`store
      ensures Valid() && Entries() == PutSpec(capacity, old(Entries()), key, value)
      ensures valueToElement.Keys == IndexedValues(capacity, old(Entries()), old(valueToElement.Keys), key, value)
      ensures old(ReverseExact()) ==> (ReverseExact() <==> old(Pairs(key, value)))
    {
      hide KeyIndexed, ValueIndexed, Index, NoDup;
      KeyPosition(list, store, keyToElement, key);
      ghost var es, i := Entries(), Index(list, e);
      RefreshKeeps(list, store, keyToElement, key, value);
      if ReverseExact() {
        RefreshExact(list, store, valueToElement, keyToElement, key, value);
      }
      store := store[e := (key, value)];
      MoveToFront(e);
      assert Entries() == [(key, value)] + es[..i] + es[i + 1..];
    }

    /** Put on a new key: a new element in front, and the last one evicted when there are too many. */
    method Push(key: K, value: V)
      requires Valid() && key !in keyToElement
      modifies this
      ensures Valid() && Entries() == PutSpec(capacity, old(Entries()), key, value)
      ensures valueToElement.Keys == IndexedValues(capacity, old(Entries()), old(valueToElement.Keys), key, value)
      ensures old(ReverseExact()) ==> (ReverseExact() <==> old(Pairs(key, value)))
    {
      hide KeyIndexed, ValueIndexed, Index, NoDup, EntriesOf, PairsWith, PutSpec, IndexedValues;
      KeyPosition(list, store, keyToElement, key);
      PutNew(capacity, Entries(), valueToElement.Keys, key, value);
      PushFront(key, value);
      if |list| > capacity {
        Evict();
      }
    }

    /** A new element in front of the list and in both indexes. */
    method PushFront(key: K, value: V)
      requires Valid() && key !in keyToElement
      modifies this
      ensures Indexed() && |list| == |old(list)| + 1 && Stored(list, store)
      ensures EntriesOf(list, store) == [(key, value)] + old(Entries())
      ensures valueToElement.Keys == old(valueToElement.Keys) + {value}
      ensures old(ReverseExact()) ==> (ReverseExact() <==> old(Pairs(key, value)))
      ensures old(ReverseExact()) ==> (ExactWithoutBack(list, store, valueToElement) <==> old(Pairs(key, value)))
    {
      hide KeyIndexed, ValueIndexed, Index, NoDup, EntriesOf, PairsWith;
      PushKeeps(list, store, keyToElement, next, key, value);
      if ReverseExact() {
        KeyPosition(list, store, keyToElement, key);
        PushExact(list, store, keyToElement, valueToElement, next, key, value);
        DropExact(list, store, keyToElement, valueToElement, next, key, value);
      }
      var e := next;
      next := next + 1;
      store := store[e := (key, value)];
      list := [e] + list;
      keyToElement := keyToElement[key := e];
      valueToElement := valueToElement[value := e];
    }

    /** The last element leaves the list, its key and its value the indexes. */
    method Evict()
      requires Indexed() && list != [] && Stored(list, store)
      modifies this`list, this`keyToElement, this`valueToElement
      ensures Indexed() && |list| == |old(list)| - 1 && Stored(list, store)
      ensures EntriesOf(list, store) == EntriesOf(old(list), store)[..|list|]
      ensures valueToElement.Keys == old(valueToElement.Keys) - {EntriesOf(old(list), store)[|list|].1}
      ensures ReverseExact() <==> ExactWithoutBack(old(list), store, old(valueToElement))
    {
      hide KeyIndexed, ValueIndexed, NoDup, EntriesOf;
      DropKeeps(list, store, keyToElement);
      var back := list[|list| - 1];
      list := list[..|list| - 1];
      keyToElement := keyToElement - {store[back].0};
      valueToElement := valueToElement - {store[back].1};
    }
  }

  /** The value index would be exact after the last element is evicted. */
  ghost predicate ExactWithoutBack<K, V>(list: seq<Id>, store: Store<K, V>, vm: map<V, Id>)
    requires list != [] && Stored(list, store)
  {
    var n := |list| - 1;
    ValueIndexed(IdSet(list[..n]), store, vm - {store[list[n]].1})
  }

  lemma PutNew<K, V>(capacity: int, es: Entries<K, V>, known: set<V>, key: K, value: V)
    requires Index(Keys(es), key) == |es|
    ensures var grown := [(key, value)] + es; var over := |grown| > capacity;
            && PutSpec(capacity, es, key, value) == (if over then grown[..|es|] else grown)
            && IndexedValues(capacity, es, known, key, value)
               == known + {value} - (if over then {grown[|es|].1} else {})
  {
  }

  /** Keys and values stay one to one when this pair is stored. */
  ghost predicate PairsWith<K, V>(es: Entries<K, V>, key: K, value: V) {
    forall i :: 0 <= i < |es| ==> (es[i].0 == key <==> es[i].1 == value)
  }

  lemma IndexUnique(list: seq<Id>, i: nat)
    requires NoDup(list) && i < |list|
    ensures forall j :: 0 <= j < |list| && j != i ==> list[j] != list[i]
  {
  }

  lemma FrontAt<T>(s: seq<T>, i: nat)
    requires i < |s|
    ensures |ToFront(s, i)| == |s|
    ensures forall j :: 0 <= j < |s| ==> ToFront(s, i)[j] == if j == 0 then s[i] else if j <= i then s[j - 1] else s[j]
  {
  }

  /** Moving to the front keeps the elements, and no two become equal. */
  lemma FrontKeeps<T>(s: seq<T>, i: nat)
    requires i < |s| && NoDup(s)
    ensures NoDup(ToFront(s, i)) && forall x :: x in ToFront(s, i) <==> x in s
  {
    var t := ToFront(s, i);
    assert forall j :: 0 <= j < |t| ==> t[j] == if j == 0 then s[i] else if j <= i then s[j - 1] else s[j];
    forall x | x in s ensures x in t {
      var j :| 0 <= j < |s| && s[j] == x;
      assert t[if j == i then 0 else if j < i then j + 1 else j] == x;
    }
  }

  lemma FrontEntries<K, V>(list: seq<Id>, store: Store<K, V>, km: map<K, Id>, i: nat)
    requires i < |list| && KeyIndexed(IdSet(list), store, km) && NoDup(list)
    ensures Stored(list, store) && Stored(ToFront(list, i), store) && IdSet(ToFront(list, i)) == IdSet(list)
    ensures EntriesOf(ToFront(list, i), store) == ToFront(EntriesOf(list, store), i) && |ToFront(list, i)| == |list|
  {
    IndexedStored(list, store, km);
    FrontKeeps(list, i);
    hide KeyIndexed, NoDup;
    FrontStored(list, store, i);
  }

  lemma FrontStored<K, V>(list: seq<Id>, store: Store<K, V>, i: nat)
    requires i < |list| && Stored(list, store)
    ensures |ToFront(list, i)| == |list| && Stored(ToFront(list, i), store)
    ensures EntriesOf(ToFront(list, i), store) == ToFront(EntriesOf(list, store), i)
  {
    FrontAt(list, i);
    FrontAt(EntriesOf(list, store), i);
  }

  lemma IndexedStored<K, V>(list: seq<Id>, store: Store<K, V>, km: map<K, Id>)
    requires KeyIndexed(IdSet(list), store, km)
    ensures Stored(list, store)
    ensures forall i :: 0 <= i < |list| ==> store[list[i]].0 in km && km[store[list[i]].0] == list[i]
  {
    assert forall i :: 0 <= i < |list| ==> list[i] in IdSet(list);
  }

  /** Looking a key up in the index finds the first, and only, entry with that key. */
  lemma KeyPosition<K, V>(list: seq<Id>, store: Store<K, V>, km: map<K, Id>, key: K)
    requires NoDup(list) && KeyIndexed(IdSet(list), store, km)
    ensures Stored(list, store)
    ensures key in km ==> km[key] in list && Index(list, km[key]) < |list|
    ensures key in km ==> Index(Keys(EntriesOf(list, store)), key) == Index(list, km[key])
    ensures key !in km ==> Index(Keys(EntriesOf(list, store)), key) == |list|
  {
    IndexedStored(list, store, km);
    var ks := Keys(EntriesOf(list, store));
    if key in km {
      var i :| 0 <= i < |list| && list[i] == km[key];
      hide KeyIndexed, Index;
      IndexFinds(list, i);
      forall a, b | 0 <= a < b < |ks| ensures ks[a] != ks[b] {
        assert km[ks[a]] == list[a] && km[ks[b]] == list[b];
      }
      IndexFinds(ks, i);
    } else {
      IndexMisses(ks, key);
    }
  }

  lemma ValuePosition<K, V>(list: seq<Id>, store: Store<K, V>, vm: map<V, Id>, value: V)
    requires NoDup(list) && ValueIndexed(IdSet(list), store, vm)
    ensures Stored(list, store)
    ensures value in vm ==> vm[value] in list && Index(list, vm[value]) < |list|
    ensures value in vm ==> Index(Values(EntriesOf(list, store)), value) == Index(list, vm[value])
    ensures value !in vm ==> Index(Values(EntriesOf(list, store)), value) == |list|
  {
    ValuesStored(list, store, vm);
    var vs := Values(EntriesOf(list, store));
    if value in vm {
      var i :| 0 <= i < |list| && list[i] == vm[value];
      hide ValueIndexed, Index;
      IndexFinds(list, i);
      forall a, b | 0 <= a < b < |vs| ensures vs[a] != vs[b] {
        assert vm[vs[a]] == list[a] && vm[vs[b]] == list[b];
      }
      IndexFinds(vs, i);
    } else {
      IndexMisses(vs, value);
    }
  }

  lemma ValuesStored<K, V>(list: seq<Id>, store: Store<K, V>, vm: map<V, Id>)
    requires ValueIndexed(IdSet(list), store, vm)
    ensures Stored(list, store)
    ensures forall i :: 0 <= i < |list| ==> store[list[i]].1 in vm && vm[store[list[i]].1] == list[i]
  {
    assert forall i :: 0 <= i < |list| ==> list[i] in IdSet(list);
  }

  lemma RefreshExact<K, V>(list: seq<Id>, store: Store<K, V>, vm: map<V, Id>, km: map<K, Id>, key: K, value: V)
    requires Stored(list, store) && KeyIndexed(IdSet(list), store, km) && ValueIndexed(IdSet(list), store, vm)
        && key in km
    ensures ValueIndexed(IdSet(list), store[km[key] := (key, value)], vm) <==>
        PairsWith(EntriesOf(list, store), key, value)
  {
    var e, es := km[key], EntriesOf(list, store);
    var i :| 0 <= i < |list| && list[i] == e;
    assert es[i] == store[e];
    assert forall j :: 0 <= j < |list| ==> list[j] in IdSet(list) && es[j] == store[list[j]];
  }

  lemma RefreshKeeps<K, V>(list: seq<Id>, store: Store<K, V>, km: map<K, Id>, key: K, value: V)
    requires NoDup(list) && KeyIndexed(IdSet(list), store, km) && key in km
    ensures var store' := store[km[key] := (key, value)]; var i := Index(list, km[key]);
            && KeyIndexed(IdSet(list), store', km) && Stored(list, store) && Stored(list, store')
            && i < |list| && EntriesOf(list, store') == EntriesOf(list, store)[i := (key, value)]
  {
    hide Index, Keys, NoDup, KeyIndexed;
    KeyPosition(list, store, km, key);
    var i := Index(list, km[key]);
    assert list[i] == km[key];
    RefreshIndexed(IdSet(list), store, km, key, value);
    RefreshEntries(list, store, i, (key, value));
  }

  lemma RefreshIndexed<K, V>(ids: set<Id>, store: Store<K, V>, km: map<K, Id>, key: K, value: V)
    requires KeyIndexed(ids, store, km) && key in km
    ensures KeyIndexed(ids, store[km[key] := (key, value)], km)
  {
  }

  lemma RefreshEntries<K, V>(list: seq<Id>, store: Store<K, V>, i: nat, entry: (K, V))
    requires NoDup(list) && Stored(list, store) && i < |list|
    ensures Stored(list, store[list[i] := entry])
    ensures EntriesOf(list, store[list[i] := entry]) == EntriesOf(list, store)[i := entry]
  {
    IndexUnique(list, i);
    hide NoDup;
  }

  /** The list with a new element in front, fully indexed. */
  lemma PushKeeps<K, V>(list: seq<Id>, store: Store<K, V>, km: map<K, Id>, e: Id, key: K, value: V)
    requires NoDup(list) && KeyIndexed(IdSet(list), store, km) && key !in km && e !in store
    ensures var store' := store[e := (key, value)];
            && NoDup([e] + list) && KeyIndexed(IdSet([e] + list), store', km[key := e])
            && Stored(list, store) && Stored([e] + list, store')
            && EntriesOf([e] + list, store') == [(key, value)] + EntriesOf(list, store)
  {
    assert forall i :: 0 <= i < |list| ==> list[i] in IdSet(list);
    assert IdSet([e] + list) == {e} + IdSet(list);
  }

  lemma PushExact<K, V>(list: seq<Id>, store: Store<K, V>, km: map<K, Id>, vm: map<V, Id>, e: Id, key: K, value: V)
    requires Stored(list, store) && KeyIndexed(IdSet(list), store, km) && key !in km && e !in store
    requires ValueIndexed(IdSet(list), store, vm)
    ensures ValueIndexed(IdSet([e] + list), store[e := (key, value)], vm[value := e]) <==>
        PairsWith(EntriesOf(list, store), key, value)
  {
    var es := EntriesOf(list, store);
    assert IdSet([e] + list) == {e} + IdSet(list);
    assert forall i :: 0 <= i < |list| ==> list[i] in IdSet(list) && es[i] == store[list[i]] && es[i].0 != key;
    if value in vm {
      var i :| 0 <= i < |list| && list[i] == vm[value];
      assert es[i].1 == value;
    }
  }

  /** Evicting the last element keeps the key index exact. */
  lemma DropKeeps<K, V>(list: seq<Id>, store: Store<K, V>, km: map<K, Id>)
    requires list != [] && NoDup(list) && KeyIndexed(IdSet(list), store, km)
    ensures var init, back := list[..|list| - 1], list[|list| - 1];
            && back in store && NoDup(init) && KeyIndexed(IdSet(init), store, km - {store[back].0})
            && Stored(list, store) && Stored(init, store)
                && EntriesOf(init, store) == EntriesOf(list, store)[..|list| - 1]
            && EntriesOf(list, store)[|list| - 1] == store[back]
  {
    var init, back := list[..|list| - 1], list[|list| - 1];
    assert list == init + [back];
    assert forall i :: 0 <= i < |list| ==> list[i] in IdSet(list);
    assert IdSet(init) == IdSet(list) - {back};
  }

  /** The value index after a push and an eviction is exact under the same condition as after the push alone. */
  lemma DropExact<K, V>(list: seq<Id>, store: Store<K, V>, km: map<K, Id>, vm: map<V, Id>, e: Id, key: K, value: V)
    requires NoDup(list) && Stored(list, store) && KeyIndexed(IdSet(list), store, km) && key !in km && e !in store
    requires ValueIndexed(IdSet(list), store, vm)
    ensures var grown, store' := [e] + list, store[e := (key, value)];
            var back := grown[|grown| - 1];
            back in store' &&
            (ValueIndexed(IdSet(grown[..|grown| - 1]), store', vm[value := e] - {store'[back].1}) <==>
              PairsWith(EntriesOf(list, store), key, value))
  {
    var grown, store' := [e] + list, store[e := (key, value)];
    var back, init := grown[|grown| - 1], grown[..|grown| - 1];
    PairsIffNew(list, store, km, vm, key, value);
    hide PairsWith, KeyIndexed, NoDup;
    if list == [] {
      assert init == [] && IdSet(list) == {};
    } else {
      assert back == list[|list| - 1] && back in IdSet(list) && init == [e] + list[..|list| - 1];
      assert list == list[..|list| - 1] + [back];
      assert IdSet(init) == {e} + (IdSet(list) - {back}) by { DropIds(list); }
      SetDropExact(IdSet(list), store, vm, e, key, value, back);
    }
  }

  lemma DropIds(list: seq<Id>)
    requires list != [] && NoDup(list)
    ensures IdSet(list[..|list| - 1]) == IdSet(list) - {list[|list| - 1]}
  {
    assert list == list[..|list| - 1] + [list[|list| - 1]];
  }

  /** A new key keeps the pairing exactly when the value is new too. */
  lemma PairsIffNew<K, V>(list: seq<Id>, store: Store<K, V>, km: map<K, Id>, vm: map<V, Id>, key: K, value: V)
    requires Stored(list, store) && KeyIndexed(IdSet(list), store, km) && key !in km
        && ValueIndexed(IdSet(list), store, vm)
    ensures PairsWith(EntriesOf(list, store), key, value) <==> value !in vm
  {
    var es := EntriesOf(list, store);
    IndexedStored(list, store, km);
    ValuesStored(list, store, vm);
    if value in vm {
      var i :| 0 <= i < |list| && list[i] == vm[value];
      assert es[i].1 == value && es[i].0 != key;
    }
  }

  lemma SetDropExact<K, V>(ids: set<Id>, store: Store<K, V>, vm: map<V, Id>, e: Id, key: K, value: V, back: Id)
    requires ValueIndexed(ids, store, vm) && e !in store && back in ids
    ensures ValueIndexed({e} + (ids - {back}), store[e := (key, value)], vm[value := e] - {store[back].1}) <==>
        value !in vm
  {
    var vm' := vm[value := e] - {store[back].1};
    if value in vm {
      if vm[value] == back {
        assert value !in vm';
      } else {
        assert vm[value] in ids - {back} && vm'[value] == e;
      }
    }
  }
}
