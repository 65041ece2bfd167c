/** The indexes a collection keeps beside its store: the spatial index, the value tree and the counter of
    geometries, and how each of them stands after any run of changes. */
module Indexes {
  import opened Bytes
  import opened Objects
  import opened Rtree
  import opened RtreeRemove
  import opened Dataset

  type Items = map<Str, Object>
  type ValueTree = map<(Str, Str), ItemT>   // ordered by (String(), id)

  datatype ItemT = ItemT(id: Str, obj: Object)

  function BoxOf(o: Object): Box {
    Box(o.rect.min, o.rect.max)
  }

  // ----- the indexes

  /** The entry of an item in the spatial index. */
  function EntryOf(id: Str, o: Object): Entry<ItemT> {
    Entry(BoxOf(o), ItemT(id, o))
  }

  predicate LiveIn(items: Items, i: ItemT) {
    i.id in items && items[i.id] == i.obj
  }

  ghost predicate IndexAgrees(items: Items, bag: multiset<Entry<ItemT>>) {
    forall e :: bag[e] == if LiveIn(items, e.item) && e.item.obj.geometry && e.box == BoxOf(e.item.obj) then 1 else 0
  }

  ghost predicate ValuesAgree(items: Items, values: ValueTree) {
    && (forall k :: k in values ==> values[k].id == k.1 && values[k].obj.text == k.0
                                    && LiveIn(items, values[k]) && !values[k].obj.geometry)
    && (forall id :: id in items && !items[id].geometry ==> (items[id].text, id) in values)
  }

  ghost function Geometries(items: Items): set<Str> {
    set id | id in items && items[id].geometry
  }

  lemma IndexIsDistinct(items: Items, bag: multiset<Entry<ItemT>>)
    requires IndexAgrees(items, bag)
    ensures Distinct(bag)
  {
    forall e, f | e in bag && f in bag && e.item == f.item ensures e == f && bag[e] == 1 {
      assert bag[e] == 1 && bag[f] == 1;
    }
  }

  /** A string is nowhere in the index, a live geometry is in it. */
  lemma InIndex(items: Items, bag: multiset<Entry<ItemT>>, id: Str)
    requires IndexAgrees(items, bag) && id in items
    ensures items[id].geometry ==> EntryOf(id, items[id]) in bag
    ensures !items[id].geometry ==> forall e :: e in bag ==> e.item != ItemT(id, items[id])
  {
    var e := EntryOf(id, items[id]);
    assert items[id].geometry ==> bag[e] == 1;
    forall f | f in bag && f.item == ItemT(id, items[id]) ensures items[id].geometry { assert bag[f] > 0; }
  }

  /** A removed geometry leaves the index exact; a removed string does not concern it. */
  lemma IndexAfterRemove(items: Items, bag: multiset<Entry<ItemT>>, id: Str)
    requires IndexAgrees(items, bag) && id in items
    ensures IndexAgrees(items - {id}, if items[id].geometry then bag - multiset{EntryOf(id, items[id])} else bag)
  {
    InIndex(items, bag, id);
    var b := if items[id].geometry then bag - multiset{EntryOf(id, items[id])} else bag;
    var rest := items - {id};
    forall e
      ensures b[e] == if LiveIn(rest, e.item) && e.item.obj.geometry && e.box == BoxOf(e.item.obj) then 1 else 0
    {
      assert bag[e] == if LiveIn(items, e.item) && e.item.obj.geometry && e.box == BoxOf(e.item.obj) then 1 else 0;
    }
  }

  lemma IndexAfterInsert(items: Items, bag: multiset<Entry<ItemT>>, id: Str, o: Object)
    requires IndexAgrees(items, bag) && id !in items
    ensures IndexAgrees(items[id := o], if o.geometry then bag + multiset{EntryOf(id, o)} else bag)
  {
    var b := if o.geometry then bag + multiset{EntryOf(id, o)} else bag;
    var more := items[id := o];
    forall e
      ensures b[e] == if LiveIn(more, e.item) && e.item.obj.geometry && e.box == BoxOf(e.item.obj) then 1 else 0
    {
      assert bag[e] == if LiveIn(items, e.item) && e.item.obj.geometry && e.box == BoxOf(e.item.obj) then 1 else 0;
    }
  }

  lemma ValuesAfterRemove(items: Items, values: ValueTree, id: Str)
    requires ValuesAgree(items, values) && id in items
    ensures ValuesAgree(items - {id}, if items[id].geometry then values else values - {(items[id].text, id)})
  {}

  lemma ValuesAfterInsert(items: Items, values: ValueTree, id: Str, o: Object)
    requires ValuesAgree(items, values) && id !in items
    ensures ValuesAgree(items[id := o], if o.geometry then values else values[(o.text, id) := ItemT(id, o)])
  {}

  lemma GeometriesAfterRemove(items: Items, id: Str)
    requires id in items
    ensures |Geometries(items - {id})| == |Geometries(items)| - (if items[id].geometry then 1 else 0)
    ensures |items - {id}| == |items| - 1
  {
    assert Geometries(items - {id}) == Geometries(items) - {id};
    assert (items - {id}).Keys == items.Keys - {id};
  }

  lemma GeometriesInsert(items: Items, id: Str, o: Object)
    requires id !in items
    ensures id !in Geometries(items)
    ensures Geometries(items[id := o]) == if o.geometry then Geometries(items) + {id} else Geometries(items)
  {}

  lemma GeometriesAfterInsert(items: Items, id: Str, o: Object)
    requires id !in items
    ensures |Geometries(items[id := o])| == |Geometries(items)| + (if o.geometry then 1 else 0)
    ensures |items[id := o]| == |items| + 1
  {
    GeometriesInsert(items, id, o);
    var more := items[id := o];
    assert more.Keys == items.Keys + {id};
    assert |more| == |more.Keys| && |items| == |items.Keys|;
  }

  /** What a prefix of the search visits, item by item. */
  lemma VisitedHits(items: Items, bag: multiset<Entry<ItemT>>, q: Box, es: seq<Entry<ItemT>>,
                    seen: seq<Entry<ItemT>>, hits: seq<ItemT>)
    requires IndexAgrees(items, bag)
    requires forall e :: multiset(es)[e] == if Intersects(q, e.box) then bag[e] else 0
    requires seen <= es && |hits| == |seen| && forall k :: 0 <= k < |seen| ==> hits[k] == seen[k].item
    ensures forall k :: 0 <= k < |hits| ==> Hit(items, q, hits[k])
    ensures forall j, k :: 0 <= j < k < |hits| ==> hits[j].id != hits[k].id
    ensures seen == es ==> forall i :: Hit(items, q, i) ==> i in hits
  {
    hide IndexAgrees, Intersects, Hit;
    SearchHits(items, bag, q, es);
    assert forall k :: 0 <= k < |seen| ==> seen[k] == es[k];
    if seen == es {
      forall i | Hit(items, q, i) ensures i in hits {
        var k :| 0 <= k < |es| && es[k].item == i;
        assert hits[k] == i;
      }
    }
  }

  /** What a box search is for: the live geometries whose rectangle meets the box. */
  predicate Hit(items: Items, q: Box, i: ItemT) {
    LiveIn(items, i) && i.obj.geometry && Intersects(q, BoxOf(i.obj))
  }

  lemma SearchHits(items: Items, bag: multiset<Entry<ItemT>>, q: Box, es: seq<Entry<ItemT>>)
    requires IndexAgrees(items, bag)
    requires forall e :: multiset(es)[e] == if Intersects(q, e.box) then bag[e] else 0
    ensures forall k :: 0 <= k < |es| ==> Hit(items, q, es[k].item)
    ensures forall j, k :: 0 <= j < k < |es| ==> es[j].item.id != es[k].item.id
    ensures forall i :: Hit(items, q, i) ==> exists k :: 0 <= k < |es| && es[k].item == i
  {
    hide Intersects, BoxOf;
    forall k | 0 <= k < |es| ensures Hit(items, q, es[k].item) && es[k].box == BoxOf(es[k].item.obj) {
      assert es[k] in multiset(es);
    }
    forall j, k | 0 <= j < k < |es| ensures es[j].item.id != es[k].item.id {
      if es[j].item.id == es[k].item.id {
        assert Hit(items, q, es[j].item) && Hit(items, q, es[k].item);
        CountedTwice(es, j, k);
      }
    }
    forall i | Hit(items, q, i) ensures exists k :: 0 <= k < |es| && es[k].item == i {
      var e := Entry(BoxOf(i.obj), i);
      assert multiset(es)[e] == bag[e] == 1;
      assert e in es;
    }
  }

  lemma CountedTwice<T>(s: seq<T>, j: nat, k: nat)
    requires j < k < |s| && s[j] == s[k]
    ensures multiset(s)[s[k]] >= 2
  {
    assert s == s[..k] + s[k..];
    assert s[..k][j] == s[k] && s[k..][0] == s[k];
    assert s[k] in multiset(s[..k]) && s[k] in multiset(s[k..]);
  }

  /** What a replacement does to the indexes: they agree afterwards exactly when the id was new or the
      new object is of the old one's kind. */
  lemma ReplaceAgreement(
    items: Items, values: ValueTree, bag: multiset<Entry<ItemT>>, objects: int,
    id: Str, obj: Object, bag1: multiset<Entry<ItemT>>,
    values': ValueTree, bag': multiset<Entry<ItemT>>, objects': int)
    requires IndexAgrees(items, bag) && ValuesAgree(items, values) && objects == |Geometries(items)|
    requires id in items && obj.geometry ==>
               && ((forall e :: e in bag ==> e.item != ItemT(id, items[id])) ==> bag1 == bag)
               && (Distinct(bag) && EntryOf(id, items[id]) in bag ==> bag1 == bag - multiset{EntryOf(id, items[id])})
    requires !(id in items && obj.geometry) ==> bag1 == bag
    requires bag' == if obj.geometry then bag1 + multiset{EntryOf(id, obj)} else bag1
    requires values' == if obj.geometry then values
                        else (if id in items then values - {(items[id].text, id)} else values)[
                          (obj.text, id) := ItemT(id, obj)]
    requires objects' == if obj.geometry && id !in items then objects + 1 else objects
    ensures IndexAgrees(items[id := obj], bag') && ValuesAgree(items[id := obj], values')
            && objects' == |Geometries(items[id := obj])|
            <==> id !in items || items[id].geometry == obj.geometry
  {
    hide IndexAgrees, ValuesAgree, Distinct;
    if id !in items {
      IndexAfterInsert(items, bag, id, obj);
      ValuesAfterInsert(items, values, id, obj);
      GeometriesAfterInsert(items, id, obj);
    } else {
      InIndex(items, bag, id);
      IndexIsDistinct(items, bag);
      if items[id].geometry == obj.geometry {
        var rest := items - {id};
        assert rest[id := obj] == items[id := obj];
        IndexAfterRemove(items, bag, id);
        ValuesAfterRemove(items, values, id);
        GeometriesAfterRemove(items, id);
        IndexAfterInsert(rest, if obj.geometry then bag1 else bag, id, obj);
        ValuesAfterInsert(rest, if obj.geometry then values else values - {(items[id].text, id)}, id, obj);
        GeometriesAfterInsert(rest, id, obj);
      } else if obj.geometry {
        StaleValue(items, values, id, obj);
      } else {
        StaleEntry(items, bag, id, obj);
      }
    }
  }

  /** What a removal does to the indexes: they still agree. */
  lemma RemoveAgreement(
    items: Items, values: ValueTree, bag: multiset<Entry<ItemT>>, id: Str,
    bag': multiset<Entry<ItemT>>)
    requires IndexAgrees(items, bag) && ValuesAgree(items, values) && id in items
    requires if items[id].geometry
             then Distinct(bag) && EntryOf(id, items[id]) in bag ==> bag' == bag - multiset{EntryOf(id, items[id])}
             else bag' == bag
    ensures IndexAgrees(items - {id}, bag')
    ensures ValuesAgree(items - {id}, if items[id].geometry then values else values - {(items[id].text, id)})
    ensures |Geometries(items - {id})| == |Geometries(items)| - if items[id].geometry then 1 else 0
  {
    hide IndexAgrees, ValuesAgree, Distinct, Geometries;
    IndexIsDistinct(items, bag);
    InIndex(items, bag, id);
    IndexAfterRemove(items, bag, id);
    ValuesAfterRemove(items, values, id);
    GeometriesAfterRemove(items, id);
  }

  /** A string replaced by a geometry stays behind in the value tree. */
  lemma StaleValue(items: Items, values: ValueTree, id: Str, obj: Object)
    requires ValuesAgree(items, values) && id in items && !items[id].geometry && obj.geometry
    ensures !ValuesAgree(items[id := obj], values)
  {
    var k := (items[id].text, id);
    assert k in values && !LiveIn(items[id := obj], values[k]);
  }

  /** A geometry replaced by a string stays behind in the spatial index. */
  lemma StaleEntry(items: Items, bag: multiset<Entry<ItemT>>, id: Str, obj: Object)
    requires IndexAgrees(items, bag) && id in items && items[id].geometry && !obj.geometry
    ensures !IndexAgrees(items[id := obj], bag)
  {
    var e := EntryOf(id, items[id]);
    assert bag[e] == 1;
    assert !LiveIn(items[id := obj], e.item);
  }

  // ----- one change

  /** The store with its indexes and the counter of geometries. */
  datatype Shape = Shape(items: Items, values: ValueTree, bag: multiset<Entry<ItemT>>, objects: int)

  /** What a mutator does to the store, as far as the indexes care: an object is put where another or none was, or
      no object is put. */
  datatype Change = Stored(id: Str, was: Option<Object>, now: Object) | Other

  function ObjectAt(items: Items, id: Str): Option<Object> {
    if id in items then Some(items[id]) else None
  }

  /** A geometry is replaced by a string, and a string by a geometry. */
  function LostBy(ch: Change): nat {
    if ch.Stored? && ch.was.Some? && ch.was.value.geometry && !ch.now.geometry then 1 else 0
  }

  function GainedBy(ch: Change): nat {
    if ch.Stored? && ch.was.Some? && !ch.was.value.geometry && ch.now.geometry then 1 else 0
  }

  /** A string replaced by a geometry leaves its place in the value tree taken; storing a string clears the place
      it takes and that of what it replaces. */
  predicate Leaves(ch: Change, k: (Str, Str)) {
    GainedBy(ch) > 0 && k == (ch.was.value.text, ch.id)
  }

  predicate Clears(ch: Change, k: (Str, Str)) {
    && ch.Stored? && !ch.now.geometry && k.1 == ch.id
    && (k.0 == ch.now.text || (ch.was.Some? && k.0 == ch.was.value.text))
  }

  function StaleAfter(ch: Change, stale: set<(Str, Str)>): set<(Str, Str)> {
    (set k | k in stale && !Clears(ch, k)) + if GainedBy(ch) > 0 then {(ch.was.value.text, ch.id)} else {}
  }

  // ----- the spatial index

  ghost predicate AllGeometries(bag: multiset<Entry<ItemT>>) {
    forall e :: e in bag ==> e.item.obj.geometry
  }

  /** How many entries the spatial index has more than there are geometries. */
  ghost function Surplus(s: Shape): int {
    |s.bag| - |Geometries(s.items)|
  }

  /** An exact index stays exact if no geometry is lost; the surplus never shrinks, and grows with every geometry
      lost. */
  ghost predicate IndexDrifts(s: Shape, t: Shape, lost: nat) {
    && (IndexAgrees(s.items, s.bag) && lost == 0 ==> IndexAgrees(t.items, t.bag))
    && (AllGeometries(s.bag) ==> AllGeometries(t.bag) && Surplus(t) >= Surplus(s) + lost)
  }

  /** What a run that lost so many geometries leaves of an exact index. */
  ghost predicate IndexDrifted(s: Shape, lost: nat) {
    && (lost == 0 ==> IndexAgrees(s.items, s.bag))
    && AllGeometries(s.bag) && Surplus(s) >= lost
  }

  lemma IndexStarts(s: Shape)
    requires IndexAgrees(s.items, s.bag)
    ensures IndexDrifted(s, 0)
  {
    hide IndexAgrees, Geometries;
    ExactIndexSize(s.items, s.bag);
  }

  lemma IndexGoesOn(s: Shape, t: Shape, lost: nat, more: nat)
    requires IndexDrifted(s, lost) && IndexDrifts(s, t, more)
    ensures IndexDrifted(t, lost + more)
  {
    hide IndexAgrees, AllGeometries, Surplus;
  }

  /** Once a geometry is lost the spatial index is never exact again. */
  lemma NoWayBack(s: Shape, lost: nat)
    requires IndexDrifted(s, lost)
    ensures IndexAgrees(s.items, s.bag) <==> lost == 0
  {
    hide IndexAgrees, Geometries;
    if IndexAgrees(s.items, s.bag) { ExactIndexSize(s.items, s.bag); }
  }

  /** An exact index holds as many entries as there are geometries. */
  lemma {:induction false} ExactIndexSize(items: Items, bag: multiset<Entry<ItemT>>)
    requires IndexAgrees(items, bag)
    ensures |bag| == |Geometries(items)| && AllGeometries(bag)
    decreases |items|
  {
    hide IndexAgrees, Geometries;
    IndexHoldsGeometries(items, bag);
    if items == map[] {
      NothingIndexed(bag);
    } else {
      var id :| id in items;
      InIndex(items, bag, id);
      IndexAfterRemove(items, bag, id);
      GeometriesAfterRemove(items, id);
      var e := EntryOf(id, items[id]);
      ExactIndexSize(items - {id}, if items[id].geometry then bag - multiset{e} else bag);
    }
  }

  lemma IndexHoldsGeometries(items: Items, bag: multiset<Entry<ItemT>>)
    requires IndexAgrees(items, bag)
    ensures AllGeometries(bag)
  {
    forall e | e in bag ensures e.item.obj.geometry { assert bag[e] > 0; }
  }

  lemma NothingIndexed(bag: multiset<Entry<ItemT>>)
    requires IndexAgrees(map[], bag)
    ensures bag == multiset{} && Geometries(map[]) == {}
  {
    forall e ensures bag[e] == 0 { assert !LiveIn(map[], e.item); }
  }

  // ----- the counter

  /** How many geometries the counter misses. */
  ghost function Uncounted(s: Shape): int {
    |Geometries(s.items)| - s.objects
  }

  // ----- the value tree

  predicate LiveString(items: Items, k: (Str, Str)) {
    k.1 in items && !items[k.1].geometry && items[k.1].text == k.0
  }

  /** The value tree holds the live strings, each in its place, and something else in the stale places. */
  ghost predicate ValuesAre(items: Items, values: ValueTree, stale: set<(Str, Str)>) {
    && (forall k :: k in values <==> LiveString(items, k) || k in stale)
    && (forall k :: k in stale ==> !LiveString(items, k))
    && (forall k :: k in values ==> values[k].id == k.1 && values[k].obj.text == k.0 && !values[k].obj.geometry)
    && (forall k :: k in values && LiveString(items, k) ==> values[k].obj == items[k.1])
  }

  lemma NothingStale(items: Items, values: ValueTree)
    requires ValuesAgree(items, values)
    ensures ValuesAre(items, values, {})
  {
    forall k ensures k in values <==> LiveString(items, k) {
      if LiveString(items, k) { assert (items[k.1].text, k.1) in values; }
    }
  }

  lemma ExactIfNothingStale(items: Items, values: ValueTree, stale: set<(Str, Str)>)
    requires ValuesAre(items, values, stale)
    ensures ValuesAgree(items, values) <==> stale == {}
  {
    if stale == {} {
      forall id | id in items && !items[id].geometry ensures (items[id].text, id) in values {
        assert LiveString(items, (items[id].text, id));
      }
    } else {
      var k :| k in stale;
      assert k in values;
      assert LiveIn(items, values[k]) ==> LiveString(items, k);
    }
  }

  ghost predicate ValuesDrift(s: Shape, t: Shape, ch: Change) {
    forall stale :: ValuesAre(s.items, s.values, stale) ==> ValuesAre(t.items, t.values, StaleAfter(ch, stale))
  }

  // ----- what one call does to all three

  ghost predicate Drifts(s: Shape, t: Shape, ch: Change) {
    && IndexDrifts(s, t, LostBy(ch))
    && Uncounted(t) == Uncounted(s) + GainedBy(ch) - LostBy(ch)
    && ValuesDrift(s, t, ch)
  }

  lemma NothingPut(stale: set<(Str, Str)>)
    ensures StaleAfter(Other, stale) == stale
  {}

  lemma NoDrift(s: Shape, ch: Change)
    requires ch.Other?
    ensures Drifts(s, s, ch)
  {
    hide IndexAgrees, ValuesAre, AllGeometries, Surplus, StaleAfter;
    forall stale ensures StaleAfter(ch, stale) == stale { NothingPut(stale); }
  }

  lemma GeometriesAfterPut(items: Items, id: Str, o: Object)
    ensures |Geometries(items[id := o])| ==
            |Geometries(items)| + (if o.geometry then 1 else 0) - (if id in items && items[id].geometry then 1 else 0)
  {
    var g, h := Geometries(items), Geometries(items[id := o]);
    if o.geometry {
      assert h == g + {id};
    } else {
      assert h == g - {id};
    }
  }

  /** What Unlink leaves of the spatial index: at most one entry goes, the stored one if it is there and unique, and
      none if there is none to go. */
  ghost predicate Unlinked(bag: multiset<Entry<ItemT>>, id: Str, o: Object, bag': multiset<Entry<ItemT>>) {
    && bag' <= bag && |bag| <= |bag'| + 1
    && ((forall e :: e in bag ==> e.item != ItemT(id, o)) ==> bag' == bag)
    && (Distinct(bag) && EntryOf(id, o) in bag ==> bag' == bag - multiset{EntryOf(id, o)})
  }

  lemma IsUnlinked(bag: multiset<Entry<ItemT>>, id: Str, o: Object, bag': multiset<Entry<ItemT>>)
    requires bag' <= bag && |bag| <= |bag'| + 1
    requires (forall e :: e in bag ==> e.item != ItemT(id, o)) ==> bag' == bag
    requires Distinct(bag) && Entry(BoxOf(o), ItemT(id, o)) in bag ==>
               bag' == bag - multiset{Entry(BoxOf(o), ItemT(id, o))}
    ensures Unlinked(bag, id, o, bag')
  {
    hide Distinct;
  }

  /** The parts of a replacement, in the order of the code: the old object is unlinked by the kind of the new one. */
  ghost predicate Replaced(s: Shape, id: Str, obj: Object, bag1: multiset<Entry<ItemT>>, t: Shape) {
    && t.items == s.items[id := obj]
    && (if id in s.items && obj.geometry then Unlinked(s.bag, id, s.items[id], bag1) else bag1 == s.bag)
    && t.bag == (if obj.geometry then bag1 + multiset{EntryOf(id, obj)} else bag1)
    && t.values == (if obj.geometry then s.values
                    else (if id in s.items then s.values - {(s.items[id].text, id)} else s.values)[
                      (obj.text, id) := ItemT(id, obj)])
    && t.objects == if obj.geometry && id !in s.items then s.objects + 1 else s.objects
  }

  lemma ReplaceDrifts(s: Shape, id: Str, obj: Object, bag1: multiset<Entry<ItemT>>, t: Shape)
    requires Replaced(s, id, obj, bag1, t)
    ensures Drifts(s, t, Stored(id, ObjectAt(s.items, id), obj))
  {
    var ch := Stored(id, ObjectAt(s.items, id), obj);
    hide IndexAgrees, Geometries, ValuesAre, Unlinked, StaleAfter;
    GeometriesAfterPut(s.items, id, obj);
    if id in s.items && obj.geometry { UnlinkedBag(s.bag, id, s.items[id], bag1); }
    if IndexAgrees(s.items, s.bag) { ReplaceIndex(s.items, s.bag, id, obj, bag1, t.bag); }
    forall stale | ValuesAre(s.items, s.values, stale) ensures ValuesAre(t.items, t.values, StaleAfter(ch, stale)) {
      ReplaceValues(s.items, s.values, stale, id, obj, t.values);
    }
  }

  /** A replacement leaves an exact spatial index exact unless a geometry is replaced by a string. */
  lemma ReplaceIndex(
    items: Items, bag: multiset<Entry<ItemT>>, id: Str, obj: Object, bag1: multiset<Entry<ItemT>>,
    bag': multiset<Entry<ItemT>>)
    requires IndexAgrees(items, bag)
    requires if id in items && obj.geometry then Unlinked(bag, id, items[id], bag1) else bag1 == bag
    requires bag' == if obj.geometry then bag1 + multiset{EntryOf(id, obj)} else bag1
    ensures IndexAgrees(items[id := obj], bag') <==> !(id in items && items[id].geometry && !obj.geometry)
  {
    hide IndexAgrees, Distinct;
    if id !in items {
      IndexAfterInsert(items, bag, id, obj);
    } else if items[id].geometry && !obj.geometry {
      StaleEntry(items, bag, id, obj);
    } else {
      InIndex(items, bag, id);
      IndexIsDistinct(items, bag);
      IndexAfterRemove(items, bag, id);
      var rest := items - {id};
      assert rest[id := obj] == items[id := obj];
      IndexAfterInsert(rest, bag1, id, obj);
    }
  }

  lemma ReplaceValues(items: Items, values: ValueTree, stale: set<(Str, Str)>, id: Str, obj: Object, values': ValueTree)
    requires ValuesAre(items, values, stale)
    requires values' == if obj.geometry then values
                        else (if id in items then values - {(items[id].text, id)} else values)[
                          (obj.text, id) := ItemT(id, obj)]
    ensures ValuesAre(items[id := obj], values', StaleAfter(Stored(id, ObjectAt(items, id), obj), stale))
  {
    var ch := Stored(id, ObjectAt(items, id), obj);
    var more := items[id := obj];
    forall k
      ensures k in values' <==> LiveString(more, k) || k in StaleAfter(ch, stale)
      ensures k in StaleAfter(ch, stale) ==> !LiveString(more, k)
    {
      assert k in values <==> LiveString(items, k) || k in stale;
    }
  }

  lemma RemoveDrifts(s: Shape, id: Str, t: Shape)
    requires id in s.items && t.items == s.items - {id}
    requires if s.items[id].geometry then Unlinked(s.bag, id, s.items[id], t.bag) else t.bag == s.bag
    requires t.values == if s.items[id].geometry then s.values else s.values - {(s.items[id].text, id)}
    requires t.objects == if s.items[id].geometry then s.objects - 1 else s.objects
    ensures Drifts(s, t, Other)
  {
    hide IndexAgrees, Geometries, ValuesAre, Unlinked, AllGeometries, StaleAfter;
    GeometriesAfterRemove(s.items, id);
    if s.items[id].geometry { UnlinkedBag(s.bag, id, s.items[id], t.bag); }
    if IndexAgrees(s.items, s.bag) { RemoveIndex(s.items, s.bag, id, t.bag); }
    forall stale | ValuesAre(s.items, s.values, stale) ensures ValuesAre(t.items, t.values, StaleAfter(Other, stale)) {
      RemoveValues(s.items, s.values, stale, id);
      NothingPut(stale);
    }
  }

  lemma UnlinkedBag(bag: multiset<Entry<ItemT>>, id: Str, o: Object, bag': multiset<Entry<ItemT>>)
    requires Unlinked(bag, id, o, bag')
    ensures |bag| <= |bag'| + 1
    ensures AllGeometries(bag) ==> AllGeometries(bag') && (!o.geometry ==> bag' == bag)
  {
    hide Distinct;
    assert forall e :: e in bag' ==> e in bag;
  }

  lemma RemoveIndex(items: Items, bag: multiset<Entry<ItemT>>, id: Str, bag': multiset<Entry<ItemT>>)
    requires IndexAgrees(items, bag) && id in items
    requires if items[id].geometry then Unlinked(bag, id, items[id], bag') else bag' == bag
    ensures IndexAgrees(items - {id}, bag')
  {
    hide IndexAgrees, Distinct;
    IndexIsDistinct(items, bag);
    InIndex(items, bag, id);
    IndexAfterRemove(items, bag, id);
  }

  lemma RemoveValues(items: Items, values: ValueTree, stale: set<(Str, Str)>, id: Str)
    requires ValuesAre(items, values, stale) && id in items
    ensures ValuesAre(items - {id}, if items[id].geometry then values else values - {(items[id].text, id)}, stale)
  {
    var rest := items - {id};
    var values' := if items[id].geometry then values else values - {(items[id].text, id)};
    forall k
      ensures k in values' <==> LiveString(rest, k) || k in stale
    {
      assert k in values <==> LiveString(items, k) || k in stale;
      assert k in stale ==> !LiveString(items, k);
    }
  }

  // ----- runs

  datatype Op = Replace(id: Str, obj: Object, ws: Writes) | Discard(id: Str) | Write(id: Str, ws: Writes)

  predicate OpOk(op: Op) {
    op.Replace? && op.obj.geometry ==> Proper(BoxOf(op.obj))
  }

  function AppliedOne(c: Col, op: Op): Col {
    match op
    case Replace(id, obj, ws) => c[id := Rec(obj, PutAll(if id in c then c[id].fields else map[], ws))]
    case Discard(id) => c - {id}
    case Write(id, ws) => if id in c then c[id := c[id].(fields := PutAll(c[id].fields, ws))] else c
  }

  function Applied(c: Col, ops: seq<Op>): Col {
    if ops == [] then c else AppliedOne(Applied(c, ops[..|ops| - 1]), ops[|ops| - 1])
  }

  /** The command an operation carries out, on a collection stored under a key. */
  function CommandOf(key: Str, op: Op): Cmd {
    match op
    case Replace(id, obj, ws) => Set(key, id, ws, Always, obj)
    case Discard(id) => Del(key, id)
    case Write(id, ws) => Fset(key, id, ws, false, false)
  }

  /** The operations of a collection do what the commands do to the dataset. */
  lemma AppliedIsExec(d: Data, key: Str, op: Op, out: Output)
    requires Wf(d) && key in d
    ensures Exec(d, CommandOf(key, op), out).data == WithCol(d, key, AppliedOne(d[key], op))
  {
    hide PutAll, Changes;
    match op
    case Replace(id, obj, ws) =>
      assert id in AppliedOne(d[key], op);
    case Discard(id) =>
      if id !in d[key] {
        assert d[key] - {id} == d[key];
        assert d[key := d[key]] == d;
      }
    case Write(id, ws) =>
      if id !in d[key] {
        assert d[key := d[key]] == d;
      } else {
        assert id in AppliedOne(d[key], op);
      }
  }

  function ChangeBy(c: Col, op: Op): Change {
    if op.Replace? then Stored(op.id, if op.id in c then Some(c[op.id].obj) else None, op.obj) else Other
  }

  /** The change made by operation n of a run. */
  function ChangeAt(c: Col, ops: seq<Op>, n: nat): Change
    requires n < |ops|
  {
    ChangeBy(Applied(c, ops[..n]), ops[n])
  }

  /** How many geometries a run replaces by strings, how many strings by geometries, and which places of the value
      tree it leaves taken. */
  function LostIn(c: Col, ops: seq<Op>): nat {
    if ops == [] then 0 else LostIn(c, ops[..|ops| - 1]) + LostBy(ChangeAt(c, ops, |ops| - 1))
  }

  function GainedIn(c: Col, ops: seq<Op>): nat {
    if ops == [] then 0 else GainedIn(c, ops[..|ops| - 1]) + GainedBy(ChangeAt(c, ops, |ops| - 1))
  }

  function LeftIn(c: Col, ops: seq<Op>): set<(Str, Str)> {
    if ops == [] then {} else StaleAfter(ChangeAt(c, ops, |ops| - 1), LeftIn(c, ops[..|ops| - 1]))
  }

  lemma ChangeAtPrefix(c: Col, ops: seq<Op>, m: nat, n: nat)
    requires n < m <= |ops|
    ensures ChangeAt(c, ops[..m], n) == ChangeAt(c, ops, n)
  {
    hide Applied;
    assert ops[..m][..n] == ops[..n] && ops[..m][n] == ops[n];
  }

  /** No geometry is lost in a run if and only if none is in any of its operations, and so for those gained. */
  lemma {:induction false} NoneIffNowhere(c: Col, ops: seq<Op>)
    ensures LostIn(c, ops) == 0 <==> forall n :: 0 <= n < |ops| ==> LostBy(ChangeAt(c, ops, n)) == 0
    ensures GainedIn(c, ops) == 0 <==> forall n :: 0 <= n < |ops| ==> GainedBy(ChangeAt(c, ops, n)) == 0
    decreases |ops|
  {
    hide ChangeAt, LostBy, GainedBy;
    if ops != [] {
      var m := |ops| - 1;
      NoneIffNowhere(c, ops[..m]);
      forall n | 0 <= n < m ensures ChangeAt(c, ops[..m], n) == ChangeAt(c, ops, n) { ChangeAtPrefix(c, ops, m, n); }
    }
  }

  /** A place is left taken by a run if and only if some string in it was replaced by a geometry, and afterwards no
      string was stored there, nor in place of an object with that text. */
  lemma {:induction false} LeftIff(c: Col, ops: seq<Op>, k: (Str, Str))
    ensures k in LeftIn(c, ops) <==>
            exists n :: 0 <= n < |ops| && Leaves(ChangeAt(c, ops, n), k) && NotCleared(c, ops, n, k)
    decreases |ops|
  {
    hide ChangeAt;
    if ops != [] {
      var m := |ops| - 1;
      LeftIff(c, ops[..m], k);
      forall n | 0 <= n < m
        ensures ChangeAt(c, ops[..m], n) == ChangeAt(c, ops, n)
        ensures NotCleared(c, ops, n, k) <==> NotCleared(c, ops[..m], n, k) && !Clears(ChangeAt(c, ops, m), k)
      {
        ChangeAtPrefix(c, ops, m, n);
        NotClearedSnoc(c, ops, n, k);
      }
      LeftSnoc(c, ops, k);
    }
  }

  /** No operation after operation n clears the place. */
  predicate NotCleared(c: Col, ops: seq<Op>, n: nat, k: (Str, Str)) {
    forall m :: n < m < |ops| ==> !Clears(ChangeAt(c, ops, m), k)
  }

  lemma NotClearedSnoc(c: Col, ops: seq<Op>, n: nat, k: (Str, Str))
    requires n + 1 < |ops|
    ensures var m := |ops| - 1;
            NotCleared(c, ops, n, k) <==> NotCleared(c, ops[..m], n, k) && !Clears(ChangeAt(c, ops, m), k)
  {
    hide ChangeAt, Clears;
    var m := |ops| - 1;
    forall j | 0 <= j < m ensures ChangeAt(c, ops[..m], j) == ChangeAt(c, ops, j) { ChangeAtPrefix(c, ops, m, j); }
  }

  lemma LeftSnoc(c: Col, ops: seq<Op>, k: (Str, Str))
    requires ops != []
    ensures var m := |ops| - 1;
            k in LeftIn(c, ops) <==>
              (k in LeftIn(c, ops[..m]) && !Clears(ChangeAt(c, ops, m), k)) || Leaves(ChangeAt(c, ops, m), k)
  {
    hide ChangeAt, Clears;
  }

  /** Without a string replaced by a geometry nothing is left. */
  lemma {:induction false} NoneGainedNoneLeft(c: Col, ops: seq<Op>)
    requires GainedIn(c, ops) == 0
    ensures LeftIn(c, ops) == {}
    decreases |ops|
  {
    hide ChangeAt;
    if ops != [] { NoneGainedNoneLeft(c, ops[..|ops| - 1]); }
  }

  /** A replacement is of the kind of what it replaces. */
  predicate KeepsKind(c: Col, op: Op) {
    op.Replace? && op.id in c ==> c[op.id].obj.geometry == op.obj.geometry
  }

  predicate KeepsKinds(c: Col, ops: seq<Op>) {
    ops == [] || (KeepsKinds(c, ops[..|ops| - 1]) && KeepsKind(Applied(c, ops[..|ops| - 1]), ops[|ops| - 1]))
  }

  lemma {:induction false} KeepsKindsIff(c: Col, ops: seq<Op>)
    ensures KeepsKinds(c, ops) <==> LostIn(c, ops) == 0 && GainedIn(c, ops) == 0
    decreases |ops|
  {
    hide Applied;
    if ops != [] { KeepsKindsIff(c, ops[..|ops| - 1]); }
  }
}
