/** A collection: objects by id, with the spatial index, the value tree, the field table and the counters
    that are kept in step with them. */
module Collection {
  import opened Bytes
  import opened Objects
  import opened Rtree
  import opened RtreeRemove
  import opened RtreeIndex
  import RtreeSearch
  import opened Dataset
  import opened Indexes

  // ----- sums over a map

  ghost function Sum(m: map<Str, int>): int
    decreases |m|
  {
    if m == map[] then 0 else var k :| k in m; m[k] + Sum(m - {k})
  }

  lemma {:induction false} SumRemove(m: map<Str, int>, k: Str)
    requires k in m
    ensures Sum(m) == m[k] + Sum(m - {k})
    decreases |m|
  {
    var j :| j in m && Sum(m) == m[j] + Sum(m - {j});
    if j != k {
      SumRemove(m - {j}, k);
      SumRemove(m - {k}, j);
      assert m - {j} - {k} == m - {k} - {j};
    }
  }

  lemma SumUpdate(m: map<Str, int>, k: Str, v: int)
    ensures Sum(m[k := v]) == Sum(m) + v - (if k in m then m[k] else 0)
  {
    SumRemove(m[k := v], k);
    assert m[k := v] - {k} == m - {k};
    if k in m { SumRemove(m, k); } else { assert m - {k} == m; }
  }

  // ----- fields

  /** Field names in use, numbered without gaps. */
  ghost predicate Numbered(fieldMap: map<Str, nat>) {
    && (forall f :: f in fieldMap ==> fieldMap[f] < |fieldMap|)
    && (forall f, g :: f in fieldMap && g in fieldMap && fieldMap[f] == fieldMap[g] ==> f == g)
  }

  /** The value stored for a name, zero beyond the end of the list. */
  function At(fieldMap: map<Str, nat>, vals: seq<real>, name: Str): real {
    if name in fieldMap && fieldMap[name] < |vals| then vals[fieldMap[name]] else 0.0
  }

  /** The fields a value list stands for. */
  function Named(fieldMap: map<Str, nat>, vals: seq<real>): Fields {
    map name | name in fieldMap && At(fieldMap, vals, name) != 0.0 :: At(fieldMap, vals, name)
  }

  lemma NamedReads(fieldMap: map<Str, nat>, vals: seq<real>, name: Str)
    ensures Read(Named(fieldMap, vals), name) == At(fieldMap, vals, name)
    ensures NoZeros(Named(fieldMap, vals))
  {}

  lemma NamedEqual(m: map<Str, nat>, vals: seq<real>, n: map<Str, nat>, wals: seq<real>)
    requires forall name :: At(m, vals, name) == At(n, wals, name)
    ensures Named(m, vals) == Named(n, wals)
  {
    hide At, Named;
    forall name ensures Read(Named(m, vals), name) == Read(Named(n, wals), name) {
      NamedReads(m, vals, name);
      NamedReads(n, wals, name);
    }
    NamedReads(m, vals, []);
    NamedReads(n, wals, []);
    FieldsExtensional(Named(m, vals), Named(n, wals));
  }

  /** The numbering after a name has been looked up, and added if it was new. */
  function WithName(fieldMap: map<Str, nat>, name: Str): (m: map<Str, nat>)
    ensures name in m
  {
    if name in fieldMap then fieldMap else fieldMap[name := |fieldMap|]
  }

  /** A new name gets the next number, and no list read so far changes. */
  lemma AddName(fieldMap: map<Str, nat>, name: Str)
    requires Numbered(fieldMap)
    ensures Numbered(WithName(fieldMap, name)) && |fieldMap| <= |WithName(fieldMap, name)|
    ensures forall vals :: |vals| <= |fieldMap| ==> Named(WithName(fieldMap, name), vals) == Named(fieldMap, vals)
  {
    hide Named;
    if name !in fieldMap {
      var m := fieldMap[name := |fieldMap|];
      assert m.Keys == fieldMap.Keys + {name};
      assert |m| == |m.Keys| == |fieldMap.Keys| + 1;
      forall vals: seq<real> | |vals| <= |fieldMap| ensures Named(m, vals) == Named(fieldMap, vals) {
        NamedEqual(m, vals, fieldMap, vals);
      }
    }
  }

  function Padded(vals: seq<real>, n: nat): (r: seq<real>)
    ensures |r| == (if n > |vals| then n else |vals|)
    ensures forall i :: 0 <= i < |r| ==> r[i] == if i < |vals| then vals[i] else 0.0
    decreases n - |vals|
  {
    if |vals| >= n then vals else Padded(vals + [0.0], n)
  }

  lemma AtAfterWrite(fieldMap: map<Str, nat>, vals: seq<real>, name: Str, v: real, n: Str)
    requires Numbered(fieldMap) && |vals| <= |fieldMap|
    ensures var m := WithName(fieldMap, name);
            var p := Padded(vals, m[name] + 1);
            && At(m, p[m[name] := v], n) == (if n == name then v else At(fieldMap, vals, n))
            && p[m[name]] == At(fieldMap, vals, name)
            && |p| <= |m|
  {
    var m := WithName(fieldMap, name);
    assert name !in fieldMap ==> m.Keys == fieldMap.Keys + {name} && |m| == |m.Keys|;
  }

  /** Writing one slot of a padded list writes that field. */
  lemma WriteSlot(fieldMap: map<Str, nat>, vals: seq<real>, name: Str, v: real)
    requires Numbered(fieldMap) && |vals| <= |fieldMap|
    ensures var m := WithName(fieldMap, name);
            var p := Padded(vals, m[name] + 1);
            && Named(m, p[m[name] := v]) == Put(Named(fieldMap, vals), name, v)
            && |p| <= |m| && p[m[name]] == Read(Named(fieldMap, vals), name)
  {
    hide Named, WithName, Padded, At, Numbered;
    var m := WithName(fieldMap, name);
    var w, f := Padded(vals, m[name] + 1)[m[name] := v], Named(fieldMap, vals);
    forall n ensures Read(Named(m, w), n) == Read(Put(f, name, v), n) {
      AtAfterWrite(fieldMap, vals, name, v, n);
      NamedReads(m, w, n);
      NamedReads(fieldMap, vals, n);
    }
    AtAfterWrite(fieldMap, vals, name, v, name);
    NamedReads(m, w, name);
    NamedReads(fieldMap, vals, name);
    FieldsExtensional(Named(m, w), Put(f, name, v));
  }

  lemma {:induction false} UntilIsPrefix<T>(es: seq<Entry<T>>, stop: T -> bool)
    ensures var seen := RtreeSearch.Until(es, stop);
            && seen <= es
            && (if RtreeSearch.Stops(es, stop) then seen != [] && stop(seen[|seen| - 1].item) else seen == es)
            && forall k :: 0 <= k < |seen| && (!RtreeSearch.Stops(es, stop) || k < |seen| - 1) ==> !stop(seen[k].item)
    decreases |es|
  {
    if es != [] {
      RtreeSearch.StopsCons(es, stop);
      UntilIsPrefix(es[1..], stop);
      assert es == [es[0]] + es[1..];
    }
  }

  // ----- the parts of a collection's state

  type Names = map<Str, nat>
  type Values = map<Str, seq<real>>

  function ValuesOf(fv: Values, id: Str): seq<real> {
    if id in fv then fv[id] else []
  }

  function WeightOf(items: Items, fv: Values, id: Str): int {
    if id in items then 8 * |ValuesOf(fv, id)| + items[id].weight + |id| else 0
  }

  function PositionsOf(items: Items, id: Str): int {
    if id in items then items[id].positions else 0
  }

  ghost function Weights(items: Items, fv: Values): map<Str, int> {
    map id | id in items :: WeightOf(items, fv, id)
  }

  ghost function Positions(items: Items): map<Str, int> {
    map id | id in items :: PositionsOf(items, id)
  }

  /** The weight of a collection: that of its objects, a byte for each byte of an id and eight for each field slot. */
  lemma WeightSplits(items: Items, fv: Values)
    ensures Sum(Weights(items, fv)) ==
            Sum(map id | id in items :: items[id].weight) + Sum(map id | id in items :: |id|)
            + 8 * Sum(map id | id in items :: |ValuesOf(fv, id)|)
  {
    var objs: map<Str, int>, ids: map<Str, int>, slots: map<Str, int> :=
      map id | id in items :: items[id].weight, map id | id in items :: |id|,
      map id | id in items :: |ValuesOf(fv, id)|;
    SumSplits(Weights(items, fv), objs, ids, slots);
  }

  lemma {:induction false} SumSplits(m: map<Str, int>, a: map<Str, int>, b: map<Str, int>, c: map<Str, int>)
    requires m.Keys == a.Keys == b.Keys == c.Keys && forall k :: k in m ==> m[k] == a[k] + b[k] + 8 * c[k]
    ensures Sum(m) == Sum(a) + Sum(b) + 8 * Sum(c)
    decreases |m|
  {
    if m == map[] {
      assert a == map[] && b == map[] && c == map[];
    } else {
      var k :| k in m;
      SumRemove(m, k);
      SumRemove(a, k);
      SumRemove(b, k);
      SumRemove(c, k);
      SumSplits(m - {k}, a - {k}, b - {k}, c - {k});
    }
  }

  /** The field table is a numbering, and only live ids have values, no longer than it. */
  ghost predicate FieldsOk(items: Items, names: Names, fv: Values) {
    && Numbered(names)
    && (forall id :: id in fv ==> id in items && |fv[id]| <= |names|)
  }

  ghost predicate RectsOk(items: Items) {
    forall id :: id in items && items[id].geometry ==> Proper(BoxOf(items[id]))
  }

  function RecOf(items: Items, names: Names, fv: Values, id: Str): Rec
    requires id in items
  {
    Rec(items[id], Named(names, ValuesOf(fv, id)))
  }

  /** What the collection holds: each live object with its fields by name. */
  function ContentsOf(items: Items, names: Names, fv: Values): Col {
    map id | id in items :: RecOf(items, names, fv, id)
  }

  lemma ShortValues(items: Items, names: Names, fv: Values, id: Str)
    requires FieldsOk(items, names, fv)
    ensures |ValuesOf(fv, id)| <= |names| && (id !in items ==> ValuesOf(fv, id) == [])
  {}

  // ----- one id changes

  /** Putting an object under an id moves the sums by the difference at that id. */
  lemma SumsAfterPut(items: Items, fv: Values, id: Str, o: Object, vals: seq<real>)
    ensures Sum(Positions(items[id := o])) == Sum(Positions(items)) - PositionsOf(items, id) + o.positions
    ensures Sum(Weights(items[id := o], fv[id := vals])) ==
            Sum(Weights(items, fv)) - WeightOf(items, fv, id) + 8 * |vals| + o.weight + |id|
  {
    hide Sum;
    var more, gv := items[id := o], fv[id := vals];
    assert Positions(more) == Positions(items)[id := o.positions];
    SumUpdate(Positions(items), id, o.positions);
    var w := 8 * |vals| + o.weight + |id|;
    assert forall i :: i != id ==> WeightOf(more, gv, i) == WeightOf(items, fv, i);
    assert Weights(more, gv) == Weights(items, fv)[id := w];
    SumUpdate(Weights(items, fv), id, w);
  }

  lemma SumsAfterDrop(items: Items, fv: Values, id: Str)
    requires id in items
    ensures Sum(Positions(items - {id})) == Sum(Positions(items)) - PositionsOf(items, id)
    ensures Sum(Weights(items - {id}, fv - {id})) == Sum(Weights(items, fv)) - WeightOf(items, fv, id)
  {
    hide Sum;
    var less, gv := items - {id}, fv - {id};
    assert Positions(less) == Positions(items) - {id};
    SumRemove(Positions(items), id);
    assert forall i :: i in less ==> WeightOf(less, gv, i) == WeightOf(items, fv, i);
    assert Weights(less, gv) == Weights(items, fv) - {id};
    SumRemove(Weights(items, fv), id);
  }

  /** Values that were not stored read as the empty list; storing them back changes no weight. */
  lemma SameValues(items: Items, fv: Values, id: Str)
    ensures Weights(items, fv[id := ValuesOf(fv, id)]) == Weights(items, fv)
  {
    assert forall i :: WeightOf(items, fv[id := ValuesOf(fv, id)], i) == WeightOf(items, fv, i);
  }

  lemma FieldsAfterWrite(items: Items, names: Names, fv: Values, id: Str, name: Str, v: real)
    requires FieldsOk(items, names, fv) && id in items
    ensures var m := WithName(names, name);
            FieldsOk(items, m, fv[id := Padded(ValuesOf(fv, id), m[name] + 1)[m[name] := v]])
  {
    hide Numbered, Named, Padded, WithName;
    ShortValues(items, names, fv, id);
    AddName(names, name);
    WriteSlot(names, ValuesOf(fv, id), name, v);
  }

  lemma ContentsAfterWrite(items: Items, names: Names, fv: Values, id: Str, name: Str, v: real)
    requires FieldsOk(items, names, fv) && id in items
    ensures var m := WithName(names, name);
            var gv := fv[id := Padded(ValuesOf(fv, id), m[name] + 1)[m[name] := v]];
            && RecOf(items, m, gv, id) ==
                 RecOf(items, names, fv, id).(fields := Put(RecOf(items, names, fv, id).fields, name, v))
            && ContentsOf(items, m, gv) == ContentsOf(items, names, fv)[id := RecOf(items, m, gv, id)]
  {
    hide Padded, Put, WithName, FieldsOk, RecOf;
    var m := WithName(names, name);
    var gv := fv[id := Padded(ValuesOf(fv, id), m[name] + 1)[m[name] := v]];
    forall i | i in items
      ensures RecOf(items, m, gv, i) == RecOf(items, names, fv, i).(fields :=
                if i == id then Put(RecOf(items, names, fv, id).fields, name, v) else RecOf(items, names, fv, i).fields)
    {
      RecAfterWrite(items, names, fv, id, name, v, i);
    }
  }

  lemma RecAfterWrite(items: Items, names: Names, fv: Values, id: Str, name: Str, v: real, i: Str)
    requires FieldsOk(items, names, fv) && id in items && i in items
    ensures var m := WithName(names, name);
            var gv := fv[id := Padded(ValuesOf(fv, id), m[name] + 1)[m[name] := v]];
            RecOf(items, m, gv, i) == RecOf(items, names, fv, i).(fields :=
              if i == id then Put(RecOf(items, names, fv, id).fields, name, v) else RecOf(items, names, fv, i).fields)
  {
    hide Numbered, Named, Padded, Put, WithName;
    ShortValues(items, names, fv, id);
    ShortValues(items, names, fv, i);
    AddName(names, name);
    WriteSlot(names, ValuesOf(fv, id), name, v);
  }

  lemma ContentsAfterPut(items: Items, names: Names, fv: Values, id: Str, o: Object)
    requires FieldsOk(items, names, fv)
    ensures FieldsOk(items[id := o], names, fv)
    ensures ContentsOf(items[id := o], names, fv) ==
            ContentsOf(items, names, fv)[
              id := Rec(o, if id in items then RecOf(items, names, fv, id).fields else map[])]
  {
    hide Numbered, Named;
    NoFields(names);
    ShortValues(items, names, fv, id);
    forall i | i in items && i != id ensures RecOf(items[id := o], names, fv, i) == RecOf(items, names, fv, i) {}
  }

  lemma FieldsAfterDrop(items: Items, names: Names, fv: Values, id: Str)
    requires FieldsOk(items, names, fv)
    ensures FieldsOk(items - {id}, names, fv - {id})
  {
    hide Numbered;
  }

  lemma ContentsAfterDrop(items: Items, names: Names, fv: Values, id: Str)
    ensures ContentsOf(items - {id}, names, fv - {id}) == ContentsOf(items, names, fv) - {id}
  {
    hide RecOf;
    forall i | i in items && i != id ensures RecOf(items - {id}, names, fv - {id}, i) == RecOf(items, names, fv, i) {
      RecAfterDrop(items, names, fv, id, i);
    }
  }

  lemma RecAfterDrop(items: Items, names: Names, fv: Values, id: Str, i: Str)
    requires i in items && i != id
    ensures RecOf(items - {id}, names, fv - {id}, i) == RecOf(items, names, fv, i)
  {
    hide Named;
  }

  /** What storing an object does to the size and the sums, in the terms the counters are adjusted by. */
  lemma PutCounters(items: Items, names: Names, fv: Values, id: Str, o: Object)
    requires FieldsOk(items, names, fv)
    ensures |items[id := o]| == |items| + if id in items then 0 else 1
    ensures Sum(Positions(items[id := o])) ==
            Sum(Positions(items)) + o.positions - if id in items then items[id].positions else 0
    ensures Sum(Weights(items[id := o], fv)) ==
            Sum(Weights(items, fv)) + 8 * |ValuesOf(fv, id)| + o.weight + |id|
            - if id in items then 8 * |ValuesOf(fv, id)| + items[id].weight + |id| else 0
  {
    hide Sum, Weights, Positions, FieldsOk, ValuesOf;
    SumsAfterPut(items, fv, id, o, ValuesOf(fv, id));
    SameValues(items[id := o], fv, id);
    assert items[id := o].Keys == items.Keys + {id};
  }

  lemma DropCounters(items: Items, fv: Values, id: Str)
    requires id in items
    ensures |items - {id}| == |items| - 1
    ensures Sum(Positions(items - {id})) == Sum(Positions(items)) - items[id].positions
    ensures Sum(Weights(items - {id}, fv - {id})) ==
            Sum(Weights(items, fv)) - (8 * |ValuesOf(fv, id)| + items[id].weight + |id|)
  {
    hide Sum, Weights, Positions, ValuesOf;
    SumsAfterDrop(items, fv, id);
    assert (items - {id}).Keys == items.Keys - {id};
  }

  lemma WriteCounters(items: Items, fv: Values, id: Str, vals: seq<real>)
    requires id in items
    ensures Sum(Weights(items, fv[id := vals])) == Sum(Weights(items, fv)) + 8 * |vals| - 8 * |ValuesOf(fv, id)|
  {
    hide Sum, Weights, Positions, ValuesOf;
    SumsAfterPut(items, fv, id, items[id], vals);
    assert items[id := items[id]] == items;
  }

  /** The slot a write replaces holds the field's value. */
  lemma ReadsSlot(items: Items, names: Names, fv: Values, id: Str, name: Str)
    requires FieldsOk(items, names, fv) && id in items
    ensures var m := WithName(names, name);
            Padded(ValuesOf(fv, id), m[name] + 1)[m[name]] == Read(RecOf(items, names, fv, id).fields, name)
  {
    hide Numbered, Named, Padded;
    ShortValues(items, names, fv, id);
    WriteSlot(names, ValuesOf(fv, id), name, 0.0);
  }

  lemma DropNothing(c: Col, id: Str)
    requires id !in c
    ensures c - {id} == c
  {}

  lemma PutRects(items: Items, id: Str, o: Object)
    requires RectsOk(items) && (o.geometry ==> Proper(BoxOf(o)))
    ensures RectsOk(items[id := o])
  {
    hide Proper, BoxOf;
  }

  lemma DropRects(items: Items, id: Str)
    requires RectsOk(items)
    ensures RectsOk(items - {id})
  {
    hide Proper, BoxOf;
  }

  lemma ContentsKeys(items: Items, names: Names, fv: Values)
    ensures ContentsOf(items, names, fv).Keys == items.Keys
    ensures forall id :: id in items ==> ContentsOf(items, names, fv)[id] == RecOf(items, names, fv, id)
                                         && ContentsOf(items, names, fv)[id].obj == items[id]
  {
    hide Named;
  }

  // ----- the object

  class Collection {
    var items: Items
    var values: map<(Str, Str), ItemT>   // ordered by (String(), id)
    const index: RTree<ItemT>
    var fieldMap: Names
    var fieldValues: Values
    var weight: int
    var points: int
    var objects: int
    var nobjects: int

    /** The counters are the size and the sums over the live ids. */
    ghost predicate CountersOk()
      reads this
    {
      && |items| == objects + nobjects
      && points == Sum(Positions(items))
      && weight == Sum(Weights(items, fieldValues))
    }

    ghost predicate Valid()
      reads this, index
    {
      index.Valid() && CountersOk() && FieldsOk(items, fieldMap, fieldValues) && RectsOk(items)
    }

    ghost function Contents(): Col
      reads this
    {
      ContentsOf(items, fieldMap, fieldValues)
    }

    ghost function Layout(): Shape
      reads this, index
    {
      Shape(items, values, index.Items(), objects)
    }

    /** The spatial index holds exactly the live geometries, the value tree exactly the live strings,
        and the two object counters count them. */
    ghost predicate Agree()
      reads this, index
    {
      && IndexAgrees(items, index.Items())
      && ValuesAgree(items, values)
      && objects == |Geometries(items)|
    }

    constructor ()
      ensures Valid() && Agree() && Contents() == map[] && fresh(index)
    {
      items, values, fieldMap, fieldValues := map[], map[], map[], map[];
      weight, points, objects, nobjects := 0, 0, 0, 0;
      index := new RTree<ItemT>();
    }

    method Count() returns (n: int)
      requires Valid()
      ensures n == |Contents()|
    {
      assert Contents().Keys == items.Keys;
      n := objects + nobjects;
    }

    method PointCount() returns (n: int)
      requires Valid()
      ensures n == Sum(map id | id in items :: items[id].positions)
    {
      assert Positions(items) == map id | id in items :: items[id].positions;
      n := points;
    }

    method TotalWeight() returns (n: int)
      requires Valid()
      ensures n == Sum(map id | id in items :: items[id].weight) + Sum(map id | id in items :: |id|)
                   + 8 * Sum(map id | id in items :: |ValuesOf(fieldValues, id)|)
    {
      WeightSplits(items, fieldValues);
      n := weight;
    }

    /** Writes one field of a live object, numbering its name if it is new. */
    method SetField(id: Str, name: Str, value: real) returns (updated: bool)
      requires Valid() && id in items
      modifies `fieldMap, `fieldValues, `weight
      ensures Valid()
      ensures RecOf(items, fieldMap, fieldValues, id) ==
              var r := old(RecOf(items, fieldMap, fieldValues, id)); r.(fields := Put(r.fields, name, value))
      ensures Contents() == old(Contents())[id := RecOf(items, fieldMap, fieldValues, id)]
      ensures updated <==> Read(old(RecOf(items, fieldMap, fieldValues, id)).fields, name) != value
    {
      hide Sum, Weights, Positions, ContentsOf, FieldsOk, RectsOk, RecOf, Numbered, Named, ValuesOf, Put;
      ghost var names, fv, vals := fieldMap, fieldValues, ValuesOf(fieldValues, id);
      FieldsAfterWrite(items, names, fv, id, name, value);
      ContentsAfterWrite(items, names, fv, id, name, value);
      ReadsSlot(items, names, fv, id, name);
      if name !in fieldMap { fieldMap := fieldMap[name := |fieldMap|]; }
      var idx := fieldMap[name];
      var fields := ValuesOf(fieldValues, id);
      weight := weight - 8 * |fields|;
      while idx >= |fields|
        invariant Padded(fields, idx + 1) == Padded(vals, idx + 1)
        decreases idx - |fields|
      {
        fields := fields + [0.0];
      }
      weight := weight + 8 * |fields|;
      var ovalue := fields[idx];
      fields := fields[idx := value];
      WriteCounters(items, fv, id, fields);
      fieldValues := fieldValues[id := fields];
      updated := ovalue != value;
    }

    /** SetFields: every write in turn, counting those that changed the value they found. */
    method SetFields(id: Str, ws: Writes) returns (updatedCount: nat, ok: bool)
      requires Valid()
      modifies `fieldMap, `fieldValues, `weight
      ensures Valid()
      ensures ok <==> id in old(Contents())
      ensures !ok ==> Contents() == old(Contents()) && updatedCount == 0
      ensures ok ==>
                var r := old(Contents())[id];
                && Contents() == old(Contents())[id := r.(fields := PutAll(r.fields, ws))]
                && updatedCount == Changes(r.fields, ws)
    {
      hide FieldsOk, CountersOk, RectsOk, RecOf;
      updatedCount, ok := 0, false;
      if id !in items { return; }
      ok := true;
      ghost var was, r := Contents(), RecOf(items, fieldMap, fieldValues, id);
      ghost var f := r.fields;
      assert ws[0..] == ws;
      assert was == was[id := r.(fields := f)];
      for i := 0 to |ws|
        invariant Valid()
        invariant RecOf(items, fieldMap, fieldValues, id) == r.(fields := f)
        invariant Contents() == was[id := r.(fields := f)]
        invariant PutAll(f, ws[i..]) == PutAll(r.fields, ws)
        invariant updatedCount + Changes(f, ws[i..]) == Changes(r.fields, ws)
      {
        assert ws[i..][1..] == ws[i + 1..];
        var updated := SetField(id, ws[i].0, ws[i].1);
        f := Put(f, ws[i].0, ws[i].1);
        if updated { updatedCount := updatedCount + 1; }
      }
      assert ws[|ws|..] == [];
    }

    /** Unlinks a replaced object from the index or the value tree, keyed on the kind of the new object. */
    method Unlink(id: Str, oldObj: Object, geometry: bool)
      requires index.Valid()
      modifies index, `values, `objects, `nobjects
      ensures index.Valid()
      ensures if geometry then Unlinked(old(index.Items()), id, oldObj, index.Items())
              else index.Items() == old(index.Items())
      ensures values == if geometry then old(values) else old(values) - {(oldObj.text, id)}
      ensures objects == if geometry then old(objects) - 1 else old(objects)
      ensures nobjects == if geometry then old(nobjects) else old(nobjects) - 1
    {
      hide Distinct, RootOk, Bag, BoxOf, Unlinked;
      if geometry {
        ghost var bag := index.Items();
        index.Remove(BoxOf(oldObj), ItemT(id, oldObj));
        IsUnlinked(bag, id, oldObj, index.Items());
        objects := objects - 1;
      } else {
        values := values - {(oldObj.text, id)};
        nobjects := nobjects - 1;
      }
    }

    method Link(id: Str, obj: Object)
      requires index.Valid() && (obj.geometry ==> Proper(BoxOf(obj)))
      modifies index, `values, `objects, `nobjects
      ensures index.Valid()
      ensures index.Items() ==
                if obj.geometry then old(index.Items()) + multiset{EntryOf(id, obj)} else old(index.Items())
      ensures values == if obj.geometry then old(values) else old(values)[(obj.text, id) := ItemT(id, obj)]
      ensures objects == if obj.geometry then old(objects) + 1 else old(objects)
      ensures nobjects == if obj.geometry then old(nobjects) else old(nobjects) + 1
    {
      if obj.geometry {
        index.Insert(BoxOf(obj), ItemT(id, obj));
        objects := objects + 1;
      } else {
        values := values[(obj.text, id) := ItemT(id, obj)];
        nobjects := nobjects + 1;
      }
    }

    /** Stores the object and moves its index entry. The indexes stay in agreement exactly when the id is new
        or keeps its kind. */
    method Relink(id: Str, obj: Object)
      requires index.Valid() && (obj.geometry ==> Proper(BoxOf(obj)))
      modifies `items, `values, `objects, `nobjects, index
      ensures index.Valid() && items == old(items)[id := obj]
      ensures objects + nobjects == old(objects + nobjects) + if id in old(items) then 0 else 1
      ensures old(Agree()) ==> (Agree() <==> id !in old(items) || old(items)[id].geometry == obj.geometry)
      ensures Drifts(old(Layout()), Layout(), Stored(id, ObjectAt(old(items), id), obj))
    {
      hide Proper, BoxOf, Geometries, IndexAgrees, ValuesAgree, Distinct, RootOk, Bag, Drifts;
      var before := items;
      ghost var was := Layout();
      ghost var values0, bag0, objects0 := values, index.Items(), objects;
      items := items[id := obj];
      if id in before { Unlink(id, before[id], obj.geometry); }
      ghost var bag1 := index.Items();
      Link(id, obj);
      if IndexAgrees(before, bag0) && ValuesAgree(before, values0) && objects0 == |Geometries(before)| {
        ReplaceAgreement(before, values0, bag0, objects0, id, obj, bag1, values, index.Items(), objects);
      }
      ReplaceDrifts(was, id, obj, bag1, Layout());
    }

    /** Stores the object under its id, whose fields it adopts, and adjusts the counters. */
    method ReplaceItem(id: Str, obj: Object)
      requires Valid() && (obj.geometry ==> Proper(BoxOf(obj)))
      modifies this, index
      ensures Valid() && items == old(items)[id := obj]
      ensures fieldMap == old(fieldMap) && fieldValues == old(fieldValues)
      ensures old(Agree()) ==> (Agree() <==> id !in old(items) || old(items)[id].geometry == obj.geometry)
      ensures Drifts(old(Layout()), Layout(), Stored(id, ObjectAt(old(items), id), obj))
    {
      hide Sum, Weights, Positions, ContentsOf, FieldsOk, RectsOk, Proper, ValuesOf, BoxOf, Geometries, IndexAgrees,
        ValuesAgree, RootOk, Bag, Drifts;
      var before := items;
      ContentsAfterPut(items, fieldMap, fieldValues, id, obj);
      PutCounters(items, fieldMap, fieldValues, id, obj);
      PutRects(items, id, obj);
      var fields := ValuesOf(fieldValues, id);
      Relink(id, obj);
      if id in before {
        points := points - before[id].positions;
        weight := weight - 8 * |fields|;
        weight := weight - (before[id].weight + |id|);
      }
      points := points + obj.positions;
      weight := weight + 8 * |fields|;
      weight := weight + obj.weight + |id|;
    }

    /** ReplaceOrInsert: the object is stored under its id, keeping the fields the id had and then writing
        the given ones. The indexes stay in agreement exactly when the id is new or keeps its kind. */
    method ReplaceOrInsert(id: Str, obj: Object, ws: Writes)
      requires Valid() && (obj.geometry ==> Proper(BoxOf(obj)))
      modifies this, index
      ensures Valid()
      ensures Contents() == old(Contents())[id := Rec(obj, PutAll(
                if id in old(Contents()) then old(Contents())[id].fields else map[], ws))]
      ensures old(Agree()) ==> (Agree() <==> id !in old(Contents()) || old(Contents())[id].obj.geometry == obj.geometry)
      ensures Drifts(old(Layout()), Layout(), Stored(id, ObjectAt(old(items), id), obj))
    {
      hide FieldsOk, CountersOk, RectsOk, ContentsOf, RecOf, IndexAgrees, ValuesAgree, PutAll, Changes, Drifts,
        RootOk, Bag;
      ContentsAfterPut(items, fieldMap, fieldValues, id, obj);
      ContentsKeys(items, fieldMap, fieldValues);
      ReplaceItem(id, obj);
      ContentsKeys(items, fieldMap, fieldValues);
      var _, _ := SetFields(id, ws);
    }

    /** Takes a live object out of the store and out of the index it is in. */
    method Delist(id: Str)
      requires index.Valid() && id in items
      modifies `items, `values, `objects, `nobjects, index
      ensures index.Valid() && items == old(items) - {id}
      ensures objects + nobjects == old(objects + nobjects) - 1
      ensures old(Agree()) ==> Agree()
      ensures Drifts(old(Layout()), Layout(), Other)
    {
      hide BoxOf, Geometries, IndexAgrees, ValuesAgree, Distinct, RootOk, Bag, Drifts;
      var before := items;
      ghost var was := Layout();
      ghost var values0, bag0, objects0 := values, index.Items(), objects;
      items := items - {id};
      Unlink(id, before[id], before[id].geometry);
      if IndexAgrees(before, bag0) && ValuesAgree(before, values0) && objects0 == |Geometries(before)| {
        RemoveAgreement(before, values0, bag0, id, index.Items());
      }
      RemoveDrifts(was, id, Layout());
    }

    /** Removes a live object with its fields, its index entry and its share of the counters. */
    method RemoveItem(id: Str)
      requires Valid() && id in items
      modifies this, index
      ensures Valid() && items == old(items) - {id}
      ensures fieldMap == old(fieldMap) && fieldValues == old(fieldValues) - {id}
      ensures old(Agree()) ==> Agree()
      ensures Drifts(old(Layout()), Layout(), Other)
    {
      hide Sum, Weights, Positions, FieldsOk, RectsOk, ValuesOf, BoxOf, Geometries, IndexAgrees, ValuesAgree, RootOk,
        Bag, Drifts;
      FieldsAfterDrop(items, fieldMap, fieldValues, id);
      DropCounters(items, fieldValues, id);
      DropRects(items, id);
      var obj, fields := items[id], ValuesOf(fieldValues, id);
      Delist(id);
      fieldValues := fieldValues - {id};
      weight := weight - 8 * |fields|;
      weight := weight - (obj.weight + |id|);
      points := points - obj.positions;
    }

    /** Remove: the object, its fields and its index entry go; everything else stays. */
    method Remove(id: Str) returns (ok: bool)
      requires Valid()
      modifies this, index
      ensures Valid()
      ensures ok <==> id in old(Contents())
      ensures Contents() == old(Contents()) - {id}
      ensures old(Agree()) ==> Agree()
      ensures Drifts(old(Layout()), Layout(), Other)
    {
      hide CountersOk, ContentsOf, FieldsOk, RectsOk, RecOf, Geometries, IndexAgrees, ValuesAgree, RootOk, Bag, Drifts;
      NoDrift(Layout(), Other);
      ContentsKeys(items, fieldMap, fieldValues);
      ContentsAfterDrop(items, fieldMap, fieldValues, id);
      ok := id in items;
      if ok {
        RemoveItem(id);
      } else {
        DropNothing(Contents(), id);
      }
    }

    /** Any run of the three mutators: the invariant and the counters hold at its end, and the contents are those of
        the run on a plain map. An exact spatial index is exact again if and only if no geometry was replaced by a
        string; an exact value tree if and only if no string that was replaced by a geometry still has its place;
        the counter of geometries misses those gained and exceeds by those lost. All three agree again if and
        only if no replacement changed the kind of an object. */
    method Run(ops: seq<Op>)
      requires Valid() && forall k :: 0 <= k < |ops| ==> OpOk(ops[k])
      modifies this, index
      ensures Valid() && Contents() == Applied(old(Contents()), ops)
      ensures old(IndexAgrees(items, index.Items())) ==>
                (IndexAgrees(items, index.Items()) <==> LostIn(old(Contents()), ops) == 0)
      ensures old(ValuesAgree(items, values)) ==> (ValuesAgree(items, values) <==> LeftIn(old(Contents()), ops) == {})
      ensures Uncounted(Layout()) ==
                old(Uncounted(Layout())) + GainedIn(old(Contents()), ops) - LostIn(old(Contents()), ops)
      ensures old(Agree()) ==> (Agree() <==> KeepsKinds(old(Contents()), ops))
    {
      hide CountersOk, FieldsOk, RectsOk, ContentsOf, IndexAgrees, ValuesAgree, PutAll, Changes, OpOk, Geometries,
        RootOk, Bag, IndexDrifted, IndexDrifts, ValuesAre, StaleAfter, AppliedOne;
      ghost var was, start := Contents(), Layout();
      ghost var exact, ordered := IndexAgrees(items, index.Items()), ValuesAgree(items, values);
      if exact { IndexStarts(start); }
      if ordered { NothingStale(items, values); }
      assert ops[..0] == [];
      for i := 0 to |ops|
        invariant Valid() && Contents() == Applied(was, ops[..i])
        invariant exact ==> IndexDrifted(Layout(), LostIn(was, ops[..i]))
        invariant ordered ==> ValuesAre(items, values, LeftIn(was, ops[..i]))
        invariant Uncounted(Layout()) == Uncounted(start) + GainedIn(was, ops[..i]) - LostIn(was, ops[..i])
      {
        assert ops[..i + 1][..i] == ops[..i] && ops[..i + 1][i] == ops[i];
        ghost var c, from := Contents(), Layout();
        Step(ops[i]);
        if exact { IndexGoesOn(from, Layout(), LostIn(was, ops[..i]), LostBy(ChangeBy(c, ops[i]))); }
      }
      assert ops[..|ops|] == ops;
      if exact { NoWayBack(Layout(), LostIn(was, ops)); }
      if ordered { ExactIfNothingStale(items, values, LeftIn(was, ops)); }
      KeepsKindsIff(was, ops);
      if GainedIn(was, ops) == 0 { NoneGainedNoneLeft(was, ops); }
    }

    method Step(op: Op)
      requires Valid() && OpOk(op)
      modifies this, index
      ensures Valid() && Contents() == AppliedOne(old(Contents()), op)
      ensures old(Agree()) && KeepsKind(old(Contents()), op) ==> Agree()
      ensures Drifts(old(Layout()), Layout(), ChangeBy(old(Contents()), op))
    {
      hide CountersOk, FieldsOk, RectsOk, ContentsOf, IndexAgrees, ValuesAgree, PutAll, Changes, RootOk, Bag, Drifts;
      ContentsKeys(items, fieldMap, fieldValues);
      NoDrift(Layout(), Other);
      match op
      case Replace(id, obj, ws) =>
        ReplaceOrInsert(id, obj, ws);
      case Discard(id) =>
        var _ := Remove(id);
      case Write(id, ws) =>
        var _, _ := SetFields(id, ws);
    }

    /** geoSearch: while the callback does not stop it, it is given every live geometry whose rectangle meets
        the box, each once, and nothing else. */
    method GeoSearch(q: Box, stop: ItemT -> bool) returns (hits: seq<ItemT>, keepOn: bool)
      requires Valid() && IndexAgrees(items, index.Items()) && q.Box?
      ensures forall k :: 0 <= k < |hits| ==> Hit(items, q, hits[k])
      ensures forall j, k :: 0 <= j < k < |hits| ==> hits[j].id != hits[k].id
      ensures keepOn ==> forall i :: Hit(items, q, i) ==> i in hits
      ensures !keepOn ==> hits != [] && stop(hits[|hits| - 1])
      ensures forall k :: 0 <= k < |hits| && (keepOn || k < |hits| - 1) ==> !stop(hits[k])
    {
      hide CountersOk, FieldsOk, RectsOk, RootOk, IndexAgrees, ValuesAgree, RtreeSearch.Meeting, RtreeSearch.Scan, Bag,
        RtreeSearch.Until, Hit;
      var visited;
      visited, keepOn := index.Search(q, stop);
      ghost var all := RtreeSearch.Meeting(RtreeSearch.Scan(index.data), q);
      forall e: Entry<ItemT> ensures multiset(all)[e] == if Intersects(q, e.box) then index.Items()[e] else 0 {
        RtreeSearch.SearchVisitsExactly(index.data, q, e);
      }
      UntilIsPrefix(all, stop);
      hits := seq(|visited|, k requires 0 <= k < |visited| => visited[k].item);
      VisitedHits(items, index.Items(), q, all, visited, hits);
    }

    /** The SET arguments the log shrinker writes for an object: its nonzero fields, by name. */
    method FieldArgs(id: Str) returns (ws: Writes)
      requires Valid() && id in items
      ensures PutAll(map[], ws) == Contents()[id].fields
    {
      hide Named, CountersOk, RectsOk;
      var fnames := FieldArr(fieldMap);
      var fields := ValuesOf(fieldValues, id);
      ShortValues(items, fieldMap, fieldValues, id);
      ws := [];
      for i := 0 to |fields|
        invariant forall n :: Last(ws, n) == ArgFor(fieldMap, fields, i, n)
      {
        if fields[i] != 0.0 {
          var w := ws + [(fnames[i], fields[i])];
          assert w[..|w| - 1] == ws;
          ws := w;
        }
      }
      ArgsRestore(fieldMap, fields, ws);
    }
  }

  /** FieldArr: each name is put at its number, so that position i of a value list belongs to name i. */
  method FieldArr(fieldMap: map<Str, nat>) returns (arr: seq<Str>)
    requires Numbered(fieldMap)
    ensures |arr| == |fieldMap|
    ensures forall i :: 0 <= i < |arr| ==> arr[i] in fieldMap && fieldMap[arr[i]] == i
  {
    var a := new Str[|fieldMap|];
    var left := fieldMap.Keys;
    while left != {}
      invariant left <= fieldMap.Keys
      invariant forall f :: f in fieldMap && f !in left ==> a[fieldMap[f]] == f
      decreases left
    {
      var f :| f in left;
      a[fieldMap[f]] := f;
      left := left - {f};
    }
    arr := a[..];
    forall i | 0 <= i < |arr| ensures arr[i] in fieldMap && fieldMap[arr[i]] == i {
      var f := NameAt(fieldMap, i);
      assert a[fieldMap[f]] == f;
    }
  }

  /** A numbering without gaps reaches every number. */
  lemma NameAt(fieldMap: map<Str, nat>, i: nat) returns (f: Str)
    requires Numbered(fieldMap) && i < |fieldMap|
    ensures f in fieldMap && fieldMap[f] == i
  {
    if forall g :: g in fieldMap ==> fieldMap[g] != i {
      var numbers := set g | g in fieldMap :: fieldMap[g];
      TooFewNumbers(fieldMap, fieldMap.Keys, numbers);
      BoundedSet(numbers + {i}, |fieldMap|);
      assert false;
    }
    f :| f in fieldMap && fieldMap[f] == i;
  }

  lemma {:induction false} BoundedSet(s: set<nat>, n: nat)
    requires forall x :: x in s ==> x < n
    ensures |s| <= n
    decreases n
  {
    if n == 0 {
      assert s == {};
    } else {
      BoundedSet(s - {n - 1}, n - 1);
      assert s <= s - {n - 1} + {n - 1};
    }
  }

  /** Distinct numbers need as many values as there are names. */
  lemma {:induction false} TooFewNumbers(m: map<Str, nat>, names: set<Str>, numbers: set<nat>)
    requires names <= m.Keys && forall f, g :: f in m && g in m && m[f] == m[g] ==> f == g
    requires forall f :: f in names ==> m[f] in numbers
    ensures |names| <= |numbers|
    decreases names
  {
    if names != {} {
      var f :| f in names;
      TooFewNumbers(m, names - {f}, numbers - {m[f]});
    }
  }

  /** The last write to `n` among the first `i` slots of a value list. */
  ghost function ArgFor(fieldMap: map<Str, nat>, fields: seq<real>, i: nat, n: Str): Option<real>
    requires i <= |fields|
  {
    if n in fieldMap && fieldMap[n] < i && fields[fieldMap[n]] != 0.0 then Some(fields[fieldMap[n]]) else None
  }

  lemma ArgsRestore(fieldMap: map<Str, nat>, fields: seq<real>, ws: Writes)
    requires forall n :: Last(ws, n) == ArgFor(fieldMap, fields, |fields|, n)
    ensures PutAll(map[], ws) == Named(fieldMap, fields)
  {
    var none: Fields := map[];
    forall n ensures Read(PutAll(none, ws), n) == Read(Named(fieldMap, fields), n) {
      PutAllReads(none, ws, n);
      NamedReads(fieldMap, fields, n);
    }
    PutAllNoZeros(none, ws);
    NamedReads(fieldMap, fields, []);
    FieldsExtensional(PutAll(none, ws), Named(fieldMap, fields));
  }

  lemma NoFields(fieldMap: map<Str, nat>)
    ensures Named(fieldMap, []) == map[]
  {}
}
