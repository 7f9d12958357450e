/**
 * The spectral-type resolver: `closest_sptype`, `closest_target` and
 * `available_sptypes` of arcesetc/util.py, over the two lookup tables that
 * the module loads at import time and then only reads.
 */
module SpTypes {
  import opened Outcomes
  import opened Nearest
  import TextOrder

  type Label = string

  /** `sptypes`: spectral-type label -> archive target name. */
  type Catalog = map<Label, string>

  /**
   * `sptype_to_temp`: spectral-type label -> temperature proxy. `keys` is the
   * dictionary's iteration order, which decides ties in the nearest match.
   */
  datatype TempTable = TempTable(keys: seq<Label>, temp: map<Label, real>)

  /** What a dictionary is: each key once, and exactly the keys of the map. */
  predicate WellFormed(t: TempTable) {
    Distinct(t.keys)
    && (forall l :: l in t.keys ==> l in t.temp)
    && (forall l :: l in t.temp ==> l in t.keys)
  }

  datatype SpTypeError =
    | NoMatch(sptype: string)       // the ValueError: neither catalogued nor a dwarf label
    | NoTemperature(sptype: string) // the KeyError of `sptype_to_temp[sptype]`
    | NoDwarfs                      // argmin over an empty `temps`

  /** A label eligible for the nearest-dwarf search: 3 characters ending in "V". */
  predicate IsDwarfLabel(s: string) {
    |s| == 3 && s[2] == 'V'
  }

  /** `spectral_types`: the table's keys that the catalog also has, in table order. */
  function SpectralTypes(keys: seq<Label>, catalog: Catalog): (r: seq<Label>)
    ensures forall l :: l in r <==> l in keys && l in catalog
    ensures |r| <= |keys|
  {
    if keys == [] then []
    else (if keys[0] in catalog then [keys[0]] else []) + SpectralTypes(keys[1..], catalog)
  }

  predicate Distinct(s: seq<Label>) {
    forall i, j :: 0 <= i < j < |s| ==> s[i] != s[j]
  }

  /** `spectral_types` repeats no label, since the table repeats no key. */
  lemma {:induction false} SpectralTypesDistinct(keys: seq<Label>, catalog: Catalog)
    requires Distinct(keys)
    ensures Distinct(SpectralTypes(keys, catalog))
  {
    if keys != [] {
      var tail := keys[1..];
      assert Distinct(tail) by {
        forall i, j | 0 <= i < j < |tail| ensures tail[i] != tail[j] {
          assert tail[i] == keys[i + 1] && tail[j] == keys[j + 1];
        }
      }
      SpectralTypesDistinct(tail, catalog);
      var rest := SpectralTypes(tail, catalog);
      assert keys[0] !in tail by {
        forall j | 0 <= j < |tail| ensures tail[j] != keys[0] {
          assert tail[j] == keys[j + 1];
        }
      }
      var r := SpectralTypes(keys, catalog);
      if keys[0] in catalog {
        assert r == [keys[0]] + rest;
        forall i, j | 0 <= i < j < |r| ensures r[i] != r[j] {
          assert r[j] == rest[j - 1];
          if i > 0 { assert r[i] == rest[i - 1]; }
        }
      } else {
        assert r == rest;
      }
    }
  }

  /** `temps`: the temperature of each of `spectral_types`, position by position. */
  function Temps(t: TempTable, types: seq<Label>): (r: seq<real>)
    requires forall l :: l in types ==> l in t.temp
    ensures |r| == |types|
    ensures forall i :: 0 <= i < |types| ==> r[i] == t.temp[types[i]]
  {
    seq(|types|, i requires 0 <= i < |types| => t.temp[types[i]])
  }

  /**
   * `resolved` is a catalogued dwarf whose temperature is nearest to that of
   * `sptype` among the catalogued keys of the table, and every catalogued key
   * before it in table order is strictly farther.
   */
  predicate IsNearestDwarf(catalog: Catalog, t: TempTable, sptype: string, resolved: Label)
    requires WellFormed(t) && sptype in t.temp
  {
    var x := t.temp[sptype];
    resolved in catalog && resolved in t.temp
    && (forall p :: 0 <= p < |t.keys| && t.keys[p] in catalog ==>
          Dist(t.temp[resolved], x) <= Dist(t.temp[t.keys[p]], x))
    && (forall p, q :: 0 <= p < q < |t.keys| && t.keys[q] == resolved && t.keys[p] in catalog ==>
          Dist(t.temp[t.keys[p]], x) > Dist(t.temp[resolved], x))
  }

  /**
   * `spectral_types` keeps the table's order: two of its entries stand in the
   * same order as the table keys they come from.
   */
  lemma {:induction false} SpectralTypesOrdered(keys: seq<Label>, catalog: Catalog, i: int, j: int, p: int, q: int)
    requires Distinct(keys)
    requires 0 <= i < |SpectralTypes(keys, catalog)| && 0 <= j < |SpectralTypes(keys, catalog)|
    requires 0 <= p < |keys| && 0 <= q < |keys|
    requires keys[p] == SpectralTypes(keys, catalog)[i] && keys[q] == SpectralTypes(keys, catalog)[j]
    ensures i < j <==> p < q
    ensures i == j <==> p == q
    decreases |keys|
  {
    var tail := keys[1..];
    var rest := SpectralTypes(tail, catalog);
    DistinctTail(keys);
    if keys[0] in catalog {
      HeadIsFirst(keys, catalog, i, p);
      HeadIsFirst(keys, catalog, j, q);
      if i > 0 && j > 0 {
        SpectralTypesOrdered(tail, catalog, i - 1, j - 1, p - 1, q - 1);
      }
    } else {
      assert SpectralTypes(keys, catalog) == rest;
      SpectralTypesOrdered(tail, catalog, i, j, p - 1, q - 1);
    }
  }

  /** Dropping the first key of a dictionary's key list leaves a duplicate-free list without it. */
  lemma DistinctTail(keys: seq<Label>)
    requires Distinct(keys) && |keys| > 0
    ensures Distinct(keys[1..])
    ensures forall p :: 0 < p < |keys| ==> keys[p] != keys[0]
  {
    var tail := keys[1..];
    forall a, b | 0 <= a < b < |tail| ensures tail[a] != tail[b] {
      assert tail[a] == keys[a + 1] && tail[b] == keys[b + 1];
    }
  }

  /**
   * When the first key is catalogued it heads `spectral_types`, and an entry
   * comes from the first key exactly when it is the head.
   */
  lemma HeadIsFirst(keys: seq<Label>, catalog: Catalog, i: int, p: int)
    requires Distinct(keys) && |keys| > 0 && keys[0] in catalog
    requires 0 <= i < |SpectralTypes(keys, catalog)| && 0 <= p < |keys|
    requires keys[p] == SpectralTypes(keys, catalog)[i]
    ensures i == 0 <==> p == 0
    ensures i > 0 ==> keys[1..][p - 1] == SpectralTypes(keys[1..], catalog)[i - 1]
  {
    var rest := SpectralTypes(keys[1..], catalog);
    assert SpectralTypes(keys, catalog) == [keys[0]] + rest;
    DistinctTail(keys);
    if i > 0 {
      assert rest[i - 1] in rest;
      assert keys[p] in keys[1..];
    }
  }

  /**
   * The first-minimum index over `spectral_types` is the first minimum over
   * the catalogued keys in table order.
   */
  lemma NearestInTableOrder(catalog: Catalog, t: TempTable, sptype: string, k: nat)
    requires WellFormed(t) && sptype in t.temp
    requires |SpectralTypes(t.keys, catalog)| > 0
    requires IsFirstNearest(Temps(t, SpectralTypes(t.keys, catalog)), t.temp[sptype], k)
    ensures IsNearestDwarf(catalog, t, sptype, SpectralTypes(t.keys, catalog)[k])
  {
    var types := SpectralTypes(t.keys, catalog);
    var temps := Temps(t, types);
    var resolved := types[k];
    assert resolved in types;
    forall p, q | 0 <= p < q < |t.keys| && t.keys[q] == resolved && t.keys[p] in catalog
      ensures Dist(t.temp[t.keys[p]], t.temp[sptype]) > Dist(t.temp[resolved], t.temp[sptype])
    {
      assert t.keys[p] in types;
      var i :| 0 <= i < |types| && types[i] == t.keys[p];
      SpectralTypesOrdered(t.keys, catalog, i, k, p, q);
      assert temps[i] == t.temp[t.keys[p]];
    }
    forall p | 0 <= p < |t.keys| && t.keys[p] in catalog
      ensures Dist(t.temp[resolved], t.temp[sptype]) <= Dist(t.temp[t.keys[p]], t.temp[sptype])
    {
      assert t.keys[p] in types;
      var i :| 0 <= i < |types| && types[i] == t.keys[p];
      assert temps[i] == t.temp[t.keys[p]];
    }
  }

  /**
   * closest_sptype: an exact catalog hit unchanged; else, for a 3-character
   * "V" label, the catalogued dwarf nearest in temperature (first on ties);
   * else an error.
   */
  function ClosestSpType(catalog: Catalog, t: TempTable, sptype: string): (r: Result<Label, SpTypeError>)
    requires WellFormed(t)
    ensures r.Ok? <==> (sptype in catalog
                        || (IsDwarfLabel(sptype) && sptype in t.temp && |SpectralTypes(t.keys, catalog)| > 0))
    ensures sptype in catalog ==> r == Ok(sptype)
    ensures sptype !in catalog && !IsDwarfLabel(sptype) ==> r == Err(NoMatch(sptype))
    ensures sptype !in catalog && IsDwarfLabel(sptype) && sptype !in t.temp ==> r == Err(NoTemperature(sptype))
    ensures sptype !in catalog && IsDwarfLabel(sptype) && sptype in t.temp && |SpectralTypes(t.keys, catalog)| == 0
      ==> r == Err(NoDwarfs)
    ensures r.Ok? ==> r.value in catalog
    ensures r.Ok? && sptype !in catalog ==> sptype in t.temp && IsNearestDwarf(catalog, t, sptype, r.value)
  {
    if sptype in catalog then Ok(sptype)
    else if IsDwarfLabel(sptype) then
      if sptype !in t.temp then Err(NoTemperature(sptype))
      else
        var types := SpectralTypes(t.keys, catalog);
        if |types| == 0 then Err(NoDwarfs)
        else
          var k := NearestIndex(Temps(t, types), t.temp[sptype]);
          NearestInTableOrder(catalog, t, sptype, k);
          Ok(types[k])
    else Err(NoMatch(sptype))
  }

  /** closest_target: the archive target of the resolved label, and the label. */
  function ClosestTarget(catalog: Catalog, t: TempTable, sptype: string): (r: Result<(string, Label), SpTypeError>)
    requires WellFormed(t)
    ensures r.Ok? <==> ClosestSpType(catalog, t, sptype).Ok?
    ensures r.Ok? ==>
      r.value.1 == ClosestSpType(catalog, t, sptype).value
      && r.value.1 in catalog && r.value.0 == catalog[r.value.1]
    ensures r.Err? ==> r == Err(ClosestSpType(catalog, t, sptype).error)
  {
    match ClosestSpType(catalog, t, sptype)
    case Ok(resolved) => Ok((catalog[resolved], resolved))
    case Err(e) => Err(e)
  }

  /** available_sptypes: the catalog's labels, each once, in ascending order. */
  function AvailableSpTypes(catalog: Catalog): (r: seq<Label>)
    ensures |r| == |catalog|
    ensures forall l :: l in r <==> l in catalog
    ensures TextOrder.StrictlyAscending(r)
  {
    TextOrder.Sorted(catalog.Keys)
  }
}
