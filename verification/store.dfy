/** `Model`: the PHP array that holds records keyed by their data string. The
    parser and both evaluators fill one with `addField`; a record whose data
    string is already a key replaces the earlier one in place, so the array
    holds one record per distinct password. */
module Store {
  import opened Records

  /** No two records of `rs` have the same data string. */
  predicate DistinctData(rs: seq<Record>)
  {
    forall i, j :: 0 <= i < j < |rs| ==> rs[i].data != rs[j].data
  }

  predicate DistinctKeys(keys: seq<string>)
  {
    forall i, j :: 0 <= i < j < |keys| ==> keys[i] != keys[j]
  }

  /** The value of the array: its keys in insertion order (the order `foreach`
      visits them) and the record stored under each key. */
  datatype Table = Table(keys: seq<string>, fields: map<string, Record>)
  {
    /** Each key is listed once, the listed keys are those of the map, and
        every record is stored under its own data string. */
    ghost predicate Valid()
    {
      && DistinctKeys(keys)
      && (forall k :: k in fields <==> k in keys)
      && (forall k :: k in fields ==> fields[k].data == k)
      && |fields| == |keys|
    }

    /** `$fields[$field->getData()] = $field`: the record is stored under its
        data string; an existing entry with that key is overwritten where it
        stands, otherwise the key is appended. */
    function Add(r: Record): (t: Table)
      requires Valid()
      ensures t.Valid()
      ensures r.data in t.fields && t.fields[r.data] == r
      ensures forall k :: k != r.data ==> (k in t.fields <==> k in fields)
      ensures forall k :: k != r.data && k in fields ==> t.fields[k] == fields[k]
      ensures r.data in fields ==> t.keys == keys && |t.fields| == |fields|
      ensures r.data !in fields ==> t.keys == keys + [r.data] && |t.fields| == |fields| + 1
    {
      var m := fields[r.data := r];
      if r.data in fields then
        assert m.Keys == fields.Keys;
        Table(keys, m)
      else
        assert m.Keys == fields.Keys + {r.data};
        Table(keys + [r.data], m)
    }

    /** The records in iteration order: each entry of the array exactly once. */
    function Values(): (rs: seq<Record>)
      requires Valid()
      ensures |rs| == |fields|
      ensures DistinctData(rs)
      ensures forall i :: 0 <= i < |rs| ==> keys[i] in fields && rs[i] == fields[keys[i]]
      ensures forall r: Record :: r in rs <==> r.data in fields && fields[r.data] == r
    {
      var rs := seq(|keys|, i requires 0 <= i < |keys| => fields[keys[i]]);
      assert forall i :: 0 <= i < |rs| ==> rs[i].data == keys[i];
      assert forall r: Record :: r.data in fields && fields[r.data] == r ==> r in rs by {
        forall r: Record | r.data in fields && fields[r.data] == r
          ensures r in rs
        {
          var i :| 0 <= i < |keys| && keys[i] == r.data;
          assert rs[i] == r;
        }
      }
      rs
    }
  }

  const Empty: Table := Table([], map[])

  /** The array after `addField` of each record of `rs`, in order, starting
      from an empty one. */
  function Build(rs: seq<Record>): (t: Table)
    ensures t.Valid()
    ensures |t.keys| <= |rs|
  {
    if rs == [] then
      assert Empty.Valid();
      Empty
    else Build(rs[..|rs| - 1]).Add(rs[|rs| - 1])
  }

  /** Adding one more record to the array built from `rs`. */
  lemma BuildAppend(rs: seq<Record>, r: Record)
    ensures Build(rs + [r]) == Build(rs).Add(r)
  {
    assert (rs + [r])[..|rs|] == rs;
  }

  /** Adding the next record of `rs` to the array built from a prefix. */
  lemma BuildStep(rs: seq<Record>, i: nat)
    requires i < |rs|
    ensures Build(rs[..i + 1]) == Build(rs[..i]).Add(rs[i])
  {
    assert rs[..i + 1] == rs[..i] + [rs[i]];
    BuildAppend(rs[..i], rs[i]);
  }

  /** Index of the last record of `rs` whose data is `d`, or -1 if none is. */
  function LastIndexOf(rs: seq<Record>, d: string): (i: int)
    ensures -1 <= i < |rs|
    ensures 0 <= i ==> rs[i].data == d
    ensures forall j :: i < j < |rs| ==> rs[j].data != d
  {
    if rs == [] then -1
    else if rs[|rs| - 1].data == d then |rs| - 1
    else LastIndexOf(rs[..|rs| - 1], d)
  }

  /** After adding `rs`, a data string is a key exactly when some record has
      it, and the record under it is the last one that has it. */
  lemma {:induction false} BuildKeepsLast(rs: seq<Record>, d: string)
    ensures d in Build(rs).fields <==> LastIndexOf(rs, d) >= 0
    ensures d in Build(rs).fields ==> Build(rs).fields[d] == rs[LastIndexOf(rs, d)]
  {
    if rs != [] {
      BuildKeepsLast(rs[..|rs| - 1], d);
    }
  }

  /** The keys are exactly the data strings of the records added. */
  lemma BuildKeys(rs: seq<Record>)
    ensures Build(rs).fields.Keys == set r | r in rs :: r.data
  {
    var t := Build(rs);
    forall d | d in t.fields
      ensures d in set r | r in rs :: r.data
    {
      BuildKeepsLast(rs, d);
      assert rs[LastIndexOf(rs, d)] in rs;
    }
    forall d | d in set r | r in rs :: r.data
      ensures d in t.fields
    {
      var r :| r in rs && r.data == d;
      var i :| 0 <= i < |rs| && rs[i] == r;
      BuildKeepsLast(rs, d);
    }
  }

  /** The data string of every record is kept, and the record kept for it is
      the last one carrying that string. */
  lemma KeptIsLast(rs: seq<Record>, i: nat)
    requires i < |rs|
    ensures exists j :: i <= j < |rs| && rs[j].data == rs[i].data && rs[j] in Build(rs).Values() &&
                        forall k :: j < k < |rs| ==> rs[k].data != rs[i].data
  {
    var d := rs[i].data;
    BuildKeepsLast(rs, d);
    var j := LastIndexOf(rs, d);
    assert rs[j] in Build(rs).Values();
  }

  /** Records with distinct data strings each get their own key, in order. */
  lemma {:induction false} BuildDistinctKeys(rs: seq<Record>)
    requires DistinctData(rs)
    ensures |Build(rs).keys| == |rs|
    ensures forall i :: 0 <= i < |rs| ==> Build(rs).keys[i] == rs[i].data
  {
    if rs != [] {
      var init, last := rs[..|rs| - 1], rs[|rs| - 1];
      BuildDistinctKeys(init);
      BuildKeepsLast(init, last.data);
      assert Build(rs) == Build(init).Add(last);
    }
  }

  /** Records with distinct data strings all survive, in their order. */
  lemma BuildDistinct(rs: seq<Record>)
    requires DistinctData(rs)
    ensures Build(rs).Values() == rs
  {
    var t := Build(rs);
    BuildDistinctKeys(rs);
    forall i | 0 <= i < |rs|
      ensures t.Values()[i] == rs[i]
    {
      BuildKeepsLast(rs, rs[i].data);
    }
  }

  /** A data string shared by two records costs the array an entry. */
  lemma {:induction false} BuildLosesDuplicates(rs: seq<Record>)
    requires !DistinctData(rs)
    ensures |Build(rs).fields| < |rs|
  {
    var init, last := rs[..|rs| - 1], rs[|rs| - 1];
    var t := Build(init);
    assert Build(rs) == t.Add(last);
    assert |Build(rs).fields| <= |t.fields| + 1;
    if !DistinctData(init) {
      BuildLosesDuplicates(init);
    } else {
      var i := RepeatedLast(rs);
      assert init[i].data == last.data;
      BuildKeepsLast(init, last.data);
      assert last.data in t.fields;
    }
  }

  /** When every record but the last has its own data string and yet two
      records share one, the last record repeats an earlier one. */
  lemma RepeatedLast(rs: seq<Record>) returns (i: nat)
    requires !DistinctData(rs) && DistinctData(rs[..|rs| - 1])
    ensures i < |rs| - 1 && rs[i].data == rs[|rs| - 1].data
  {
    var j;
    i, j :| 0 <= i < j < |rs| && rs[i].data == rs[j].data;
    assert j == |rs| - 1;
  }

  /** The array ends up with one entry per record exactly when no two records
      share a data string. */
  lemma BuildSizeDistinct(rs: seq<Record>)
    ensures |Build(rs).fields| == |rs| <==> DistinctData(rs)
  {
    if DistinctData(rs) {
      BuildDistinctKeys(rs);
    } else {
      BuildLosesDuplicates(rs);
    }
  }

  /** A second record with the same data string replaces the first: the array
      keeps one entry, the second record. */
  lemma SameDataKeepsSecond(a: Record, b: Record)
    requires a.data == b.data
    ensures Build([a, b]).Values() == [b]
  {
    assert Build([a]) == Empty.Add(a) by {
      BuildAppend([], a);
      assert [] + [a] == [a];
    }
    assert Build([a, b]) == Build([a]).Add(b) by {
      BuildAppend([a], b);
      assert [a] + [b] == [a, b];
    }
    ReplaceOnly(Build([a]), a, b);
  }

  lemma ReplaceOnly(t: Table, a: Record, b: Record)
    requires t == Empty.Add(a) && a.data == b.data
    ensures t.Add(b).Values() == [b]
  {
    assert t.keys == [a.data];
    var v := t.Add(b).Values();
    assert |v| == 1 && v[0] == b;
  }

  /** `Model`: an object holding the array, changed in place by `addField`. */
  class Model
  {
    var keys: seq<string>
    var fields: map<string, Record>

    function Value(): Table
      reads this
    {
      Table(keys, fields)
    }

    ghost predicate Valid()
      reads this
    {
      Value().Valid()
    }

    /** `new Model()`: an empty array. */
    constructor ()
      ensures Valid() && Value() == Empty
    {
      keys, fields := [], map[];
      new;
      assert Value() == Empty;
    }

    /** `addField`: stores `field` under its data string, replacing the entry
        that had it. */
    method AddField(field: Record)
      requires Valid()
      modifies this
      ensures Valid()
      ensures Value() == old(Value()).Add(field)
    {
      if field.data !in fields {
        keys := keys + [field.data];
      }
      fields := fields[field.data := field];
    }

    /** `getFields`: the stored records in iteration order. */
    function GetFields(): (rs: seq<Record>)
      reads this
      requires Valid()
      ensures |rs| == |fields| && DistinctData(rs)
      ensures forall r: Record :: r in rs <==> r.data in fields && fields[r.data] == r
    {
      Value().Values()
    }
  }
}
