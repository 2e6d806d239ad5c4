/**
  The two dictionaries built from the encoded records: `inverted_index`,
  which maps every non-missing value to the address range it occupies, and
  `inverted_category`, which maps every value to its category.

  A Python dict keeps its keys in insertion order; both are modelled as the
  ordered key list plus a map, or as a list of entries.
 */
module InvertedIndex {
  import opened Cells
  import opened Categories
  import opened Encoding
  import opened Wrappers

  /** `combine_cells`: one address stays as it is; more become "first:last", whatever lies between. */
  function CombineCells(addresses: seq<string>): (r: string)
    requires |addresses| > 0
  {
    if |addresses| == 1 then addresses[0] else addresses[0] + ":" + addresses[|addresses| - 1]
  }

  /** The distinct values of `vs`, each where it first occurs. */
  function FirstOccurrences(vs: seq<Value>): (ks: seq<Value>)
  {
    if |vs| == 0 then []
    else
      var ks := FirstOccurrences(vs[..|vs| - 1]);
      if vs[|vs| - 1] in ks then ks else ks + [vs[|vs| - 1]]
  }

  /** The values of the records, in order. */
  function ValuesOf(markdown: seq<Record>): (vs: seq<Value>)
    ensures |vs| == |markdown|
    ensures forall i :: 0 <= i < |markdown| ==> vs[i] == markdown[i].value
  {
    seq(|markdown|, i requires 0 <= i < |markdown| => markdown[i].value)
  }

  /** The addresses of the records holding `v`, in order. */
  function AddressesOf(markdown: seq<Record>, v: Value): seq<string>
  {
    if |markdown| == 0 then []
    else
      var last := markdown[|markdown| - 1];
      AddressesOf(markdown[..|markdown| - 1], v) + (if last.value == v then [last.address] else [])
  }

  /** The values that are not missing (`not pd.isna(k)`), in order. */
  function Present(ks: seq<Value>): seq<Value>
  {
    if |ks| == 0 then []
    else Present(ks[..|ks| - 1]) + (if ks[|ks| - 1].Missing? then [] else [ks[|ks| - 1]])
  }

  /** Exactly the keys that are not missing survive. */
  lemma {:induction false} PresentSpec(ks: seq<Value>)
    ensures forall v :: v in Present(ks) <==> v in ks && !v.Missing?
    decreases |ks|
  {
    if |ks| > 0 {
      PresentSpec(ks[..|ks| - 1]);
      assert ks == ks[..|ks| - 1] + [ks[|ks| - 1]];
    }
  }

  /** One entry of the inverted index. */
  datatype Entry = Entry(key: Value, range: string)

  /** Each distinct value is recorded once, and nothing else (`FirstOccurrencesOrder` gives the order). */
  lemma {:induction false} FirstOccurrencesSpec(vs: seq<Value>)
    ensures forall v :: v in FirstOccurrences(vs) <==> v in vs
    ensures forall i, j :: 0 <= i < j < |FirstOccurrences(vs)| ==> FirstOccurrences(vs)[i] != FirstOccurrences(vs)[j]
    decreases |vs|
  {
    if |vs| > 0 {
      var p := vs[..|vs| - 1];
      FirstOccurrencesSpec(p);
      assert vs == p + [vs[|vs| - 1]];
    }
  }

  /** The position of the first `v` in `vs`. */
  function FirstIndex(vs: seq<Value>, v: Value): (k: nat)
    requires v in vs
    ensures k < |vs| && vs[k] == v
    ensures forall l :: 0 <= l < k ==> vs[l] != v
  {
    if vs[0] == v then 0 else 1 + FirstIndex(vs[1..], v)
  }

  /** A value already seen in `p` is first seen at the same place once more values follow. */
  lemma FirstIndexOfPrefix(p: seq<Value>, y: Value, x: Value)
    requires x in p
    ensures FirstIndex(p + [y], x) == FirstIndex(p, x)
  {
    var k, k' := FirstIndex(p + [y], x), FirstIndex(p, x);
    assert (p + [y])[k'] == x;
    assert p[k] == x;
  }

  /** `ks` lists values of `vs` in the order in which `vs` first shows them. */
  predicate InFirstSeenOrder(ks: seq<Value>, vs: seq<Value>)
  {
    (forall i :: 0 <= i < |ks| ==> ks[i] in vs) &&
    forall i, j :: 0 <= i < j < |ks| ==> FirstIndex(vs, ks[i]) < FirstIndex(vs, ks[j])
  }

  /** The recorded values appear in the order in which the records first show them. */
  lemma {:induction false} FirstOccurrencesOrder(vs: seq<Value>)
    ensures InFirstSeenOrder(FirstOccurrences(vs), vs)
    decreases |vs|
  {
    FirstOccurrencesSpec(vs);
    if |vs| > 0 {
      var p, y := vs[..|vs| - 1], vs[|vs| - 1];
      var ks := FirstOccurrences(p);
      FirstOccurrencesOrder(p);
      FirstOccurrencesSpec(p);
      assert vs == p + [y];
      forall x | x in ks ensures FirstIndex(vs, x) == FirstIndex(p, x) && FirstIndex(vs, x) < |p| {
        FirstIndexOfPrefix(p, y, x);
      }
      forall i, j | 0 <= i < j < |ks| ensures FirstIndex(vs, ks[i]) < FirstIndex(vs, ks[j]) {
        assert ks[i] in ks && ks[j] in ks;
      }
      assert InFirstSeenOrder(ks, vs);
      if y !in ks {
        assert FirstIndex(vs, y) == |p|;
        AppendInOrder(ks, y, vs);
      }
    }
  }

  /** A value of `vs` first seen after every value of an ordered list may follow them. */
  lemma AppendInOrder(ks: seq<Value>, v: Value, vs: seq<Value>)
    requires InFirstSeenOrder(ks, vs) && v in vs
    requires forall x :: x in ks ==> FirstIndex(vs, x) < FirstIndex(vs, v)
    ensures InFirstSeenOrder(ks + [v], vs)
  {
    var r := ks + [v];
    assert forall i :: 0 <= i < |ks| ==> r[i] == ks[i];
    assert forall i :: 0 <= i < |r| ==> r[i] in vs;
    forall i, j | 0 <= i < j < |r| ensures FirstIndex(vs, r[i]) < FirstIndex(vs, r[j]) {
      if j < |ks| {
        assert r[i] == ks[i] && r[j] == ks[j];
      } else {
        assert r[i] in ks && r[j] == v;
      }
    }
  }

  /** Dropping the missing value keeps the relative order of the values that survive. */
  lemma {:induction false} PresentKeepsOrder(ks: seq<Value>, vs: seq<Value>)
    requires InFirstSeenOrder(ks, vs)
    ensures InFirstSeenOrder(Present(ks), vs)
    decreases |ks|
  {
    if |ks| > 0 {
      var front, last := ks[..|ks| - 1], ks[|ks| - 1];
      assert InFirstSeenOrder(front, vs);
      PresentKeepsOrder(front, vs);
      var ps := Present(front);
      if !last.Missing? {
        PresentSpec(front);
        forall x | x in ps ensures FirstIndex(vs, x) < FirstIndex(vs, last) {
          var a :| 0 <= a < |front| && front[a] == x;
          assert ks[a] == x;
        }
        AppendInOrder(ps, last, vs);
      }
    }
  }

  /**
    The keys of `inverted_index` are the present values in the order the
    records first show them.
   */
  lemma KeysInFirstSeenOrder(vs: seq<Value>)
    ensures forall v :: v in Present(FirstOccurrences(vs)) <==> v in vs && !v.Missing?
    ensures InFirstSeenOrder(Present(FirstOccurrences(vs)), vs)
  {
    FirstOccurrencesSpec(vs);
    PresentSpec(FirstOccurrences(vs));
    FirstOccurrencesOrder(vs);
    PresentKeepsOrder(FirstOccurrences(vs), vs);
  }

  /** A value has an address for every record that holds it, so a present value has at least one. */
  lemma {:induction false} AddressesOfSpec(markdown: seq<Record>, v: Value)
    ensures v in ValuesOf(markdown) <==> |AddressesOf(markdown, v)| > 0
    decreases |markdown|
  {
    if |markdown| > 0 {
      var p := markdown[..|markdown| - 1];
      AddressesOfSpec(p, v);
      assert ValuesOf(markdown) == ValuesOf(p) + [markdown[|markdown| - 1].value];
    }
  }

  /** The first and last addresses listed for `v` are those of its first and last records. */
  lemma {:induction false} AddressesOfEnds(markdown: seq<Record>, v: Value, i: nat, j: nat)
    requires i <= j < |markdown| && markdown[i].value == v && markdown[j].value == v
    requires forall k :: 0 <= k < i ==> markdown[k].value != v
    requires forall k :: j < k < |markdown| ==> markdown[k].value != v
    ensures |AddressesOf(markdown, v)| > 0
    ensures AddressesOf(markdown, v)[0] == markdown[i].address
    ensures AddressesOf(markdown, v)[|AddressesOf(markdown, v)| - 1] == markdown[j].address
    ensures i == j ==> AddressesOf(markdown, v) == [markdown[i].address]
    decreases |markdown|
  {
    var n := |markdown|;
    var p := markdown[..n - 1];
    if j < n - 1 {
      AddressesOfEnds(p, v, i, j);
    } else if i < j {
      AddressesOfEnds(p, v, i, PreviousOccurrence(p, v, i));
    } else {
      NoOccurrence(p, v);
    }
  }

  /** The last index up to which `v` occurs, given that it occurs at `i`. */
  function PreviousOccurrence(markdown: seq<Record>, v: Value, i: nat): (j: nat)
    requires i < |markdown| && markdown[i].value == v
    ensures i <= j < |markdown| && markdown[j].value == v
    ensures forall k :: j < k < |markdown| ==> markdown[k].value != v
    decreases |markdown| - i
  {
    if exists k :: i < k < |markdown| && markdown[k].value == v then
      var k :| i < k < |markdown| && markdown[k].value == v;
      PreviousOccurrence(markdown, v, k)
    else i
  }

  lemma {:induction false} NoOccurrence(markdown: seq<Record>, v: Value)
    requires forall k :: 0 <= k < |markdown| ==> markdown[k].value != v
    ensures AddressesOf(markdown, v) == []
    decreases |markdown|
  {
    if |markdown| > 0 {
      NoOccurrence(markdown[..|markdown| - 1], v);
    }
  }

  /** One record more: its value's address list grows by its address, every other list stays. */
  lemma AddressesOfStep(markdown: seq<Record>, i: nat, v: Value)
    requires i < |markdown|
    ensures AddressesOf(markdown[..i + 1], v)
         == AddressesOf(markdown[..i], v) + (if markdown[i].value == v then [markdown[i].address] else [])
  {
    assert markdown[..i + 1][..i] == markdown[..i];
  }

  /** One record more: its value joins the key order when it is new. */
  lemma FirstOccurrencesStep(markdown: seq<Record>, i: nat)
    requires i < |markdown|
    ensures FirstOccurrences(ValuesOf(markdown[..i + 1]))
         == var ks := FirstOccurrences(ValuesOf(markdown[..i]));
            if markdown[i].value in ks then ks else ks + [markdown[i].value]
  {
    assert ValuesOf(markdown[..i + 1])[..i] == ValuesOf(markdown[..i]);
  }

  /** One record more for the grouping loop: its address joins its value's list, a new value opening one. */
  lemma GroupStep(markdown: seq<Record>, i: nat, order: seq<Value>, lists: map<Value, seq<string>>)
    requires i < |markdown|
    requires order == FirstOccurrences(ValuesOf(markdown[..i]))
    requires forall v :: v in lists <==> v in order
    requires forall v :: v in lists ==> lists[v] == AddressesOf(markdown[..i], v)
    ensures var r := markdown[i];
      var order' := if r.value in lists then order else order + [r.value];
      var lists' := if r.value in lists then lists[r.value := lists[r.value] + [r.address]] else lists[r.value := [r.address]];
      order' == FirstOccurrences(ValuesOf(markdown[..i + 1])) &&
      (forall v :: v in lists' <==> v in order') &&
      (forall v :: v in lists' ==> lists'[v] == AddressesOf(markdown[..i + 1], v))
  {
    FirstOccurrencesStep(markdown, i);
    forall v {
      AddressesOfStep(markdown, i, v);
    }
    if markdown[i].value !in lists {
      NotListedHasNoAddress(markdown[..i], markdown[i].value);
    }
  }

  /**
    The first loop of `inverted_index`: walks the records, appending each
    address to the list of its value, a new value opening a new list.
   */
  method GroupAddresses(markdown: seq<Record>) returns (order: seq<Value>, lists: map<Value, seq<string>>)
    ensures order == FirstOccurrences(ValuesOf(markdown))
    ensures forall v :: v in lists <==> v in order
    ensures forall v :: v in lists ==> lists[v] == AddressesOf(markdown, v)
  {
    order, lists := [], map[];
    var i := 0;
    while i < |markdown|
      invariant 0 <= i <= |markdown|
      invariant order == FirstOccurrences(ValuesOf(markdown[..i]))
      invariant forall v :: v in lists <==> v in order
      invariant forall v :: v in lists ==> lists[v] == AddressesOf(markdown[..i], v)
    {
      var value, address := markdown[i].value, markdown[i].address;
      GroupStep(markdown, i, order, lists);
      if value in lists {
        lists := lists[value := lists[value] + [address]];
      } else {
        order := order + [value];
        lists := lists[value := [address]];
      }
      i := i + 1;
    }
    assert markdown[..i] == markdown;
  }

  /**
    `inverted_index(markdown)`: groups the addresses by value, drops the
    missing value and combines each group into one range.
   */
  method InvertedIndex(markdown: seq<Record>) returns (entries: seq<Entry>)
    ensures |entries| == |Present(FirstOccurrences(ValuesOf(markdown)))|
    ensures forall i :: 0 <= i < |entries| ==>
      var k := Present(FirstOccurrences(ValuesOf(markdown)))[i];
      |AddressesOf(markdown, k)| > 0 && entries[i] == Entry(k, CombineCells(AddressesOf(markdown, k)))
  {
    var order, lists := GroupAddresses(markdown);
    var keys := PresentLoop(order);
    PresentSpec(order);
    forall k | k in keys
      ensures k in lists && lists[k] == AddressesOf(markdown, k) && |lists[k]| > 0
    {
      KeyHasAddresses(markdown, k);
    }
    entries := CombineAll(keys, lists);
  }

  /** The last comprehension of `inverted_index`: each key's address list becomes one range. */
  method CombineAll(keys: seq<Value>, lists: map<Value, seq<string>>) returns (entries: seq<Entry>)
    requires forall k :: k in keys ==> k in lists && |lists[k]| > 0
    ensures |entries| == |keys|
    ensures forall t :: 0 <= t < |keys| ==> entries[t] == Entry(keys[t], CombineCells(lists[keys[t]]))
  {
    entries := [];
    var j := 0;
    while j < |keys|
      invariant 0 <= j <= |keys|
      invariant |entries| == j
      invariant forall t :: 0 <= t < j ==> entries[t] == Entry(keys[t], CombineCells(lists[keys[t]]))
    {
      entries := entries + [Entry(keys[j], CombineCells(lists[keys[j]]))];
      j := j + 1;
    }
  }

  /** A key of the grouping has at least one address. */
  lemma KeyHasAddresses(markdown: seq<Record>, k: Value)
    requires k in FirstOccurrences(ValuesOf(markdown))
    ensures |AddressesOf(markdown, k)| > 0
  {
    FirstOccurrencesSpec(ValuesOf(markdown));
    AddressesOfSpec(markdown, k);
  }

  lemma NotListedHasNoAddress(markdown: seq<Record>, v: Value)
    requires v !in FirstOccurrences(ValuesOf(markdown))
    ensures AddressesOf(markdown, v) == []
  {
    FirstOccurrencesSpec(ValuesOf(markdown));
    AddressesOfSpec(markdown, v);
  }

  /** The dict comprehension that drops the missing key, as a loop over the keys in order. */
  method PresentLoop(ks: seq<Value>) returns (r: seq<Value>)
    ensures r == Present(ks)
  {
    r := [];
    var i := 0;
    while i < |ks|
      invariant 0 <= i <= |ks|
      invariant r == Present(ks[..i])
    {
      assert ks[..i + 1][..i] == ks[..i];
      if !ks[i].Missing? {
        r := r + [ks[i]];
      }
      i := i + 1;
    }
    assert ks[..i] == ks;
  }

  /**
    A worked case: `x` at the first and third records, a blank between them
    and `y` at the fourth. The blank gets no entry ...
   */
  lemma InvertedIndexExampleKeys(x: Value, y: Value, a: string, b: string, c: string, d: string)
    requires x != y && !x.Missing? && !y.Missing?
    ensures var m := [Record(a, x, []), Record(b, Missing, []), Record(c, x, []), Record(d, y, [])];
            Present(FirstOccurrences(ValuesOf(m))) == [x, y]
  {
    var m := [Record(a, x, []), Record(b, Missing, []), Record(c, x, []), Record(d, y, [])];
    assert ValuesOf(m) == [x, Missing, x, y];
    ExampleOrder(x, y);
    ExamplePresent(x, y);
  }

  /** ... and the greedy range for `x` runs from its first to its last address, over the blank. */
  lemma InvertedIndexExampleRanges(x: Value, y: Value, a: string, b: string, c: string, d: string)
    requires x != y && !x.Missing? && !y.Missing?
    ensures var m := [Record(a, x, []), Record(b, Missing, []), Record(c, x, []), Record(d, y, [])];
            AddressesOf(m, x) == [a, c] && CombineCells(AddressesOf(m, x)) == a + ":" + c &&
            AddressesOf(m, y) == [d] && CombineCells(AddressesOf(m, y)) == d
  {
    var m := [Record(a, x, []), Record(b, Missing, []), Record(c, x, []), Record(d, y, [])];
    assert m[..3][..2] == m[..2] && m[..2][..1] == m[..1] && m[..1][..0] == [];
    assert AddressesOf(m[..1], x) == [a] && AddressesOf(m[..1], y) == [];
    assert AddressesOf(m[..2], x) == [a] && AddressesOf(m[..2], y) == [];
    assert AddressesOf(m[..3], x) == [a, c] && AddressesOf(m[..3], y) == [];
  }

  lemma ExampleOrder(x: Value, y: Value)
    requires x != y && !x.Missing? && !y.Missing?
    ensures FirstOccurrences([x, Missing, x, y]) == [x, Missing, y]
  {
    assert [x, Missing, x, y][..3] == [x, Missing, x];
    assert [x, Missing, x][..2] == [x, Missing] && [x, Missing][..1] == [x] && [x][..0] == [];
    assert FirstOccurrences([x]) == [x];
    assert FirstOccurrences([x, Missing]) == [x, Missing];
    assert FirstOccurrences([x, Missing, x]) == [x, Missing];
  }

  lemma ExamplePresent(x: Value, y: Value)
    requires !x.Missing? && !y.Missing?
    ensures Present([x, Missing, y]) == [x, y]
  {
    assert [x, Missing, y][..2] == [x, Missing];
    assert [x, Missing][..1] == [x] && [x][..0] == [];
    assert Present([x]) == [x];
    assert Present([x, Missing]) == [x];
  }

  /**
    The category column as `inverted_category` reads it: the record at `i`
    has category `category[i]`, and a later record with the same value
    overwrites an earlier one.
   */
  function CategoryMap(markdown: seq<Record>, category: seq<string>): map<Value, string>
    requires |category| == |markdown|
  {
    if |markdown| == 0 then map[]
    else
      var n := |markdown|;
      CategoryMap(markdown[..n - 1], category[..n - 1])[markdown[n - 1].value := category[n - 1]]
  }

  /** Every value of the sheet, the missing one included, gets a category, and nothing else does. */
  lemma {:induction false} CategoryMapKeys(markdown: seq<Record>, category: seq<string>)
    requires |category| == |markdown|
    ensures forall v :: v in CategoryMap(markdown, category) <==> v in ValuesOf(markdown)
    decreases |markdown|
  {
    if |markdown| > 0 {
      var n := |markdown|;
      CategoryMapKeys(markdown[..n - 1], category[..n - 1]);
      assert ValuesOf(markdown) == ValuesOf(markdown[..n - 1]) + [markdown[n - 1].value];
    }
  }

  /** The category kept for a value is that of its last record. */
  lemma {:induction false} CategoryMapLast(markdown: seq<Record>, category: seq<string>, j: nat)
    requires |category| == |markdown| && j < |markdown|
    requires forall k :: j < k < |markdown| ==> markdown[k].value != markdown[j].value
    ensures markdown[j].value in CategoryMap(markdown, category)
    ensures CategoryMap(markdown, category)[markdown[j].value] == category[j]
    decreases |markdown|
  {
    var n := |markdown|;
    if j < n - 1 {
      CategoryMapLast(markdown[..n - 1], category[..n - 1], j);
    }
  }

  /**
    When each record's category is computed from its value alone, as
    `markdown['Value'].apply(get_category)` does, the dictionary gives every
    value exactly that category: which record wins does not matter.
   */
  lemma {:induction false} CategoryMapOfValues(markdown: seq<Record>, category: seq<string>, guess: string -> Option<string>)
    requires |category| == |markdown|
    requires forall i :: 0 <= i < |markdown| ==> category[i] == CategoryText(GetCategory(markdown[i].value, guess))
    ensures forall v :: v in CategoryMap(markdown, category) ==> CategoryMap(markdown, category)[v] == CategoryText(GetCategory(v, guess))
    decreases |markdown|
  {
    if |markdown| > 0 {
      var n := |markdown|;
      CategoryMapOfValues(markdown[..n - 1], category[..n - 1], guess);
    }
  }

  /** `inverted_category(markdown)`: one pass over the records, each overwriting its value's entry. */
  method InvertedCategory(markdown: seq<Record>, category: seq<string>) returns (d: map<Value, string>)
    requires |category| == |markdown|
    ensures d == CategoryMap(markdown, category)
    ensures forall v :: v in d <==> v in ValuesOf(markdown)
  {
    d := map[];
    var i := 0;
    while i < |markdown|
      invariant 0 <= i <= |markdown|
      invariant d == CategoryMap(markdown[..i], category[..i])
    {
      assert markdown[..i + 1][..i] == markdown[..i];
      assert category[..i + 1][..i] == category[..i];
      d := d[markdown[i].value := category[i]];
      i := i + 1;
    }
    assert markdown[..i] == markdown && category[..i] == category;
    CategoryMapKeys(markdown, category);
  }
}
