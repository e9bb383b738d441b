/** Canonical JSON for content addressing (ci/emit-evidence/emit-evidence.ts). */
module CanonicalJson {
  import opened Prelude
  import opened Sorting
  import opened Json

  predicate KeyLe(a: Field, b: Field) {
    StringLe(a.key, b.key)
  }

  /** The value with every object's keys sorted, at every depth; arrays keep their order. */
  function SortDeep(v: Value): Value {
    match v
    case Arr(items) => Arr(DeepItems(items))
    case Obj(fields) => Obj(Sort(DeepFields(fields), KeyLe))
    case _ => v
  }

  function DeepItems(items: seq<Value>): (r: seq<Value>)
    ensures |r| == |items|
  {
    if |items| == 0 then [] else DeepItems(items[..|items| - 1]) + [SortDeep(items[|items| - 1])]
  }

  function DeepFields(fields: seq<Field>): (r: seq<Field>)
    ensures |r| == |fields|
  {
    if |fields| == 0 then []
    else
      var f := fields[|fields| - 1];
      DeepFields(fields[..|fields| - 1]) + [Field(f.key, SortDeep(f.value))]
  }

  function StableStringify(v: Value): string {
    Print(SortDeep(v))
  }

  // ---------- the order of the two steps ----------

  function Deep(f: Field): Field {
    Field(f.key, SortDeep(f.value))
  }

  lemma {:induction false} DeepFieldsAt(fields: seq<Field>, i: nat)
    requires i < |fields|
    ensures DeepFields(fields)[i] == Deep(fields[i])
  {
    if i < |fields| - 1 {
      DeepFieldsAt(fields[..|fields| - 1], i);
    }
  }

  lemma DeepFieldsSnoc(fields: seq<Field>, f: Field)
    ensures DeepFields(fields + [f]) == DeepFields(fields) + [Deep(f)]
  {
    assert (fields + [f])[..|fields|] == fields;
  }

  lemma {:induction false} DeepInsert(fields: seq<Field>, f: Field)
    ensures DeepFields(Insert(fields, f, KeyLe)) == Insert(DeepFields(fields), Deep(f), KeyLe)
  {
    if |fields| == 0 {
      DeepFieldsSnoc([], f);
      assert [] + [f] == [f];
    } else {
      var before, last := Init(fields), Last(fields);
      assert Init(DeepFields(fields)) == DeepFields(before);
      if KeyLe(last, f) {
        DeepFieldsSnoc(fields, f);
      } else {
        DeepInsert(before, f);
        DeepFieldsSnoc(Insert(before, f, KeyLe), last);
      }
    }
  }

  /** Sorting the entries and then their values, as the code does, or the other way round: the same. */
  lemma {:induction false} SortThenDeepen(fields: seq<Field>)
    ensures DeepFields(Sort(fields, KeyLe)) == Sort(DeepFields(fields), KeyLe)
  {
    if |fields| > 0 {
      SortThenDeepen(Init(fields));
      DeepInsert(Sort(Init(fields), KeyLe), Last(fields));
      assert Init(DeepFields(fields)) == DeepFields(Init(fields));
    }
  }

  // ---------- equality up to key order ----------

  /** No object has a key twice. */
  ghost predicate NoRepeatedKeys(v: Value) {
    match v
    case Arr(items) => forall i :: 0 <= i < |items| ==> NoRepeatedKeys(items[i])
    case Obj(fields) =>
      KeysDiffer(fields) && forall i :: 0 <= i < |fields| ==> NoRepeatedKeys(fields[i].value)
    case _ => true
  }

  ghost predicate KeysDiffer(fields: seq<Field>) {
    forall i: nat, j: nat :: i < j < |fields| ==> fields[i].key != fields[j].key
  }

  /** Equal but for the order of keys, at every depth. */
  ghost predicate SameTree(v: Value, w: Value) {
    match (v, w)
    case (Arr(xs), Arr(ys)) => |xs| == |ys| && forall i :: 0 <= i < |xs| ==> SameTree(xs[i], ys[i])
    case (Obj(fs), Obj(gs)) => |fs| == |gs| && forall i :: 0 <= i < |fs| ==> HasLike(fs[i], gs)
    case _ => v == w
  }

  /** Some field of the list has the same key and the same tree. */
  ghost predicate HasLike(f: Field, gs: seq<Field>) {
    exists j :: 0 <= j < |gs| && gs[j].key == f.key && SameTree(f.value, gs[j].value)
  }

  lemma {:induction false} DeepItemsAt(items: seq<Value>, i: nat)
    requires i < |items|
    ensures DeepItems(items)[i] == SortDeep(items[i])
  {
    if i < |items| - 1 {
      DeepItemsAt(items[..|items| - 1], i);
    }
  }

  lemma {:induction false} OnceEach(fields: seq<Field>, f: Field)
    requires KeysDiffer(fields)
    ensures multiset(fields)[f] <= 1
  {
    if |fields| > 0 {
      var before := Init(fields);
      assert fields == before + [Last(fields)];
      OnceEach(before, f);
      if f == Last(fields) {
        assert f !in before;
        assert multiset(before)[f] == 0;
      }
    }
  }

  /** Lists of distinct keys and equal length: containment is multiset equality. */
  lemma SameFieldsIff(xs: seq<Field>, ys: seq<Field>)
    requires KeysDiffer(xs) && KeysDiffer(ys)
    ensures multiset(xs) == multiset(ys) <==> |xs| == |ys| && forall i :: 0 <= i < |xs| ==> xs[i] in ys
  {
    assert |multiset(xs)| == |xs| && |multiset(ys)| == |ys|;
    if |xs| == |ys| && forall i :: 0 <= i < |xs| ==> xs[i] in ys {
      forall f
        ensures multiset(xs)[f] <= multiset(ys)[f]
      {
        OnceEach(xs, f);
        if f in xs {
          assert f in multiset(ys);
        } else {
          assert multiset(xs)[f] == 0;
        }
      }
      assert multiset(xs) <= multiset(ys);
      assert |multiset(ys) - multiset(xs)| == 0;
    }
    if multiset(xs) == multiset(ys) {
      forall i | 0 <= i < |xs|
        ensures xs[i] in ys
      {
        SameMultisetSameMembers(xs, ys, xs[i]);
      }
    }
  }

  lemma DeepKeepsKeys(fields: seq<Field>)
    ensures KeysDiffer(DeepFields(fields)) <==> KeysDiffer(fields)
  {
    forall i: nat | i < |fields|
      ensures DeepFields(fields)[i].key == fields[i].key
    {
      DeepFieldsAt(fields, i);
    }
  }

  lemma KeyFixesPosition(fields: seq<Field>, i: nat, j: nat)
    requires KeysDiffer(fields) && i < |fields| && j < |fields| && fields[i].key == fields[j].key
    ensures i == j
  {
  }

  lemma DistinctNoTies(fields: seq<Field>)
    requires KeysDiffer(fields)
    ensures NoTies(fields, KeyLe) && TotalPreorder(KeyLe)
  {
    StringOrder();
    forall f, g | f in fields && g in fields && KeyLe(f, g) && KeyLe(g, f)
      ensures f == g
    {
      var i: nat :| i < |fields| && fields[i] == f;
      var j: nat :| j < |fields| && fields[j] == g;
      KeyFixesPosition(fields, i, j);
    }
  }

  /** With distinct keys, sorting fields loses exactly their order. */
  lemma SortedFieldsIff(xs: seq<Field>, ys: seq<Field>)
    requires KeysDiffer(xs) && KeysDiffer(ys)
    ensures Sort(xs, KeyLe) == Sort(ys, KeyLe) <==> multiset(xs) == multiset(ys)
  {
    SortMultiset(xs, KeyLe);
    SortMultiset(ys, KeyLe);
    if multiset(xs) == multiset(ys) {
      DistinctNoTies(xs);
      SortIgnoresOrder(xs, ys, KeyLe);
    }
  }

  ghost predicate AllIn(xs: seq<Field>, ys: seq<Field>) {
    forall i :: 0 <= i < |xs| ==> xs[i] in ys
  }

  lemma SortedFieldsSameIff(xs: seq<Field>, ys: seq<Field>)
    requires KeysDiffer(xs) && KeysDiffer(ys)
    ensures Sort(xs, KeyLe) == Sort(ys, KeyLe) <==> |xs| == |ys| && AllIn(xs, ys)
  {
    SortedFieldsIff(xs, ys);
    SameFieldsIff(xs, ys);
  }

  /** The canonical values are equal exactly when the trees are. */
  lemma {:induction false} SortDeepIff(v: Value, w: Value)
    requires NoRepeatedKeys(v) && NoRepeatedKeys(w)
    ensures SortDeep(v) == SortDeep(w) <==> SameTree(v, w)
  {
    match v
    case Arr(xs) => if w.Arr? { ItemsIff(xs, w.items); }
    case Obj(fs) => if w.Obj? { FieldsIff(fs, w.fields); }
    case _ =>
  }

  lemma {:induction false} ItemsIff(xs: seq<Value>, ys: seq<Value>)
    requires forall i :: 0 <= i < |xs| ==> NoRepeatedKeys(xs[i])
    requires forall i :: 0 <= i < |ys| ==> NoRepeatedKeys(ys[i])
    ensures DeepItems(xs) == DeepItems(ys) <==> |xs| == |ys| && forall i :: 0 <= i < |xs| ==> SameTree(xs[i], ys[i])
  {
    if |xs| == |ys| {
      forall i | 0 <= i < |xs|
        ensures DeepItems(xs)[i] == DeepItems(ys)[i] <==> SameTree(xs[i], ys[i])
      {
        DeepItemsAt(xs, i);
        DeepItemsAt(ys, i);
        SortDeepIff(xs[i], ys[i]);
      }
    }
  }

  lemma {:induction false} FieldsIff(fs: seq<Field>, gs: seq<Field>)
    requires NoRepeatedKeys(Obj(fs)) && NoRepeatedKeys(Obj(gs))
    ensures Sort(DeepFields(fs), KeyLe) == Sort(DeepFields(gs), KeyLe) <==> SameTree(Obj(fs), Obj(gs))
    decreases fs, 1
  {
    DeepKeepsKeys(fs);
    DeepKeepsKeys(gs);
    SortedFieldsSameIff(DeepFields(fs), DeepFields(gs));
    DeepInIff(fs, gs);
  }

  lemma {:induction false} DeepInIff(fs: seq<Field>, gs: seq<Field>)
    requires forall i :: 0 <= i < |fs| ==> NoRepeatedKeys(fs[i].value)
    requires forall j :: 0 <= j < |gs| ==> NoRepeatedKeys(gs[j].value)
    ensures AllIn(DeepFields(fs), DeepFields(gs)) <==> forall i :: 0 <= i < |fs| ==> HasLike(fs[i], gs)
    decreases fs, 0
  {
    forall i | 0 <= i < |fs|
      ensures DeepFields(fs)[i] in DeepFields(gs) <==> HasLike(fs[i], gs)
    {
      FieldIff(fs, i, gs);
    }
  }

  lemma {:induction false} FieldIff(fs: seq<Field>, i: nat, gs: seq<Field>)
    requires i < |fs| && NoRepeatedKeys(fs[i].value) && forall j :: 0 <= j < |gs| ==> NoRepeatedKeys(gs[j].value)
    ensures DeepFields(fs)[i] in DeepFields(gs) <==> HasLike(fs[i], gs)
    decreases fs[i]
  {
    DeepFieldsAt(fs, i);
    forall j: nat | j < |gs|
      ensures DeepFields(gs)[j] == DeepFields(fs)[i] <==> gs[j].key == fs[i].key && SameTree(fs[i].value, gs[j].value)
    {
      DeepFieldsAt(gs, j);
      SortDeepIff(fs[i].value, gs[j].value);
    }
  }

  /** Canonical JSON is canonical: one string for all key orders, different strings for different trees. */
  lemma StableStringifyIsCanonical(v: Value, w: Value)
    requires NoRepeatedKeys(v) && NoRepeatedKeys(w)
    ensures StableStringify(v) == StableStringify(w) <==> SameTree(v, w)
  {
    SortDeepIff(v, w);
    if StableStringify(v) == StableStringify(w) {
      PrintInjective(SortDeep(v), SortDeep(w));
    }
  }

  // ---------- the order of the keys ----------

  /** In every object, at every depth, the keys ascend by UTF-16 code units. */
  ghost predicate KeysAscend(v: Value) {
    match v
    case Arr(items) => forall i :: 0 <= i < |items| ==> KeysAscend(items[i])
    case Obj(fields) =>
      Ascends(fields) && forall i :: 0 <= i < |fields| ==> KeysAscend(fields[i].value)
    case _ => true
  }

  ghost predicate Ascends(fields: seq<Field>) {
    forall i: nat, j: nat :: i < j < |fields| ==> LexLe(Units(fields[i].key), Units(fields[j].key))
  }

  lemma SortedAscends(fields: seq<Field>)
    ensures Ascends(Sort(fields, KeyLe))
  {
    StringOrder();
    SortSorted(fields, KeyLe);
    var sorted := Sort(fields, KeyLe);
    forall i: nat, j: nat | i < j < |sorted|
      ensures LexLe(Units(sorted[i].key), Units(sorted[j].key))
    {
      assert KeyLe(sorted[i], sorted[j]);
      StringLeIsCodeUnitOrder(sorted[i].key, sorted[j].key);
    }
  }

  lemma {:induction false} DeepValuesAscend(fields: seq<Field>)
    ensures forall f :: f in DeepFields(fields) ==> KeysAscend(f.value)
  {
    if |fields| > 0 {
      var n := |fields| - 1;
      DeepValuesAscend(fields[..n]);
      CanonicalKeysAscend(fields[n].value);
    }
  }

  lemma {:induction false} DeepItemsAscend(items: seq<Value>)
    ensures forall i :: 0 <= i < |items| ==> KeysAscend(DeepItems(items)[i])
  {
    if |items| > 0 {
      var n := |items| - 1;
      DeepItemsAscend(items[..n]);
      CanonicalKeysAscend(items[n]);
    }
  }

  /** Canonical values have their keys in order, everywhere. */
  lemma {:induction false} CanonicalKeysAscend(v: Value)
    ensures KeysAscend(SortDeep(v))
  {
    match v
    case Arr(items) => DeepItemsAscend(items);
    case Obj(fields) =>
      DeepValuesAscend(fields);
      SortedAscends(DeepFields(fields));
      var sorted := Sort(DeepFields(fields), KeyLe);
      SortMultiset(DeepFields(fields), KeyLe);
      forall i | 0 <= i < |sorted|
        ensures KeysAscend(sorted[i].value)
      {
        SameMultisetSameMembers(sorted, DeepFields(fields), sorted[i]);
      }
    case _ =>
  }

  // ---------- parsing and printing again ----------

  lemma {:induction false} SortOfSorted(xs: seq<Field>)
    requires Sorted(xs, KeyLe)
    ensures Sort(xs, KeyLe) == xs
  {
    if |xs| > 0 {
      SortOfSorted(Init(xs));
      assert xs == Init(xs) + [Last(xs)];
    }
  }

  lemma {:induction false} SortDeepTwice(v: Value)
    ensures SortDeep(SortDeep(v)) == SortDeep(v)
  {
    match v
    case Arr(items) => DeepItemsTwice(items);
    case Obj(fields) =>
      DeepFieldsTwice(fields);
      SortThenDeepen(DeepFields(fields));
      StringOrder();
      SortSorted(DeepFields(fields), KeyLe);
      SortOfSorted(Sort(DeepFields(fields), KeyLe));
    case _ =>
  }

  lemma {:induction false} DeepItemsTwice(items: seq<Value>)
    ensures DeepItems(DeepItems(items)) == DeepItems(items)
  {
    if |items| > 0 {
      var n := |items| - 1;
      DeepItemsTwice(items[..n]);
      SortDeepTwice(items[n]);
      assert DeepItems(items)[..n] == DeepItems(items[..n]);
    }
  }

  lemma {:induction false} DeepFieldsTwice(fields: seq<Field>)
    ensures DeepFields(DeepFields(fields)) == DeepFields(fields)
  {
    if |fields| > 0 {
      var n := |fields| - 1;
      DeepFieldsTwice(fields[..n]);
      SortDeepTwice(fields[n].value);
      assert DeepFields(fields)[..n] == DeepFields(fields[..n]);
    }
  }

  /** The canonical text parses, and stringifies to itself. */
  lemma ReparseAndRestringify(v: Value)
    ensures Parse(StableStringify(v)).Some?
    ensures StableStringify(Parse(StableStringify(v)).value) == StableStringify(v)
  {
    ParsePrint(SortDeep(v));
    SortDeepTwice(v);
  }

  // ---------- only the order of keys changes ----------

  lemma TwoPlaces(ys: seq<Field>, i: nat, j: nat)
    requires i < j < |ys| && ys[i] == ys[j]
    ensures multiset(ys)[ys[i]] >= 2
  {
    assert ys == ys[..j] + ys[j..];
    assert ys[i] == ys[..j][i] && ys[j] == ys[j..][0];
    assert ys[i] in multiset(ys[..j]) && ys[i] in multiset(ys[j..]);
  }

  lemma PermutedKeysDiffer(xs: seq<Field>, ys: seq<Field>)
    requires KeysDiffer(xs) && multiset(xs) == multiset(ys)
    ensures KeysDiffer(ys)
  {
    forall i: nat, j: nat | i < j < |ys|
      ensures ys[i].key != ys[j].key
    {
      SameMultisetSameMembers(xs, ys, ys[i]);
      SameMultisetSameMembers(xs, ys, ys[j]);
      OnceEach(xs, ys[i]);
      if ys[i] == ys[j] {
        TwoPlaces(ys, i, j);
      }
    }
  }

  lemma {:induction false} CanonicalItemsKeepKeys(items: seq<Value>)
    requires forall i :: 0 <= i < |items| ==> NoRepeatedKeys(items[i])
    ensures forall i :: 0 <= i < |items| ==> NoRepeatedKeys(DeepItems(items)[i])
  {
    forall i: nat | i < |items|
      ensures NoRepeatedKeys(DeepItems(items)[i])
    {
      DeepItemsAt(items, i);
      CanonicalKeepsKeys(items[i]);
    }
  }

  lemma {:induction false} CanonicalFieldsKeepKeys(fields: seq<Field>)
    requires NoRepeatedKeys(Obj(fields))
    ensures NoRepeatedKeys(Obj(Sort(DeepFields(fields), KeyLe)))
    decreases fields
  {
    var deep, sorted := DeepFields(fields), Sort(DeepFields(fields), KeyLe);
    DeepKeepsKeys(fields);
    SortMultiset(deep, KeyLe);
    PermutedKeysDiffer(deep, sorted);
    forall i: nat | i < |fields|
      ensures NoRepeatedKeys(deep[i].value)
    {
      DeepFieldsAt(fields, i);
      CanonicalKeepsKeys(fields[i].value);
    }
    forall i: nat | i < |sorted|
      ensures NoRepeatedKeys(sorted[i].value)
    {
      SameMultisetSameMembers(sorted, deep, sorted[i]);
    }
  }

  lemma {:induction false} CanonicalKeepsKeys(v: Value)
    requires NoRepeatedKeys(v)
    ensures NoRepeatedKeys(SortDeep(v))
  {
    match v
    case Arr(items) => CanonicalItemsKeepKeys(items);
    case Obj(fields) => CanonicalFieldsKeepKeys(fields);
    case _ =>
  }

  /** The canonical value is the same tree: arrays keep their order, and no key, item or scalar is changed or lost. */
  lemma CanonicalKeepsTheTree(v: Value)
    requires NoRepeatedKeys(v)
    ensures SameTree(v, SortDeep(v)) && KeysAscend(SortDeep(v))
  {
    CanonicalKeepsKeys(v);
    CanonicalKeysAscend(v);
    SortDeepTwice(v);
    SortDeepIff(v, SortDeep(v));
  }
}
