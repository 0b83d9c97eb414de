/** `normalize_json` of utils.py: a canonical form for documents whose list values may come in
    any order. */
module NormalizeJson {
  import opened PyText
  import opened JsonOrder

  /** The result for a dictionary value: lists are sorted and the dictionaries in them
      normalised, dictionaries are normalised, the rest is kept. None stands for TypeError. */
  function NormValue(v: Json): Option<Json>
    decreases v, 0
  {
    match v
    case List(xs) =>
      if !Sortable(xs) then None else
        var ys := Sort(xs);
        assert forall i :: 0 <= i < |ys| ==> ys[i] in multiset(ys);
        if exists i :: 0 <= i < |ys| && NormItem(ys[i]).None? then None
        else Some(List(seq(|ys|, i requires 0 <= i < |ys| => NormItem(ys[i]).value)))
    case Dict(m) =>
      if exists k :: k in m && NormValue(m[k]).None? then None
      else Some(Dict(map k | k in m :: NormValue(m[k]).value))
    case _ => Some(v)
  }

  /** The result for an element of a list value: lists inside lists are left as they are. */
  function NormItem(v: Json): Option<Json>
    decreases v, 1
  {
    if v.Dict? then NormValue(v) else Some(v)
  }

  /** `sort_list_values` on a copy of the document: a loop over the values, sorting lists, with a
      recursive call for every dictionary in a value. */
  method SortListValues(doc: Json) returns (r: Option<Json>)
    requires doc.Dict?
    ensures r == NormValue(doc)
    decreases doc
  {
    hide Sort, Sortable, NormItem;
    var fields := doc.fields;
    var todo := fields.Keys;
    while todo != {}
      invariant todo <= doc.fields.Keys == fields.Keys
      invariant forall k :: k in todo ==> fields[k] == doc.fields[k]
      invariant forall k :: k in fields && k !in todo ==> NormValue(doc.fields[k]) == Some(fields[k])
    {
      var k :| k in todo;
      var v, value := fields[k], Some(fields[k]);
      if v.List? {
        value := SortListValue(v);
      } else if v.Dict? {
        value := SortListValues(v);
      }
      if value.None? { return None; }
      fields, todo := fields[k := value.value], todo - {k};
    }
    assert NormValue(doc).value.fields == fields;
    return Some(Dict(fields));
  }

  /** The branch for a value that is a list. */
  method SortListValue(v: Json) returns (r: Option<Json>)
    requires v.List?
    ensures r == NormValue(v)
    decreases v
  {
    hide Sort, Sortable;
    if !Sortable(v.items) { return None; }
    var ys := Sort(v.items);
    var zs := ys;
    for i := 0 to |ys|
      invariant |zs| == |ys|
      invariant forall j :: 0 <= j < i ==> NormItem(ys[j]) == Some(zs[j])
      invariant forall j :: i <= j < |ys| ==> zs[j] == ys[j]
    {
      if zs[i].Dict? {
        assert zs[i] in multiset(ys);
        assert zs[i] in v.items;
        var item := SortListValues(zs[i]);
        if item.None? { return None; }
        zs := zs[i := item.value];
      }
    }
    assert NormValue(v).value.items == zs;
    return Some(List(zs));
  }

  // ---------- documents that differ only in the order of list values ----------

  predicate EquivValue(x: Json, y: Json)
    decreases x, 0
  {
    match (x, y)
    case (List(xs), List(ys)) => EquivItems(xs, ys)
    case (Dict(a), Dict(b)) => a.Keys == b.Keys && forall k :: k in a ==> EquivValue(a[k], b[k])
    case _ => x == y
  }

  predicate EquivItem(x: Json, y: Json)
    decreases x, 1
  {
    if x.Dict? && y.Dict? then EquivValue(x, y) else x == y
  }

  /** The elements can be paired off so that each pair is equal, dictionaries up to equivalence. */
  predicate EquivItems(xs: seq<Json>, ys: seq<Json>)
    decreases xs, 0
  {
    if xs == [] then ys == [] else
      exists j :: 0 <= j < |ys| && EquivItem(xs[0], ys[j]) && EquivItems(xs[1..], Drop(ys, j))
  }

  predicate NoDicts(xs: seq<Json>) { forall i :: 0 <= i < |xs| ==> !xs[i].Dict? }

  lemma SortableNoDicts(xs: seq<Json>)
    requires Sortable(xs) && |xs| >= 2
    ensures NoDicts(xs)
  {
    assert Comparable(xs[0], xs[1]);
    forall i | 0 <= i < |xs| ensures !xs[i].Dict? {
      assert i > 0 ==> Comparable(xs[0], xs[i]);
    }
  }

  lemma {:induction false} EquivPlain(xs: seq<Json>, ys: seq<Json>)
    requires EquivItems(xs, ys) && (NoDicts(xs) || NoDicts(ys))
    ensures multiset(xs) == multiset(ys)
    decreases |xs|
  {
    if xs != [] {
      var j :| 0 <= j < |ys| && EquivItem(xs[0], ys[j]) && EquivItems(xs[1..], Drop(ys, j));
      assert xs[0] == ys[j];
      assert NoDicts(xs) ==> NoDicts(xs[1..]);
      assert NoDicts(ys) ==> NoDicts(Drop(ys, j));
      EquivPlain(xs[1..], Drop(ys, j));
      Dropped(ys, j);
      OneMore(xs, ys, ys[j], multiset(Drop(ys, j)));
    }
  }

  lemma OneMore(xs: seq<Json>, ys: seq<Json>, y: Json, rest: multiset<Json>)
    requires xs != [] && xs[0] == y && multiset(xs[1..]) == rest
    requires y in multiset(ys) && rest == multiset(ys) - multiset{y}
    ensures multiset(xs) == multiset(ys)
  {
    assert xs == [xs[0]] + xs[1..];
  }

  lemma {:induction false} PlainEquiv(xs: seq<Json>, ys: seq<Json>)
    requires multiset(xs) == multiset(ys) && NoDicts(xs)
    ensures EquivItems(xs, ys)
    decreases |xs|
  {
    assert |multiset(xs)| == |xs| && |multiset(ys)| == |ys|;
    if xs != [] {
      assert xs == [xs[0]] + xs[1..];
      assert xs[0] in multiset(ys);
      var j :| 0 <= j < |ys| && ys[j] == xs[0];
      Dropped(ys, j);
      assert multiset(xs[1..]) == multiset(xs) - multiset{xs[0]};
      PlainEquiv(xs[1..], Drop(ys, j));
      assert EquivItem(xs[0], ys[j]);
    }
  }

  lemma {:induction false} EquivLength(xs: seq<Json>, ys: seq<Json>)
    requires EquivItems(xs, ys)
    ensures |xs| == |ys|
    decreases |xs|
  {
    if xs != [] {
      var j :| 0 <= j < |ys| && EquivItem(xs[0], ys[j]) && EquivItems(xs[1..], Drop(ys, j));
      EquivLength(xs[1..], Drop(ys, j));
    }
  }

  /** A list without dictionaries normalises to its sorted form; a list of one keeps its place. */
  lemma NormPlain(xs: seq<Json>)
    requires Sortable(xs) && NoDicts(xs)
    ensures NormValue(List(xs)) == Some(List(Sort(xs)))
  {
    hide Sort, Sortable;
    var ys := Sort(xs);
    forall i | 0 <= i < |ys| ensures NormItem(ys[i]) == Some(ys[i]) {
      assert ys[i] in multiset(ys);
      assert ys[i] in xs;
    }
    assert NormValue(List(xs)).value.items == ys;
  }

  lemma NormOne(v: Json)
    requires v.List? && |v.items| == 1
    ensures NormValue(v).Some? <==> NormItem(v.items[0]).Some?
    ensures NormValue(v).Some? ==> var n := NormValue(v).value;
      n.List? && |n.items| == 1 && n.items[0] == NormItem(v.items[0]).value
  {
    var xs := v.items;
    assert xs[1..] == [];
    assert Sort(xs) == xs;
  }

  lemma EquivOne(xs: seq<Json>, ys: seq<Json>)
    requires |xs| == 1 && |ys| == 1
    ensures EquivItems(xs, ys) <==> EquivItem(xs[0], ys[0])
  {
    assert xs[1..] == [] && Drop(ys, 0) == [];
    if EquivItem(xs[0], ys[0]) {
      assert EquivItems(xs[1..], Drop(ys, 0));
    }
  }

  /** Equivalent documents have the same normal form, or fail together. */
  lemma {:induction false} EquivSameNorm(x: Json, y: Json)
    requires EquivValue(x, y)
    ensures NormValue(x) == NormValue(y)
    decreases x
  {
    match x {
      case List(xs) =>
        var ys := y.items;
        EquivLength(xs, ys);
        if |xs| == 0 {
        } else if |xs| == 1 {
          EquivOne(xs, ys);
          if xs[0].Dict? && ys[0].Dict? {
            EquivSameNorm(xs[0], ys[0]);
          }
          SingleSameNorm(x, y);
        } else {
          EquivLists(xs, ys);
        }
      case Dict(a) =>
        forall k | k in a ensures NormValue(a[k]) == NormValue(y.fields[k]) {
          EquivSameNorm(a[k], y.fields[k]);
        }
        SameFieldsNorm(a, y.fields);
      case _ =>
    }
  }

  lemma SingleSameNorm(x: Json, y: Json)
    requires x.List? && |x.items| == 1 && y.List? && |y.items| == 1
    requires NormItem(x.items[0]) == NormItem(y.items[0])
    ensures NormValue(x) == NormValue(y)
  {
    hide NormValue;
    NormOne(x);
    NormOne(y);
    if NormValue(x).Some? {
      assert NormValue(x).value.items == NormValue(y).value.items;
    }
  }

  lemma SameFieldsNorm(a: map<string, Json>, b: map<string, Json>)
    requires a.Keys == b.Keys && forall k :: k in a ==> NormValue(a[k]) == NormValue(b[k])
    ensures NormValue(Dict(a)) == NormValue(Dict(b))
  {
    if NormValue(Dict(a)).Some? {
      assert forall k :: k in b ==> NormValue(b[k]).Some?;
      assert NormValue(Dict(a)).value.fields == NormValue(Dict(b)).value.fields;
    }
  }

  lemma EquivLists(xs: seq<Json>, ys: seq<Json>)
    requires EquivItems(xs, ys) && |xs| >= 2 && |ys| >= 2
    ensures NormValue(List(xs)) == NormValue(List(ys))
  {
    if Sortable(xs) || Sortable(ys) {
      if Sortable(xs) {
        SortableNoDicts(xs);
        EquivPlain(xs, ys);
        SortablePermuted(xs, ys);
      } else {
        SortableNoDicts(ys);
        EquivPlain(xs, ys);
        SortablePermuted(ys, xs);
      }
      SortableNoDicts(xs);
      SortableNoDicts(ys);
      NormPlain(xs);
      NormPlain(ys);
      SortCanonical(xs, ys);
    }
  }

  /** Documents with the same normal form are equivalent. */
  lemma {:induction false} SameNormEquiv(x: Json, y: Json)
    requires NormValue(x).Some? && NormValue(x) == NormValue(y)
    ensures EquivValue(x, y)
    decreases x
  {
    hide NormValue;
    SameNormKind(x, y);
    match x {
      case List(xs) =>
        var ys := y.items;
        NormLength(xs);
        NormLength(ys);
        if |xs| == 1 {
          SameNormSingle(x, y);
          if xs[0].Dict? {
            SameNormEquiv(xs[0], ys[0]);
          }
          EquivOne(xs, ys);
        } else if |xs| >= 2 {
          SameNormLists(xs, ys);
        }
      case Dict(a) =>
        var b := y.fields;
        SameNormFields(a, b);
        forall k | k in a ensures EquivValue(a[k], b[k]) {
          SameNormEquiv(a[k], b[k]);
        }
      case _ =>
    }
  }

  lemma SameNormKind(x: Json, y: Json)
    requires NormValue(x).Some? && NormValue(x) == NormValue(y)
    ensures x.List? == y.List? && x.Dict? == y.Dict?
    ensures !x.List? && !x.Dict? ==> x == y
  {}

  lemma SameNormFields(a: map<string, Json>, b: map<string, Json>)
    requires NormValue(Dict(a)).Some? && NormValue(Dict(a)) == NormValue(Dict(b))
    ensures a.Keys == b.Keys
    ensures forall k :: k in a ==> NormValue(a[k]).Some? && NormValue(a[k]) == NormValue(b[k])
  {
    var n := NormValue(Dict(a)).value.fields;
    assert n.Keys == a.Keys == b.Keys;
    forall k | k in a ensures NormValue(a[k]) == Some(n[k]) == NormValue(b[k]) {}
  }

  lemma NormLength(xs: seq<Json>)
    ensures var n := NormValue(List(xs)); n.Some? ==> n.value.List? && |n.value.items| == |xs|
  {}

  lemma NormKind(v: Json)
    ensures NormItem(v).Some? ==> NormItem(v).value.Dict? == v.Dict?
  {}

  lemma SameNormSingle(x: Json, y: Json)
    requires x.List? && |x.items| == 1 && y.List? && |y.items| == 1
    requires NormValue(x).Some? && NormValue(x) == NormValue(y)
    ensures var a, b := x.items[0], y.items[0];
      a.Dict? == b.Dict? && if a.Dict? then NormValue(a).Some? && NormValue(a) == NormValue(b) else a == b
  {
    hide NormValue;
    NormOne(x);
    NormOne(y);
    NormKind(x.items[0]);
    NormKind(y.items[0]);
  }

  lemma SameNormLists(xs: seq<Json>, ys: seq<Json>)
    requires |xs| >= 2 && |ys| >= 2
    requires NormValue(List(xs)).Some? && NormValue(List(xs)) == NormValue(List(ys))
    ensures EquivItems(xs, ys)
  {
    SortableNoDicts(xs);
    SortableNoDicts(ys);
    NormPlain(xs);
    NormPlain(ys);
    SortCanonical(xs, ys);
    PlainEquiv(xs, ys);
  }

  /** The canonical-form theorem: where normalising a document succeeds, another document has the
      same normal form exactly when the two differ only in the order of list values. */
  lemma Canonical(a: Json, b: Json)
    requires NormValue(a).Some?
    ensures NormValue(a) == NormValue(b) <==> EquivValue(a, b)
  {
    if NormValue(a) == NormValue(b) {
      SameNormEquiv(a, b);
    }
    if EquivValue(a, b) {
      EquivSameNorm(a, b);
    }
  }

  /** Normalising again changes nothing. */
  lemma {:induction false} NormTwice(v: Json)
    requires NormValue(v).Some?
    ensures NormValue(NormValue(v).value) == NormValue(v)
    decreases v
  {
    var n := NormValue(v).value;
    match v {
      case List(xs) =>
        if |xs| == 0 {
          assert n == v;
        } else if |xs| == 1 {
          NormOne(v);
          NormOne(n);
          if xs[0].Dict? {
            NormTwice(xs[0]);
          }
          NormKind(xs[0]);
          SingleSameNorm(v, n);
        } else {
          SortableNoDicts(xs);
          NormPlain(xs);
          SortablePermuted(xs, Sort(xs));
          SortableNoDicts(Sort(xs));
          NormPlain(Sort(xs));
          SortCanonical(xs, Sort(xs));
        }
      case Dict(a) =>
        forall k | k in a ensures NormValue(n.fields[k]) == Some(n.fields[k]) {
          NormTwice(a[k]);
        }
        assert NormValue(n).value.fields == n.fields;
      case _ =>
    }
  }

  /** The normal form is the document itself up to the order of list values: no element is lost,
      added or changed. */
  lemma NormConserves(v: Json)
    requires NormValue(v).Some?
    ensures EquivValue(v, NormValue(v).value)
  {
    NormTwice(v);
    SameNormEquiv(v, NormValue(v).value);
  }

  /** Every list met through dictionaries, and through dictionaries held in such lists, has
      mutually comparable elements or at most one element. */
  ghost predicate InDomain(v: Json)
  {
    match v
    case List(xs) => Sortable(xs) && forall i :: 0 <= i < |xs| && xs[i].Dict? ==> InDomain(xs[i])
    case Dict(m) => forall k :: k in m ==> InDomain(m[k])
    case _ => true
  }

  /** Normalising fails exactly outside that domain. */
  lemma {:induction false} DefinedOnDomain(v: Json)
    ensures NormValue(v).Some? <==> InDomain(v)
    decreases v
  {
    match v {
      case List(xs) =>
        forall i | 0 <= i < |xs| && xs[i].Dict? ensures NormValue(xs[i]).Some? <==> InDomain(xs[i]) {
          DefinedOnDomain(xs[i]);
        }
        if Sortable(xs) {
          if |xs| == 1 {
            NormOne(v);
          } else if |xs| >= 2 {
            SortableNoDicts(xs);
            NormPlain(xs);
          }
        }
      case Dict(m) =>
        forall k | k in m ensures NormValue(m[k]).Some? <==> InDomain(m[k]) {
          DefinedOnDomain(m[k]);
        }
      case _ =>
    }
  }

  /** So a list value that holds a dictionary beside anything else, such as the cells of a NUMA
      topology with two or more cells, makes the whole document fail. */
  lemma DictInLongListFails(doc: Json, k: string, i: nat)
    requires doc.Dict? && k in doc.fields && doc.fields[k].List?
    requires var xs := doc.fields[k].items; |xs| >= 2 && i < |xs| && xs[i].Dict?
    ensures NormValue(doc) == None
  {
    var xs := doc.fields[k].items;
    if Sortable(xs) {
      SortableNoDicts(xs);
      assert false;
    }
    assert NormValue(doc.fields[k]) == None;
  }

  /** A normalised list value ascends in Python's order. */
  lemma NormAscends(xs: seq<Json>, i: nat, j: nat)
    requires NormValue(List(xs)).Some? && i < j < |xs|
    ensures var ys := NormValue(List(xs)).value.items;
      |ys| == |xs| && (ys[i] == ys[j] || Below(ys[i], ys[j])) && !Below(ys[j], ys[i])
  {
    SortableNoDicts(xs);
    NormPlain(xs);
    var ys := Sort(xs);
    SortSorted(xs);
    SortablePermuted(xs, ys);
    LessTotal(ys[i], ys[j]);
    LessMeaning(ys[i], ys[j]);
    LessMeaning(ys[j], ys[i]);
  }

  /** Lists of numbers always normalise, to the same numbers in ascending order. */
  lemma NormNumbers(xs: seq<Json>)
    requires forall i :: 0 <= i < |xs| ==> xs[i].Num?
    ensures NormValue(List(xs)).Some?
    ensures var ys := NormValue(List(xs)).value.items;
      && multiset(ys) == multiset(xs) && |ys| == |xs|
      && (forall i :: 0 <= i < |ys| ==> ys[i].Num?)
      && forall i, j :: 0 <= i < j < |ys| ==> ys[i].n <= ys[j].n
  {
    NormPlain(xs);
    var ys := Sort(xs);
    forall i | 0 <= i < |ys| ensures ys[i].Num? {
      assert ys[i] in multiset(ys);
    }
    forall i, j | 0 <= i < j < |ys| ensures ys[i].n <= ys[j].n {
      NormAscends(xs, i, j);
    }
  }

  /** Lists of texts always normalise, to the same texts in dictionary order. */
  lemma NormTexts(xs: seq<Json>)
    requires forall i :: 0 <= i < |xs| ==> xs[i].Text?
    ensures NormValue(List(xs)).Some?
    ensures var ys := NormValue(List(xs)).value.items;
      && multiset(ys) == multiset(xs) && |ys| == |xs|
      && (forall i :: 0 <= i < |ys| ==> ys[i].Text?)
      && forall i, j :: 0 <= i < j < |ys| ==> ys[i].s == ys[j].s || TextBelow(ys[i].s, ys[j].s)
  {
    NormPlain(xs);
    var ys := Sort(xs);
    forall i | 0 <= i < |ys| ensures ys[i].Text? {
      assert ys[i] in multiset(ys);
    }
    forall i, j | 0 <= i < j < |ys| ensures ys[i].s == ys[j].s || TextBelow(ys[i].s, ys[j].s) {
      NormAscends(xs, i, j);
    }
  }
}
