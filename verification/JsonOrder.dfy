/** JSON documents and Python's `<` on them, as `list.sort` uses it. */
module JsonOrder {

  datatype Json = Null | Num(n: int) | Text(s: string) | List(items: seq<Json>) | Dict(fields: map<string, Json>)

  function TextLess(a: string, b: string): bool
  {
    if b == [] then false
    else if a == [] then true
    else if a[0] == b[0] then TextLess(a[1..], b[1..])
    else a[0] < b[0]
  }

  /** `a < b` evaluates to True. */
  predicate Less(a: Json, b: Json)
    decreases a, 0
  {
    match (a, b)
    case (Num(m), Num(n)) => m < n
    case (Text(s), Text(t)) => TextLess(s, t)
    case (List(xs), List(ys)) => ItemsLess(xs, ys)
    case _ => false
  }

  /** Lists compare by their first unequal elements, else by length. */
  predicate ItemsLess(xs: seq<Json>, ys: seq<Json>)
    decreases xs, 0
  {
    if ys == [] then false
    else if xs == [] then true
    else if xs[0] == ys[0] then ItemsLess(xs[1..], ys[1..])
    else Less(xs[0], ys[0])
  }

  /** `a < b` raises no TypeError. */
  predicate Comparable(a: Json, b: Json)
    decreases a, 0
  {
    match (a, b)
    case (Num(_), Num(_)) => true
    case (Text(_), Text(_)) => true
    case (List(xs), List(ys)) => ItemsComparable(xs, ys)
    case _ => false
  }

  predicate ItemsComparable(xs: seq<Json>, ys: seq<Json>)
    decreases xs, 0
  {
    xs == [] || ys == [] ||
    if xs[0] == ys[0] then ItemsComparable(xs[1..], ys[1..]) else Comparable(xs[0], ys[0])
  }

  // ---------- what `<` means ----------

  /** The texts agree before place i, and there a ends while b goes on, or a has the smaller character. */
  ghost predicate TextSplitAt(a: string, b: string, i: nat)
  {
    i <= |a| && i < |b| && a[..i] == b[..i] && (i == |a| || a[i] < b[i])
  }

  ghost predicate TextBelow(a: string, b: string) { exists i: nat :: TextSplitAt(a, b, i) }

  /** Numbers by size, texts by their first difference, lists by their first unequal elements and
      else by length; nothing else is below anything. */
  ghost predicate Below(a: Json, b: Json)
  {
    match (a, b)
    case (Num(m), Num(n)) => m < n
    case (Text(s), Text(t)) => TextBelow(s, t)
    case (List(xs), List(ys)) =>
      exists i: nat :: FirstUnequal(xs, ys, i) && i < |ys| && (i == |xs| || Below(xs[i], ys[i]))
    case _ => false
  }

  /** The lists agree before place i and not at it. */
  ghost predicate FirstUnequal(xs: seq<Json>, ys: seq<Json>, i: nat)
  {
    && i <= |xs| && i <= |ys| && xs[..i] == ys[..i]
    && (i < |xs| || i < |ys|) && (i < |xs| && i < |ys| ==> xs[i] != ys[i])
  }

  /** `a < b` raises TypeError: the two are of different kinds, or both null, or both dictionaries, or
      lists whose first unequal elements raise it. */
  ghost predicate Raises(a: Json, b: Json)
  {
    match (a, b)
    case (Num(_), Num(_)) => false
    case (Text(_), Text(_)) => false
    case (List(xs), List(ys)) =>
      exists i: nat :: FirstUnequal(xs, ys, i) && i < |xs| && i < |ys| && Raises(xs[i], ys[i])
    case _ => true
  }

  lemma FirstCharsEqual(a: string, b: string, i: nat)
    requires 0 < i <= |a| && i <= |b| && a[..i] == b[..i]
    ensures a[0] == b[0]
  {
    assert a[..i][0] == b[..i][0];
  }

  lemma {:induction false} TextLessMeaning(a: string, b: string)
    ensures TextLess(a, b) <==> TextBelow(a, b)
  {
    if a == [] || b == [] {
      assert b != [] ==> TextSplitAt(a, b, 0);
    } else if a[0] != b[0] {
      assert a[0] < b[0] ==> TextSplitAt(a, b, 0);
      forall i: nat | TextSplitAt(a, b, i) ensures i == 0 {
        if i > 0 {
          FirstCharsEqual(a, b, i);
          assert false;
        }
      }
    } else {
      TextLessMeaning(a[1..], b[1..]);
      forall i: nat | TextSplitAt(a[1..], b[1..], i) ensures TextSplitAt(a, b, i + 1) {
        assert a[..i + 1] == [a[0]] + a[1..][..i] && b[..i + 1] == [b[0]] + b[1..][..i];
      }
      forall i: nat | TextSplitAt(a, b, i) ensures i > 0 && TextSplitAt(a[1..], b[1..], i - 1) {
        assert i > 0 ==> a[1..][..i - 1] == a[..i][1..] && b[1..][..i - 1] == b[..i][1..];
      }
    }
  }

  lemma FirstUnequalStep(xs: seq<Json>, ys: seq<Json>, i: nat)
    requires xs != [] && ys != []
    ensures xs[0] != ys[0] ==> (FirstUnequal(xs, ys, i) <==> i == 0)
    ensures xs[0] == ys[0] ==> (FirstUnequal(xs, ys, i) <==> i > 0 && FirstUnequal(xs[1..], ys[1..], i - 1))
  {
    if i > 0 && i <= |xs| && i <= |ys| {
      assert xs[..i][0] == xs[0] && ys[..i][0] == ys[0];
      assert xs[..i] == [xs[0]] + xs[1..][..i - 1] && ys[..i] == [ys[0]] + ys[1..][..i - 1];
      assert xs[1..][..i - 1] == xs[..i][1..] && ys[1..][..i - 1] == ys[..i][1..];
    }
  }

  /** `Less` and `Comparable` are exactly these relations. */
  lemma {:induction false} LessMeaning(a: Json, b: Json)
    ensures Less(a, b) <==> Below(a, b)
    ensures Comparable(a, b) <==> !Raises(a, b)
    decreases a, 0
  {
    match (a, b) {
      case (Text(s), Text(t)) => TextLessMeaning(s, t);
      case (List(xs), List(ys)) => ItemsLessMeaning(xs, ys);
      case _ =>
    }
  }

  ghost predicate ItemsBelow(xs: seq<Json>, ys: seq<Json>)
  {
    exists i: nat :: FirstUnequal(xs, ys, i) && i < |ys| && (i == |xs| || Below(xs[i], ys[i]))
  }

  ghost predicate ItemsRaise(xs: seq<Json>, ys: seq<Json>)
  {
    exists i: nat :: FirstUnequal(xs, ys, i) && i < |xs| && i < |ys| && Raises(xs[i], ys[i])
  }

  lemma {:induction false} ItemsLessMeaning(xs: seq<Json>, ys: seq<Json>)
    ensures ItemsLess(xs, ys) <==> ItemsBelow(xs, ys)
    ensures ItemsComparable(xs, ys) <==> !ItemsRaise(xs, ys)
    decreases xs, 1
  {
    if xs == [] || ys == [] {
      assert xs == [] && ys != [] ==> FirstUnequal(xs, ys, 0);
    } else {
      forall i: nat ensures xs[0] != ys[0] ==> (FirstUnequal(xs, ys, i) <==> i == 0)
        ensures xs[0] == ys[0] ==> (FirstUnequal(xs, ys, i) <==> i > 0 && FirstUnequal(xs[1..], ys[1..], i - 1))
      {
        FirstUnequalStep(xs, ys, i);
      }
      if xs[0] != ys[0] {
        LessMeaning(xs[0], ys[0]);
        assert FirstUnequal(xs, ys, 0);
      } else {
        ItemsLessMeaning(xs[1..], ys[1..]);
        TailsAgree(xs, ys);
      }
    }
  }

  lemma TailsAgree(xs: seq<Json>, ys: seq<Json>)
    requires xs != [] && ys != [] && xs[0] == ys[0]
    ensures ItemsBelow(xs, ys) <==> ItemsBelow(xs[1..], ys[1..])
    ensures ItemsRaise(xs, ys) <==> ItemsRaise(xs[1..], ys[1..])
  {
    forall i: nat ensures FirstUnequal(xs, ys, i) <==> i > 0 && FirstUnequal(xs[1..], ys[1..], i - 1) {
      FirstUnequalStep(xs, ys, i);
    }
    forall i: nat | FirstUnequal(xs[1..], ys[1..], i) ensures FirstUnequal(xs, ys, i + 1) {
      FirstUnequalStep(xs, ys, i + 1);
    }
  }

  // ---------- where it does not raise, `<` is a strict total order ----------

  lemma {:induction false} TextLessTotal(a: string, b: string)
    ensures a != b ==> TextLess(a, b) != TextLess(b, a)
    ensures !TextLess(a, a)
    decreases |a|
  {
    if a != [] {
      TextLessTotal(a[1..], a[1..]);
      if b != [] && a[0] == b[0] {
        TextLessTotal(a[1..], b[1..]);
        assert a == [a[0]] + a[1..] && b == [b[0]] + b[1..];
      }
    }
  }

  lemma {:induction false} TextLessTransitive(a: string, b: string, c: string)
    requires TextLess(a, b) && TextLess(b, c)
    ensures TextLess(a, c)
  {
    if a != [] && a[0] == b[0] == c[0] {
      TextLessTransitive(a[1..], b[1..], c[1..]);
    }
  }

  lemma {:induction false} LessTotal(a: Json, b: Json)
    ensures !Less(a, a)
    ensures Comparable(a, b) <==> Comparable(b, a)
    ensures Comparable(a, b) && a != b ==> Less(a, b) != Less(b, a)
    ensures Less(a, b) ==> Comparable(a, b)
    decreases a, 0
  {
    match a {
      case Text(s) =>
        if b.Text? { TextLessTotal(s, b.s); }
        TextLessTotal(s, s);
      case List(xs) =>
        ItemsLessTotal(xs, if b.List? then b.items else xs);
      case _ =>
    }
  }

  lemma {:induction false} ItemsLessTotal(xs: seq<Json>, ys: seq<Json>)
    ensures !ItemsLess(xs, xs)
    ensures ItemsComparable(xs, ys) <==> ItemsComparable(ys, xs)
    ensures ItemsComparable(xs, ys) && xs != ys ==> ItemsLess(xs, ys) != ItemsLess(ys, xs)
    ensures ItemsLess(xs, ys) ==> ItemsComparable(xs, ys)
    decreases xs, 1
  {
    if xs != [] {
      if ys == [] {
        ItemsLessTotal(xs[1..], xs[1..]);
      } else {
        ItemsLessTotal(xs[1..], ys[1..]);
        LessTotal(xs[0], ys[0]);
        assert xs == [xs[0]] + xs[1..] && ys == [ys[0]] + ys[1..];
      }
    }
  }

  lemma {:induction false} LessTransitive(a: Json, b: Json, c: Json)
    requires Less(a, b) && Less(b, c)
    ensures Less(a, c)
    decreases a, 0
  {
    match a {
      case Text(s) => TextLessTransitive(s, b.s, c.s);
      case List(xs) => ItemsLessTransitive(xs, b.items, c.items);
      case _ =>
    }
  }

  lemma {:induction false} ItemsLessTransitive(xs: seq<Json>, ys: seq<Json>, zs: seq<Json>)
    requires ItemsLess(xs, ys) && ItemsLess(ys, zs)
    ensures ItemsLess(xs, zs)
    decreases xs, 1
  {
    if xs != [] {
      if xs[0] == ys[0] {
        if ys[0] == zs[0] {
          ItemsLessTransitive(xs[1..], ys[1..], zs[1..]);
        }
      } else if ys[0] != zs[0] {
        LessTransitive(xs[0], ys[0], zs[0]);
        LessTotal(xs[0], xs[0]);
      }
    }
  }

  // ---------- list.sort ----------

  /** `list.sort` raises no TypeError: it compares nothing, or only comparable elements. */
  predicate Sortable(xs: seq<Json>)
  {
    forall i, j :: 0 <= i < j < |xs| ==> Comparable(xs[i], xs[j])
  }

  predicate Sorted(xs: seq<Json>)
  {
    forall i, j :: 0 <= i < j < |xs| ==> !Less(xs[j], xs[i])
  }

  function Insert(x: Json, ys: seq<Json>): (zs: seq<Json>)
    ensures multiset(zs) == multiset(ys) + multiset{x}
  {
    if ys != [] && Less(ys[0], x) then
      assert ys == [ys[0]] + ys[1..];
      [ys[0]] + Insert(x, ys[1..])
    else [x] + ys
  }

  function Sort(xs: seq<Json>): (zs: seq<Json>)
    ensures multiset(zs) == multiset(xs)
    ensures |zs| == |xs|
  {
    if xs == [] then [] else
      assert xs == [xs[0]] + xs[1..];
      var zs := Insert(xs[0], Sort(xs[1..]));
      assert |multiset(zs)| == |zs| && |multiset(xs)| == |xs|;
      zs
  }

  /** Comparable as a set: every two elements at different places, whatever the order. */
  lemma SortablePermuted(xs: seq<Json>, ys: seq<Json>)
    requires Sortable(xs) && multiset(xs) == multiset(ys)
    ensures Sortable(ys)
  {
    forall i, j | 0 <= i < j < |ys| ensures Comparable(ys[i], ys[j]) {
      PlacesOf(xs, ys, i, j);
      var p, q :| 0 <= p < |xs| && 0 <= q < |xs| && p != q && xs[p] == ys[i] && xs[q] == ys[j];
      LessTotal(xs[p], xs[q]);
    }
  }

  lemma PlacesOf(xs: seq<Json>, ys: seq<Json>, i: nat, j: nat)
    requires multiset(xs) == multiset(ys) && i < j < |ys|
    ensures exists p, q :: 0 <= p < |xs| && 0 <= q < |xs| && p != q && xs[p] == ys[i] && xs[q] == ys[j]
  {
    var a, b := ys[i], ys[j];
    assert a in multiset(xs) && b in multiset(xs) by { assert a in multiset(ys) && b in multiset(ys); }
    var p :| 0 <= p < |xs| && xs[p] == a;
    if a != b {
      var q :| 0 <= q < |xs| && xs[q] == b;
    } else {
      Dropped(xs, p);
      Dropped(ys, i);
      assert Drop(ys, i)[j - 1] == b;
      assert b in multiset(Drop(xs, p));
      var r :| 0 <= r < |xs| - 1 && Drop(xs, p)[r] == b;
      var q := if r < p then r else r + 1;
      assert xs[q] == b && q != p;
    }
  }

  function Drop(xs: seq<Json>, p: nat): (ys: seq<Json>)
    requires p < |xs|
    ensures |ys| == |xs| - 1
    ensures forall i :: 0 <= i < |ys| ==> ys[i] == xs[if i < p then i else i + 1]
  {
    xs[..p] + xs[p + 1..]
  }

  lemma Dropped(xs: seq<Json>, p: nat)
    requires p < |xs|
    ensures multiset(Drop(xs, p)) == multiset(xs) - multiset{xs[p]}
  {
    assert xs == xs[..p] + [xs[p]] + xs[p + 1..];
  }

  lemma {:induction false} InsertSorted(x: Json, ys: seq<Json>)
    requires Sorted(ys) && forall i :: 0 <= i < |ys| ==> Comparable(x, ys[i])
    ensures Sorted(Insert(x, ys))
  {
    if ys != [] {
      TailOf(ys);
      if Less(ys[0], x) {
        var rest := Insert(x, ys[1..]);
        InsertSorted(x, ys[1..]);
        forall j | 0 <= j < |rest| ensures !Less(rest[j], ys[0]) {
          InsertMember(x, ys[1..], j);
          LessTotal(ys[0], x);
        }
        SortedCons(ys[0], rest);
      } else {
        forall j | 0 <= j < |ys| ensures !Less(ys[j], x) {
          NotBelow(x, ys, j);
        }
        SortedCons(x, ys);
      }
    }
  }

  lemma InsertMember(x: Json, ys: seq<Json>, j: nat)
    requires j < |Insert(x, ys)|
    ensures Insert(x, ys)[j] == x || Insert(x, ys)[j] in ys
  {
    assert Insert(x, ys)[j] in multiset(Insert(x, ys));
  }

  lemma SortedCons(x: Json, ys: seq<Json>)
    requires Sorted(ys) && forall j :: 0 <= j < |ys| ==> !Less(ys[j], x)
    ensures Sorted([x] + ys)
  {}

  lemma NotBelow(x: Json, ys: seq<Json>, j: nat)
    requires Sorted(ys) && j < |ys| && Comparable(x, ys[0]) && !Less(ys[0], x)
    ensures !Less(ys[j], x)
  {
    if j > 0 && Less(ys[j], x) {
      LessTotal(x, ys[0]);
      if x != ys[0] {
        LessTransitive(ys[j], x, ys[0]);
      }
    }
  }

  lemma {:induction false} SortSorted(xs: seq<Json>)
    requires Sortable(xs)
    ensures Sorted(Sort(xs))
  {
    if xs != [] {
      SortSorted(xs[1..]);
      var ys := Sort(xs[1..]);
      forall i | 0 <= i < |ys| ensures Comparable(xs[0], ys[i]) {
        assert ys[i] in multiset(ys);
        assert ys[i] in xs[1..];
        var j :| 0 <= j < |xs[1..]| && xs[1..][j] == ys[i];
        assert xs[j + 1] == ys[i];
      }
      InsertSorted(xs[0], ys);
    }
  }

  /** On comparable elements there is only one sorted arrangement, so any correct sort agrees
      with this one. */
  lemma {:induction false} SortedUnique(xs: seq<Json>, ys: seq<Json>)
    requires Sortable(xs) && Sorted(xs) && Sorted(ys) && multiset(xs) == multiset(ys)
    ensures xs == ys
  {
    assert |multiset(xs)| == |xs| && |multiset(ys)| == |ys|;
    if xs != [] {
      FirstsEqual(xs, ys);
      TailOf(xs);
      TailOf(ys);
      SortedUnique(xs[1..], ys[1..]);
    }
  }

  lemma TailOf(xs: seq<Json>)
    requires xs != []
    ensures xs == [xs[0]] + xs[1..] && multiset(xs[1..]) == multiset(xs) - multiset{xs[0]}
    ensures Sortable(xs) ==> Sortable(xs[1..])
    ensures Sorted(xs) ==> Sorted(xs[1..])
  {
    assert xs == [xs[0]] + xs[1..];
  }

  lemma FirstsEqual(xs: seq<Json>, ys: seq<Json>)
    requires Sortable(xs) && Sorted(xs) && Sorted(ys) && multiset(xs) == multiset(ys)
    requires xs != [] && ys != []
    ensures xs[0] == ys[0]
  {
    assert xs[0] in multiset(ys) && ys[0] in multiset(xs);
    var i :| 0 <= i < |ys| && ys[i] == xs[0];
    var j :| 0 <= j < |xs| && xs[j] == ys[0];
    if xs[0] != ys[0] {
      assert Comparable(xs[0], xs[j]);
      LessTotal(xs[0], ys[0]);
      assert false;
    }
  }

  /** Sorting forgets the order of comparable elements, and nothing else. */
  lemma SortCanonical(xs: seq<Json>, ys: seq<Json>)
    requires Sortable(xs)
    ensures Sort(xs) == Sort(ys) <==> multiset(xs) == multiset(ys)
  {
    if multiset(xs) == multiset(ys) {
      SortablePermuted(xs, ys);
      SortablePermuted(xs, Sort(xs));
      SortSorted(xs);
      SortSorted(ys);
      SortedUnique(Sort(xs), Sort(ys));
    }
  }

  /** Every element can be compared with the next one and does not come after it. */
  ghost predicate StepwiseSorted(ys: seq<Json>)
  {
    forall i, j :: 0 <= i < j < |ys| && j == i + 1 ==> Comparable(ys[i], ys[j]) && !Less(ys[j], ys[i])
  }

  lemma {:induction false} StepwiseBelow(ys: seq<Json>, i: nat, j: nat)
    requires StepwiseSorted(ys) && i < j < |ys|
    ensures Comparable(ys[i], ys[j]) && (ys[i] == ys[j] || Less(ys[i], ys[j]))
    decreases j
  {
    var k := j - 1;
    LessTotal(ys[k], ys[j]);
    if i < k {
      StepwiseBelow(ys, i, k);
      if Less(ys[i], ys[k]) && Less(ys[k], ys[j]) {
        LessTransitive(ys[i], ys[k], ys[j]);
      }
    }
    LessTotal(ys[i], ys[j]);
  }

  /** A sort can only end well on comparable elements: an arrangement whose neighbours are comparable
      and in order exists if and only if all elements are comparable. Every comparison sort compares
      the neighbours of its result, so it raises TypeError exactly when `Sortable` fails. */
  lemma SortRaisesIff(xs: seq<Json>)
    ensures Sortable(xs) <==> exists ys :: multiset(ys) == multiset(xs) && StepwiseSorted(ys)
  {
    if Sortable(xs) {
      SortSorted(xs);
      SortablePermuted(xs, Sort(xs));
      assert StepwiseSorted(Sort(xs));
    }
    if ys :| multiset(ys) == multiset(xs) && StepwiseSorted(ys) {
      forall i, j | 0 <= i < j < |ys| ensures Comparable(ys[i], ys[j]) {
        StepwiseBelow(ys, i, j);
      }
      SortablePermuted(ys, xs);
    }
  }
}
