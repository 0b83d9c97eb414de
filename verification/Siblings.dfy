/** The thread-sibling lists of test_cpu_pinning.py: a second reader of CPU sets, and the check
    that isolated vCPUs share no core. */
module Siblings {
  import opened PyText
  import opened CpuSpec

  /** `range(lo, hi + 1)`, empty when lo > hi. */
  function Range(lo: int, hi: int): (ids: seq<int>)
    ensures |ids| == if lo <= hi then hi + 1 - lo else 0
    ensures forall i :: 0 <= i < |ids| ==> ids[i] == lo + i
    decreases hi - lo
  {
    if lo > hi then [] else Range(lo, hi - 1) + [hi]
  }

  /** One comma-separated piece: exactly one hyphen makes a range, two make a ValueError. */
  function ReadPiece(text: string): Option<seq<int>>
  {
    if '-' in text then
      var ends := Split(text, '-');
      if |ends| == 2 && ParseInt(ends[0]).Some? && ParseInt(ends[1]).Some?
      then Some(Range(ParseInt(ends[0]).value, ParseInt(ends[1]).value)) else None
    else
      var id := ParseInt(text);
      if id.Some? then Some([id.value]) else None
  }

  predicate AllRead(pieces: seq<string>) { forall i :: 0 <= i < |pieces| ==> ReadPiece(pieces[i]).Some? }

  function Lists(pieces: seq<string>): (lists: seq<seq<int>>)
    requires AllRead(pieces)
    ensures |lists| == |pieces| && forall i :: 0 <= i < |lists| ==> lists[i] == ReadPiece(pieces[i]).value
  {
    seq(|pieces|, i requires 0 <= i < |pieces| => ReadPiece(pieces[i]).value)
  }

  function SiblingsList(sib: string): Option<seq<int>>
  {
    var pieces := Split(sib, ',');
    if AllRead(pieces) then Some(Concat(Lists(pieces))) else None
  }

  lemma {:induction false} ConcatSnoc<T>(xs: seq<seq<T>>, x: seq<T>)
    ensures Concat(xs + [x]) == Concat(xs) + x
  {
    if xs != [] {
      assert (xs + [x])[1..] == xs[1..] + [x];
      ConcatSnoc(xs[1..], x);
    }
  }

  /** `get_siblings_list`; None stands for ValueError. */
  method GetSiblingsList(sib: string) returns (r: Option<seq<int>>)
    ensures r == SiblingsList(sib)
  {
    var siblings: seq<int> := [];
    var pieces := Split(sib, ',');
    for k := 0 to |pieces|
      invariant AllRead(pieces[..k]) && siblings == Concat(Lists(pieces[..k]))
    {
      var piece := ReadPiece(pieces[k]);
      if piece.None? {
        return None;
      }
      AddPiece(pieces[..k], pieces[k]);
      assert pieces[..k + 1] == pieces[..k] + [pieces[k]];
      siblings := siblings + piece.value;
    }
    assert pieces[..|pieces|] == pieces;
    return Some(siblings);
  }

  lemma AddPiece(pieces: seq<string>, text: string)
    requires AllRead(pieces) && ReadPiece(text).Some?
    ensures AllRead(pieces + [text])
    ensures Concat(Lists(pieces + [text])) == Concat(Lists(pieces)) + ReadPiece(text).value
  {
    assert Lists(pieces + [text]) == Lists(pieces) + [ReadPiece(text).value];
    ConcatSnoc(Lists(pieces), ReadPiece(text).value);
  }

  // ---------- what it accepts ----------

  ghost predicate Halves(text: string, a: string, b: string)
  {
    text == a + "-" + b && '-' !in a && '-' !in b && ParseInt(a).Some? && ParseInt(b).Some?
  }

  /** The piece is a number without a hyphen, or two of them around one. */
  ghost predicate PieceIs(text: string, ids: seq<int>)
  {
    || ('-' !in text && ParseInt(text).Some? && ids == [ParseInt(text).value])
    || exists a, b :: Halves(text, a, b) && ids == Range(ParseInt(a).value, ParseInt(b).value)
  }

  lemma SplitHalves(text: string, a: string, b: string)
    requires text == a + "-" + b && '-' !in a && '-' !in b
    ensures Split(text, '-') == [a, b] && '-' in text
  {
    assert text[|a|] == '-';
    SplitAtFirst(a, '-', b);
    SplitNowhere(b, '-');
  }

  /** A piece is read as those ids if and only if it is of that form. */
  lemma PieceMeaning(text: string, ids: seq<int>)
    ensures ReadPiece(text) == Some(ids) <==> PieceIs(text, ids)
  {
    hide ParseInt, Range;
    if '-' in text {
      if ReadPiece(text) == Some(ids) {
        SplitInTwo(text);
        assert Halves(text, Split(text, '-')[0], Split(text, '-')[1]);
      }
      forall a, b | Halves(text, a, b) ensures Split(text, '-') == [a, b] {
        SplitHalves(text, a, b);
      }
    } else {
      forall a, b | Halves(text, a, b) ensures false {
        SplitHalves(text, a, b);
      }
    }
  }

  ghost predicate Readable(text: string)
  {
    ('-' !in text && ParseInt(text).Some?) || exists a, b :: Halves(text, a, b)
  }

  lemma PieceReadable(text: string)
    ensures ReadPiece(text).Some? <==> Readable(text)
  {
    hide ParseInt, Range;
    if ReadPiece(text).Some? {
      PieceMeaning(text, ReadPiece(text).value);
    }
    if '-' !in text && ParseInt(text).Some? {
      PieceMeaning(text, [ParseInt(text).value]);
    }
    if a, b :| Halves(text, a, b) {
      PieceMeaning(text, Range(ParseInt(a).value, ParseInt(b).value));
    }
  }

  /** The reader accepts a text if and only if every comma-separated piece is of that form, and then
      returns the concatenation of what the pieces stand for. */
  lemma SiblingsMeaning(sib: string, lists: seq<seq<int>>)
    ensures var pieces := Split(sib, ',');
      && (SiblingsList(sib).Some? <==> forall i :: 0 <= i < |pieces| ==> Readable(pieces[i]))
      && (PiecesAre(pieces, lists) ==> SiblingsList(sib) == Some(Concat(lists)))
      && (SiblingsList(sib).Some? ==> PiecesAre(pieces, Lists(pieces)))
  {
    hide ReadPiece, PieceIs, Readable;
    var pieces := Split(sib, ',');
    forall i | 0 <= i < |pieces| ensures ReadPiece(pieces[i]).Some? <==> Readable(pieces[i]) {
      PieceReadable(pieces[i]);
    }
    if AllRead(pieces) {
      forall i | 0 <= i < |pieces| ensures PieceIs(pieces[i], Lists(pieces)[i]) {
        PieceMeaning(pieces[i], Lists(pieces)[i]);
      }
    }
    if PiecesAre(pieces, lists) {
      forall i | 0 <= i < |pieces| ensures ReadPiece(pieces[i]) == Some(lists[i]) {
        PieceMeaning(pieces[i], lists[i]);
      }
      assert AllRead(pieces);
      assert Lists(pieces) == lists;
    }
  }

  ghost predicate PiecesAre(pieces: seq<string>, lists: seq<seq<int>>)
  {
    |lists| == |pieces| && forall i :: 0 <= i < |pieces| ==> PieceIs(pieces[i], lists[i])
  }

  // ---------- agreement with parse_cpu_spec ----------

  lemma SplitInTwo(text: string)
    requires '-' in text && |Split(text, '-')| == 2
    ensures var ends := Split(text, '-'); text == ends[0] + "-" + ends[1]
  {
    JoinSplit(text, '-');
    var ends := Split(text, '-');
    assert Join(ends[1..], '-') == ends[1];
  }

  /** A text `int()` accepts, cut into spaces, literal, spaces. */
  lemma IntParts(s: string) returns (a: string, lit: string, b: string)
    requires ParseInt(s).Some?
    ensures s == a + lit + b && All(a, IsSpace) && All(b, IsSpace) && LiteralValue(lit) == ParseInt(s)
    ensures '-' !in s ==> '-' !in lit
  {
    a, b := TrimCut(s, IsIntSpace);
    lit := Trim(s, IsIntSpace);
    assert forall i :: 0 <= i < |lit| ==> lit[i] == s[|a| + i];
  }

  lemma StripWrapped(a: string, rule: string, b: string)
    requires All(a, IsSpace) && All(b, IsSpace) && Tight(rule, IsSpace)
    ensures ParseRule(a + rule + b) == ReadRule(rule)
  {
    TrimUnique(a, rule, b, IsSpace);
  }

  lemma RangeAgrees(first: string, second: string)
    requires '-' !in first && ParseInt(first).Some? && ParseInt(second).Some?
    ensures var lo, hi := ParseInt(first).value, ParseInt(second).value;
      ParseRule(first + "-" + second) == if lo <= hi then Span(false, lo, hi) else Malformed
  {
    var a, start, mid := IntParts(first);
    var gap2, end, b := IntParts(second);
    LiteralIsTight(start);
    LiteralIsTight(end);
    var sh := Two(false, "", start, mid, gap2, end);
    var rule := (start + mid) + "-" + (gap2 + end);
    assert Mark(false, "") + start + mid == start + mid;
    assert first == a + (start + mid) && second == (gap2 + end) + b;
    AroundHyphen(a, start + mid, gap2 + end, b);
    assert rule[0] == start[0] && rule[|rule| - 1] == end[|end| - 1];
    StripWrapped(a, rule, b);
    ShapeParses(sh, ParseInt(first).value, ParseInt(second).value);
  }

  lemma AroundHyphen(a: string, m: string, n: string, b: string)
    ensures (a + m) + "-" + (n + b) == a + (m + "-" + n) + b
  {}

  lemma SingleAgrees(text: string)
    requires '-' !in text && ParseInt(text).Some?
    ensures var id := ParseInt(text).value; ParseRule(text) == Span(false, id, id)
  {
    var a, lit, b := IntParts(text);
    LiteralIsTight(lit);
    StripWrapped(a, lit, b);
    assert Mark(false, "") + lit == lit;
    ShapeParses(One(false, "", lit), ParseInt(text).value, ParseInt(text).value);
  }

  lemma PieceAgrees(text: string)
    requires ReadPiece(text).Some?
    ensures ParseRule(text) == Malformed <==> ReadPiece(text).value == []
    ensures Rejected(text) == {}
    ensures forall x :: x in Granted(text) <==> x in ReadPiece(text).value
  {
    if '-' in text {
      SplitInTwo(text);
      var ends := Split(text, '-');
      RangeAgrees(ends[0], ends[1]);
      var lo, hi := ParseInt(ends[0]).value, ParseInt(ends[1]).value;
      forall x | lo <= x <= hi ensures x in Range(lo, hi) {
        assert Range(lo, hi)[x - lo] == x;
      }
    } else {
      SingleAgrees(text);
    }
  }

  predicate NoneEmpty(lists: seq<seq<int>>) { forall i :: 0 <= i < |lists| ==> lists[i] != [] }

  /** Whatever `get_siblings_list` can read, `parse_cpu_spec` reads to the same ids, and refuses
      exactly when some range runs downwards (which the sibling reader takes as empty). */
  lemma TwoReadersAgree(sib: string)
    requires SiblingsList(sib).Some?
    ensures Parse(sib).Ids? <==> NoneEmpty(Lists(Split(sib, ',')))
    ensures Parse(sib).Ids? ==> forall x :: x in Parse(sib).ids <==> x in SiblingsList(sib).value
  {
    var pieces := Split(sib, ',');
    forall i | 0 <= i < |pieces|
      ensures ParseRule(pieces[i]) == Malformed <==> Lists(pieces)[i] == []
      ensures Rejected(pieces[i]) == {}
      ensures forall x :: x in Granted(pieces[i]) <==> x in Lists(pieces)[i]
    {
      PieceAgrees(pieces[i]);
    }
    forall x ensures x in AllGranted(pieces) <==> x in SiblingsList(sib).value {
      ConcatMember(Lists(pieces), x);
    }
  }

  ghost predicate Ascending(ids: seq<int>) { forall i, j :: 0 <= i < j < |ids| ==> ids[i] < ids[j] }

  /** Every id of an earlier list lies below every id of a later one. */
  ghost predicate Ordered(lists: seq<seq<int>>)
  {
    forall i, j, x, y :: 0 <= i < j < |lists| && x in lists[i] && y in lists[j] ==> x < y
  }

  lemma {:induction false} AscendingConcat(lists: seq<seq<int>>)
    requires forall i :: 0 <= i < |lists| ==> Ascending(lists[i])
    ensures Ascending(Concat(lists)) <==> Ordered(lists)
  {
    if lists != [] {
      var head, tail := lists[0], Concat(lists[1..]);
      assert forall i :: 0 <= i < |lists| - 1 ==> lists[1..][i] == lists[i + 1];
      AscendingConcat(lists[1..]);
      forall y ensures y in tail <==> exists j :: 1 <= j < |lists| && y in lists[j] {
        ConcatMember(lists[1..], y);
        assert forall j :: 1 <= j < |lists| ==> lists[j] == lists[1..][j - 1];
      }
      AscendingAppend(head, tail);
      OrderedCons(lists, tail);
    }
  }

  lemma AscendingAppend(a: seq<int>, b: seq<int>)
    requires Ascending(a)
    ensures Ascending(a + b) <==> Ascending(b) && forall x, y :: x in a && y in b ==> x < y
  {
    var s := a + b;
    if Ascending(s) {
      forall i, j | 0 <= i < j < |b| ensures b[i] < b[j] {
        assert s[|a| + i] < s[|a| + j];
      }
      forall x, y | x in a && y in b ensures x < y {
        var i :| 0 <= i < |a| && a[i] == x;
        var j :| 0 <= j < |b| && b[j] == y;
        assert s[i] < s[|a| + j];
      }
    }
    if Ascending(b) && forall x, y :: x in a && y in b ==> x < y {
      forall i, j | 0 <= i < j < |s| ensures s[i] < s[j] {
        if i < |a| <= j {
          assert s[i] in a && s[j] in b;
        }
      }
    }
  }

  lemma OrderedCons(lists: seq<seq<int>>, tail: seq<int>)
    requires lists != []
    requires forall y :: y in tail <==> exists j :: 1 <= j < |lists| && y in lists[j]
    ensures Ordered(lists) <==> Ordered(lists[1..]) && forall x, y :: x in lists[0] && y in tail ==> x < y
  {
    if Ordered(lists) {
      forall i, j, x, y | 0 <= i < j < |lists[1..]| && x in lists[1..][i] && y in lists[1..][j] ensures x < y {
        assert x in lists[i + 1] && y in lists[j + 1];
      }
    }
    if Ordered(lists[1..]) && forall x, y :: x in lists[0] && y in tail ==> x < y {
      forall i, j, x, y | 0 <= i < j < |lists| && x in lists[i] && y in lists[j] ensures x < y {
        if i > 0 {
          assert x in lists[1..][i - 1] && y in lists[1..][j - 1];
        } else {
          assert y in tail;
        }
      }
    }
  }

  /** The list is strictly ascending exactly when its pieces are increasing and do not overlap. */
  lemma AscendingList(sib: string)
    requires SiblingsList(sib).Some?
    ensures Ascending(SiblingsList(sib).value) <==> Ordered(Lists(Split(sib, ',')))
  {
    AscendingConcat(Lists(Split(sib, ',')));
  }

  // ---------- the isolate check ----------

  /** Python's `list.remove`: the first occurrence goes. */
  function RemoveFirst(s: seq<int>, x: int): (r: seq<int>)
    requires x in s
    ensures exists i :: 0 <= i < |s| && s[i] == x && x !in s[..i] && r == s[..i] + s[i + 1..]
    ensures multiset(r) == multiset(s) - multiset{x}
  {
    var i := FirstIndex(s, x);
    assert s == s[..i] + [x] + s[i + 1..];
    s[..i] + s[i + 1..]
  }

  function FirstIndex(s: seq<int>, x: int): (i: nat)
    requires x in s
    ensures i < |s| && s[i] == x && x !in s[..i]
  {
    if s[0] == x then 0 else 1 + FirstIndex(s[1..], x)
  }

  datatype Verdict = Isolated | SiblingUsed | Crashed

  /** One vCPU of an isolated pinning: its pCPU is listed among its own siblings exactly once,
      and no other sibling carries a vCPU. */
  ghost predicate Alone(v: int, pinnings: map<int, int>, siblings: map<int, seq<int>>)
    requires v in pinnings
  {
    var p := pinnings[v];
    && p in siblings && multiset(siblings[p])[p] == 1
    && forall y :: y in siblings[p] && y != p ==> y !in pinnings.Values
  }

  /** The pCPU's own entry aside, some sibling carries a vCPU. */
  ghost predicate HasUsedSibling(v: int, pinnings: map<int, int>, siblings: map<int, seq<int>>)
    requires v in pinnings
  {
    var p := pinnings[v];
    p in siblings && p in siblings[p] &&
    exists y :: y in multiset(siblings[p]) - multiset{p} && y in pinnings.Values
  }

  /** The pCPU is unknown or missing from its own list. */
  ghost predicate HasNoEntry(v: int, pinnings: map<int, int>, siblings: map<int, seq<int>>)
    requires v in pinnings
  {
    pinnings[v] !in siblings || pinnings[v] !in siblings[pinnings[v]]
  }

  ghost predicate SharesPcpu(v: int, pinnings: map<int, int>)
    requires v in pinnings
  {
    exists w :: w in pinnings && w != v && pinnings[w] == pinnings[v]
  }

  ghost predicate IsolatedPinning(pinnings: map<int, int>, siblings: map<int, seq<int>>)
  {
    && (forall v :: v in pinnings ==> Alone(v, pinnings, siblings))
    && forall v, w :: v in pinnings && w in pinnings && v != w ==> pinnings[v] != pinnings[w]
  }

  ghost predicate Touched(p: int, pinnings: map<int, int>, done: set<int>)
  {
    exists w :: w in done && w in pinnings && pinnings[w] == p
  }

  /** What the loop has established after the vCPUs in `done`. */
  ghost predicate Progress(pinnings: map<int, int>, siblings: map<int, seq<int>>,
                           sibs: map<int, seq<int>>, done: set<int>)
  {
    && done <= pinnings.Keys && sibs.Keys == siblings.Keys
    && (forall p :: p in sibs && !Touched(p, pinnings, done) ==> sibs[p] == siblings[p])
    && (forall v :: v in done ==> Alone(v, pinnings, siblings))
    && (forall v :: v in done ==> pinnings[v] !in sibs[pinnings[v]])
    && (forall v, w :: v in done && w in done && v != w ==> pinnings[v] != pinnings[w])
  }

  lemma VerdictOfStep(v: int, pinnings: map<int, int>, siblings: map<int, seq<int>>, rest: seq<int>)
    requires v in pinnings && pinnings[v] in siblings && pinnings[v] in siblings[pinnings[v]]
    requires multiset(rest) == multiset(siblings[pinnings[v]]) - multiset{pinnings[v]}
    ensures Alone(v, pinnings, siblings) <==> forall y :: y in rest ==> y !in pinnings.Values
  {
    var p := pinnings[v];
    var sib := siblings[p];
    assert p in pinnings.Values;
    assert forall y :: y in rest <==> y in multiset(rest);
    assert forall y :: y in sib <==> y in multiset(sib);
  }

  lemma SecondVisit(v: int, pinnings: map<int, int>, siblings: map<int, seq<int>>,
                    sibs: map<int, seq<int>>, done: set<int>)
    requires Progress(pinnings, siblings, sibs, done) && v in pinnings && v !in done
    requires Touched(pinnings[v], pinnings, done)
    ensures pinnings[v] in sibs && pinnings[v] !in sibs[pinnings[v]]
    ensures SharesPcpu(v, pinnings)
    ensures !IsolatedPinning(pinnings, siblings)
  {
    var w :| w in done && w in pinnings && pinnings[w] == pinnings[v];
    assert Alone(w, pinnings, siblings);
  }

  lemma FirstVisit(v: int, pinnings: map<int, int>, siblings: map<int, seq<int>>,
                   sibs: map<int, seq<int>>, done: set<int>, rest: seq<int>)
    requires Progress(pinnings, siblings, sibs, done) && v in pinnings && v !in done
    requires !Touched(pinnings[v], pinnings, done)
    requires pinnings[v] in sibs && Alone(v, pinnings, siblings)
    requires multiset(rest) == multiset(siblings[pinnings[v]]) - multiset{pinnings[v]}
    ensures Progress(pinnings, siblings, sibs[pinnings[v] := rest], done + {v})
  {
    var p, done', sibs' := pinnings[v], done + {v}, sibs[pinnings[v] := rest];
    assert p !in multiset(rest);
    assert Touched(p, pinnings, done') by { assert v in done'; }
    forall q | q in sibs' && !Touched(q, pinnings, done') ensures sibs'[q] == siblings[q] {
      assert !Touched(q, pinnings, done);
    }
    forall w | w in done ensures pinnings[w] != p {}
  }

  /** The loop of `test_threads_isolate`. The sibling lists are edited as it goes, yet whichever
      order the vCPUs are taken in, it accepts exactly the isolated pinnings. */
  method CheckIsolated(pinnings: map<int, int>, siblings: map<int, seq<int>>) returns (r: Verdict)
    ensures r == Isolated <==> IsolatedPinning(pinnings, siblings)
    ensures r == SiblingUsed ==> exists v :: v in pinnings && HasUsedSibling(v, pinnings, siblings)
    ensures r == Crashed ==> exists v :: v in pinnings && (HasNoEntry(v, pinnings, siblings) || SharesPcpu(v, pinnings))
  {
    var sibs := siblings;
    var todo: set<int> := pinnings.Keys;
    ghost var done: set<int> := {};
    while todo != {}
      invariant done + todo == pinnings.Keys && done !! todo
      invariant Progress(pinnings, siblings, sibs, done)
    {
      ghost var some := SomeMember(todo);
      var v :| v in todo;
      var pcpu := pinnings[v];
      if pcpu !in sibs {
        assert !Alone(v, pinnings, siblings) && HasNoEntry(v, pinnings, siblings);
        return Crashed;
      }
      if Touched(pcpu, pinnings, done) {
        SecondVisit(v, pinnings, siblings, sibs, done);
      }
      if pcpu !in sibs[pcpu] {
        assert Alone(v, pinnings, siblings) ==> pcpu in multiset(siblings[pcpu]);
        return Crashed;
      }
      var rest := RemoveFirst(sibs[pcpu], pcpu);
      VerdictOfStep(v, pinnings, siblings, rest);
      if exists y :: y in rest && y in pinnings.Values {
        assert forall y :: y in rest <==> y in multiset(rest);
        assert HasUsedSibling(v, pinnings, siblings);
        return SiblingUsed;
      }
      FirstVisit(v, pinnings, siblings, sibs, done, rest);
      sibs, todo, done := sibs[pcpu := rest], todo - {v}, done + {v};
    }
    return Isolated;
  }

  /** With ascending sibling lists that name their own pCPU, that means: no pCPU carries two
      vCPUs and no two pCPUs in use are siblings. */
  lemma IsolationMeaning(pinnings: map<int, int>, siblings: map<int, seq<int>>)
    requires forall v :: v in pinnings ==> var p := pinnings[v];
      p in siblings && p in siblings[p] && Ascending(siblings[p])
    ensures IsolatedPinning(pinnings, siblings) <==>
      forall v, w :: v in pinnings && w in pinnings && v != w ==> pinnings[w] !in siblings[pinnings[v]]
  {
    forall v | v in pinnings ensures var p := pinnings[v]; multiset(siblings[p])[p] == 1 {
      AscendingCount(siblings[pinnings[v]], pinnings[v]);
    }
    if IsolatedPinning(pinnings, siblings) {
      forall v, w | v in pinnings && w in pinnings && v != w ensures pinnings[w] !in siblings[pinnings[v]] {
        assert Alone(v, pinnings, siblings);
        assert pinnings[w] in pinnings.Values;
      }
    } else {
      if v :| v in pinnings && !Alone(v, pinnings, siblings) {
        var y :| y in siblings[pinnings[v]] && y != pinnings[v] && y in pinnings.Values;
        var w := KeyOf(pinnings, y);
      }
    }
  }

  lemma {:induction false} AscendingCount(s: seq<int>, x: int)
    requires Ascending(s) && x in s
    ensures multiset(s)[x] == 1
  {
    assert s == [s[0]] + s[1..];
    if s[0] == x {
      assert x !in s[1..];
    } else {
      AscendingCount(s[1..], x);
    }
  }
}
