/** The Python string operations the plugin's readers are built from: `str.split`, `str.join`,
    `str.strip`, `int()` and `str()`, over ASCII whitespace and ASCII digits. */
module PyText {

  datatype Option<+T> = None | Some(value: T)

  /** Python's `set(ids)`. */
  function Members(ids: seq<int>): set<int> { set i | 0 <= i < |ids| :: ids[i] }

  lemma SomeMember<T>(s: set<T>) returns (x: T)
    requires s != {}
    ensures x in s
  {
    x :| x in s;
  }

  lemma SomeDifference<T>(a: multiset<T>, b: multiset<T>) returns (x: T)
    requires a != b
    ensures a[x] != b[x]
  {
    x :| a[x] != b[x];
  }

  lemma KeyOf<K, V>(m: map<K, V>, y: V) returns (k: K)
    requires y in m.Values
    ensures k in m && m[k] == y
  {
    k :| k in m && m[k] == y;
  }

  // ---------- str.split(c), str.split(c, 1) and c.join(parts) ----------

  function IndexOf(s: string, c: char): (i: nat)
    requires c in s
    ensures i < |s| && s[i] == c && c !in s[..i]
  {
    if s[0] == c then 0 else 1 + IndexOf(s[1..], c)
  }

  function Split(s: string, c: char): (parts: seq<string>)
    ensures |parts| >= 1
    ensures forall i :: 0 <= i < |parts| ==> c !in parts[i]
    decreases |s|
  {
    if c !in s then [s] else
      var i := IndexOf(s, c);
      [s[..i]] + Split(s[i + 1..], c)
  }

  function Join(parts: seq<string>, c: char): string
  {
    if parts == [] then ""
    else if |parts| == 1 then parts[0]
    else parts[0] + [c] + Join(parts[1..], c)
  }

  lemma IndexOfAppend(a: string, c: char, b: string)
    requires c !in a
    ensures IndexOf(a + [c] + b, c) == |a|
  {
    var s, i := a + [c] + b, IndexOf(a + [c] + b, c);
    assert s[|a|] == c;
    assert forall j :: 0 <= j < i ==> s[j] == s[..i][j] != c;
    assert forall j :: 0 <= j < |a| ==> s[j] == a[j] != c;
  }

  lemma SplitAtFirst(a: string, c: char, b: string)
    requires c !in a
    ensures Split(a + [c] + b, c) == [a] + Split(b, c)
  {
    var s := a + [c] + b;
    assert s[|a|] == c;
    IndexOfAppend(a, c, b);
    assert s[..|a|] == a && s[|a| + 1..] == b;
  }

  /** A separator cuts the text in two independent halves. */
  lemma {:induction false} SplitAppend(a: string, c: char, b: string)
    ensures Split(a + [c] + b, c) == Split(a, c) + Split(b, c)
    decreases |a|
  {
    hide Split, IndexOf;
    if c !in a {
      SplitAtFirst(a, c, b);
      SplitNowhere(a, c);
    } else {
      var i := IndexOf(a, c);
      var head, rest := a[..i], a[i + 1..];
      assert a == head + [c] + rest;
      SplitAtFirst(head, c, rest);
      SplitAtFirst(head, c, rest + [c] + b);
      SplitAppend(rest, c, b);
      Regroup(head, [c], rest, [c], b);
    }
  }

  lemma SplitNowhere(a: string, c: char)
    requires c !in a
    ensures Split(a, c) == [a]
  {}

  lemma Regroup(a: string, b: string, c: string, d: string, e: string)
    ensures (a + b + c) + d + e == a + b + (c + d + e)
  {}

  /** Splitting loses nothing: joining the pieces gives the text back. */
  lemma {:induction false} JoinSplit(s: string, c: char)
    ensures Join(Split(s, c), c) == s
    decreases |s|
  {
    hide IndexOf, Split, Join;
    if c in s {
      var i := IndexOf(s, c);
      var head, rest := s[..i], s[i + 1..];
      assert s == head + [c] + rest;
      SplitAtFirst(head, c, rest);
      JoinSplit(rest, c);
      JoinCons(head, Split(rest, c), c);
    } else {
      SplitNowhere(s, c);
      JoinOne(s, c);
    }
  }

  lemma JoinOne(s: string, c: char)
    ensures Join([s], c) == s
  {}

  lemma JoinCons(head: string, parts: seq<string>, c: char)
    requires parts != []
    ensures Join([head] + parts, c) == head + [c] + Join(parts, c)
  {
    assert ([head] + parts)[1..] == parts;
  }

  function Concat<T>(xs: seq<seq<T>>): seq<T>
  {
    if xs == [] then [] else xs[0] + Concat(xs[1..])
  }

  function SplitAll(texts: seq<string>, c: char): (parts: seq<seq<string>>)
    ensures |parts| == |texts|
    ensures forall i :: 0 <= i < |parts| ==> parts[i] == Split(texts[i], c)
  {
    seq(|texts|, i requires 0 <= i < |texts| => Split(texts[i], c))
  }

  /** Splitting a joined text gives the pieces of all the texts, in order, even when the
      texts contain separators themselves. */
  lemma {:induction false} SplitJoin(texts: seq<string>, c: char)
    requires texts != []
    ensures Split(Join(texts, c), c) == Concat(SplitAll(texts, c))
  {
    assert SplitAll(texts, c)[1..] == SplitAll(texts[1..], c);
    if |texts| == 1 {
      assert Concat(SplitAll(texts[1..], c)) == [];
    } else {
      SplitAppend(texts[0], c, Join(texts[1..], c));
      SplitJoin(texts[1..], c);
    }
  }

  lemma {:induction false} ConcatMember<T>(xs: seq<seq<T>>, x: T)
    ensures x in Concat(xs) <==> exists i :: 0 <= i < |xs| && x in xs[i]
  {
    if xs != [] {
      ConcatMember(xs[1..], x);
      if i :| 0 <= i < |xs| && x in xs[i] {
        assert i > 0 ==> xs[i] == xs[1..][i - 1];
      }
      assert forall i :: 0 <= i < |xs| - 1 ==> xs[1..][i] == xs[i + 1];
    }
  }

  // ---------- str.strip() ----------

  /** What `str.strip()` removes. */
  predicate IsSpace(c: char) { '\t' <= c <= '\r' || '\U{1C}' <= c <= ' ' }

  /** What `int()` skips around a numeral: fewer characters than `str.strip()` removes. */
  predicate IsIntSpace(c: char) { '\t' <= c <= '\r' || c == ' ' }

  predicate All(s: string, p: char -> bool) { forall i :: 0 <= i < |s| ==> p(s[i]) }

  function TrimLeft(s: string, p: char -> bool): string
  {
    if s != [] && p(s[0]) then TrimLeft(s[1..], p) else s
  }

  function TrimRight(s: string, p: char -> bool): string
  {
    if s != [] && p(s[|s| - 1]) then TrimRight(s[..|s| - 1], p) else s
  }

  function Trim(s: string, p: char -> bool): string { TrimRight(TrimLeft(s, p), p) }

  function Strip(s: string): string { Trim(s, IsSpace) }

  /** No character satisfying p at either end. */
  predicate Tight(s: string, p: char -> bool) { s == [] || (!p(s[0]) && !p(s[|s| - 1])) }

  lemma {:induction false} TrimLeftAppend(a: string, s: string, p: char -> bool)
    requires All(a, p)
    ensures TrimLeft(a + s, p) == TrimLeft(s, p)
  {
    if a == [] {
      assert a + s == s;
    } else {
      assert (a + s)[1..] == a[1..] + s;
      TrimLeftAppend(a[1..], s, p);
    }
  }

  lemma {:induction false} TrimRightAppend(s: string, b: string, p: char -> bool)
    requires All(b, p)
    ensures TrimRight(s + b, p) == TrimRight(s, p)
  {
    if b == [] {
      assert s + b == s;
    } else {
      var b' := b[..|b| - 1];
      assert (s + b)[..|s + b| - 1] == s + b';
      TrimRightAppend(s, b', p);
    }
  }

  lemma TrimUnique(a: string, m: string, b: string, p: char -> bool)
    requires All(a, p) && All(b, p) && Tight(m, p)
    ensures Trim(a + m + b, p) == m
  {
    assert a + m + b == a + (m + b);
    TrimLeftAppend(a, m + b, p);
    if m == [] {
      assert m + b == b == b + [];
      TrimLeftAppend(b, [], p);
    } else {
      TrimRightAppend(m, b, p);
    }
  }

  lemma {:induction false} TrimLeftCut(s: string, p: char -> bool) returns (a: string)
    ensures s == a + TrimLeft(s, p) && All(a, p)
    ensures var r := TrimLeft(s, p); r == [] || !p(r[0])
  {
    a := [];
    if s != [] && p(s[0]) {
      a := TrimLeftCut(s[1..], p);
      a := [s[0]] + a;
    }
  }

  lemma {:induction false} TrimRightCut(s: string, p: char -> bool) returns (b: string)
    ensures s == TrimRight(s, p) + b && All(b, p)
    ensures var r := TrimRight(s, p); r == [] || !p(r[|r| - 1])
  {
    b := [];
    if s != [] && p(s[|s| - 1]) {
      b := TrimRightCut(s[..|s| - 1], p);
      b := b + [s[|s| - 1]];
    }
  }

  /** Trimming cuts off exactly the surrounding characters; with TrimUnique this pins it down. */
  lemma TrimCut(s: string, p: char -> bool) returns (a: string, b: string)
    ensures s == a + Trim(s, p) + b && All(a, p) && All(b, p) && Tight(Trim(s, p), p)
  {
    a := TrimLeftCut(s, p);
    var l := TrimLeft(s, p);
    b := TrimRightCut(l, p);
    assert Trim(s, p) != [] ==> Trim(s, p)[0] == l[0];
  }

  // ---------- int() and str() on integers ----------

  predicate IsDigit(c: char) { '0' <= c <= '9' }

  /** The three character classes, spelled out. */
  lemma CharacterTables(c: char)
    ensures IsDigit(c) <==> c in "0123456789"
    ensures IsDigit(c) ==> 0 <= c as int - '0' as int < 10 && "0123456789"[c as int - '0' as int] == c
    ensures IsIntSpace(c) <==> c in {'\t', '\n', '\U{0B}', '\U{0C}', '\r', ' '}
    ensures IsSpace(c) <==> IsIntSpace(c) || c in {'\U{1C}', '\U{1D}', '\U{1E}', '\U{1F}'}
  {
    var table := "0123456789";
    assert IsDigit(c) ==> table[c as int - '0' as int] == c;
  }

  /** Decimal digits, with single underscores allowed between them. */
  predicate IsNumeral(s: string)
  {
    s != [] && IsDigit(s[|s| - 1]) &&
    (|s| == 1 || IsNumeral(s[..|s| - 1]) || (s[|s| - 2] == '_' && IsNumeral(s[..|s| - 2])))
  }

  lemma {:induction false} NumeralChars(s: string)
    requires IsNumeral(s)
    ensures IsDigit(s[0]) && forall i :: 0 <= i < |s| ==> IsDigit(s[i]) || s[i] == '_'
  {
    if |s| > 1 {
      var cut := if IsNumeral(s[..|s| - 1]) then 1 else 2;
      NumeralChars(s[..|s| - cut]);
      assert forall i :: 0 <= i < |s| - cut ==> s[i] == s[..|s| - cut][i];
    }
  }

  function NumeralValue(s: string): nat
  {
    if s == [] then 0 else
      var high, c := NumeralValue(s[..|s| - 1]), s[|s| - 1];
      if IsDigit(c) then 10 * high + (c as int - '0' as int) else high
  }

  function PowerOfTen(k: nat): nat { if k == 0 then 1 else 10 * PowerOfTen(k - 1) }

  function DigitValue(c: char): int { c as int - '0' as int }

  ghost predicate AllDigits(s: string) { forall i :: 0 <= i < |s| ==> IsDigit(s[i]) }

  /** The place-value law: the first of k + 1 digits counts for its value times ten to the k. */
  lemma {:induction false} PlaceValue(s: string)
    requires s != [] && AllDigits(s)
    ensures NumeralValue(s) == DigitValue(s[0]) * PowerOfTen(|s| - 1) + NumeralValue(s[1..])
  {
    var n := |s| - 1;
    if n == 0 {
      assert s[..0] == [] && s[1..] == [];
    } else {
      var init := s[..n];
      PlaceValue(init);
      assert init[0] == s[0] && init[1..] == s[1..][..n - 1];
      assert s[1..][n - 1] == s[n];
      assert NumeralValue(s) == 10 * NumeralValue(init) + DigitValue(s[n]);
      assert NumeralValue(s[1..]) == 10 * NumeralValue(init[1..]) + DigitValue(s[n]);
      TenTimes(DigitValue(s[0]), PowerOfTen(n - 1), NumeralValue(init[1..]), DigitValue(s[n]));
    }
  }

  lemma TenTimes(a: int, p: int, v: int, d: int)
    ensures 10 * (a * p + v) + d == a * (10 * p) + (10 * v + d)
  {}

  function WithoutUnderscores(s: string): string
  {
    if s == [] then [] else
      WithoutUnderscores(s[..|s| - 1]) + if s[|s| - 1] == '_' then [] else [s[|s| - 1]]
  }

  /** Underscores are allowed only singly and between digits, and do not change the value. */
  lemma {:induction false} NumeralMeaning(s: string)
    ensures IsNumeral(s) <==>
      && s != [] && IsDigit(s[0]) && IsDigit(s[|s| - 1])
      && (forall i :: 0 <= i < |s| ==> IsDigit(s[i]) || s[i] == '_')
      && forall i, j :: 0 <= i < |s| && j == i + 1 < |s| ==> s[i] != '_' || s[j] != '_'
    decreases |s|
  {
    if |s| > 1 {
      var init, n := s[..|s| - 1], |s| - 1;
      NumeralMeaning(init);
      NumeralMeaning(s[..|s| - 2]);
      assert forall i :: 0 <= i < n ==> init[i] == s[i];
      assert forall i :: 0 <= i < n - 1 ==> s[..|s| - 2][i] == s[i];
    }
  }

  lemma {:induction false} UnderscoresIgnored(s: string)
    requires forall i :: 0 <= i < |s| ==> IsDigit(s[i]) || s[i] == '_'
    ensures NumeralValue(s) == NumeralValue(WithoutUnderscores(s)) && AllDigits(WithoutUnderscores(s))
  {
    if s != [] {
      var init := s[..|s| - 1];
      UnderscoresIgnored(init);
      var t := WithoutUnderscores(init);
      assert (t + [s[|s| - 1]])[..|t|] == t && t + [] == t;
    }
  }

  /** An optional sign and a numeral. */
  function LiteralValue(s: string): Option<int>
  {
    var signed := s != [] && (s[0] == '+' || s[0] == '-');
    var body := if signed then s[1..] else s;
    var value: int := NumeralValue(body);
    if !IsNumeral(body) then None
    else if signed && s[0] == '-' then Some(-value)
    else Some(value)
  }

  /** Python's `int(s)`; None stands for ValueError. */
  function ParseInt(s: string): Option<int> { LiteralValue(Trim(s, IsIntSpace)) }

  function Digits(n: nat): (s: string)
    ensures IsNumeral(s) && NumeralValue(s) == n
    ensures forall i :: 0 <= i < |s| ==> IsDigit(s[i])
    ensures |s| > 1 ==> s[0] != '0'
  {
    var d := ('0' as int + n % 10) as char;
    if n < 10 then [d] else
      var high := Digits(n / 10);
      assert (high + [d])[..|high|] == high;
      high + [d]
  }

  /** Python's `str(n)`. */
  function Str(n: int): string { if n < 0 then "-" + Digits(-n) else Digits(n) }

  lemma LiteralIsTight(s: string)
    requires LiteralValue(s).Some?
    ensures s != [] && Tight(s, IsSpace) && Tight(s, IsIntSpace)
    ensures '^' !in s && ',' !in s
    ensures '-' !in s[1..]
    ensures '-' !in s ==> LiteralValue(s).value >= 0
  {
    var skip := if s[0] == '+' || s[0] == '-' then 1 else 0;
    var body := s[skip..];
    assert skip == 0 ==> body == s;
    NumeralChars(body);
    assert s[|s| - 1] == body[|body| - 1];
    forall i | 0 <= i < |s| ensures s[i] != '^' && s[i] != ',' && (i > 0 ==> s[i] != '-') {
      if i >= skip {
        var j := i - skip;
        assert s[i] == body[j];
      }
    }
  }

  lemma LiteralParses(s: string)
    requires LiteralValue(s).Some?
    ensures ParseInt(s) == LiteralValue(s) == ParseInt(Strip(s))
  {
    LiteralIsTight(s);
    assert [] + s + [] == s;
    TrimUnique([], s, [], IsIntSpace);
    TrimUnique([], s, [], IsSpace);
  }

  /** Decimal print and parse are inverse. */
  lemma StrRoundTrip(n: int)
    ensures LiteralValue(Str(n)) == Some(n) && ParseInt(Str(n)) == Some(n)
  {
    if n < 0 {
      assert Str(n)[1..] == Digits(-n);
    }
    assert Str(n)[0] != '+';
    LiteralParses(Str(n));
  }

  /** A stripped text reads as an integer exactly when it is a literal, and `int()` accepts no
      text that stripping would make unreadable. */
  lemma StripThenParse(s: string)
    ensures ParseInt(Strip(s)) == LiteralValue(Strip(s))
    ensures ParseInt(s).Some? ==> ParseInt(Strip(s)) == ParseInt(s)
  {
    var m := Strip(s);
    var a, b := TrimCut(s, IsSpace);
    assert Tight(m, IsIntSpace) && [] + m + [] == m;
    TrimUnique([], m, [], IsIntSpace);
    if ParseInt(s).Some? {
      var n := Trim(s, IsIntSpace);
      var a', b' := TrimCut(s, IsIntSpace);
      LiteralIsTight(n);
      TrimUnique(a', n, b', IsSpace);
    }
  }
}
