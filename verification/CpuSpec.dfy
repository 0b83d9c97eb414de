/** The CPU-set language: `parse_cpu_spec` and `format_cpu_spec` of hardware.py. */
module CpuSpec {
  import opened PyText

  /** What one comma-separated rule amounts to. A single id n is the span n..n. */
  datatype Rule = Blank | Malformed | Span(reject: bool, lo: int, hi: int)

  datatype Parsed = Ids(ids: set<int>) | InvalidCpuSpec(spec: string)

  function CheckedSpan(reject: bool, lo: Option<int>, hi: Option<int>): Rule
  {
    if lo.Some? && hi.Some? && lo.value <= hi.value then Span(reject, lo.value, hi.value) else Malformed
  }

  /** A rule with a hyphen, cut at its first hyphen. */
  function RangeRule(first: string, second: string): Rule
  {
    var reject := first != [] && first[0] == '^';
    var start := if reject then first[1..] else first;
    CheckedSpan(reject, ParseInt(Strip(start)), ParseInt(Strip(second)))
  }

  /** A rule without a hyphen. */
  function SingleRule(rule: string): Rule
    requires rule != []
  {
    var reject := rule[0] == '^';
    var id := ParseInt(if reject then Strip(rule[1..]) else rule);
    CheckedSpan(reject, id, id)
  }

  /** One turn of the loop of `parse_cpu_spec`, after stripping. */
  function ReadRule(rule: string): Rule
  {
    if rule == [] then Blank
    else if '-' in rule then
      var i := IndexOf(rule, '-');
      RangeRule(rule[..i], rule[i + 1..])
    else SingleRule(rule)
  }

  function ParseRule(text: string): Rule { ReadRule(Strip(text)) }

  // ---------- an independent grammar for rules ----------

  /** The pieces of a well-formed rule, left to right: an optional caret and spaces, an id, and
      in a range also spaces, a hyphen, spaces and a second id. */
  datatype Shape = One(caret: bool, gap: string, start: string)
                 | Two(caret: bool, gap: string, start: string, mid: string, gap2: string, end: string)

  function Mark(caret: bool, gap: string): string { if caret then "^" + gap else "" }

  function Render(sh: Shape): string
  {
    match sh
    case One(caret, gap, start) => Mark(caret, gap) + start
    case Two(caret, gap, start, mid, gap2, end) => (Mark(caret, gap) + start + mid) + "-" + (gap2 + end)
  }

  /** The shape's ids are written lo and hi. */
  ghost predicate Writes(sh: Shape, lo: int, hi: int)
  {
    && All(sh.gap, IsSpace)
    && LiteralValue(sh.start) == Some(lo) && '-' !in sh.start
    && match sh
       case One(_, _, _) => hi == lo
       case Two(_, _, _, mid, gap2, end) =>
         All(mid, IsSpace) && All(gap2, IsSpace) && LiteralValue(end) == Some(hi)
  }

  ghost predicate Denotes(sh: Shape, reject: bool, lo: int, hi: int)
  {
    Writes(sh, lo, hi) && reject == sh.caret && lo <= hi
  }

  /** Up to surrounding spaces, the text is one of the shapes and stands for the ids lo..hi.
      The first id carries no minus sign; the second may. */
  ghost predicate Spells(text: string, reject: bool, lo: int, hi: int)
  {
    exists sh :: Render(sh) == Strip(text) && Denotes(sh, reject, lo, hi)
  }

  lemma SpacesHaveNoMark(s: string)
    requires All(s, IsSpace)
    ensures '-' !in s && '^' !in s
  {}

  lemma StripPadded(a: string, lit: string, b: string)
    requires All(a, IsSpace) && All(b, IsSpace) && LiteralValue(lit).Some?
    ensures ParseInt(Strip(a + lit + b)) == LiteralValue(lit)
  {
    LiteralIsTight(lit);
    LiteralParses(lit);
    TrimUnique(a, lit, b, IsSpace);
  }

  lemma ReadRange(first: string, second: string)
    requires '-' !in first
    ensures ReadRule(first + "-" + second) == RangeRule(first, second)
  {
    var rule := first + "-" + second;
    IndexOfAppend(first, '-', second);
    assert rule[|first|] == '-';
    assert rule[..|first|] == first && rule[|first| + 1..] == second;
  }

  lemma HeadText(caret: bool, gap: string, start: string, mid: string)
    requires '-' !in gap && '-' !in start && '-' !in mid && start != [] && start[0] != '^'
    ensures var head := Mark(caret, gap) + start + mid;
      && head != [] && '-' !in head && (head[0] == '^' <==> caret)
      && (if caret then head[1..] else head) == (if caret then gap else "") + start + mid
  {}

  /** The text before the hyphen, or the whole text of a single rule. */
  lemma HeadParts(caret: bool, gap: string, start: string, mid: string) returns (head: string)
    requires All(gap, IsSpace) && All(mid, IsSpace) && LiteralValue(start).Some? && '-' !in start
    ensures head == Mark(caret, gap) + start + mid
    ensures head != [] && '-' !in head && (head[0] == '^' <==> caret)
    ensures ParseInt(Strip(if caret then head[1..] else head)) == LiteralValue(start)
  {
    head := Mark(caret, gap) + start + mid;
    LiteralIsTight(start);
    SpacesHaveNoMark(gap);
    SpacesHaveNoMark(mid);
    HeadText(caret, gap, start, mid);
    StripPadded(if caret then gap else "", start, mid);
  }

  /** Every shape of the grammar is read as what it denotes; descending ranges are refused. */
  lemma ShapeParses(sh: Shape, lo: int, hi: int)
    requires Writes(sh, lo, hi)
    ensures ReadRule(Render(sh)) == if lo <= hi then Span(sh.caret, lo, hi) else Malformed
  {
    match sh
    case One(caret, gap, start) =>
      var head := HeadParts(caret, gap, start, []);
      assert head == Render(sh);
      LiteralParses(start);
      assert !caret ==> head == start;
    case Two(caret, gap, start, mid, gap2, end) =>
      var head := HeadParts(caret, gap, start, mid);
      ReadRange(head, gap2 + end);
      assert gap2 + end == gap2 + end + [];
      StripPadded(gap2, end, []);
  }

  /** A text that strips to a literal, cut into spaces, literal, spaces. */
  lemma PaddedLiteral(s: string) returns (a: string, b: string)
    requires ParseInt(Strip(s)).Some?
    ensures s == a + Strip(s) + b && All(a, IsSpace) && All(b, IsSpace)
    ensures LiteralValue(Strip(s)) == ParseInt(Strip(s))
    ensures '-' !in s ==> '-' !in Strip(s)
    ensures s != [] && !IsSpace(s[0]) ==> a == []
    ensures s != [] && !IsSpace(s[|s| - 1]) ==> b == []
  {
    a, b := TrimCut(s, IsSpace);
    StripThenParse(s);
    var m := Strip(s);
    assert forall i :: 0 <= i < |m| ==> m[i] == s[|a| + i];
    assert a != [] ==> s[0] == a[0];
    assert b != [] ==> s[|s| - 1] == b[|b| - 1];
  }

  lemma Assoc(a: string, b: string, c: string, d: string)
    ensures a + (b + c + d) == (a + b) + c + d
  {}

  lemma HeadHasParts(caret: bool, body: string) returns (gap: string, start: string, mid: string)
    requires '-' !in body && ParseInt(Strip(body)).Some?
    requires caret || (body != [] && !IsSpace(body[0]))
    ensures (if caret then "^" else "") + body == Mark(caret, gap) + start + mid
    ensures All(gap, IsSpace) && All(mid, IsSpace) && '-' !in start
    ensures LiteralValue(start) == ParseInt(Strip(body))
    ensures body != [] && !IsSpace(body[|body| - 1]) ==> mid == []
  {
    gap, mid := PaddedLiteral(body);
    start := Strip(body);
    Assoc(if caret then "^" else "", gap, start, mid);
  }

  /** Whatever the parser accepts is a shape of the grammar. */
  lemma ParsedHasShape(rule: string) returns (sh: Shape)
    requires Tight(rule, IsSpace) && ReadRule(rule).Span?
    ensures Render(sh) == rule
    ensures var r := ReadRule(rule); Denotes(sh, r.reject, r.lo, r.hi)
  {
    if '-' in rule {
      var i := IndexOf(rule, '-');
      assert rule == rule[..i] + "-" + rule[i + 1..];
      sh := RangeHasShape(rule[..i], rule[i + 1..]);
    } else {
      sh := SingleHasShape(rule);
    }
  }

  lemma EmptyIsNoInt()
    ensures Strip([]) == [] && ParseInt([]) == None
  {}

  lemma SingleHasShape(rule: string) returns (sh: Shape)
    requires rule != [] && '-' !in rule && Tight(rule, IsSpace) && SingleRule(rule).Span?
    ensures Render(sh) == rule
    ensures var r := SingleRule(rule); Denotes(sh, r.reject, r.lo, r.hi)
  {
    hide LiteralValue, Trim;
    TightParse(rule);
    EmptyIsNoInt();
    var caret := rule[0] == '^';
    var body := if caret then rule[1..] else rule;
    var gap, start, mid := HeadHasParts(caret, body);
    assert rule == (if caret then "^" else "") + body;
    sh := One(caret, gap, start);
  }

  lemma RangeHasShape(first: string, second: string) returns (sh: Shape)
    requires '-' !in first && RangeRule(first, second).Span?
    requires first == [] || !IsSpace(first[0])
    requires second == [] || !IsSpace(second[|second| - 1])
    ensures Render(sh) == first + "-" + second
    ensures var r := RangeRule(first, second); Denotes(sh, r.reject, r.lo, r.hi)
  {
    hide LiteralValue, Trim;
    EmptyIsNoInt();
    var caret := first[0] == '^';
    var body := if caret then first[1..] else first;
    var gap, start, mid := HeadHasParts(caret, body);
    assert first == (if caret then "^" else "") + body;
    var gap2, tail := PaddedLiteral(second);
    assert second == gap2 + Strip(second);
    sh := Two(caret, gap, start, mid, gap2, Strip(second));
  }

  lemma TightParse(s: string)
    requires Tight(s, IsSpace)
    ensures Strip(s) == s
  {
    assert s == [] + s + [];
    TrimUnique([], s, [], IsSpace);
  }

  /** The rule reader decides the grammar, in both directions. */
  lemma RuleMeaning(text: string, reject: bool, lo: int, hi: int)
    ensures ParseRule(text) == Span(reject, lo, hi) <==> Spells(text, reject, lo, hi)
    ensures ParseRule(text) == Blank <==> All(text, IsSpace)
  {
    var a, b := TrimCut(text, IsSpace);
    if ParseRule(text) == Span(reject, lo, hi) {
      var sh := ParsedHasShape(Strip(text));
    }
    if Spells(text, reject, lo, hi) {
      var sh :| Render(sh) == Strip(text) && Denotes(sh, reject, lo, hi);
      ShapeParses(sh, lo, hi);
    }
    if All(text, IsSpace) {
      assert text == text + [] + [];
      TrimUnique(text, [], [], IsSpace);
    }
  }

  // ---------- whole specs ----------

  /** `set(range(lo, hi + 1))`. */
  function SpanIds(lo: int, hi: int): (ids: set<int>)
    ensures forall x :: x in ids <==> lo <= x <= hi
    decreases hi - lo
  {
    if lo > hi then {} else SpanIds(lo, hi - 1) + {hi}
  }

  function Granted(text: string): set<int>
  {
    var r := ParseRule(text);
    if r.Span? && !r.reject then SpanIds(r.lo, r.hi) else {}
  }

  function Rejected(text: string): set<int>
  {
    var r := ParseRule(text);
    if r.Span? && r.reject then SpanIds(r.lo, r.hi) else {}
  }

  function AllGranted(rules: seq<string>): set<int>
  {
    set i, x | 0 <= i < |rules| && x in Granted(rules[i]) :: x
  }

  function AllRejected(rules: seq<string>): set<int>
  {
    set i, x | 0 <= i < |rules| && x in Rejected(rules[i]) :: x
  }

  predicate NoneMalformed(rules: seq<string>)
  {
    forall i :: 0 <= i < |rules| ==> ParseRule(rules[i]) != Malformed
  }

  function Parse(spec: string): Parsed
  {
    var rules := Split(spec, ',');
    if NoneMalformed(rules) then Ids(AllGranted(rules) - AllRejected(rules)) else InvalidCpuSpec(spec)
  }

  /** `parse_cpu_spec`: one pass over the rules, growing the two sets, subtracting at the end. */
  method ParseCpuSpec(spec: string) returns (r: Parsed)
    ensures r == Parse(spec)
  {
    var ids: set<int>, rejectIds: set<int> := {}, {};
    var rules := Split(spec, ',');
    for k := 0 to |rules|
      invariant NoneMalformed(rules[..k])
      invariant ids == AllGranted(rules[..k]) && rejectIds == AllRejected(rules[..k])
    {
      assert rules[..k + 1] == rules[..k] + [rules[k]];
      var rule := ParseRule(rules[k]);
      AddRule(rules[..k], rules[k]);
      match rule
      case Blank => continue;
      case Malformed => return InvalidCpuSpec(spec);
      case Span(reject, lo, hi) =>
        if !reject {
          ids := ids + SpanIds(lo, hi);
        } else {
          rejectIds := rejectIds + SpanIds(lo, hi);
        }
    }
    assert rules[..|rules|] == rules;
    ids := ids - rejectIds;
    return Ids(ids);
  }

  lemma AddRule(rules: seq<string>, text: string)
    ensures AllGranted(rules + [text]) == AllGranted(rules) + Granted(text)
    ensures AllRejected(rules + [text]) == AllRejected(rules) + Rejected(text)
  {
    var more := rules + [text];
    assert more[|rules|] == text;
    assert forall i :: 0 <= i < |rules| ==> more[i] == rules[i];
  }

  ghost predicate Includes(text: string, x: int) { exists lo, hi :: Spells(text, false, lo, hi) && lo <= x <= hi }

  ghost predicate Excludes(text: string, x: int) { exists lo, hi :: Spells(text, true, lo, hi) && lo <= x <= hi }

  ghost predicate WellFormed(text: string)
  {
    All(text, IsSpace) || exists reject, lo, hi :: Spells(text, reject, lo, hi)
  }

  lemma RuleSets(text: string, x: int)
    ensures x in Granted(text) <==> Includes(text, x)
    ensures x in Rejected(text) <==> Excludes(text, x)
    ensures ParseRule(text) != Malformed <==> WellFormed(text)
  {
    forall reject, lo, hi ensures Spells(text, reject, lo, hi) <==> ParseRule(text) == Span(reject, lo, hi) {
      RuleMeaning(text, reject, lo, hi);
    }
    RuleMeaning(text, false, 0, 0);
  }

  /** The meaning of a spec, stated over the grammar only: parsing succeeds exactly when every
      rule is blank or well formed, and then keeps x exactly when some rule includes it and no
      rule, wherever it stands, excludes it. */
  lemma SpecMeaning(spec: string)
    ensures var rules := Split(spec, ',');
      && Join(rules, ',') == spec
      && (Parse(spec).Ids? <==> forall i :: 0 <= i < |rules| ==> WellFormed(rules[i]))
      && (!Parse(spec).Ids? ==> Parse(spec) == InvalidCpuSpec(spec))
      && (Parse(spec).Ids? ==> forall x :: x in Parse(spec).ids <==>
           (exists i :: 0 <= i < |rules| && Includes(rules[i], x)) &&
           (forall i :: 0 <= i < |rules| ==> !Excludes(rules[i], x)))
  {
    JoinSplit(spec, ',');
    RulesSucceed(Split(spec, ','));
    forall x ensures var rules := Split(spec, ',');
      && (x in AllGranted(rules) <==> exists i :: 0 <= i < |rules| && Includes(rules[i], x))
      && (x in AllRejected(rules) <==> exists i :: 0 <= i < |rules| && Excludes(rules[i], x))
    {
      RulesCover(Split(spec, ','), x);
    }
  }

  lemma RulesSucceed(rules: seq<string>)
    ensures NoneMalformed(rules) <==> forall i :: 0 <= i < |rules| ==> WellFormed(rules[i])
  {
    hide ParseRule, WellFormed;
    forall i | 0 <= i < |rules| ensures ParseRule(rules[i]) != Malformed <==> WellFormed(rules[i]) {
      RuleSets(rules[i], 0);
    }
  }

  lemma RulesCover(rules: seq<string>, x: int)
    ensures x in AllGranted(rules) <==> exists i :: 0 <= i < |rules| && Includes(rules[i], x)
    ensures x in AllRejected(rules) <==> exists i :: 0 <= i < |rules| && Excludes(rules[i], x)
  {
    hide Granted, Rejected, Includes, Excludes;
    forall i | 0 <= i < |rules|
      ensures x in Granted(rules[i]) <==> Includes(rules[i], x)
      ensures x in Rejected(rules[i]) <==> Excludes(rules[i], x)
    {
      RuleSets(rules[i], x);
    }
  }

  /** The order of the rules does not matter, neither for the ids nor for failing. */
  lemma RuleOrderIrrelevant(spec: string, spec': string)
    requires multiset(Split(spec, ',')) == multiset(Split(spec', ','))
    ensures Parse(spec).Ids? <==> Parse(spec').Ids?
    ensures Parse(spec).Ids? ==> Parse(spec).ids == Parse(spec').ids
  {
    var a, b := Split(spec, ','), Split(spec', ',');
    assert forall t :: t in a <==> t in multiset(a);
    assert forall t :: t in b <==> t in multiset(b);
    SameTexts(a, b);
    SameTexts(b, a);
  }

  lemma SameTexts(a: seq<string>, b: seq<string>)
    requires forall t :: t in a ==> t in b
    ensures NoneMalformed(b) ==> NoneMalformed(a)
    ensures AllGranted(a) <= AllGranted(b) && AllRejected(a) <= AllRejected(b)
  {
    forall i | 0 <= i < |a| ensures exists j :: 0 <= j < |b| && b[j] == a[i] {
      assert a[i] in b;
    }
  }

  /** Although `int()` accepts signs, no spec text at all yields a negative id. */
  lemma NoNegativeIds(spec: string, x: int)
    requires Parse(spec).Ids? && x in Parse(spec).ids
    ensures x >= 0
  {
    var rules := Split(spec, ',');
    var i :| 0 <= i < |rules| && x in Granted(rules[i]);
    var a, b := TrimCut(rules[i], IsSpace);
    var sh := ParsedHasShape(Strip(rules[i]));
    LiteralIsTight(sh.start);
  }

  // ---------- format_cpu_spec ----------

  function Strs(ids: seq<int>): (texts: seq<string>)
    ensures |texts| == |ids|
    ensures forall i :: 0 <= i < |texts| ==> texts[i] == Str(ids[i])
  {
    seq(|ids|, i requires 0 <= i < |ids| => Str(ids[i]))
  }

  function FormatCpuSpec(ids: seq<int>): string { Join(Strs(ids), ',') }

  lemma PrintedRule(n: int)
    ensures n >= 0 ==> ParseRule(Str(n)) == Span(false, n, n)
    ensures n < 0 ==> ParseRule(Str(n)) == Malformed
    ensures Split(Str(n), ',') == [Str(n)]
  {
    var s := Str(n);
    StrRoundTrip(n);
    LiteralIsTight(s);
    TightParse(s);
    if n < 0 {
      ReadRange([], Digits(-n));
      assert s == [] + "-" + Digits(-n);
      assert Strip([]) == [];
    } else {
      ShapeParses(One(false, "", s), n, n);
      assert Mark(false, "") + s == s;
    }
  }

  lemma {:induction false} ConcatSingletons(texts: seq<string>, parts: seq<seq<string>>)
    requires |parts| == |texts| && forall i :: 0 <= i < |texts| ==> parts[i] == [texts[i]]
    ensures Concat(parts) == texts
  {
    if texts != [] {
      ConcatSingletons(texts[1..], parts[1..]);
    }
  }

  /** The formatted text is the decimal spellings of the elements, in order, between commas. */
  lemma FormatSpelling(ids: seq<int>)
    ensures ids == [] ==> FormatCpuSpec(ids) == ""
    ensures ids != [] ==> Split(FormatCpuSpec(ids), ',') == Strs(ids)
  {
    if ids != [] {
      var texts := Strs(ids);
      forall i | 0 <= i < |ids| ensures Split(texts[i], ',') == [texts[i]] {
        PrintedRule(ids[i]);
      }
      SplitJoin(texts, ',');
      ConcatSingletons(texts, SplitAll(texts, ','));
    }
  }

  /** Parsing a formatted list gives back the set of its elements, and is refused exactly when
      the list holds a negative number. */
  lemma FormatRoundTrip(ids: seq<int>)
    ensures (forall i :: 0 <= i < |ids| ==> ids[i] >= 0) ==>
              Parse(FormatCpuSpec(ids)) == Ids(Members(ids))
    ensures (exists i :: 0 <= i < |ids| && ids[i] < 0) ==>
              Parse(FormatCpuSpec(ids)) == InvalidCpuSpec(FormatCpuSpec(ids))
  {
    var texts := Strs(ids);
    forall i | 0 <= i < |ids|
      ensures ids[i] >= 0 ==> ParseRule(texts[i]) == Span(false, ids[i], ids[i])
      ensures ids[i] < 0 ==> ParseRule(texts[i]) == Malformed
      ensures Split(texts[i], ',') == [texts[i]]
    {
      PrintedRule(ids[i]);
    }
    if ids == [] {
      assert Split("", ',') == [""] && Strip("") == "";
    } else {
      SplitJoin(texts, ',');
      ConcatSingletons(texts, SplitAll(texts, ','));
      PrintedRules(ids, texts);
    }
  }

  lemma PrintedRules(ids: seq<int>, texts: seq<string>)
    requires |texts| == |ids|
    requires forall i :: 0 <= i < |ids| ==>
      ParseRule(texts[i]) == if ids[i] >= 0 then Span(false, ids[i], ids[i]) else Malformed
    ensures NoneMalformed(texts) <==> forall i :: 0 <= i < |ids| ==> ids[i] >= 0
    ensures NoneMalformed(texts) ==>
      AllGranted(texts) == Members(ids) && AllRejected(texts) == {}
  {
    if NoneMalformed(texts) {
      forall i | 0 <= i < |ids| ensures Granted(texts[i]) == {ids[i]} && Rejected(texts[i]) == {} {}
      forall i | 0 <= i < |ids| ensures ids[i] in AllGranted(texts) {
        assert ids[i] in Granted(texts[i]);
      }
    }
  }
}
