/** Reading the CPU pinning of a server: `get_pinning_as_set` parses every pin and takes the
    union, `get_host_pcpus_for_guest_vcpu` joins the pins' texts and parses once. */
module NumaHelper {
  import opened PyText
  import opened CpuSpec

  /** A `vcpupin` element of the server XML. */
  datatype VcpuPin = VcpuPin(vcpu: string, cpuset: string)

  predicate AllValid(specs: seq<string>) { forall i :: 0 <= i < |specs| ==> Parse(specs[i]).Ids? }

  function IdsOf(spec: string): set<int>
  {
    var parsed := Parse(spec);
    if parsed.Ids? then parsed.ids else {}
  }

  function UnionIds(specs: seq<string>): set<int>
  {
    set i, x | 0 <= i < |specs| && x in IdsOf(specs[i]) :: x
  }

  lemma AddSpec(specs: seq<string>, spec: string)
    ensures UnionIds(specs + [spec]) == UnionIds(specs) + IdsOf(spec)
  {
    var more := specs + [spec];
    assert more[|specs|] == spec;
    assert forall i :: 0 <= i < |specs| ==> more[i] == specs[i];
  }

  function CpuSets(pins: seq<VcpuPin>): (specs: seq<string>)
    ensures |specs| == |pins|
    ensures forall i :: 0 <= i < |specs| ==> specs[i] == pins[i].cpuset
  {
    seq(|pins|, i requires 0 <= i < |pins| => pins[i].cpuset)
  }

  ghost predicate FirstInvalid(pins: seq<VcpuPin>, i: int)
  {
    0 <= i < |pins| && AllValid(CpuSets(pins[..i])) && !Parse(pins[i].cpuset).Ids?
  }

  /** `get_pinning_as_set`: the union of all pins, or the error of the first pin that has one. */
  method GetPinningAsSet(pins: seq<VcpuPin>) returns (r: Parsed)
    ensures AllValid(CpuSets(pins)) ==> r == Ids(UnionIds(CpuSets(pins)))
    ensures !AllValid(CpuSets(pins)) ==> exists i :: FirstInvalid(pins, i) && r == Parse(pins[i].cpuset)
  {
    hide Parse;
    var pinset: set<int> := {};
    ghost var specs := CpuSets(pins);
    for k := 0 to |pins|
      invariant AllValid(specs[..k]) && pinset == UnionIds(specs[..k])
    {
      var one := ParseCpuSpec(pins[k].cpuset);
      if one.InvalidCpuSpec? {
        assert CpuSets(pins[..k]) == specs[..k];
        assert FirstInvalid(pins, k);
        return one;
      }
      assert specs[..k + 1] == specs[..k] + [specs[k]];
      AddSpec(specs[..k], specs[k]);
      pinset := pinset + one.ids;
    }
    assert specs[..|pins|] == specs;
    return Ids(pinset);
  }

  /** XPath `vcpupin[@vcpu='...']`: the first element with that attribute. */
  function FindPin(pins: seq<VcpuPin>, vcpu: string): (pin: Option<VcpuPin>)
    ensures pin.None? <==> forall i :: 0 <= i < |pins| ==> pins[i].vcpu != vcpu
    ensures pin.Some? ==> exists i :: 0 <= i < |pins| && pins[i] == pin.value && pins[i].vcpu == vcpu &&
                                      forall j :: 0 <= j < i ==> pins[j].vcpu != vcpu
  {
    if pins == [] then None
    else if pins[0].vcpu == vcpu then Some(pins[0])
    else
      var rest := FindPin(pins[1..], vcpu);
      assert forall j :: 0 <= j < |pins| - 1 ==> pins[1..][j] == pins[j + 1];
      rest
  }

  /** `get_host_pcpus_for_guest_vcpu`; None when some vCPU has no pin (an AttributeError). */
  function HostPcpus(pins: seq<VcpuPin>, cpuIds: seq<int>): Option<Parsed>
  {
    var names := Strs(cpuIds);
    if exists i :: 0 <= i < |names| && FindPin(pins, names[i]).None? then None
    else Some(Parse(Join(PinTexts(pins, names), ',')))
  }

  function PinTexts(pins: seq<VcpuPin>, names: seq<string>): (specs: seq<string>)
    requires forall i :: 0 <= i < |names| ==> FindPin(pins, names[i]).Some?
    ensures |specs| == |names|
    ensures forall i :: 0 <= i < |specs| ==> specs[i] == FindPin(pins, names[i]).value.cpuset
  {
    seq(|names|, i requires 0 <= i < |names| => FindPin(pins, names[i]).value.cpuset)
  }

  // ---------- join then parse, against parse then union ----------

  /** The ids that some rule of the spec excludes. */
  function ExcludedBy(spec: string): set<int> { AllRejected(Split(spec, ',')) }

  function IncludedBy(spec: string): set<int> { AllGranted(Split(spec, ',')) }

  lemma JoinedRules(specs: seq<string>)
    requires specs != []
    ensures var rules := Split(Join(specs, ','), ',');
      && (NoneMalformed(rules) <==> AllValid(specs))
      && (forall x :: x in AllGranted(rules) <==> exists i :: 0 <= i < |specs| && x in IncludedBy(specs[i]))
      && (forall x :: x in AllRejected(rules) <==> exists i :: 0 <= i < |specs| && x in ExcludedBy(specs[i]))
  {
    SplitJoin(specs, ',');
    var rules := Concat(SplitAll(specs, ','));
    forall t ensures t in rules <==> exists i :: 0 <= i < |specs| && t in Split(specs[i], ',') {
      ConcatMember(SplitAll(specs, ','), t);
    }
    RulesByMembership(rules, specs);
  }

  lemma RulesByMembership(rules: seq<string>, specs: seq<string>)
    requires forall t :: t in rules <==> exists i :: 0 <= i < |specs| && t in Split(specs[i], ',')
    ensures NoneMalformed(rules) <==> AllValid(specs)
    ensures forall x :: x in AllGranted(rules) <==> exists i :: 0 <= i < |specs| && x in IncludedBy(specs[i])
    ensures forall x :: x in AllRejected(rules) <==> exists i :: 0 <= i < |specs| && x in ExcludedBy(specs[i])
  {
    forall i | 0 <= i < |specs|
      ensures NoneMalformed(rules) ==> Parse(specs[i]).Ids?
      ensures IncludedBy(specs[i]) <= AllGranted(rules) && ExcludedBy(specs[i]) <= AllRejected(rules)
    {
      SameTexts(Split(specs[i], ','), rules);
    }
    forall k | 0 <= k < |rules|
      ensures exists i :: 0 <= i < |specs| && rules[k] in Split(specs[i], ',')
    {
      assert rules[k] in rules;
    }
  }

  lemma JoinedMember(specs: seq<string>, x: int)
    requires AllValid(specs) && specs != []
    ensures Parse(Join(specs, ',')).Ids?
    ensures x in Parse(Join(specs, ',')).ids <==>
      (exists i :: 0 <= i < |specs| && x in IncludedBy(specs[i])) &&
      (forall i :: 0 <= i < |specs| ==> x !in ExcludedBy(specs[i]))
    ensures x in UnionIds(specs) <==>
      exists i :: 0 <= i < |specs| && x in IncludedBy(specs[i]) && x !in ExcludedBy(specs[i])
  {
    JoinedRules(specs);
    UnionMember(specs, x);
  }

  lemma UnionMember(specs: seq<string>, x: int)
    requires AllValid(specs)
    ensures x in UnionIds(specs) <==>
      exists i :: 0 <= i < |specs| && x in IncludedBy(specs[i]) && x !in ExcludedBy(specs[i])
  {
    forall i | 0 <= i < |specs|
      ensures x in IdsOf(specs[i]) <==> x in IncludedBy(specs[i]) && x !in ExcludedBy(specs[i])
    {
      ValidIds(specs[i]);
    }
  }

  lemma ValidIds(spec: string)
    requires Parse(spec).Ids?
    ensures IdsOf(spec) == IncludedBy(spec) - ExcludedBy(spec)
  {}

  /** Both forms fail together; the joined form never finds an id the union lacks; and the two
      are equal exactly when no pin excludes an id that another pin (or itself) still yields. */
  lemma JoinAgainstUnion(specs: seq<string>)
    ensures var joined := Parse(Join(specs, ','));
      && (joined.Ids? <==> AllValid(specs))
      && (joined.Ids? ==> joined.ids <= UnionIds(specs))
      && (joined.Ids? ==> (joined.ids == UnionIds(specs) <==>
           forall i :: 0 <= i < |specs| ==> ExcludedBy(specs[i]) !! UnionIds(specs)))
  {
    if specs == [] {
      assert Split("", ',') == [""] && Strip("") == "";
    } else {
      JoinedRules(specs);
      if AllValid(specs) {
        JoinedSubset(specs);
        JoinedEqual(specs);
      }
    }
  }

  lemma JoinedSubset(specs: seq<string>)
    requires AllValid(specs) && specs != []
    ensures Parse(Join(specs, ',')).Ids? && Parse(Join(specs, ',')).ids <= UnionIds(specs)
  {
    JoinedMember(specs, 0);
    forall x | x in Parse(Join(specs, ',')).ids ensures x in UnionIds(specs) {
      JoinedMember(specs, x);
    }
  }

  lemma JoinedEqual(specs: seq<string>)
    requires AllValid(specs) && specs != []
    ensures Parse(Join(specs, ',')).Ids?
    ensures Parse(Join(specs, ',')).ids == UnionIds(specs) <==>
      forall i :: 0 <= i < |specs| ==> ExcludedBy(specs[i]) !! UnionIds(specs)
  {
    JoinedSubset(specs);
    var joined, union := Parse(Join(specs, ',')).ids, UnionIds(specs);
    if joined == union {
      forall i, x | 0 <= i < |specs| && x in ExcludedBy(specs[i]) ensures x !in union {
        JoinedMember(specs, x);
      }
    }
    if forall i :: 0 <= i < |specs| ==> ExcludedBy(specs[i]) !! union {
      forall x | x in union ensures x in joined {
        JoinedMember(specs, x);
      }
    }
  }

  lemma RejectNeedsCaret(text: string)
    requires '^' !in text
    ensures Rejected(text) == {}
  {
    var a, b := TrimCut(text, IsSpace);
    var rule := Strip(text);
    assert forall i :: 0 <= i < |rule| ==> rule[i] == text[|a| + i];
  }

  lemma {:induction false} SplitChars(s: string, c: char, t: string)
    requires t in Split(s, c)
    ensures forall x :: x in t ==> x in s
    decreases |s|
  {
    if c in s {
      var i := IndexOf(s, c);
      if t != s[..i] {
        SplitChars(s[i + 1..], c, t);
      }
    }
  }

  /** Without carets the two forms agree, failures included. */
  lemma CaretFreeAgree(specs: seq<string>)
    requires forall i :: 0 <= i < |specs| ==> '^' !in specs[i]
    ensures Parse(Join(specs, ',')).Ids? <==> AllValid(specs)
    ensures AllValid(specs) ==> Parse(Join(specs, ',')) == Ids(UnionIds(specs))
  {
    JoinAgainstUnion(specs);
    forall i | 0 <= i < |specs| ensures ExcludedBy(specs[i]) == {} {
      var rules := Split(specs[i], ',');
      forall k | 0 <= k < |rules| ensures Rejected(rules[k]) == {} {
        SplitChars(specs[i], ',', rules[k]);
        RejectNeedsCaret(rules[k]);
      }
    }
  }

  /** With a caret they can differ: an exclusion in one pin takes an id away from another pin. */
  lemma CaretDisagrees()
    ensures Parse("1") == Ids({1}) && Parse("^1") == Ids({})
    ensures Parse(Join(["1", "^1"], ',')) == Ids({})
    ensures UnionIds(["1", "^1"]) == {1}
  {
    hide Parse, ExcludedBy, IncludedBy;
    var specs := ["1", "^1"];
    OneCaretOne();
    assert IdsOf(specs[0]) == {1} && IdsOf(specs[1]) == {};
    assert 1 in UnionIds(specs);
    JoinedSubset(specs);
    JoinedMember(specs, 1);
    assert 1 in ExcludedBy(specs[1]);
  }

  lemma OneCaretOne()
    ensures Parse("1") == Ids({1}) && Parse("^1") == Ids({}) && ExcludedBy("^1") == {1}
  {
    FormatRoundTrip([1]);
    assert Strs([1]) == ["1"] && Str(1) == "1";
    PrintedRule(1);
    ShapeParses(One(true, "", "1"), 1, 1);
    assert Mark(true, "") + "1" == "^1";
    TightParse("^1");
    assert ParseRule("^1") == Span(true, 1, 1);
    var rules := Split("^1", ',');
    assert rules == ["^1"];
    assert Rejected(rules[0]) == {1} && Granted(rules[0]) == {};
  }

  predicate DistinctVcpus(pins: seq<VcpuPin>)
  {
    forall i, j :: 0 <= i < j < |pins| ==> pins[i].vcpu != pins[j].vcpu
  }

  /** Asked for exactly the vCPUs that are pinned, in any order and with any repetition, the two
      helpers agree on caret-free XML. */
  lemma HelpersAgree(pins: seq<VcpuPin>, cpuIds: seq<int>)
    requires DistinctVcpus(pins)
    requires forall i :: 0 <= i < |pins| ==> pins[i].vcpu in Strs(cpuIds)
    requires forall k :: 0 <= k < |cpuIds| ==> exists i :: 0 <= i < |pins| && pins[i].vcpu == Str(cpuIds[k])
    requires forall i :: 0 <= i < |pins| ==> '^' !in pins[i].cpuset
    ensures HostPcpus(pins, cpuIds).Some?
    ensures HostPcpus(pins, cpuIds).value.Ids? <==> AllValid(CpuSets(pins))
    ensures AllValid(CpuSets(pins)) ==> HostPcpus(pins, cpuIds) == Some(Ids(UnionIds(CpuSets(pins))))
  {
    var names := Strs(cpuIds);
    forall k | 0 <= k < |names| ensures FindPin(pins, names[k]).Some? {
      assert names[k] == Str(cpuIds[k]);
    }
    var a, b := PinTexts(pins, names), CpuSets(pins);
    SamePinTexts(pins, names);
    SameTextsAgree(a, b);
  }

  lemma SameTextsAgree(a: seq<string>, b: seq<string>)
    requires forall t :: t in a <==> t in b
    requires forall i :: 0 <= i < |b| ==> '^' !in b[i]
    ensures Parse(Join(a, ',')).Ids? <==> AllValid(b)
    ensures AllValid(b) ==> Parse(Join(a, ',')) == Ids(UnionIds(b))
  {
    SameSpecs(a, b);
    SameSpecs(b, a);
    forall k | 0 <= k < |a| ensures '^' !in a[k] {
      assert a[k] in b;
    }
    CaretFreeAgree(a);
    assert UnionIds(a) == UnionIds(b);
  }

  lemma SamePinTexts(pins: seq<VcpuPin>, names: seq<string>)
    requires DistinctVcpus(pins)
    requires forall i :: 0 <= i < |pins| ==> pins[i].vcpu in names
    requires forall k :: 0 <= k < |names| ==> FindPin(pins, names[k]).Some?
    ensures forall t :: t in PinTexts(pins, names) <==> t in CpuSets(pins)
  {
    hide Parse, FindPin;
    var a, b := PinTexts(pins, names), CpuSets(pins);
    forall k | 0 <= k < |names| ensures a[k] in b {
      var i :| 0 <= i < |pins| && pins[i] == FindPin(pins, names[k]).value;
      assert b[i] == a[k];
    }
    forall i | 0 <= i < |pins| ensures b[i] in a {
      PinFor(pins, i);
      var k :| 0 <= k < |names| && names[k] == pins[i].vcpu;
      assert a[k] == b[i];
    }
  }

  lemma PinFor(pins: seq<VcpuPin>, i: nat)
    requires DistinctVcpus(pins) && i < |pins|
    ensures FindPin(pins, pins[i].vcpu) == Some(pins[i])
  {
    hide FindPin;
    var found := FindPin(pins, pins[i].vcpu);
    assert found.Some?;
    var j :| 0 <= j < |pins| && pins[j] == found.value && pins[j].vcpu == pins[i].vcpu;
  }

  lemma SameSpecs(a: seq<string>, b: seq<string>)
    requires forall t :: t in a ==> t in b
    ensures AllValid(b) ==> AllValid(a)
    ensures UnionIds(a) <= UnionIds(b)
  {
    forall i | 0 <= i < |a| ensures exists j :: 0 <= j < |b| && b[j] == a[i] {
      assert a[i] in b;
    }
  }

  // ---------- what the join form answers, for any request ----------

  /** The element XPath finds for the name. */
  ghost predicate FirstPin(pins: seq<VcpuPin>, name: string, i: nat)
  {
    i < |pins| && pins[i].vcpu == name && forall j :: 0 <= j < i ==> pins[j].vcpu != name
  }

  /** The text is a rule in the cpuset of a pin that was asked for. */
  ghost predicate Requested(pins: seq<VcpuPin>, cpuIds: seq<int>, rule: string)
  {
    exists k: nat, i: nat :: k < |cpuIds| && FirstPin(pins, Str(cpuIds[k]), i) && rule in Split(pins[i].cpuset, ',')
  }

  lemma FindsFirstPin(pins: seq<VcpuPin>, name: string, i: nat)
    ensures FirstPin(pins, name, i) ==> FindPin(pins, name) == Some(pins[i])
    ensures FindPin(pins, name).Some? ==> exists j: nat :: FirstPin(pins, name, j) && FindPin(pins, name) == Some(pins[j])
  {
    hide FindPin;
    if FindPin(pins, name).Some? {
      var pin := FindPin(pins, name).value;
      var j :| 0 <= j < |pins| && pins[j] == pin && pins[j].vcpu == name &&
               forall m :: 0 <= m < j ==> pins[m].vcpu != name;
      assert FirstPin(pins, name, j);
    }
  }

  lemma RequestedRules(pins: seq<VcpuPin>, cpuIds: seq<int>, rule: string)
    requires forall k :: 0 <= k < |cpuIds| ==> FindPin(pins, Strs(cpuIds)[k]).Some?
    ensures Requested(pins, cpuIds, rule) <==> RuleOf(PinTexts(pins, Strs(cpuIds)), rule)
  {
    hide FindPin, Split;
    var names := Strs(cpuIds);
    var specs := PinTexts(pins, names);
    forall k: nat, i: nat | k < |cpuIds| && FirstPin(pins, Str(cpuIds[k]), i) ensures specs[k] == pins[i].cpuset {
      FindsFirstPin(pins, names[k], i);
    }
    forall k: nat | k < |cpuIds|
      ensures exists i: nat :: FirstPin(pins, Str(cpuIds[k]), i) && specs[k] == pins[i].cpuset
    {
      FindsFirstPin(pins, names[k], 0);
    }
  }

  /** For every request: the answer is missing exactly when some vCPU asked for has no pin. Otherwise
      it fails exactly when a rule of a requested pin is ill formed, and else keeps x exactly when
      some rule of a requested pin includes it and no rule of a requested pin excludes it. Pins that
      were not asked for play no part. */
  lemma HostPcpusMeaning(pins: seq<VcpuPin>, cpuIds: seq<int>)
    ensures HostPcpus(pins, cpuIds).None? <==>
      exists k :: 0 <= k < |cpuIds| && forall i :: 0 <= i < |pins| ==> pins[i].vcpu != Str(cpuIds[k])
    ensures HostPcpus(pins, cpuIds).Some? ==> var r := HostPcpus(pins, cpuIds).value;
      && (r.Ids? <==> forall rule :: Requested(pins, cpuIds, rule) ==> WellFormed(rule))
      && (r.Ids? ==> forall x :: x in r.ids <==>
           (exists rule :: Requested(pins, cpuIds, rule) && Includes(rule, x)) &&
           (forall rule :: Requested(pins, cpuIds, rule) ==> !Excludes(rule, x)))
  {
    hide FindPin, Parse, Requested, RuleOf, WellFormed, Includes, Excludes;
    var names := Strs(cpuIds);
    MissingPin(pins, cpuIds);
    if HostPcpus(pins, cpuIds).Some? {
      var specs := PinTexts(pins, names);
      forall rule ensures Requested(pins, cpuIds, rule) <==> RuleOf(specs, rule) {
        RequestedRules(pins, cpuIds, rule);
      }
      JoinedMeaning(specs);
    }
  }

  lemma MissingPin(pins: seq<VcpuPin>, cpuIds: seq<int>)
    ensures HostPcpus(pins, cpuIds).None? <==>
      exists k :: 0 <= k < |cpuIds| && forall i :: 0 <= i < |pins| ==> pins[i].vcpu != Str(cpuIds[k])
  {
    hide FindPin, Parse;
    var names := Strs(cpuIds);
    forall k | 0 <= k < |cpuIds|
      ensures FindPin(pins, names[k]).None? <==> forall i :: 0 <= i < |pins| ==> pins[i].vcpu != Str(cpuIds[k])
    {}
  }

  ghost predicate RuleOf(specs: seq<string>, rule: string)
  {
    exists k :: 0 <= k < |specs| && rule in Split(specs[k], ',')
  }

  /** Parsing a comma-joined text, rule by rule. */
  lemma JoinedMeaning(specs: seq<string>)
    ensures var r := Parse(Join(specs, ','));
      && (r.Ids? <==> forall rule :: RuleOf(specs, rule) ==> WellFormed(rule))
      && (r.Ids? ==> forall x :: x in r.ids <==>
           (exists rule :: RuleOf(specs, rule) && Includes(rule, x)) &&
           (forall rule :: RuleOf(specs, rule) ==> !Excludes(rule, x)))
  {
    hide WellFormed, Includes, Excludes;
    if specs == [] {
      EmptyText();
    } else {
      var rules := Split(Join(specs, ','), ',');
      SplitJoin(specs, ',');
      forall rule ensures rule in rules <==> RuleOf(specs, rule) {
        ConcatMember(SplitAll(specs, ','), rule);
      }
      SpecMeaning(Join(specs, ','));
      assert forall i :: 0 <= i < |rules| ==> rules[i] in rules;
    }
  }

  lemma EmptyText()
    ensures Parse("") == Ids({})
  {
    FormatRoundTrip([]);
  }

  /** Asked for one vCPU, the answer is its own pin's cpuset. */
  lemma HostPcpusOfOne(pins: seq<VcpuPin>, cpuId: int, i: nat)
    requires FirstPin(pins, Str(cpuId), i)
    ensures HostPcpus(pins, [cpuId]) == Some(Parse(pins[i].cpuset))
  {
    hide Parse;
    FindsFirstPin(pins, Str(cpuId), i);
    assert Strs([cpuId]) == [Str(cpuId)];
    assert PinTexts(pins, Strs([cpuId])) == [pins[i].cpuset];
  }
}
