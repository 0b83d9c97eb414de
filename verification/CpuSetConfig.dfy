/** The CPU-set getters of `NovaServiceManager`: where the configuration brackets of `ServiceHost`
    and the CPU-set language of `CpuSpec` meet. */
module CpuSetConfig {
  import opened PyText
  import opened CpuSpec
  import opened ServiceHost

  const DEDICATED := Key("compute", "cpu_dedicated_set")
  const PIN_SET := Key("DEFAULT", "vcpu_pin_set")

  /** `get_cpu_dedicated_set`: an unset option falls back on the older one, an empty one does not. */
  function GetCpuDedicatedSet(file: Config): Parsed
  {
    var dedicated := At(file, DEDICATED);
    var text := if dedicated.Some? then dedicated else At(file, PIN_SET);
    if text.None? || text.value == "" then Ids({}) else Parse(text.value)
  }

  lemma EmptySpec()
    ensures Parse("") == Ids({})
  {
    assert Strs([]) == [];
    FormatRoundTrip([]);
  }

  lemma PrintedSetReads(file: Config, ids: seq<int>)
    requires forall i :: 0 <= i < |ids| ==> ids[i] >= 0
    requires At(file, DEDICATED) == Some(FormatCpuSpec(ids))
    ensures GetCpuDedicatedSet(file) == Ids(Members(ids))
  {
    FormatRoundTrip(ids);
    EmptySpec();
  }

  /** Whatever the text: the set is the parse of the newer option if it is present, else of the older
      one if that is, else empty. The shortcut for empty texts changes nothing. */
  lemma DedicatedSetMeaning(file: Config)
    ensures At(file, DEDICATED).Some? ==> GetCpuDedicatedSet(file) == Parse(At(file, DEDICATED).value)
    ensures At(file, DEDICATED).None? && At(file, PIN_SET).Some? ==>
      GetCpuDedicatedSet(file) == Parse(At(file, PIN_SET).value)
    ensures At(file, DEDICATED).None? && At(file, PIN_SET).None? ==> GetCpuDedicatedSet(file) == Ids({})
  {
    hide Parse;
    EmptySpec();
  }

  /** The fall-back happens exactly when the option is absent: then the older option is read as if it
      stood in its place, and otherwise it has no say, even when the newer one is empty. */
  lemma FallBack(file: Config, other: Config)
    ensures At(file, DEDICATED) == None && At(file, PIN_SET).Some? && At(other, DEDICATED) == At(file, PIN_SET) ==>
      GetCpuDedicatedSet(file) == GetCpuDedicatedSet(other)
    ensures At(file, DEDICATED).Some? && At(other, DEDICATED) == At(file, DEDICATED) ==>
      GetCpuDedicatedSet(file) == GetCpuDedicatedSet(other)
    ensures At(file, DEDICATED) == Some("") ==> GetCpuDedicatedSet(file) == Ids({})
    ensures At(file, DEDICATED) == At(file, PIN_SET) == None ==> GetCpuDedicatedSet(file) == Ids({})
  {
    hide Parse;
  }

  lemma FallBackReads(file: Config, ids: seq<int>)
    requires forall i :: 0 <= i < |ids| ==> ids[i] >= 0
    requires At(file, DEDICATED) == None && At(file, PIN_SET) == Some(FormatCpuSpec(ids))
    ensures GetCpuDedicatedSet(file) == Ids(Members(ids))
  {
    FormatRoundTrip(ids);
    EmptySpec();
  }

  /** Configuring the printed form of a list of ids and reading the set back gives those ids, in
      the file and in what the restarted service has loaded. */
  lemma ConfiguredSetIsRead(h: Host, opts: seq<Opt>, ids: seq<int>)
    requires EnterConfig(h, opts).ok
    requires forall i :: 0 <= i < |ids| ==> ids[i] >= 0
    requires LastIndex(opts, DEDICATED) >= 0
    requires opts[LastIndex(opts, DEDICATED)].value == Some(FormatCpuSpec(ids))
    ensures var entered := EnterConfig(h, opts).host;
      GetCpuDedicatedSet(entered.file) == GetCpuDedicatedSet(entered.loaded) == Ids(Members(ids))
  {
    SaveAndSetFile(h, opts);
    RestartLoads(SaveAndSet(h, opts).host);
    PutAllAt(h.file, opts, DEDICATED);
    PrintedSetReads(PutAll(h.file, opts), ids);
  }

  /** And after a successful exit the set reads as it did before, if the body left the two options as
      it found them and neither is listed twice. */
  lemma DedicatedSetReturns(h: Host, opts: seq<Opt>, body: Host)
    requires EnterConfig(h, opts).ok && ExitConfig(body, EnterConfig(h, opts).saved).ok
    requires ListedOnce(opts, DEDICATED) && ListedOnce(opts, PIN_SET)
    requires At(body.file, DEDICATED) == At(EnterConfig(h, opts).host.file, DEDICATED)
    requires At(body.file, PIN_SET) == At(EnterConfig(h, opts).host.file, PIN_SET)
    ensures var final := ExitConfig(body, EnterConfig(h, opts).saved).host;
      GetCpuDedicatedSet(final.file) == GetCpuDedicatedSet(final.loaded) == GetCpuDedicatedSet(h.file)
  {
    hide Parse, EnterConfig, ExitConfig;
    RestoreTheorem(h, opts, body);
    OptionReturns(h, opts, body, DEDICATED);
    OptionReturns(h, opts, body, PIN_SET);
  }

  lemma OptionReturns(h: Host, opts: seq<Opt>, body: Host, k: Key)
    requires EnterConfig(h, opts).ok && ExitConfig(body, EnterConfig(h, opts).saved).ok
    requires ListedOnce(opts, k)
    requires At(body.file, k) == At(EnterConfig(h, opts).host.file, k)
    ensures At(ExitConfig(body, EnterConfig(h, opts).saved).host.file, k) == At(h.file, k)
  {
    hide EnterConfig, ExitConfig;
    RestoreTheorem(h, opts, body);
    PutAllAt(h.file, opts, k);
  }
}
