# Verified model of the whitebox-tempest-plugin helper layer

The plugin's tests reconfigure compute hosts, restart services, read CPU pinnings and poll until
something happens. This project models the helpers those tests rest on and proves what they do on
every input, run and trace.

| file | models |
|---|---|
| `PyText.dfy` | `str.split`, `str.join`, `str.strip`, `int()` and `str()` |
| `CpuSpec.dfy` | the CPU-set language: `parse_cpu_spec`, `format_cpu_spec` |
| `NumaHelper.dfy` | reading a server's pinning, two ways |
| `Siblings.dfy` | thread-sibling lists and the isolation check |
| `ServiceHost.dfy` | one service on one host: configuration file, start, stop, mask, `config_options` |
| `Managers.dfy` | the managers as objects, method by method, and `config_all_computes` over them |
| `ServiceRuns.dfy` | whole runs: nested and stacked blocks over many hosts, with failures |
| `CpuSetConfig.dfy` | CPU sets written to and read from the configuration |
| `JsonOrder.dfy`, `NormalizeJson.dfy` | Python's order on JSON values, `normalize_json` |
| `Waiters.dfy` | the polling loops |
| `SocketCpus.dfy`, `Hugepages.dfy` | CPUs of a socket, hugepage guest sizing |

How things are modelled:

- Text is `seq<char>`. Exceptions are result values (`Option`, `Parsed`, `Res`, `Wait`).
- A remote command on a host is carried out, lost, or carried out but reported as failed. What
  happens to the n-th command of a host is an arbitrary function (`Host.fate`), so a statement about
  all hosts is a statement about all patterns of failure.
- A test body is an arbitrary program (`ServiceRuns.Prog`) of reads, writes, starts, stops, raises,
  caught exceptions and further blocks.
- A wait is run against an arbitrary trace of observations and clock readings.
- `systemctl` semantics assumed for the unit: starting a masked unit is refused, starting a running
  unit changes nothing, starting a stopped unit loads the file as it is.

Things that turned out otherwise than the code's documentation suggests:

- A key listed more than once in one `config_options` call is not restored (`RestoredValue` gives the
  exact value left behind and the exact condition, `DuplicateLeaks` a case).
- A failed entry of `config_options` is not undone (`FailedEntryLeaks`; `FailedEntryHarmlessIff` says
  exactly when it does no harm).
- The mask command is issued when the *unmask* command is set (clients.py:227); with unmask set and
  mask unset every restart raises (`RestartWorksIff`).
- Joining pinnings before parsing differs from parsing each when carets are present
  (`JoinAgainstUnion`, `CaretDisagrees`).
- `normalize_json` fails on any document with two dictionaries in one list value, as in a NUMA
  topology of two cells (`DictInLongListFails`).
- The hugepage guard admits hosts on which two guests fit on one node (`SecondGuestFits`,
  `BoundaryPassesGuards`).
- `_wait_for_domain_shutdown` never sleeps between polls (`ShutdownPollsUnbounded`).

## Model

| member | source | states |
|---|---|---|
| CpuSpec.ParseCpuSpec | whitebox_tempest_plugin/hardware.py:46-90 | the loop over the rules, growing two sets and raising at the first bad rule, computes `Parse`, which SpecMeaning characterises |
| CpuSpec.RuleMeaning | whitebox_tempest_plugin/hardware.py:49-85 | a rule is read as the ids lo..hi, included or excluded, if and only if it has that form in a grammar stated without the parser (optional caret, id, optional hyphen and second id, spaces between); it is skipped if and only if it is blank |
| CpuSpec.ShapeParses | whitebox_tempest_plugin/hardware.py:54-85 | every text of the grammar is read as what it denotes, and a descending range is refused |
| CpuSpec.ParsedHasShape | whitebox_tempest_plugin/hardware.py:54-85 | every rule the parser accepts is a text of the grammar denoting that result |
| CpuSpec.SpecMeaning | whitebox_tempest_plugin/hardware.py:46-90 | for every text: parsing succeeds exactly when each rule is blank or well formed, and then x is kept exactly when some rule includes it and no rule anywhere excludes it |
| CpuSpec.RuleOrderIrrelevant | whitebox_tempest_plugin/hardware.py:46-90 | texts with the same rules in any order give the same ids or fail alike |
| CpuSpec.NoNegativeIds | whitebox_tempest_plugin/hardware.py:54-85 | no text at all yields a negative id |
| CpuSpec.SpanIds | whitebox_tempest_plugin/hardware.py:71-73 | the set of a range holds exactly the ids between its ends |
| CpuSpec.FormatRoundTrip | whitebox_tempest_plugin/hardware.py:93-97 | parsing a formatted list gives the set of its elements, and is refused exactly when an element is negative |
| CpuSpec.FormatSpelling | whitebox_tempest_plugin/hardware.py:93-97 | the formatted text is the decimal spellings of the elements, in order, between commas, and empty for the empty list |
| CpuSpec.PrintedRule | whitebox_tempest_plugin/hardware.py:80-85 | a printed id is read back as itself, a printed negative number is refused |
| PyText.SplitJoin | whitebox_tempest_plugin/api/compute/numa_helper.py:57 | splitting comma-joined texts gives the pieces of all of them in order, even if they contain commas |
| PyText.JoinSplit | whitebox_tempest_plugin/hardware.py:48 | joining the pieces of a text gives the text back |
| PyText.StrRoundTrip | whitebox_tempest_plugin/hardware.py:97 | `int(str(n)) == n` for every integer |
| PyText.PlaceValue | whitebox_tempest_plugin/hardware.py:83 | `int()` reads base ten: the first of k + 1 digits counts for its value times ten to the k |
| PyText.NumeralMeaning | whitebox_tempest_plugin/hardware.py:63 | a numeral is digits with single underscores between them |
| PyText.UnderscoresIgnored | whitebox_tempest_plugin/hardware.py:63 | the underscores of a numeral do not change its value |
| PyText.CharacterTables | whitebox_tempest_plugin/hardware.py:49-63 | which characters are digits, which `int()` skips and which `strip()` removes |
| PyText.Digits | whitebox_tempest_plugin/hardware.py:97 | the decimal spelling: digits only, no leading zero, with that value |
| NumaHelper.GetPinningAsSet | whitebox_tempest_plugin/api/compute/numa_helper.py:24-30 | the loop returns the union of all pins, or the error of the first pin that has one |
| NumaHelper.FindPin | whitebox_tempest_plugin/api/compute/numa_helper.py:54-55 | the first element with the vCPU's attribute, none exactly when there is none |
| NumaHelper.JoinAgainstUnion | whitebox_tempest_plugin/api/compute/numa_helper.py:24-57 | join-then-parse fails exactly when some pin does, never yields an id the union lacks, and equals the union if and only if no pin excludes an id of the union |
| NumaHelper.CaretFreeAgree | whitebox_tempest_plugin/api/compute/numa_helper.py:24-57 | without carets the two forms agree, failures included |
| NumaHelper.CaretDisagrees | whitebox_tempest_plugin/api/compute/numa_helper.py:57 | the pins "1" and "^1": union {1}, joined {} |
| NumaHelper.HelpersAgree | whitebox_tempest_plugin/api/compute/numa_helper.py:24-57 | on XML with distinct vCPUs and no carets, asking for all pinned vCPUs in any order gives the set `get_pinning_as_set` gives, or fails with it |
| NumaHelper.HostPcpusMeaning | whitebox_tempest_plugin/api/compute/numa_helper.py:49-57 | for every request: an error exactly when a vCPU asked for has no pin; else x is kept exactly when some rule of a requested pin includes it and no rule of a requested pin excludes it, and the parse fails exactly on an ill-formed requested rule |
| NumaHelper.HostPcpusOfOne | whitebox_tempest_plugin/api/compute/numa_helper.py:49-57 | asked for one vCPU, the answer is the parse of its first pin's cpuset |
| Siblings.GetSiblingsList | whitebox_tempest_plugin/api/compute/test_cpu_pinning.py:410-419 | the loop gives the concatenation of the pieces' ids, or ValueError exactly when a piece cannot be read; SiblingsMeaning says which those are |
| Siblings.PieceMeaning | whitebox_tempest_plugin/api/compute/test_cpu_pinning.py:412-417 | a piece is read as those ids if and only if it is an `int()` text without hyphen, giving one id, or two of them around one hyphen, giving the range |
| Siblings.SiblingsMeaning | whitebox_tempest_plugin/api/compute/test_cpu_pinning.py:410-419 | a text is accepted if and only if every comma-separated piece is of that form, and then gives the concatenation of what the pieces stand for |
| Siblings.Range | whitebox_tempest_plugin/api/compute/test_cpu_pinning.py:414-415 | the ids from start to end in order, none for a descending range |
| Siblings.TwoReadersAgree | whitebox_tempest_plugin/api/compute/test_cpu_pinning.py:410-419 | whatever this reader accepts, `parse_cpu_spec` reads to the same ids, and refuses exactly when some range runs downwards |
| Siblings.AscendingList | whitebox_tempest_plugin/api/compute/test_cpu_pinning.py:410-419 | the list is strictly ascending if and only if its pieces are increasing and do not overlap |
| Siblings.RemoveFirst | whitebox_tempest_plugin/api/compute/test_cpu_pinning.py:465 | the first occurrence goes and nothing else |
| Siblings.CheckIsolated | whitebox_tempest_plugin/api/compute/test_cpu_pinning.py:462-468 | the loop edits the sibling lists it reads, yet in any order of vCPUs it passes if and only if the pinning is isolated; it fails the assertion only on a used sibling, and crashes only on a missing entry or a shared pCPU |
| Siblings.IsolationMeaning | whitebox_tempest_plugin/api/compute/test_cpu_pinning.py:460-468 | with ascending lists that name their own pCPU, passing means: no two vCPUs share a pCPU and no pCPU in use is a sibling of another |
| ServiceHost.Put | whitebox_tempest_plugin/services/clients.py:203-213 | setting an option changes that option only; setting None removes it |
| ServiceHost.PutAllAt | whitebox_tempest_plugin/services/clients.py:159-168 | after a sequence of settings each option has the value of its last setting |
| ServiceHost.SaveAndSetFile | whitebox_tempest_plugin/services/clients.py:158-162 | a completed entry loop has set every option and remembered each option's value just before its setting |
| ServiceHost.RestoredValue | whitebox_tempest_plugin/services/clients.py:158-168 | the value the restore leaves for every option, with any duplicates: the body's, the original's, or that of the second-to-last setting; and exactly when it is the original's |
| ServiceHost.RestoredOnce | whitebox_tempest_plugin/services/clients.py:158-168 | an option listed once returns to its original value or absence, an unlisted one keeps the body's value |
| ServiceHost.DuplicateLeaks | whitebox_tempest_plugin/services/clients.py:149-169 | on any host, an option listed twice is left with its first value after a successful exit |
| ServiceHost.RestoreTheorem | whitebox_tempest_plugin/services/clients.py:149-169 | from any state the body left, a successful exit leaves the service running, unmasked, on a file that holds, option by option, the value of RestoredValue: the original for an option listed once, the body's for an unlisted one |
| ServiceHost.PartialEntry | whitebox_tempest_plugin/services/clients.py:158-162 | however the entry loop ends, the file holds exactly the settings before which every command was carried out and which were not lost themselves; the loop completes if and only if every command was carried out |
| ServiceHost.PartialExit | whitebox_tempest_plugin/services/clients.py:167-168 | the same for the restoring loop |
| ServiceHost.FailedEntryLeaks | whitebox_tempest_plugin/services/clients.py:158-163 | an option set before the service refused to stop stays set |
| ServiceHost.FailedEntryHarmlessIff | whitebox_tempest_plugin/services/clients.py:158-163 | a failed entry leaves the file as it was, whatever commands fail, if and only if every listed option already had the value asked for |
| ServiceHost.RestartLoads | whitebox_tempest_plugin/services/clients.py:220-232 | a restart never changes the file, and if it succeeds the service runs, unmasked, on that file |
| ServiceHost.RestartWorksIff | whitebox_tempest_plugin/services/clients.py:220-262 | under every pattern of failures, a restart succeeds if and only if all its commands (mask and unmask, or the subclasses' two waits, included) are carried out, it is not the case that unmask is set and mask is not, and the unit is not masked under a manager that does not unmask |
| ServiceHost.StopEffect | whitebox_tempest_plugin/services/clients.py:225-228 | a stop never changes the file; a successful one leaves the unit stopped, and masked if the manager masks |
| ServiceHost.RestartStopsAtFailure | whitebox_tempest_plugin/services/clients.py:220-232 | a restart issues nothing after a failed command: no start after a failed stop |
| ServiceHost.FailedLoopNoRestart | whitebox_tempest_plugin/services/clients.py:158-169 | entry and exit issue nothing after a failed command; when a get or set fails the service is not restarted and only the file has changed |
| ServiceHost.MaskedStartRecorded | whitebox_tempest_plugin/services/clients.py:220-223 | the record of a start issued to a masked unit is set by exactly that, and such a start never works |
| ServiceHost.SafeStart | whitebox_tempest_plugin/services/clients.py:220-223 | whatever fails, a start keeps: no start issued to a masked unit, no masked unit running |
| ServiceHost.SafeStop | whitebox_tempest_plugin/services/clients.py:225-228 | whatever fails, a stop keeps the same |
| ServiceHost.SafeConfig | whitebox_tempest_plugin/services/clients.py:149-169 | whatever fails, entering and exiting `config_options` keep the same |
| Managers.ServiceManager.Execute | whitebox_tempest_plugin/services/clients.py:45-57 | one command is counted, changes the file only if it is a setting that was not lost, and succeeds only if carried out; a successful start leaves the unit running and unmasked, a successful stop stopped |
| Managers.ServiceManager.StartUnit | whitebox_tempest_plugin/services/clients.py:220-253 | start, plain or polling: the file is unchanged, a stopped unit that starts runs unmasked on that file, and the masked-unit invariant is kept whatever fails |
| Managers.ServiceManager.StopUnit | whitebox_tempest_plugin/services/clients.py:225-262 | stop, plain or polling: the file is unchanged, success means stopped, and the masked-unit invariant is kept whatever fails |
| Managers.ServiceManager.RestartUnit | whitebox_tempest_plugin/services/clients.py:230-232 | the file is unchanged, success means running, unmasked, on that file, and the masked-unit invariant is kept whatever fails |
| Managers.ServiceManager.EnterConfigOptions | whitebox_tempest_plugin/services/clients.py:158-163 | the loop up to the yield, with early failure: on success the service runs on the file with all options set and each one's previous value is remembered |
| Managers.ServiceManager.ExitConfigOptions | whitebox_tempest_plugin/services/clients.py:166-169 | the finally block, with early failure: on success the service runs on the file with all remembered values set |
| Managers.EnterAllComputes | whitebox_tempest_plugin/api/compute/base.py:127-135 | on success all managers have entered; on failure at one, those before it have entered and exited, those after it are unchanged |
| Managers.ExitAllComputes | whitebox_tempest_plugin/api/compute/base.py:134-135 | every manager gets its own exit from its own state, whatever the others report |
| ServiceRuns.StackIsNested | whitebox_tempest_plugin/utils.py:48-51 | an ExitStack does what the nested `with` statements would do: same world, same outcome, same exit order |
| ServiceRuns.EveryRunIsSafe | whitebox_tempest_plugin/services/clients.py:149-232 | in every run, whatever fails and however the four commands are set, no start is issued to a masked unit and no masked unit runs |
| ServiceRuns.OptionsReturn | whitebox_tempest_plugin/services/clients.py:149-213 | on a host whose own commands work, every option no body writes directly keeps its value through any nesting, any raise and any failure on other hosts |
| ServiceRuns.RunReturnsHost | whitebox_tempest_plugin/services/clients.py:149-232 | a run that writes no option directly returns such a host to its file, whatever it starts and stops; a service running at the end runs unmasked on that file |
| ServiceRuns.BalancedRunIsIdentity | whitebox_tempest_plugin/services/clients.py:149-232 | if moreover every stop is made good by a later start or by a surrounding block, whether the program returns or raises, the service ends running, unmasked, on the original file |
| ServiceRuns.BalancedStops | whitebox_tempest_plugin/services/clients.py:149-232 | stop then start is balanced, so is a stop inside a `config_options` body that raises; a bare stop is not |
| ServiceRuns.EnterAllAt | whitebox_tempest_plugin/api/compute/base.py:133-135 | what entering the stack did to the host of each context, before, at and after a failing one |
| ServiceRuns.BodyStartsReady | whitebox_tempest_plugin/services/clients.py:149-181 | when the body of a block starts, a `stopped` host is stopped (and masked, if the manager masks) on an unchanged file, and a `config_options` host runs on the new file |
| ServiceRuns.StoppedExit | whitebox_tempest_plugin/services/clients.py:180-181 | leaving a `stopped` block keeps the file and gets the unit running on it; a unit the body started again is left alone |
| ServiceRuns.StartStopRestart | whitebox_tempest_plugin/services/clients.py:220-232 | what a body's own start, stop and restart do to the file, the unit and what it has loaded |
| ServiceRuns.UnwindAt | whitebox_tempest_plugin/api/compute/base.py:134-135 | unwinding runs each host's own exit, whatever the other exits do |
| ServiceRuns.UnwindOrder | whitebox_tempest_plugin/api/compute/base.py:134-135 | last entered, first exited |
| ServiceRuns.FailedEntryUnwinds | whitebox_tempest_plugin/api/compute/base.py:127-135 | if entering host n fails, the hosts before it are all exited in reverse order, those after it and all others untouched, the body does not run and the block raises |
| ServiceRuns.EveryHostIsExited | whitebox_tempest_plugin/api/compute/base.py:127-135 | once all are entered, any body outcome is followed by every host's exit in reverse order, and the block succeeds exactly when the body and all exits do |
| ServiceRuns.EarlierHostRestored | whitebox_tempest_plugin/api/compute/base.py:127-135 | after a failed entry, an earlier host whose own exit succeeds runs on a file in which every option listed at most once is back at its original value; repeated ones have the value of RestoredValue |
| ServiceRuns.EachHostRestored | whitebox_tempest_plugin/api/compute/base.py:127-135 | once all are entered, a host whose own exit succeeds runs on a file holding the value of RestoredValue for every option, whatever the body and the other hosts did |
| CpuSetConfig.FallBack | whitebox_tempest_plugin/services/clients.py:270-276 | the older option is read, as if it stood in the newer one's place, exactly when the newer one is absent; a present one, even empty, decides alone |
| CpuSetConfig.FallBackReads | whitebox_tempest_plugin/services/clients.py:270-276 | with the newer option absent and the older set to a formatted list, the getter returns the list's ids |
| CpuSetConfig.DedicatedSetMeaning | whitebox_tempest_plugin/services/clients.py:270-276 | for any text: the parse of the newer option if present, else of the older one if present, else the empty set |
| CpuSetConfig.ConfiguredSetIsRead | whitebox_tempest_plugin/services/clients.py:264-276 | inside a block that sets the dedicated set to a formatted list, the getter returns the list's ids, from the file and from what the service loaded |
| CpuSetConfig.DedicatedSetReturns | whitebox_tempest_plugin/services/clients.py:264-276 | after a successful exit the getter returns what it returned before |
| JsonOrder.LessTotal | whitebox_tempest_plugin/utils.py:38 | `<` is irreflexive, and exactly one direction holds between different values it can compare |
| JsonOrder.LessTransitive | whitebox_tempest_plugin/utils.py:38 | `<` is transitive through nested lists |
| JsonOrder.LessMeaning | whitebox_tempest_plugin/utils.py:38 | `<` is by size on numbers, by first difference on texts, by first unequal elements and else length on lists; it raises exactly on different kinds, on null, on dictionaries, and on lists whose first unequal elements raise |
| JsonOrder.SortSorted | whitebox_tempest_plugin/utils.py:38 | sorting comparable elements gives a sorted list |
| JsonOrder.SortRaisesIff | whitebox_tempest_plugin/utils.py:38 | an arrangement whose neighbours are comparable and in order exists if and only if all elements are mutually comparable, so a sort raises TypeError exactly when they are not |
| JsonOrder.SortedUnique | whitebox_tempest_plugin/utils.py:38 | there is only one sorted arrangement, so any correct sort gives this one |
| JsonOrder.SortCanonical | whitebox_tempest_plugin/utils.py:38 | two lists sort to the same list if and only if they hold the same elements equally often |
| NormalizeJson.SortListValues | whitebox_tempest_plugin/utils.py:35-45 | the recursive loop over a dictionary's values computes `NormValue`, TypeError included |
| NormalizeJson.SortListValue | whitebox_tempest_plugin/utils.py:37-39 | the branch for a list: sort, then normalise the dictionaries in it |
| NormalizeJson.Canonical | whitebox_tempest_plugin/utils.py:31-45 | where a document normalises, another has the same normal form if and only if the two differ only in the order of list values |
| NormalizeJson.EquivSameNorm | whitebox_tempest_plugin/utils.py:31-45 | documents that differ only in the order of list values normalise alike or fail together |
| NormalizeJson.NormTwice | whitebox_tempest_plugin/utils.py:31-45 | normalising twice is normalising once |
| NormalizeJson.NormConserves | whitebox_tempest_plugin/utils.py:31-45 | the normal form is the document up to the order of list values |
| NormalizeJson.NormAscends | whitebox_tempest_plugin/utils.py:38 | a normalised list value ascends in that order |
| NormalizeJson.NormNumbers | whitebox_tempest_plugin/utils.py:38 | a list of numbers normalises to the same numbers in ascending order |
| NormalizeJson.NormTexts | whitebox_tempest_plugin/utils.py:38 | a list of texts normalises to the same texts in dictionary order |
| NormalizeJson.DefinedOnDomain | whitebox_tempest_plugin/utils.py:36-41 | normalising succeeds if and only if every list reached has comparable elements or at most one |
| NormalizeJson.DictInLongListFails | whitebox_tempest_plugin/utils.py:37-39 | a dictionary beside anything else in a list value makes the document fail |
| Waiters.WaitForNovaServiceState | whitebox_tempest_plugin/common/waiters.py:26-40 | the loop ends at the first decisive poll if every reading up to it is in time, returning on the wanted state and crashing on an empty list, else times out at the first late reading |
| Waiters.WaitForMigrationComplete | whitebox_tempest_plugin/common/waiters.py:43-59 | the loop that reads the clock before every poll returns, raises MigrationException, crashes on an empty list or times out as its first decisive poll begun in time says |
| Waiters.WaitForPortDetach | whitebox_tempest_plugin/api/compute/test_sriov.py:832-856 | the same for the loop that polls before reading the clock |
| Waiters.ValidatePciAllocation | whitebox_tempest_plugin/api/compute/test_sriov.py:697-709 | the same for the PCI count, and the timeout message's variable is unset exactly when the first reading is already late |
| Waiters.WaitForDomainShutdown | whitebox_tempest_plugin/api/compute/base.py:159-172 | the same for the loop that never sleeps |
| Waiters.OneOutcome | whitebox_tempest_plugin/common/waiters.py:26-59 | a trace determines the outcome of each kind of loop |
| Waiters.WaitersCompared | whitebox_tempest_plugin/api/compute/test_sriov.py:837-856 | on the same trace the port loop ends where and how the service loop ends; when the service loop gives up, the port loop polls once more and they differ exactly when that poll is decisive |
| Waiters.MigrationOutcome | whitebox_tempest_plugin/common/waiters.py:43-59 | with i the first decisive poll begun in time: return at i iff it shows done or completed, MigrationException iff error or failed, IndexError iff the list is empty, and timeout iff there is no such poll |
| Waiters.ServiceOutcome | whitebox_tempest_plugin/common/waiters.py:26-40 | with i the first decisive poll with no late reading up to it: return at i iff its first entry is in the wanted state, IndexError iff the list is empty, and timeout iff there is no such poll |
| Waiters.PortOutcome | whitebox_tempest_plugin/api/compute/test_sriov.py:837-856 | returns at the first poll with an unset or empty device id if no earlier reading was late, and times out at the first late reading still attached |
| Waiters.PciOutcome | whitebox_tempest_plugin/api/compute/test_sriov.py:697-709 | returns at the first poll that counts one device, if begun in time, and times out exactly when there is none |
| Waiters.PollBound | whitebox_tempest_plugin/common/waiters.py:33-40 | with sleeps of at least the interval, at most max(1, ceil(timeout/interval)) polls, and one more for the port loop |
| Waiters.PollBoundCheckFirst | whitebox_tempest_plugin/common/waiters.py:44-54 | with sleeps of at least build_interval + 1, at most floor(timeout/(build_interval+1)) + 1 polls, none for a negative timeout |
| Waiters.CheckThenPollBoundReached | whitebox_tempest_plugin/common/waiters.py:33-40 | the first bound is reached |
| Waiters.CheckFirstBoundReached | whitebox_tempest_plugin/common/waiters.py:44-54 | the second bound is reached |
| Waiters.ShutdownPollsUnbounded | whitebox_tempest_plugin/api/compute/base.py:163-169 | for every n some non-decreasing clock makes the shutdown loop poll n times |
| SocketCpus.CpuIdsWithSocketAffinity | whitebox_tempest_plugin/api/compute/test_sriov.py:590-599 | the list holds each dedicated CPU once per node of the socket it sits on and nothing else; it fails exactly on an unknown socket or node |
| SocketCpus.NodesOfCounts | whitebox_tempest_plugin/api/compute/test_sriov.py:595-598 | the multiplicity is the number of places in the node list at which the CPU sits |
| SocketCpus.DisjointNodes | whitebox_tempest_plugin/api/compute/test_sriov.py:155-158 | on disjoint nodes each covered CPU is held exactly once |
| SocketCpus.SocketsPartition | whitebox_tempest_plugin/api/compute/test_sriov.py:590-599 | if the listed nodes are disjoint and cover the dedicated set, the sockets' lists together are the dedicated set, without repetition, and their lengths add up to its size |
| Hugepages.SizeGuest | whitebox_tempest_plugin/api/compute/test_cpu_pinning.py:961-999 | the guards pass if and only if both hosts have two nodes, all totals are equal and not zero, node 0 is known, and twice the least free count reaches the total; the size is that least count; a missing node 0 fails exactly when the guards before it pass |
| Hugepages.SecondGuestFits | whitebox_tempest_plugin/api/compute/test_cpu_pinning.py:991-1006 | a guest fits on every node, and a second on the same node if and only if free = total = twice the size |
| Hugepages.BoundaryPassesGuards | whitebox_tempest_plugin/api/compute/test_cpu_pinning.py:961-999 | two concrete hosts in that boundary case pass all the page-count guards |

## Left out

- SSH, container exec, `virsh`, `numactl`, MySQL: foreign I/O. `crudini` get, set and delete are lookup, update and removal; values are taken as already stripped and free of shell-special characters.
- The message test in `get_conf_opt` (clients.py:198): any failure whose text contains 'not found' counts as an absent option; here only an absent option does.
- Non-ASCII whitespace and digits in `strip` and `int()`, and Python's limit on the length of a decimal text.
- A `vcpupin` element without a `cpuset` attribute.
- JSON booleans, floats and non-string keys; documents hold null, integers, strings, lists and dictionaries.
- NormalizeJson.SortListValues: works on values, not in place; the original sorts inside a fresh copy, so the input document is unchanged either way.
- Two services on one host: each modelled host has one configuration file and one unit.
- A start or stop command that is not configured at all.
- `wait_for_trait_add_in_rp`: the loop of `wait_for_server_migration_complete` with one kind of ending.
- The page-size and CPUs-per-node guards of `test_hugepages`, and the conversion of pages to MiB of RAM.
- `get_sysfs_values`, `get_host_topology`, `get_hugepages`: line-by-line readers of command output.
- Everything Nova, Neutron, Placement and libvirt decide, and the test scenarios themselves.
