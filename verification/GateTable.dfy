/** The gate table scripts/run_gates.py ships, in its declared order, and the
    proof that it meets what the runner relies on. */
module GateTable {
  import opened Graphs
  import opened GateModel

  datatype GateKey =
    | LakeBuild | CheckRefs | CheckFullRefsGateWiring | CheckFullRefsLauncher
    | CheckIncrementalLeanLauncher | CheckFullRefsAuthority | CheckNoExceptionLedgers
    | CheckNoIgnoredLeanSources | CheckVerificationAuthority | CheckRefsCoverage | CheckGates
    | CheckGatesAxioms | CheckReferencesOffline | CheckReferenceReviewerAttribution | CheckPublishable
    | CheckLicenses | CheckDocFacade | CheckOrphanModules | CheckInstructionsUmbrella | TestRoundtrip
    | CheckX86Obligations | CheckAarch64Obligations | Spike1HelloWindows | TestSpike1Windows
    | TestSpike1Wasm | Spike1HelloBaremetal | TestSpike1Baremetal | Spike1HelloAarch64Baremetal
    | TestSpike1Aarch64Baremetal | Spike1HelloAarch64Linux | TestSpike1Aarch64Linux
    | Spike2FibonacciWindows | TestSpike2Windows | TestSpike2Wasm | TestSpike3Windows | TestSpike3Wasm
    | TestSpike4 | TestSpike5 | TestZlib | TestPng | TestSmolalloc | PerfFuzzer | X86Fuzzer
    | EncodingFuzzer | WasmFuzzer | GzipFuzzer | PngStabilityFuzzer | X86StabilityFuzzer
    | ElfStabilityFuzzer

  const GATE_COUNT: nat := 49

  // The position of a gate in the table.
  function Index(k: GateKey): nat {
    match k
    case LakeBuild => 0
    case CheckRefs => 1
    case CheckFullRefsGateWiring => 2
    case CheckFullRefsLauncher => 3
    case CheckIncrementalLeanLauncher => 4
    case CheckFullRefsAuthority => 5
    case CheckNoExceptionLedgers => 6
    case CheckNoIgnoredLeanSources => 7
    case CheckVerificationAuthority => 8
    case CheckRefsCoverage => 9
    case CheckGates => 10
    case CheckGatesAxioms => 11
    case CheckReferencesOffline => 12
    case CheckReferenceReviewerAttribution => 13
    case CheckPublishable => 14
    case CheckLicenses => 15
    case CheckDocFacade => 16
    case CheckOrphanModules => 17
    case CheckInstructionsUmbrella => 18
    case TestRoundtrip => 19
    case CheckX86Obligations => 20
    case CheckAarch64Obligations => 21
    case Spike1HelloWindows => 22
    case TestSpike1Windows => 23
    case TestSpike1Wasm => 24
    case Spike1HelloBaremetal => 25
    case TestSpike1Baremetal => 26
    case Spike1HelloAarch64Baremetal => 27
    case TestSpike1Aarch64Baremetal => 28
    case Spike1HelloAarch64Linux => 29
    case TestSpike1Aarch64Linux => 30
    case Spike2FibonacciWindows => 31
    case TestSpike2Windows => 32
    case TestSpike2Wasm => 33
    case TestSpike3Windows => 34
    case TestSpike3Wasm => 35
    case TestSpike4 => 36
    case TestSpike5 => 37
    case TestZlib => 38
    case TestPng => 39
    case TestSmolalloc => 40
    case PerfFuzzer => 41
    case X86Fuzzer => 42
    case EncodingFuzzer => 43
    case WasmFuzzer => 44
    case GzipFuzzer => 45
    case PngStabilityFuzzer => 46
    case X86StabilityFuzzer => 47
    case ElfStabilityFuzzer => 48
  }

  function KeyAt(i: nat): GateKey
    requires i < GATE_COUNT
  {
    if i < 16 then FirstKeys(i) else if i < 32 then MiddleKeys(i) else LastKeys(i)
  }

  function FirstKeys(i: nat): GateKey {
    if i == 0 then LakeBuild
    else if i == 1 then CheckRefs
    else if i == 2 then CheckFullRefsGateWiring
    else if i == 3 then CheckFullRefsLauncher
    else if i == 4 then CheckIncrementalLeanLauncher
    else if i == 5 then CheckFullRefsAuthority
    else if i == 6 then CheckNoExceptionLedgers
    else if i == 7 then CheckNoIgnoredLeanSources
    else if i == 8 then CheckVerificationAuthority
    else if i == 9 then CheckRefsCoverage
    else if i == 10 then CheckGates
    else if i == 11 then CheckGatesAxioms
    else if i == 12 then CheckReferencesOffline
    else if i == 13 then CheckReferenceReviewerAttribution
    else if i == 14 then CheckPublishable
    else CheckLicenses
  }

  function MiddleKeys(i: nat): GateKey {
    if i == 16 then CheckDocFacade
    else if i == 17 then CheckOrphanModules
    else if i == 18 then CheckInstructionsUmbrella
    else if i == 19 then TestRoundtrip
    else if i == 20 then CheckX86Obligations
    else if i == 21 then CheckAarch64Obligations
    else if i == 22 then Spike1HelloWindows
    else if i == 23 then TestSpike1Windows
    else if i == 24 then TestSpike1Wasm
    else if i == 25 then Spike1HelloBaremetal
    else if i == 26 then TestSpike1Baremetal
    else if i == 27 then Spike1HelloAarch64Baremetal
    else if i == 28 then TestSpike1Aarch64Baremetal
    else if i == 29 then Spike1HelloAarch64Linux
    else if i == 30 then TestSpike1Aarch64Linux
    else Spike2FibonacciWindows
  }

  function LastKeys(i: nat): GateKey {
    if i == 32 then TestSpike2Windows
    else if i == 33 then TestSpike2Wasm
    else if i == 34 then TestSpike3Windows
    else if i == 35 then TestSpike3Wasm
    else if i == 36 then TestSpike4
    else if i == 37 then TestSpike5
    else if i == 38 then TestZlib
    else if i == 39 then TestPng
    else if i == 40 then TestSmolalloc
    else if i == 41 then PerfFuzzer
    else if i == 42 then X86Fuzzer
    else if i == 43 then EncodingFuzzer
    else if i == 44 then WasmFuzzer
    else if i == 45 then GzipFuzzer
    else if i == 46 then PngStabilityFuzzer
    else if i == 47 then X86StabilityFuzzer
    else ElfStabilityFuzzer
  }

  function GroupOf(k: GateKey): string {
    match k
    case LakeBuild => "build"
    case CheckRefs | CheckFullRefsGateWiring | CheckFullRefsLauncher | CheckIncrementalLeanLauncher
         | CheckNoExceptionLedgers | CheckNoIgnoredLeanSources | CheckVerificationAuthority | CheckGates
         | CheckReferencesOffline | CheckReferenceReviewerAttribution | CheckPublishable | CheckLicenses
         | CheckDocFacade | CheckOrphanModules | CheckInstructionsUmbrella => "linters"
    case CheckFullRefsAuthority | CheckRefsCoverage | CheckGatesAxioms | TestRoundtrip | CheckX86Obligations
         | CheckAarch64Obligations => "proofs"
    case PerfFuzzer | X86Fuzzer | EncodingFuzzer | WasmFuzzer | GzipFuzzer | PngStabilityFuzzer
         | X86StabilityFuzzer | ElfStabilityFuzzer => "fuzzers"
    case _ => "spikes"
  }

  predicate SlowOf(k: GateKey) {
    match k
    case X86Fuzzer | EncodingFuzzer | WasmFuzzer | GzipFuzzer | PngStabilityFuzzer | X86StabilityFuzzer
         | ElfStabilityFuzzer => true
    case _ => false
  }

  function ToolsOf(k: GateKey): set<string> {
    match k
    case LakeBuild | CheckIncrementalLeanLauncher | CheckFullRefsAuthority | CheckRefsCoverage => {"python", "lean"}
    case CheckRefs | CheckFullRefsGateWiring | CheckFullRefsLauncher | CheckNoExceptionLedgers
         | CheckNoIgnoredLeanSources | CheckVerificationAuthority | CheckGates | CheckReferencesOffline
         | CheckReferenceReviewerAttribution | CheckPublishable | CheckLicenses | CheckDocFacade
         | CheckOrphanModules | CheckInstructionsUmbrella => {"python"}
    case TestSpike1Baremetal => {"lean", "qemu"}
    case TestSpike1Aarch64Baremetal => {"lean", "qemu_system_aarch64"}
    case EncodingFuzzer => {"lean", "nasm"}
    case WasmFuzzer => {"lean", "node"}
    case GzipFuzzer => {"lean", "python"}
    case _ => {"lean"}
  }

  function DependsOnOf(k: GateKey): seq<GateKey> {
    match k
    case LakeBuild | CheckRefs | CheckFullRefsGateWiring | CheckFullRefsLauncher
         | CheckIncrementalLeanLauncher | CheckNoExceptionLedgers | CheckNoIgnoredLeanSources
         | CheckVerificationAuthority | CheckGates | CheckReferencesOffline | CheckReferenceReviewerAttribution
         | CheckPublishable | CheckLicenses | CheckDocFacade | CheckOrphanModules | CheckInstructionsUmbrella => []
    case TestSpike1Windows => [Spike1HelloWindows]
    case TestSpike1Baremetal => [Spike1HelloBaremetal]
    case TestSpike1Aarch64Baremetal => [Spike1HelloAarch64Baremetal]
    case TestSpike1Aarch64Linux => [Spike1HelloAarch64Linux]
    case TestSpike2Windows => [Spike2FibonacciWindows]
    case _ => [LakeBuild]
  }

  predicate AllowSkipOf(k: GateKey) {
    match k
    case TestSpike1Wasm | TestSpike1Aarch64Linux | TestSpike2Wasm | TestSpike3Wasm => true
    case _ => false
  }

  function GateFor(k: GateKey): Gate<GateKey> {
    Gate(k, GroupOf(k), SlowOf(k), ToolsOf(k), DependsOnOf(k), AllowSkipOf(k))
  }

  function Table(): seq<Gate<GateKey>> {
    seq(GATE_COUNT, i requires 0 <= i < GATE_COUNT => GateFor(KeyAt(i)))
  }

  lemma PositionsInverse(i: nat)
    requires i < GATE_COUNT
    ensures Index(KeyAt(i)) == i
  {
  }

  lemma BuildFirst(k: GateKey)
    ensures Index(k) < GATE_COUNT && (k != LakeBuild ==> Index(LakeBuild) < Index(k))
  {
  }

  predicate EarlierInTable(d: GateKey, k: GateKey) {
    Index(d) < Index(k) < GATE_COUNT && KeyAt(Index(d)) == d && !AllowSkipOf(d)
  }

  lemma KeysInverse(k: GateKey)
    ensures Index(k) < GATE_COUNT && KeyAt(Index(k)) == k
  {
    if Index(k) < 16 {
      assert FirstKeys(Index(k)) == k;
    } else if Index(k) < 32 {
      assert MiddleKeys(Index(k)) == k;
    } else {
      assert LastKeys(Index(k)) == k;
    }
  }

  lemma BuildBefore(k: GateKey)
    requires k != LakeBuild
    ensures EarlierInTable(LakeBuild, k)
  {
    BuildFirst(k);
  }

  predicate IsSpikeOf(d: GateKey, k: GateKey) {
    match k
    case TestSpike1Windows => d == Spike1HelloWindows
    case TestSpike1Baremetal => d == Spike1HelloBaremetal
    case TestSpike1Aarch64Baremetal => d == Spike1HelloAarch64Baremetal
    case TestSpike1Aarch64Linux => d == Spike1HelloAarch64Linux
    case TestSpike2Windows => d == Spike2FibonacciWindows
    case _ => false
  }

  lemma SpikeBeforeTest(d: GateKey, k: GateKey)
    requires IsSpikeOf(d, k)
    ensures Index(d) < Index(k) && !AllowSkipOf(d)
  {
  }

  lemma DependenciesEarlier(k: GateKey)
    ensures forall d :: d in DependsOnOf(k) ==> EarlierInTable(d, k)
  {
    forall d | d in DependsOnOf(k) ensures EarlierInTable(d, k) {
      KeysInverse(d);
      KeysInverse(k);
      if d == LakeBuild {
        BuildBefore(k);
      } else {
        SpikeBeforeTest(d, k);
      }
    }
  }

  // Keys are distinct, every dependency stands earlier in the table and none of
  // them may be skipped for a missing runner.
  lemma ShippedTableWellOrdered()
    ensures UniqueKeys(Table()) && DependencyOrdered(Table()) && NoSkippableDependency(Table())
  {
    var t := Table();
    forall i, j | 0 <= i < j < |t| ensures t[i].key != t[j].key {
      PositionsInverse(i);
      PositionsInverse(j);
    }
    forall i, d | 0 <= i < |t| && d in Deps(t, t[i]) ensures Earlier(t, i, d) {
      PositionsInverse(i);
      DependenciesEarlier(t[i].key);
      assert t[Index(d)].key == d;
    }
    forall g, h | g in t && h in t && h.key in Deps(t, g) ensures !h.allowSkipCode2 {
      DependenciesEarlier(g.key);
    }
  }
}
