/** Whether a snapshot may be loaded into a target (crates/domain/src/snapshot.rs).

    Identifiers, digests, versions and names are only compared, so each is a number. */
module CompatibilityModel {
  import opened Prelude

  type Token = nat

  datatype RuntimeProfile = RuntimeProfile(
    providerKind: Token, providerVersion: Token, vmm: Token, kernel: Token, rootfs: Token,
    bridgeProtocol: Token, jailerMode: Token, cgroupMode: Token, hostKernel: Token)

  datatype HostCpuIdentity = HostCpuIdentity(arch: Token, cpuModel: Token, kvmCapabilities: Token)

  datatype Egress = NoEgress | Restricted | PublicWeb

  datatype NetworkProfile = NetworkProfile(egress: Egress, allowlist: Option<Token>)

  datatype Target = Target(
    tenant: TenantId, function_: Token, revision: RevisionId, specDigest: Token,
    runtime: RuntimeProfile, hostCpu: HostCpuIdentity, devices: Token, memoryMib: nat, vcpus: nat,
    storage: Token, network: NetworkProfile, keyGeneration: Token, secretGeneration: Token, lifecycleVersion: nat)

  datatype Manifest = Manifest(version: nat, source: Target, expiresAt: Timestamp, checkpointPhase: string)

  datatype SnapshotState = Active | Revoked(reason: string) | Quarantined(reason: string) | PastExpiry

  const SNAPSHOT_MANIFEST_VERSION := 1
  const CHECKPOINT_PHASE := "checkpoint"

  datatype RuntimeField =
    | ProviderKind | ProviderVersion | Vmm | Kernel | Rootfs
    | BridgeProtocol | JailerMode | CgroupMode | HostKernel

  datatype CpuField = Arch | CpuModel | KvmCapabilities

  datatype Reason =
    | ManifestVersion(found: nat)
    | TenantMismatch
    | FunctionMismatch | RevisionMismatch | SpecDigestMismatch
    | RuntimeMismatch(field: RuntimeField)
    | HostCpuMismatch(cpuField: CpuField)
    | DeviceModelMismatch | MemoryMismatch | VcpuMismatch | StorageMismatch | NetworkMismatch
    | EgressUnsupported
    | KeyGenerationChanged | SecretGenerationChanged | LifecycleVersionMismatch
    | CheckpointPhase(phase: string)
    | Expired
    | WasRevoked(reason: string)
    | WasQuarantined(reason: string)

  datatype Compatibility = Compatible | Incompatible(reasons: seq<Reason>)

  /** What is asked: may this snapshot, in this catalog state, be loaded there now? */
  datatype Question = Question(m: Manifest, state: SnapshotState, target: Target, now: Timestamp)

  // ---------------------------------------------------------------- the meaning of the reasons

  function RuntimeValue(p: RuntimeProfile, f: RuntimeField): Token {
    match f
    case ProviderKind => p.providerKind
    case ProviderVersion => p.providerVersion
    case Vmm => p.vmm
    case Kernel => p.kernel
    case Rootfs => p.rootfs
    case BridgeProtocol => p.bridgeProtocol
    case JailerMode => p.jailerMode
    case CgroupMode => p.cgroupMode
    case HostKernel => p.hostKernel
  }

  function CpuValue(p: HostCpuIdentity, f: CpuField): Token {
    match f
    case Arch => p.arch
    case CpuModel => p.cpuModel
    case KvmCapabilities => p.kvmCapabilities
  }

  /** The reason holds of the question, other tenants aside. */
  predicate Applies(r: Reason, q: Question) {
    var s, t := q.m.source, q.target;
    match r
    case TenantMismatch => false
    case ManifestVersion(found) => found == q.m.version != SNAPSHOT_MANIFEST_VERSION
    case WasRevoked(reason) => q.state == Revoked(reason)
    case WasQuarantined(reason) => q.state == Quarantined(reason)
    case Expired => q.state.PastExpiry? || q.now >= q.m.expiresAt
    case FunctionMismatch => s.function_ != t.function_
    case RevisionMismatch => s.revision != t.revision
    case SpecDigestMismatch => s.specDigest != t.specDigest
    case RuntimeMismatch(f) => RuntimeValue(s.runtime, f) != RuntimeValue(t.runtime, f)
    case HostCpuMismatch(f) => CpuValue(s.hostCpu, f) != CpuValue(t.hostCpu, f)
    case DeviceModelMismatch => s.devices != t.devices
    case MemoryMismatch => s.memoryMib != t.memoryMib
    case VcpuMismatch => s.vcpus != t.vcpus
    case StorageMismatch => s.storage != t.storage
    case NetworkMismatch => s.network != t.network
    case EgressUnsupported => !s.network.egress.NoEgress? || !t.network.egress.NoEgress?
    case KeyGenerationChanged => s.keyGeneration != t.keyGeneration
    case SecretGenerationChanged => s.secretGeneration != t.secretGeneration
    case LifecycleVersionMismatch => s.lifecycleVersion != t.lifecycleVersion
    case CheckpointPhase(phase) => phase == q.m.checkpointPhase != CHECKPOINT_PHASE
  }

  /** The place of a reason in every list of reasons. */
  function Rank(r: Reason): nat {
    match r
    case TenantMismatch => 100
    case ManifestVersion(_) => 0
    case WasRevoked(_) => 1
    case WasQuarantined(_) => 2
    case Expired => 3
    case FunctionMismatch => 4
    case RevisionMismatch => 5
    case SpecDigestMismatch => 6
    case RuntimeMismatch(f) => 7 + RuntimePlace(f)
    case HostCpuMismatch(f) => 16 + CpuPlace(f)
    case DeviceModelMismatch => 19
    case MemoryMismatch => 20
    case VcpuMismatch => 21
    case StorageMismatch => 22
    case NetworkMismatch => 23
    case EgressUnsupported => 24
    case KeyGenerationChanged => 25
    case SecretGenerationChanged => 26
    case LifecycleVersionMismatch => 27
    case CheckpointPhase(_) => 28
  }

  function RuntimePlace(f: RuntimeField): (n: nat)
    ensures n < 9
  {
    match f
    case ProviderKind => 0
    case ProviderVersion => 1
    case Vmm => 2
    case Kernel => 3
    case Rootfs => 4
    case BridgeProtocol => 5
    case JailerMode => 6
    case CgroupMode => 7
    case HostKernel => 8
  }

  function CpuPlace(f: CpuField): (n: nat)
    ensures n < 3
  {
    match f case Arch => 0 case CpuModel => 1 case KvmCapabilities => 2
  }

  predicate InOrder(reasons: seq<Reason>) {
    forall i, j :: 0 <= i < j < |reasons| ==> Rank(reasons[i]) < Rank(reasons[j])
  }

  /** Exactly the reasons ranked below `k` that apply, in their order. */
  ghost predicate Lists(reasons: seq<Reason>, q: Question, k: nat) {
    && InOrder(reasons)
    && forall r: Reason :: r in reasons <==> Applies(r, q) && Rank(r) < k
  }

  /** Adds a reason when it applies. */
  function Push(reasons: seq<Reason>, applies: bool, r: Reason): seq<Reason> {
    if applies then reasons + [r] else reasons
  }

  /** Of the reasons with one rank only one can apply to a question. */
  lemma OneReasonPerRank(r: Reason, s: Reason, q: Question)
    requires Rank(r) == Rank(s) && Applies(r, q) && Applies(s, q)
    ensures r == s
  {
  }

  lemma Pushed(reasons: seq<Reason>, applies: bool, r: Reason, q: Question)
    requires Lists(reasons, q, Rank(r)) && applies == Applies(r, q)
    requires forall s: Reason :: Rank(s) == Rank(r) && Applies(s, q) ==> Applies(r, q)
    ensures Lists(Push(reasons, applies, r), q, Rank(r) + 1)
  {
    var pushed := Push(reasons, applies, r);
    forall s: Reason ensures s in pushed <==> Applies(s, q) && Rank(s) < Rank(r) + 1 {
      if Applies(s, q) && Rank(s) == Rank(r) {
        OneReasonPerRank(s, r, q);
      }
    }
    forall i, j | 0 <= i < j < |pushed| ensures Rank(pushed[i]) < Rank(pushed[j]) {
      assert reasons[i] in reasons;
    }
  }

  // ---------------------------------------------------------------- the checks

  /** Pushes one of the reasons that carry nothing beside their field. */
  method Check(q: Question, reasons: seq<Reason>, applies: bool, r: Reason) returns (pushed: seq<Reason>)
    requires Lists(reasons, q, Rank(r)) && applies == Applies(r, q) && 3 <= Rank(r) <= 27
    ensures Lists(pushed, q, Rank(r) + 1)
  {
    forall s: Reason | Rank(s) == Rank(r) ensures s == r {
      OnlyReasonOfRank(s, r);
    }
    pushed := CheckFound(q, reasons, applies, r);
  }

  lemma OnlyReasonOfRank(s: Reason, r: Reason)
    requires Rank(s) == Rank(r) && 3 <= Rank(r) <= 27
    ensures s == r
  {
  }

  /** Pushes a reason that carries what was found. */
  method CheckFound(q: Question, reasons: seq<Reason>, applies: bool, r: Reason) returns (pushed: seq<Reason>)
    requires Lists(reasons, q, Rank(r)) && applies == Applies(r, q)
    requires forall s: Reason :: Rank(s) == Rank(r) && Applies(s, q) ==> Applies(r, q)
    ensures Lists(pushed, q, Rank(r) + 1)
  {
    pushed := reasons;
    if applies {
      pushed := pushed + [r];
    }
    Pushed(reasons, applies, r, q);
  }

  lemma NothingToPush(reasons: seq<Reason>, q: Question, k: nat, till: nat)
    requires Lists(reasons, q, k) && k <= till
    requires forall r: Reason :: k <= Rank(r) < till ==> !Applies(r, q)
    ensures Lists(reasons, q, till)
  {
  }

  method CheckState(q: Question, before: seq<Reason>) returns (reasons: seq<Reason>)
    requires Lists(before, q, 1)
    ensures Lists(reasons, q, 4)
  {
    reasons := before;
    match q.state {
      case Active =>
        NothingToPush(reasons, q, 1, 3);
      case Revoked(reason) =>
        reasons := CheckFound(q, reasons, true, WasRevoked(reason));
        NothingToPush(reasons, q, 2, 3);
      case Quarantined(reason) =>
        NothingToPush(reasons, q, 1, 2);
        reasons := CheckFound(q, reasons, true, WasQuarantined(reason));
      case PastExpiry =>
        NothingToPush(reasons, q, 1, 3);
        reasons := Check(q, reasons, true, Expired);
    }
    if !q.state.PastExpiry? {
      reasons := Check(q, reasons, q.now >= q.m.expiresAt, Expired);
    }
  }

  method CheckRuntime(q: Question, before: seq<Reason>) returns (reasons: seq<Reason>)
    requires Lists(before, q, 7)
    ensures Lists(reasons, q, 16)
  {
    reasons := before;
    var m, t := q.m.source.runtime, q.target.runtime;
    var fields := [ProviderKind, ProviderVersion, Vmm, Kernel, Rootfs, BridgeProtocol, JailerMode, CgroupMode, HostKernel];
    for i := 0 to 9
      invariant Lists(reasons, q, 7 + i)
    {
      assert RuntimePlace(fields[i]) == i;
      reasons := Check(q, reasons, RuntimeValue(m, fields[i]) != RuntimeValue(t, fields[i]), RuntimeMismatch(fields[i]));
    }
  }

  method CheckCpu(q: Question, before: seq<Reason>) returns (reasons: seq<Reason>)
    requires Lists(before, q, 16)
    ensures Lists(reasons, q, 19)
  {
    reasons := before;
    var m, t := q.m.source.hostCpu, q.target.hostCpu;
    var fields := [Arch, CpuModel, KvmCapabilities];
    for i := 0 to 3
      invariant Lists(reasons, q, 16 + i)
    {
      assert CpuPlace(fields[i]) == i;
      reasons := Check(q, reasons, CpuValue(m, fields[i]) != CpuValue(t, fields[i]), HostCpuMismatch(fields[i]));
    }
  }

  method CheckIdentity(q: Question, before: seq<Reason>) returns (reasons: seq<Reason>)
    requires Lists(before, q, 4)
    ensures Lists(reasons, q, 7)
  {
    var m, t := q.m.source, q.target;
    reasons := Check(q, before, m.function_ != t.function_, FunctionMismatch);
    reasons := Check(q, reasons, m.revision != t.revision, RevisionMismatch);
    reasons := Check(q, reasons, m.specDigest != t.specDigest, SpecDigestMismatch);
  }

  method CheckMachine(q: Question, before: seq<Reason>) returns (reasons: seq<Reason>)
    requires Lists(before, q, 19)
    ensures Lists(reasons, q, 23)
  {
    var m, t := q.m.source, q.target;
    reasons := Check(q, before, m.devices != t.devices, DeviceModelMismatch);
    reasons := Check(q, reasons, m.memoryMib != t.memoryMib, MemoryMismatch);
    reasons := Check(q, reasons, m.vcpus != t.vcpus, VcpuMismatch);
    reasons := Check(q, reasons, m.storage != t.storage, StorageMismatch);
  }

  method CheckNetwork(q: Question, before: seq<Reason>) returns (reasons: seq<Reason>)
    requires Lists(before, q, 23)
    ensures Lists(reasons, q, 25)
  {
    var m, t := q.m.source.network, q.target.network;
    reasons := Check(q, before, m != t, NetworkMismatch);
    reasons := Check(q, reasons, m.egress != NoEgress || t.egress != NoEgress, EgressUnsupported);
  }

  method CheckGenerations(q: Question, before: seq<Reason>) returns (reasons: seq<Reason>)
    requires Lists(before, q, 25)
    ensures Lists(reasons, q, 29)
  {
    var m, t := q.m.source, q.target;
    reasons := Check(q, before, m.keyGeneration != t.keyGeneration, KeyGenerationChanged);
    reasons := Check(q, reasons, m.secretGeneration != t.secretGeneration, SecretGenerationChanged);
    reasons := Check(q, reasons, m.lifecycleVersion != t.lifecycleVersion, LifecycleVersionMismatch);
    reasons := CheckFound(q, reasons, q.m.checkpointPhase != CHECKPOINT_PHASE, CheckpointPhase(q.m.checkpointPhase));
  }

  /** No reason holds, the tenant included. */
  ghost predicate Loadable(q: Question) {
    q.m.source.tenant == q.target.tenant && forall r: Reason :: !Applies(r, q)
  }

  /** A manifest that some target can load in this state at this time. */
  predicate Restorable(m: Manifest, state: SnapshotState, now: Timestamp) {
    && m.version == SNAPSHOT_MANIFEST_VERSION && m.checkpointPhase == CHECKPOINT_PHASE
    && m.source.network.egress.NoEgress?
    && state.Active? && now < m.expiresAt
  }

  /** Another tenant's snapshot gives exactly one reason. Otherwise the reasons are exactly
      those that apply, each once and in order; there are none exactly when the manifest is
      restorable and the target equals what it was taken from in every field. */
  method CheckCompatibility(q: Question) returns (c: Compatibility)
    ensures q.m.source.tenant != q.target.tenant ==> c == Incompatible([TenantMismatch])
    ensures q.m.source.tenant == q.target.tenant && c.Incompatible? ==>
      InOrder(c.reasons) && forall r: Reason :: r in c.reasons <==> Applies(r, q)
    ensures c.Compatible? <==> Loadable(q)
    ensures c.Compatible? <==> Restorable(q.m, q.state, q.now) && q.target == q.m.source
  {
    if q.m.source.tenant != q.target.tenant {
      return Incompatible([TenantMismatch]);
    }
    var reasons := CheckFound(q, [], q.m.version != SNAPSHOT_MANIFEST_VERSION, ManifestVersion(q.m.version));
    reasons := CheckState(q, reasons);
    reasons := CheckIdentity(q, reasons);
    reasons := CheckRuntime(q, reasons);
    reasons := CheckCpu(q, reasons);
    reasons := CheckMachine(q, reasons);
    reasons := CheckNetwork(q, reasons);
    reasons := CheckGenerations(q, reasons);
    NoReasonExactly(q);
    if reasons == [] {
      assert forall r: Reason :: !(r in reasons);
      return Compatible;
    }
    assert reasons[0] in reasons;
    return Incompatible(reasons);
  }

  lemma SameHost(q: Question)
    requires forall r: Reason :: !Applies(r, q)
    ensures q.m.source.runtime == q.target.runtime && q.m.source.hostCpu == q.target.hostCpu
  {
    assert !Applies(RuntimeMismatch(ProviderKind), q) && !Applies(RuntimeMismatch(ProviderVersion), q);
    assert !Applies(RuntimeMismatch(Vmm), q) && !Applies(RuntimeMismatch(Kernel), q) && !Applies(RuntimeMismatch(Rootfs), q);
    assert !Applies(RuntimeMismatch(BridgeProtocol), q) && !Applies(RuntimeMismatch(JailerMode), q);
    assert !Applies(RuntimeMismatch(CgroupMode), q) && !Applies(RuntimeMismatch(HostKernel), q);
    assert !Applies(HostCpuMismatch(Arch), q) && !Applies(HostCpuMismatch(CpuModel), q);
    assert !Applies(HostCpuMismatch(KvmCapabilities), q);
  }

  lemma SameMachine(q: Question)
    requires forall r: Reason :: !Applies(r, q)
    ensures
      var s, t := q.m.source, q.target;
      && s.function_ == t.function_ && s.revision == t.revision && s.specDigest == t.specDigest
      && s.devices == t.devices && s.memoryMib == t.memoryMib && s.vcpus == t.vcpus
      && s.storage == t.storage && s.network == t.network && s.keyGeneration == t.keyGeneration
      && s.secretGeneration == t.secretGeneration && s.lifecycleVersion == t.lifecycleVersion
  {
    assert !Applies(FunctionMismatch, q) && !Applies(RevisionMismatch, q) && !Applies(SpecDigestMismatch, q);
    assert !Applies(DeviceModelMismatch, q) && !Applies(MemoryMismatch, q) && !Applies(VcpuMismatch, q);
    assert !Applies(StorageMismatch, q) && !Applies(NetworkMismatch, q) && !Applies(KeyGenerationChanged, q);
    assert !Applies(SecretGenerationChanged, q) && !Applies(LifecycleVersionMismatch, q);
  }

  lemma NothingFoundIsRestorable(q: Question)
    requires forall r: Reason :: !Applies(r, q)
    ensures Restorable(q.m, q.state, q.now)
  {
    assert !Applies(ManifestVersion(q.m.version), q) && !Applies(CheckpointPhase(q.m.checkpointPhase), q);
    assert !Applies(Expired, q) && !Applies(EgressUnsupported, q);
    match q.state {
      case Revoked(reason) =>
        assert Applies(WasRevoked(reason), q);
      case Quarantined(reason) =>
        assert Applies(WasQuarantined(reason), q);
      case _ =>
    }
  }

  /** The reasons leave no field of the target free. */
  lemma NoReasonExactly(q: Question)
    requires q.m.source.tenant == q.target.tenant
    ensures (forall r: Reason :: !Applies(r, q)) <==> Restorable(q.m, q.state, q.now) && q.target == q.m.source
  {
    if forall r: Reason :: !Applies(r, q) {
      SameHost(q);
      SameMachine(q);
      NothingFoundIsRestorable(q);
    }
  }

  /** For one manifest the compatible targets are at most one, and the times at which it
      is compatible are downward closed. */
  lemma CompatibleTargetIsUnique(m: Manifest, s1: SnapshotState, t1: Target, n1: Timestamp, s2: SnapshotState, t2: Target, n2: Timestamp)
    requires Loadable(Question(m, s1, t1, n1))
    ensures Loadable(Question(m, s2, t2, n2)) ==> t1 == t2
    ensures n2 <= n1 ==> Loadable(Question(m, s1, t1, n2))
  {
    NoReasonExactly(Question(m, s1, t1, n1));
    if n2 <= n1 {
      NoReasonExactly(Question(m, s1, t1, n2));
    }
    if Loadable(Question(m, s2, t2, n2)) {
      NoReasonExactly(Question(m, s2, t2, n2));
    }
  }

  // ---------------------------------------------------------------- each field has its own reason

  ghost predicate OnlyReason(q: Question, r: Reason) {
    forall other: Reason :: Applies(other, q) <==> other == r
  }

  /** A target that differs from the source in one field alone is refused for exactly the
      reason named after that field. */
  lemma IdentityHasItsReasons(m: Manifest, state: SnapshotState, now: Timestamp, x: Token)
    requires Restorable(m, state, now)
    ensures x != m.source.function_ ==> OnlyReason(Question(m, state, m.source.(function_ := x), now), FunctionMismatch)
    ensures x != m.source.revision ==> OnlyReason(Question(m, state, m.source.(revision := x), now), RevisionMismatch)
    ensures x != m.source.specDigest ==> OnlyReason(Question(m, state, m.source.(specDigest := x), now), SpecDigestMismatch)
  {
  }

  lemma MachineHasItsReasons(m: Manifest, state: SnapshotState, now: Timestamp, x: Token)
    requires Restorable(m, state, now)
    ensures x != m.source.devices ==> OnlyReason(Question(m, state, m.source.(devices := x), now), DeviceModelMismatch)
    ensures x != m.source.memoryMib ==> OnlyReason(Question(m, state, m.source.(memoryMib := x), now), MemoryMismatch)
    ensures x != m.source.vcpus ==> OnlyReason(Question(m, state, m.source.(vcpus := x), now), VcpuMismatch)
    ensures x != m.source.storage ==> OnlyReason(Question(m, state, m.source.(storage := x), now), StorageMismatch)
  {
  }

  lemma GenerationsHaveTheirReasons(m: Manifest, state: SnapshotState, now: Timestamp, x: Token)
    requires Restorable(m, state, now)
    ensures x != m.source.keyGeneration ==> OnlyReason(Question(m, state, m.source.(keyGeneration := x), now), KeyGenerationChanged)
    ensures x != m.source.secretGeneration ==> OnlyReason(Question(m, state, m.source.(secretGeneration := x), now), SecretGenerationChanged)
    ensures x != m.source.lifecycleVersion ==> OnlyReason(Question(m, state, m.source.(lifecycleVersion := x), now), LifecycleVersionMismatch)
  {
  }

  lemma RuntimeHasItsReasons(m: Manifest, state: SnapshotState, now: Timestamp, x: Token)
    requires Restorable(m, state, now)
    ensures x != m.source.runtime.providerKind ==>
      OnlyReason(Question(m, state, m.source.(runtime := m.source.runtime.(providerKind := x)), now), RuntimeMismatch(ProviderKind))
    ensures x != m.source.runtime.providerVersion ==>
      OnlyReason(Question(m, state, m.source.(runtime := m.source.runtime.(providerVersion := x)), now), RuntimeMismatch(ProviderVersion))
    ensures x != m.source.runtime.vmm ==>
      OnlyReason(Question(m, state, m.source.(runtime := m.source.runtime.(vmm := x)), now), RuntimeMismatch(Vmm))
    ensures x != m.source.runtime.kernel ==>
      OnlyReason(Question(m, state, m.source.(runtime := m.source.runtime.(kernel := x)), now), RuntimeMismatch(Kernel))
    ensures x != m.source.runtime.rootfs ==>
      OnlyReason(Question(m, state, m.source.(runtime := m.source.runtime.(rootfs := x)), now), RuntimeMismatch(Rootfs))
  {
  }

  lemma HostHasItsReasons(m: Manifest, state: SnapshotState, now: Timestamp, x: Token)
    requires Restorable(m, state, now)
    ensures x != m.source.runtime.bridgeProtocol ==>
      OnlyReason(Question(m, state, m.source.(runtime := m.source.runtime.(bridgeProtocol := x)), now), RuntimeMismatch(BridgeProtocol))
    ensures x != m.source.runtime.jailerMode ==>
      OnlyReason(Question(m, state, m.source.(runtime := m.source.runtime.(jailerMode := x)), now), RuntimeMismatch(JailerMode))
    ensures x != m.source.runtime.cgroupMode ==>
      OnlyReason(Question(m, state, m.source.(runtime := m.source.runtime.(cgroupMode := x)), now), RuntimeMismatch(CgroupMode))
    ensures x != m.source.runtime.hostKernel ==>
      OnlyReason(Question(m, state, m.source.(runtime := m.source.runtime.(hostKernel := x)), now), RuntimeMismatch(HostKernel))
  {
  }

  lemma CpuHasItsReasons(m: Manifest, state: SnapshotState, now: Timestamp, x: Token)
    requires Restorable(m, state, now)
    ensures x != m.source.hostCpu.arch ==>
      OnlyReason(Question(m, state, m.source.(hostCpu := m.source.hostCpu.(arch := x)), now), HostCpuMismatch(Arch))
    ensures x != m.source.hostCpu.cpuModel ==>
      OnlyReason(Question(m, state, m.source.(hostCpu := m.source.hostCpu.(cpuModel := x)), now), HostCpuMismatch(CpuModel))
    ensures x != m.source.hostCpu.kvmCapabilities ==>
      OnlyReason(Question(m, state, m.source.(hostCpu := m.source.hostCpu.(kvmCapabilities := x)), now), HostCpuMismatch(KvmCapabilities))
  {
  }

  /** The reasons that do not concern the target: another version or phase of the manifest, a
      revoked, quarantined or expired snapshot, and egress, which also needs equal networks. */
  lemma SnapshotHasItsReasons(m: Manifest, state: SnapshotState, now: Timestamp, reason: string, version: nat, phase: string, later: Timestamp)
    requires Restorable(m, state, now)
    ensures version != 1 ==> OnlyReason(Question(m.(version := version), state, m.source, now), ManifestVersion(version))
    ensures phase != "checkpoint" ==>
      OnlyReason(Question(m.(checkpointPhase := phase), state, m.source, now), CheckpointPhase(phase))
    ensures OnlyReason(Question(m, Revoked(reason), m.source, now), WasRevoked(reason))
    ensures OnlyReason(Question(m, Quarantined(reason), m.source, now), WasQuarantined(reason))
    ensures OnlyReason(Question(m, PastExpiry, m.source, now), Expired)
    ensures OnlyReason(Question(m, state, m.source, later), Expired) <==> later >= m.expiresAt
  {
    assert later < m.expiresAt ==> !Applies(Expired, Question(m, state, m.source, later));
  }

  lemma NetworkHasItsReasons(m: Manifest, state: SnapshotState, now: Timestamp, network: NetworkProfile)
    requires Restorable(m, state, now)
    ensures
      var q := Question(m, state, m.source.(network := network), now);
      network != m.source.network && network.egress == NoEgress ==> OnlyReason(q, NetworkMismatch)
    ensures
      var q := Question(m.(source := m.source.(network := network)), state, m.source.(network := network), now);
      network.egress != NoEgress ==> OnlyReason(q, EgressUnsupported)
    ensures
      var q := Question(m, state, m.source.(network := network), now);
      network.egress != NoEgress ==>
        forall r: Reason :: Applies(r, q) <==> r == NetworkMismatch || r == EgressUnsupported
  {
  }
}
