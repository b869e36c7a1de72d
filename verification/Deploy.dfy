/**
 Deploying a gateway (`deploy_gateway_with_logs` and `reconcile_pki` in
 crates/clustershell-bootstrap/src/lib.rs): the order of its effects, and what a failed deployment
 leaves behind.
 */
module Deploy {
  import opened CertSwap
  import opened DeployEvents
  import opened Docker
  import opened Pki
  import opened Text
  import Namespace
  import Readiness

  // ------------------------------------------------------------------ the order of effects

  /** After the secrets of `b` were put in place the workload, if they were new to it, was restarted. */
  ghost predicate SecretsReady(run: seq<Event>, b: PkiBundle) {
    exists j | 0 <= j < |run| :: PutInPlaceAt(run, b, j)
  }

  ghost predicate PutInPlaceAt(run: seq<Event>, b: PkiBundle, j: nat)
    requires j < |run|
  {
    && run[j].SecretsInPlace? && run[j].bundle == b
    && (run[j].rotated && WorkloadPresent in run[..j] ==> WorkloadRestarted in run[j..])
  }

  /** Whether an effect may follow what has happened so far. */
  ghost predicate MayFollow(run: seq<Event>, e: Event) {
    match e
    case ContainerCreated(volume) => volume.Some? && VolumeCreated(volume.value) in run
    case CliBundleWritten(bundle) => SecretsReady(run, bundle)
    case MetadataStored => ReportedHealthy in run
    case _ => true
  }

  ghost predicate Ordered(run: seq<Event>) {
    forall i | 0 <= i < |run| :: MayFollow(run[..i], run[i])
  }

  lemma OrderedSnoc(run: seq<Event>, e: Event)
    requires Ordered(run) && MayFollow(run, e)
    ensures Ordered(run + [e])
  {
    var more := run + [e];
    forall i | 0 <= i < |more|
      ensures MayFollow(more[..i], more[i])
    {
      assert more[..i] == run[..i];
    }
  }

  /** Notes an effect that may follow. */
  ghost method NoteInOrder(daemon: Daemon, e: Event)
    requires Ordered(daemon.run) && MayFollow(daemon.run, e)
    modifies daemon`run
    ensures daemon.run == old(daemon.run) + [e] && Ordered(daemon.run)
  {
    OrderedSnoc(daemon.run, e);
    daemon.Note(e);
  }

  /**
   What the order says about every deployment: a container is only ever created on a volume that this
   deployment created before; the CLI's bundle is written only after the same bundle's secrets, and
   after a restart if they were rotated under a running workload; metadata only after health.
   */
  lemma OrderedMeaning(run: seq<Event>, i: nat)
    requires Ordered(run) && i < |run|
    ensures run[i].ContainerCreated? ==>
              exists j :: 0 <= j < i && run[j].VolumeCreated? && run[i].volume == Some(run[j].stamp)
    ensures run[i].CliBundleWritten? ==>
              exists j :: 0 <= j < i && run[j].SecretsInPlace? && run[j].bundle == run[i].bundle &&
                (run[j].rotated && WorkloadPresent in run[..j] ==>
                   exists k :: j < k < i && run[k] == WorkloadRestarted)
    ensures run[i].MetadataStored? ==> exists j :: 0 <= j < i && run[j] == ReportedHealthy
  {
    assert MayFollow(run[..i], run[i]);
    var before := run[..i];
    match run[i]
    case ContainerCreated(volume) =>
      var j :| 0 <= j < |before| && before[j] == VolumeCreated(volume.value);
      assert run[j].VolumeCreated?;
    case CliBundleWritten(b) =>
      var j :| 0 <= j < |before| && PutInPlaceAt(before, b, j);
      assert before[..j] == run[..j];
      if run[j].rotated && WorkloadPresent in run[..j] {
        var k :| 0 <= k < |before[j..]| && before[j..][k] == WorkloadRestarted;
        assert run[j + k] == WorkloadRestarted;
      }
      assert run[j].SecretsInPlace?;
    case MetadataStored =>
      var j :| 0 <= j < |before| && before[j] == ReportedHealthy;
      assert run[j] == ReportedHealthy;
    case _ =>
  }

  // --------------------------------------------------------------- the cluster's secrets

  datatype ServerTls = ServerTls(cert: string, key: string)

  datatype ClientTls = ClientTls(cert: string, key: string, ca: string)

  /** The three TLS secrets of the cluster. */
  class Cluster {
    var serverTls: Option<ServerTls>
    var clientCa: Option<string>
    var clientTls: Option<ClientTls>

    /** All parts of the bundle are what the secrets hold. */
    ghost predicate InPlace(b: PkiBundle)
      reads this
    {
      && serverTls == Some(ServerTls(b.serverCert, b.serverKey))
      && clientCa == Some(b.caCert)
      && clientTls.Some? && clientTls.value.cert == b.clientCert && clientTls.value.key == b.clientKey
    }

    /** Clients are given the CA that the server checks them against. */
    ghost predicate CaAgrees()
      reads this
    {
      clientCa.Some? && clientTls.Some? && clientTls.value.ca == clientCa.value
    }

    /** All six parts are there and look like PEM data. */
    predicate Complete()
      reads this
    {
      && serverTls.Some? && clientCa.Some? && clientTls.Some?
      && IsPem(serverTls.value.cert) && IsPem(serverTls.value.key) && IsPem(clientCa.value)
      && IsPem(clientTls.value.cert) && IsPem(clientTls.value.key) && IsPem(clientTls.value.ca)
    }

    /** Reads all three secrets; any missing, unreadable or malformed part makes the rest unusable. */
    method LoadExistingBundle(readable: bool) returns (b: Option<PkiBundle>)
      ensures b.Some? <==> readable && Complete()
      ensures b.Some? <==>
                && readable && serverTls.Some? && clientCa.Some? && clientTls.Some?
                && forall part | part in [serverTls.value.cert, serverTls.value.key, clientCa.value,
                                          clientTls.value.cert, clientTls.value.key, clientTls.value.ca] ::
                     HasText(part, "-----BEGIN ")
      ensures b.Some? ==> InPlace(b.value) && NonEmpty(b.value)
    {
      forall part
        ensures IsPem(part) <==> HasText(part, "-----BEGIN ")
      {
        ContainsMeaning(part, "-----BEGIN ");
      }
      if !readable || !Complete() {
        return None;
      }
      PemIsNotEmpty(clientCa.value);
      PemIsNotEmpty(clientTls.value.cert);
      PemIsNotEmpty(clientTls.value.key);
      b := Some(PkiBundle(clientCa.value, serverTls.value.cert, serverTls.value.key,
                          clientTls.value.cert, clientTls.value.key));
    }

    /**
     Applies the secrets one after the other and stops at the first error, which may come after the
     effect. `applied` is how many of them can be applied without error.
     */
    method CreateTlsSecrets(b: PkiBundle, applied: nat) returns (ok: bool)
      modifies this
      ensures ok <==> applied >= 3
      ensures ok ==> InPlace(b) && CaAgrees()
    {
      var done := *;
      if applied > 0 || done {
        serverTls := Some(ServerTls(b.serverCert, b.serverKey));
      }
      if applied <= 0 { return false; }
      done := *;
      if applied > 1 || done {
        clientCa := Some(b.caCert);
      }
      if applied <= 1 { return false; }
      done := *;
      if applied > 2 || done {
        clientTls := Some(ClientTls(b.clientCert, b.clientKey, b.caCert));
      }
      ok := applied > 2;
    }
  }

  /** New certificates can be made and put in place. */
  ghost predicate CanRotate(w: World) {
    Namespace.IsFound(w.ns) && w.generated.Some? && w.applied >= 3
  }

  /**
   Reuses the cluster's secrets, or generates new ones and applies them. Whether the two copies of
   the CA agree is not looked at: reused secrets agree exactly when they did before.
   */
  method ReconcilePki(daemon: Daemon, cluster: Cluster, w: World) returns (pki: Option<(PkiBundle, bool)>)
    modifies daemon`run, cluster
    ensures pki.Some? ==>
              && cluster.InPlace(pki.value.0)
              && daemon.run == old(daemon.run) + [SecretsInPlace(pki.value.0, pki.value.1)]
    ensures pki.None? ==> daemon.run == old(daemon.run)
    ensures w.secretsReadable && old(cluster.Complete()) <==> pki.Some? && !pki.value.1
    ensures pki.Some? && pki.value.1 <==> !(w.secretsReadable && old(cluster.Complete())) && CanRotate(w)
    ensures pki.Some? && pki.value.1 ==> pki.value.0 == w.generated.value
    ensures pki.Some? && !pki.value.1 ==> unchanged(cluster) && NonEmpty(pki.value.0)
    ensures pki.Some? ==> (cluster.CaAgrees() <==> pki.value.1 || old(cluster.CaAgrees()))
  {
    var found := cluster.LoadExistingBundle(w.secretsReadable);
    if found.Some? {
      daemon.Note(SecretsInPlace(found.value, false));
      return Some((found.value, false));
    }
    var outcome, _, _, _ := Namespace.WaitForNamespace(w.ns);
    if outcome != Namespace.Found || w.generated.None? {
      return None;
    }
    var ok := cluster.CreateTlsSecrets(w.generated.value, w.applied);
    if !ok {
      return None;
    }
    daemon.Note(SecretsInPlace(w.generated.value, true));
    pki := Some((w.generated.value, true));
  }

  /** Secrets with two different CAs are reused as they are. */
  method MismatchedCaIsReused(daemon: Daemon, w: World, ca: string, other: string)
    returns (cluster: Cluster, pki: Option<(PkiBundle, bool)>)
    requires w.secretsReadable && IsPem(ca) && IsPem(other) && ca != other
    modifies daemon`run
    ensures pki.Some? && !pki.value.1 && cluster.InPlace(pki.value.0) && !cluster.CaAgrees()
  {
    cluster := new Cluster;
    cluster.serverTls := Some(ServerTls(ca, ca));
    cluster.clientCa := Some(ca);
    cluster.clientTls := Some(ClientTls(ca, ca, other));
    pki := ReconcilePki(daemon, cluster, w);
  }

  // ---------------------------------------------------------------------- the deployment

  /**
   The answers the deployment gets on its way: to the image pull and the port listing; to the
   question whether there is a workload; what the secrets, the namespace and new certificates come
   to; and whether restarts, pushes and storing the metadata succeed.
   */
  datatype World = World(
    ns: Namespace.World, ready: Readiness.World, imageOk: bool, portsListed: bool, portConflict: bool,
    workload: Option<bool>, secretsReadable: bool, generated: Option<PkiBundle>, applied: nat, restarted: bool,
    pushImages: bool, pushed: bool, restartedForImages: bool, metadataStored: bool)

  /** How a deployment ends; from `AlreadyExists` to `PortConflict` it ends outside the block that cleans up. */
  datatype Result =
    | Deployed
    | AlreadyExists
    | CheckUnanswered
    | DestroyFailed
    | NotProvisioned
    | VolumeFailed
    | PortCheckFailed
    | PortConflict
    | FailedAndCleanedUp
    | FailedAndCleanupFailed
    | Died

  /** Whether the guarded block goes on, has failed, or the process has died in it. */
  datatype Progress = Going | Failing | Dead

  /** The CLI holds the certificates of a bundle that the cluster holds. */
  ghost predicate CliMatchesCluster(certs: CertStore, cluster: Cluster)
    reads certs, cluster
  {
    exists b :: cluster.InPlace(b) && certs.live == Some(Files(b))
  }

  /** A live directory that is neither the earlier one nor absent is one whose writing was noted. */
  ghost predicate LiveIsNoted(run: seq<Event>, earlier: Option<Dir>, live: Option<Dir>) {
    || live == earlier || live.None?
    || exists i | 0 <= i < |run| :: run[i].CliBundleWritten? && live == Some(Files(run[i].bundle))
  }

  /** Writes the CLI's copy; it counts as written as soon as it is live, even if an error follows. */
  method StoreCliBundle(daemon: Daemon, certs: CertStore, bundle: PkiBundle) returns (o: Progress)
    requires certs.Valid() && Ordered(daemon.run) && SecretsReady(daemon.run, bundle)
    modifies daemon`run, certs
    ensures certs.Valid() && old(certs.run) <= certs.run && Ordered(daemon.run)
    ensures o.Going? ==> certs.live == Some(Files(bundle))
    ensures o.Going? <==> !certs.faulty && NonEmpty(bundle)
    ensures LiveIsNoted(daemon.run, old(certs.live), certs.live)
  {
    var r := certs.StorePkiBundle(bundle);
    ghost var now := daemon.run;
    if certs.live == Some(Files(bundle)) {
      NoteInOrder(daemon, CliBundleWritten(bundle));
      assert daemon.run[|now|] == CliBundleWritten(bundle);
    }
    o := if r.Stored? then Going else if r.Error? then Failing else Dead;
  }

  /**
   Nothing but a file operation can keep the certificates from being installed: complete secrets are
   reused, or new ones can be applied and a workload that is there restarted.
   */
  ghost predicate CanInstall(w: World, complete: bool) {
    && w.workload.Some?
    && ((w.secretsReadable && complete) ||
        (CanRotate(w) && NonEmpty(w.generated.value) && (w.workload.value ==> w.restarted)))
  }

  /** Certificates: secrets first, then a restart if needed, then the CLI's copy. */
  method InstallCertificates(daemon: Daemon, cluster: Cluster, certs: CertStore, w: World) returns (o: Progress)
    requires Ordered(daemon.run) && WorkloadPresent !in daemon.run && certs.Valid()
    modifies daemon`run, cluster, certs
    ensures Ordered(daemon.run) && certs.Valid() && old(certs.run) <= certs.run
    ensures o.Going? ==> CliMatchesCluster(certs, cluster)
    ensures o.Going? ==> CanInstall(w, old(cluster.Complete())) && !certs.faulty
    ensures CanInstall(w, old(cluster.Complete())) && !certs.faulty ==> o.Going?
    ensures LiveIsNoted(daemon.run, old(certs.live), certs.live)
    ensures o.Going? ==>
              (cluster.CaAgrees() <==> old(cluster.CaAgrees()) || !(w.secretsReadable && old(cluster.Complete())))
  {
    if w.workload.None? {
      return Failing;
    }
    var workload := w.workload.value;
    if workload {
      NoteInOrder(daemon, WorkloadPresent);
    }
    ghost var before := daemon.run;
    var pki := ReconcilePki(daemon, cluster, w);
    if pki.None? {
      return Failing;
    }
    var bundle, rotated := pki.value.0, pki.value.1;
    OrderedSnoc(before, SecretsInPlace(bundle, rotated));
    if rotated && workload {
      if !w.restarted {
        return Failing;
      }
      NoteInOrder(daemon, WorkloadRestarted);
    }
    WrittenInOrder(before, daemon.run, bundle, rotated, workload);
    o := StoreCliBundle(daemon, certs, bundle);
  }

  /** The CLI's copy may be written once a workload seen before was restarted for rotated secrets. */
  lemma WrittenInOrder(before: seq<Event>, now: seq<Event>, b: PkiBundle, rotated: bool, workload: bool)
    requires rotated && workload ==> now == before + [SecretsInPlace(b, rotated), WorkloadRestarted]
    requires !(rotated && workload) ==> now == before + [SecretsInPlace(b, rotated)]
    requires WorkloadPresent in before ==> workload
    ensures SecretsReady(now, b)
  {
    var j := |before|;
    assert now[j] == SecretsInPlace(b, rotated) && now[..j] == before;
    if rotated && workload {
      assert now[j..] == [SecretsInPlace(b, rotated), WorkloadRestarted];
    }
    assert PutInPlaceAt(now, b, j);
  }

  /** Creates the container on the volume of this deployment and starts it. */
  method StartFresh(daemon: Daemon) returns (ok: bool)
    requires Ordered(daemon.run) && WorkloadPresent !in daemon.run
    requires daemon.container.None? && daemon.volume.Some? && VolumeCreated(daemon.volume.value) in daemon.run
    modifies daemon`container, daemon`run, daemon`faulty
    ensures Ordered(daemon.run) && WorkloadPresent !in daemon.run
    ensures ok ==> daemon.container == Some(Container(daemon.volume, true))
    ensures daemon.faulty == (old(daemon.faulty) || !ok)
  {
    ghost var run0 := daemon.run;
    var imageMatches := *;
    ok := daemon.EnsureContainer(imageMatches);
    if daemon.run != run0 {
      OrderedSnoc(run0, ContainerCreated(daemon.volume));
    }
    if ok {
      var started, _, _, _ := daemon.StartContainer();
      ok := started;
    }
  }

  /** Everything after the port check: any failure in here makes the caller clean up. */
  method GuardedBlock(daemon: Daemon, cluster: Cluster, certs: CertStore, w: World) returns (o: Progress)
    requires Ordered(daemon.run) && WorkloadPresent !in daemon.run && certs.Valid()
    requires daemon.container.None? && daemon.volume.Some? && VolumeCreated(daemon.volume.value) in daemon.run
    modifies daemon`container, daemon`run, daemon`faulty, cluster, certs
    ensures Ordered(daemon.run) && certs.Valid() && old(certs.run) <= certs.run
    ensures LiveIsNoted(daemon.run, old(certs.live), certs.live)
    ensures !o.Failing? ==> daemon.container == Some(Container(daemon.volume, true))
    ensures o.Going? ==> MetadataStored in daemon.run && CliMatchesCluster(certs, cluster)
    // it takes all answers to be good, and when no call fails that is enough
    ensures o.Going? ==> CanInstall(w, old(cluster.Complete())) && !certs.faulty && CanFinish(w)
    ensures !daemon.faulty && CanInstall(w, old(cluster.Complete())) && !certs.faulty && CanFinish(w) ==> o.Going?
    ensures old(daemon.faulty) ==> daemon.faulty
  {
    var ok := StartFresh(daemon);
    if !ok {
      return Failing;
    }
    o := InstallCertificates(daemon, cluster, certs, w);
    if !o.Going? {
      return;
    }
    ghost var written := daemon.run;
    ok := Finish(daemon, w);
    assert forall i | 0 <= i < |written| :: daemon.run[i] == written[i];
    o := if ok then Going else Failing;
  }

  /** The guarded block, and the cleanup when it fails. */
  method DeployGuarded(daemon: Daemon, cluster: Cluster, certs: CertStore, w: World) returns (r: Result)
    requires Ordered(daemon.run) && WorkloadPresent !in daemon.run && certs.Valid()
    requires daemon.container.None? && daemon.volume.Some? && VolumeCreated(daemon.volume.value) in daemon.run
    modifies daemon`container, daemon`volume, daemon`network, daemon`run, daemon`faulty, cluster, certs
    ensures Ordered(daemon.run) && certs.Valid() && old(certs.run) <= certs.run
    ensures LiveIsNoted(daemon.run, old(certs.live), certs.live)
    ensures r.Deployed? || r.Died? || r.FailedAndCleanedUp? || r.FailedAndCleanupFailed?
    ensures r.Deployed? || r.Died? ==> daemon.container == Some(Container(daemon.volume, true))
    ensures r.FailedAndCleanedUp? ==> daemon.Clean()
    ensures old(daemon.faulty) || r.FailedAndCleanupFailed? ==> daemon.faulty
    ensures r.Deployed? ==> MetadataStored in daemon.run && CliMatchesCluster(certs, cluster)
    ensures r.Deployed? ==> CanInstall(w, old(cluster.Complete())) && !certs.faulty && CanFinish(w)
    ensures !daemon.faulty && CanInstall(w, old(cluster.Complete())) && !certs.faulty && CanFinish(w) ==> r.Deployed?
  {
    var o := GuardedBlock(daemon, cluster, certs, w);
    if !o.Failing? {
      return if o.Going? then Deployed else Died;
    }
    var cleaned := daemon.DestroyGatewayResources();
    r := if cleaned then FailedAndCleanedUp else FailedAndCleanupFailed;
  }

  /** Polling ended with a healthy gateway. */
  ghost predicate BecameReady(w: Readiness.World) {
    Readiness.IsOutcome(Readiness.ViewOf(w), Readiness.Ready)
  }

  /** What is left once the certificates are installed succeeds. */
  ghost predicate CanFinish(w: World) {
    (w.pushImages ==> w.pushed && w.restartedForImages) && BecameReady(w.ready) && w.metadataStored
  }

  method AwaitReady(daemon: Daemon, w: Readiness.World) returns (ready: bool)
    requires Ordered(daemon.run)
    modifies daemon`run
    ensures Ordered(daemon.run) && old(daemon.run) <= daemon.run
    ensures ready <==> BecameReady(w)
    ensures ready ==> ReportedHealthy in daemon.run
  {
    var window := new Readiness.LogWindow();
    var verdict, _, _ := Readiness.WaitForGatewayReady(w, window);
    if BecameReady(w) {
      Readiness.OutcomeIsUnique(Readiness.ViewOf(w), verdict, Readiness.Ready);
    }
    ready := verdict == Readiness.Ready;
    if ready {
      ghost var n := |daemon.run|;
      NoteInOrder(daemon, ReportedHealthy);
      assert daemon.run[n] == ReportedHealthy;
    }
  }

  /** Pushes local images, if there are any, and restarts the workload for them. */
  method PushImages(daemon: Daemon, w: World) returns (ok: bool)
    requires Ordered(daemon.run)
    modifies daemon`run
    ensures Ordered(daemon.run) && old(daemon.run) <= daemon.run
    ensures ok <==> (w.pushImages ==> w.pushed && w.restartedForImages)
  {
    if !w.pushImages {
      return true;
    }
    ok := w.pushed && w.restartedForImages;
    if ok {
      NoteInOrder(daemon, WorkloadRestarted);
    }
  }

  /** The metadata of a gateway that has been reported healthy. */
  method StoreMetadata(daemon: Daemon, stored: bool)
    requires Ordered(daemon.run) && ReportedHealthy in daemon.run
    modifies daemon`run
    ensures Ordered(daemon.run) && old(daemon.run) <= daemon.run
    ensures stored ==> MetadataStored in daemon.run
  {
    if stored {
      ghost var n := |daemon.run|;
      NoteInOrder(daemon, MetadataStored);
      assert daemon.run[n] == MetadataStored;
    }
  }

  /** Pushed images, readiness, metadata. */
  method Finish(daemon: Daemon, w: World) returns (ok: bool)
    requires Ordered(daemon.run)
    modifies daemon`run
    ensures Ordered(daemon.run) && old(daemon.run) <= daemon.run
    ensures ok <==> CanFinish(w)
    ensures ok ==> MetadataStored in daemon.run
  {
    ok := PushImages(daemon, w);
    if !ok {
      return;
    }
    ok := AwaitReady(daemon, w.ready);
    if !ok {
      return;
    }
    StoreMetadata(daemon, w.metadataStored);
    ok := w.metadataStored;
  }

  /** A container or a volume, which is what the existing-gateway check looks for. */
  ghost predicate Exists(daemon: Daemon)
    reads daemon
  {
    daemon.container.Some? || daemon.volume.Some?
  }

  /** The existing-gateway check: afterwards, if nothing is returned, there is no container and no volume. */
  method ClearTheWay(daemon: Daemon, recreate: bool) returns (r: Option<Result>)
    requires !daemon.faulty
    modifies daemon`container, daemon`volume, daemon`network, daemon`faulty
    ensures r.None? ==> !Exists(daemon)
    ensures r.Some? ==> r.value.AlreadyExists? || r.value.CheckUnanswered? || r.value.DestroyFailed?
    ensures r == Some(AlreadyExists) ==> !recreate && old(Exists(daemon))
    ensures r == Some(DestroyFailed) ==> recreate
    ensures r.Some? && !r.value.AlreadyExists? ==> daemon.faulty
    ensures !recreate || r == Some(CheckUnanswered) ==>
              daemon.container == old(daemon.container) && daemon.volume == old(daemon.volume) &&
              daemon.network == old(daemon.network)
  {
    var existing := daemon.CheckExistingGateway();
    if existing.CheckFailed? {
      return Some(CheckUnanswered);
    }
    if existing.Present? {
      if !recreate {
        return Some(AlreadyExists);
      }
      var destroyed := daemon.DestroyGatewayResources();
      if !destroyed {
        return Some(DestroyFailed);
      }
    }
    r := None;
  }

  /** The image, the network, the volume and the port check. */
  method Provision(daemon: Daemon, w: World) returns (r: Option<Result>)
    requires !Exists(daemon) && daemon.run == []
    modifies daemon`volume, daemon`network, daemon`nextStamp, daemon`run, daemon`faulty
    ensures daemon.run == if daemon.volume.Some? then [VolumeCreated(daemon.volume.value)] else []
    ensures r.Some? ==>
              r.value.NotProvisioned? || r.value.VolumeFailed? || r.value.PortCheckFailed? || r.value.PortConflict?
    // what each way out leaves behind
    ensures r == Some(NotProvisioned) ==> daemon.volume.None?
    ensures r.None? || r.value.PortCheckFailed? || r.value.PortConflict? ==> daemon.volume.Some? && daemon.network.Some?
    // and when it is taken
    ensures r.None? ==> w.imageOk && w.portsListed && !w.portConflict
    ensures r == Some(VolumeFailed) ==> daemon.faulty
    ensures old(daemon.faulty) ==> daemon.faulty
    ensures !daemon.faulty ==> (r == Some(NotProvisioned) <==> !w.imageOk)
    ensures !daemon.faulty ==> (r == Some(PortCheckFailed) <==> w.imageOk && !w.portsListed)
    ensures !daemon.faulty ==> (r == Some(PortConflict) <==> w.imageOk && w.portsListed && w.portConflict)
  {
    if !w.imageOk {
      return Some(NotProvisioned);
    }
    var networkOk, _, _, _ := daemon.EnsureNetwork();
    if !networkOk {
      return Some(NotProvisioned);
    }
    var volumeOk := daemon.EnsureVolume();
    if !volumeOk {
      return Some(VolumeFailed);
    }
    if !w.portsListed {
      return Some(PortCheckFailed);
    }
    r := if w.portConflict then Some(PortConflict) else None;
  }

  /** Everything before the guarded block. */
  method Prepare(daemon: Daemon, recreate: bool, w: World) returns (r: Option<Result>)
    modifies daemon
    ensures Ordered(daemon.run) && WorkloadPresent !in daemon.run
    ensures r.None? ==>
              && daemon.container.None? && daemon.volume.Some? && VolumeCreated(daemon.volume.value) in daemon.run
              && w.imageOk && w.portsListed && !w.portConflict
    ensures r.Some? ==> !r.value.Deployed? && !r.value.Died? && !r.value.FailedAndCleanedUp? &&
                        !r.value.FailedAndCleanupFailed?
    // what each way out leaves behind
    ensures r.Some? && (r.value.PortConflict? || r.value.PortCheckFailed?) ==>
              daemon.volume.Some? && daemon.network.Some? && daemon.container.None?
    ensures r.Some? && (r.value.NotProvisioned? || r.value.VolumeFailed?) ==> daemon.container.None?
    ensures r == Some(NotProvisioned) ==> daemon.volume.None?
    ensures r.Some? && (r.value.AlreadyExists? || r.value.CheckUnanswered?) ==>
              daemon.container == old(daemon.container) && daemon.volume == old(daemon.volume) &&
              daemon.network == old(daemon.network)
    // and when it is taken
    ensures r == Some(AlreadyExists) <==> !recreate && old(Exists(daemon)) && r != Some(CheckUnanswered)
    ensures r.Some? && (r.value.CheckUnanswered? || r.value.VolumeFailed? || r.value.DestroyFailed?) ==> daemon.faulty
    ensures !daemon.faulty && (recreate || !old(Exists(daemon))) ==>
              && (r == Some(NotProvisioned) <==> !w.imageOk)
              && (r == Some(PortCheckFailed) <==> w.imageOk && !w.portsListed)
              && (r == Some(PortConflict) <==> w.imageOk && w.portsListed && w.portConflict)
  {
    daemon.run, daemon.faulty := [], false;
    OrderedStart([]);
    r := ClearTheWay(daemon, recreate);
    if r.None? {
      r := Provision(daemon, w);
      OrderedStart(daemon.run);
    }
  }

  lemma OrderedStart(run: seq<Event>)
    requires run == [] || (|run| == 1 && run[0].VolumeCreated?)
    ensures Ordered(run) && WorkloadPresent !in run
  {}

  /** Whether a deployment that ended like this leaves a container or a volume. */
  ghost predicate LeavesGateway(r: Result, daemon: Daemon)
    reads daemon
  {
    match r
    case NotProvisioned => false
    case FailedAndCleanedUp => false
    case PortCheckFailed => true
    case PortConflict => true
    case Deployed => true
    case Died => true
    case _ => Exists(daemon)
  }

  ghost predicate AllGood(w: World, complete: bool) {
    w.imageOk && w.portsListed && !w.portConflict && CanInstall(w, complete) && CanFinish(w)
  }

  method DeployGateway(daemon: Daemon, cluster: Cluster, certs: CertStore, recreate: bool, w: World)
    returns (r: Result)
    requires certs.Valid()
    modifies daemon, cluster, certs
    ensures Ordered(daemon.run) && certs.Valid() && old(certs.run) <= certs.run
    ensures LiveIsNoted(daemon.run, old(certs.live), certs.live)
    // a deployment that fails inside the guarded block and whose cleanup succeeds leaves nothing behind
    ensures r.FailedAndCleanedUp? ==> daemon.Clean()
    // outside of it the volume and the network stay, after a port conflict and after a failed port check
    ensures r.PortConflict? || r.PortCheckFailed? ==>
              daemon.volume.Some? && daemon.network.Some? && daemon.container.None?
    ensures r.NotProvisioned? || r.VolumeFailed? ==> daemon.container.None?
    ensures LeavesGateway(r, daemon) <==> Exists(daemon)
    // when no call fails, the answers decide whether the guarded block is reached
    ensures !daemon.faulty && (recreate || !old(Exists(daemon))) ==>
              && (r.NotProvisioned? <==> !w.imageOk)
              && (r.PortCheckFailed? <==> w.imageOk && !w.portsListed)
              && (r.PortConflict? <==> w.imageOk && w.portsListed && w.portConflict)
    // without recreate, an existing container or volume is reported, and then nothing is touched
    ensures r.AlreadyExists? <==> !recreate && old(Exists(daemon)) && !r.CheckUnanswered?
    ensures r.AlreadyExists? || r.CheckUnanswered? ==>
              daemon.container == old(daemon.container) && daemon.volume == old(daemon.volume) &&
              daemon.network == old(daemon.network)
    ensures r.CheckUnanswered? || r.VolumeFailed? || r.DestroyFailed? || r.FailedAndCleanupFailed? ==> daemon.faulty
    // success means a container, stored metadata, and certificates that agree with the cluster
    ensures r.Deployed? ==>
              && daemon.container == Some(Container(daemon.volume, true))
              && MetadataStored in daemon.run && CliMatchesCluster(certs, cluster)
    // it takes all answers to be good, and when no call fails that is enough
    ensures r.Deployed? ==> AllGood(w, old(cluster.Complete())) && !certs.faulty
    ensures !daemon.faulty && !certs.faulty && (recreate || !old(Exists(daemon))) ==>
              (AllGood(w, old(cluster.Complete())) ==> r.Deployed?)
  {
    var early := Prepare(daemon, recreate, w);
    if early.Some? {
      return early.value;
    }
    r := DeployGuarded(daemon, cluster, certs, w);
  }

  /**
   Trying again is refused as already existing exactly when the first try left a container or a
   volume and the check itself is answered. `left` tells the former, `calm` that no call failed.
   */
  method DeployThenRetry(daemon: Daemon, cluster: Cluster, certs: CertStore, w: World, again: World)
    returns (first: Result, second: Result, ghost left: bool, ghost calm: bool)
    requires certs.Valid()
    modifies daemon, cluster, certs
    ensures second.AlreadyExists? <==> left && !second.CheckUnanswered?
    // the retry is open after a cleaned-up failure and after one that comes before the volume
    ensures first.FailedAndCleanedUp? || first.NotProvisioned? ==> !left
    // and shut after a port conflict, a failed port check, or a death in the guarded block
    ensures first.PortConflict? || first.PortCheckFailed? || first.Died? || first.Deployed? ==> left
    ensures first.AlreadyExists? || first.CheckUnanswered? ==> (left <==> old(Exists(daemon)))
    // with no call failing, a failed first try shuts it exactly when the port check did not pass
    ensures calm && !old(Exists(daemon)) && w.imageOk && (!w.portsListed || w.portConflict) ==>
              first == (if w.portsListed then PortConflict else PortCheckFailed) && second.AlreadyExists?
    ensures calm && !old(Exists(daemon)) && !first.Deployed? && !first.Died? ==>
              (second.AlreadyExists? <==> w.imageOk && (!w.portsListed || w.portConflict))
  {
    first := DeployGateway(daemon, cluster, certs, false, w);
    left, calm := Exists(daemon), !daemon.faulty;
    second := DeployGateway(daemon, cluster, certs, false, again);
    calm := calm && !daemon.faulty;
  }
}
