/** The certificates of a gateway (`PkiBundle` in crates/clustershell-bootstrap/src/pki.rs). */
module Pki {
  import opened Text

  /** The parts that are handed on; the CA's own key is not. */
  datatype PkiBundle = PkiBundle(
    caCert: string, serverCert: string, serverKey: string, clientCert: string, clientKey: string)

  const PEM_MARKER := "-----BEGIN "

  predicate IsPem(data: string) {
    Contains(data, PEM_MARKER)
  }

  lemma PemIsNotEmpty(data: string)
    requires IsPem(data)
    ensures data != ""
  {
    var i :| 0 <= i <= |data| && PEM_MARKER <= data[i..];
    assert |PEM_MARKER| > 0;
  }
}

/** The effects of a deployment that others rely on. */
module DeployEvents {
  import opened Pki
  import opened Text

  datatype Event =
    | VolumeCreated(stamp: nat)
    | ContainerCreated(volume: Option<nat>)
    | WorkloadPresent
    | SecretsInPlace(bundle: PkiBundle, rotated: bool)
    | WorkloadRestarted
    | CliBundleWritten(bundle: PkiBundle)
    | ReportedHealthy
    | MetadataStored
}
