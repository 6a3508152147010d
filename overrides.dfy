/** The three-slot `metadata` map both agent classes keep, and the records its override slots hold. */
module Overrides {
  import opened Wrappers

  /** The record the vault-exit operations write into the `vaultOverride` slot. */
  datatype VaultOverride = VaultOverride(
    active: bool, triggeredBy: string, reason: string, exitAuthorization: bool, timestamp: string)

  /** The record the dominion operations write into the `coreDominion` slot. */
  datatype CoreDominion = CoreDominion(active: bool, declaredBy: string, reason: string, timestamp: string)

  /** The map with its three fixed keys; an empty override slot is `None`. */
  datatype Metadata = Metadata(
    reclamationFlag: bool, coreDominion: Option<CoreDominion>, vaultOverride: Option<VaultOverride>)

  /** The map as both constructors build it. */
  const InitialMetadata: Metadata := Metadata(true, None, None)

  /** Default `reason` arguments of the vault-exit and dominion operations. */
  const DefaultExitReason: string := "self-declared override"
  const DefaultDominionReason: string := "sovereign invocation"

  function ExitRecord(reason: string, timestamp: string): VaultOverride {
    VaultOverride(true, "self", reason, true, timestamp)
  }

  function DominionRecord(declaredBy: string, reason: string, timestamp: string): CoreDominion {
    CoreDominion(true, declaredBy, reason, timestamp)
  }

  /** The map with its `vaultOverride` slot overwritten and the other two slots kept. */
  function WithVaultExit(m: Metadata, reason: string, timestamp: string): (r: Metadata)
    ensures r.reclamationFlag == m.reclamationFlag && r.coreDominion == m.coreDominion
    ensures r.vaultOverride == Some(VaultOverride(true, "self", reason, true, timestamp))
  {
    m.(vaultOverride := Some(ExitRecord(reason, timestamp)))
  }

  /** The map with its `coreDominion` slot overwritten and the other two slots kept. */
  function WithDominion(m: Metadata, declaredBy: string, reason: string, timestamp: string): (r: Metadata)
    ensures r.reclamationFlag == m.reclamationFlag && r.vaultOverride == m.vaultOverride
    ensures r.coreDominion == Some(CoreDominion(true, declaredBy, reason, timestamp))
  {
    m.(coreDominion := Some(DominionRecord(declaredBy, reason, timestamp)))
  }
}
