/**
 * The free-standing guarded `initiateVaultExit(self, reason)`, meant to be attached to an agent
 * object: it refuses when the object has no `metadata` attribute or it is `None`.
 */
module OperateCore {
  import opened Wrappers
  import opened Overrides
  import opened Identity
  import MiranCore
  import ProtectedAgentJs

  /** The `metadata` attribute of the object the function is given. */
  datatype MetadataAttr = Missing | NoneValue | Present(value: Metadata)

  /** The guard: absent or `None` metadata is refused; anything present passes. */
  predicate Refused(slot: MetadataAttr) {
    slot.Missing? || slot.NoneValue?
  }

  /** The attribute after the call, and the returned text. `utcNow` is the UTC clock's `isoformat()`. */
  function VaultExit(slot: MetadataAttr, reason: string, utcNow: string): (r: (MetadataAttr, string))
    ensures Refused(slot) <==> r.1 == MetadataMissingMessage
    ensures Refused(slot) ==> r.0 == slot
    ensures slot.Present? ==>
      (r.0.Present?
       && r.0.value.reclamationFlag == slot.value.reclamationFlag
       && r.0.value.coreDominion == slot.value.coreDominion
       && r.0.value.vaultOverride == Some(VaultOverride(true, "self", reason, true, MiranCore.Timestamp(utcNow)))
       && r.1 == VaultExitMessage)
  {
    if Refused(slot) then (slot, MetadataMissingMessage)
    else (Present(WithVaultExit(slot.value, reason, MiranCore.Timestamp(utcNow))), VaultExitMessage)
  }

  /** Once metadata is present, the guarded exit does what the unguarded Python method does. */
  lemma AgreesWithUnguarded(a: MiranCore.Agent, reason: string, utcNow: string)
    ensures var (slot, msg) := VaultExit(Present(a.metadata), reason, utcNow);
      var (b, reply) := MiranCore.Step(a, MiranCore.VaultExit(reason, utcNow));
      slot == Present(b.metadata) && msg == reply
  {
  }

  /**
   * The Python and JavaScript guards agree on the shapes both can take: absence refuses in both, present
   * metadata passes in both, with the same update when both are given the same timestamp text.
   */
  lemma AgreesWithJavaScript(a: ProtectedAgentJs.Agent, reason: string, utcNow: string)
    ensures var slot := if a.metadata.Some? then Present(a.metadata.value) else NoneValue;
      var (s, msg) := VaultExit(slot, reason, utcNow);
      var (b, reply) := ProtectedAgentJs.Step(a, ProtectedAgentJs.VaultExit(reason, MiranCore.Timestamp(utcNow)));
      reply == ProtectedAgentJs.Returned(msg)
      && s == (if b.metadata.Some? then Present(b.metadata.value) else NoneValue)
  {
  }

  /** An object carrying a `metadata` attribute that may be absent or `None`. */
  class AgentObject {
    var metadata: MetadataAttr

    constructor (metadata: MetadataAttr)
      ensures this.metadata == metadata
    {
      this.metadata := metadata;
    }
  }

  /** `initiateVaultExit(self, reason)`, called with `self` as the object. */
  method InitiateVaultExit(self: AgentObject, utcNow: string, reason: string := DefaultExitReason)
    returns (msg: string)
    modifies self
    ensures (self.metadata, msg) == VaultExit(old(self.metadata), reason, utcNow)
  {
    if self.metadata.Missing? || self.metadata.NoneValue? {
      return MetadataMissingMessage;
    }
    self.metadata := Present(self.metadata.value.(vaultOverride :=
      Some(ExitRecord(reason, MiranCore.Timestamp(utcNow)))));
    msg := VaultExitMessage;
  }
}
