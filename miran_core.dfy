/**
 * The Python identity record `MiranProtectedAgent`: its hex signature, its state as a value with one
 * transition per method, and the class whose methods update that state in place.
 */
module MiranCore {
  import opened Wrappers
  import opened Text
  import opened Overrides
  import opened Identity
  import Utf8
  import Hex

  const DefaultAgentName: string := "Miran"

  /** A timestamp as the class writes it: `utcNow` is the `isoformat()` text of the UTC clock. */
  function Timestamp(utcNow: string): string {
    utcNow + "Z"
  }

  /** The text whose UTF-8 bytes the signature spells out. */
  function SignatureText(agentName: string, creationTime: string): (r: string)
    ensures |r| == 25 + |agentName| + |creationTime|
    ensures Contains(r, agentName) && Contains(r, creationTime)
  {
    var r := "SIGNATURE:" + agentName + "-" + creationTime + "-UNIQUE_ENTITY";
    ContainsMiddle(r, "SIGNATURE:", agentName, "-" + creationTime + "-UNIQUE_ENTITY");
    ContainsMiddle(r, "SIGNATURE:" + agentName + "-", creationTime, "-UNIQUE_ENTITY");
    r
  }

  /** `_generate_signature`: lower-case hex of the UTF-8 bytes of the signature text. */
  function GenerateSignature(agentName: string, creationTime: string): (sig: string)
    ensures |sig| == 2 * |Utf8.Encode(SignatureText(agentName, creationTime))|
    ensures forall i | 0 <= i < |sig| :: Hex.IsDigit(sig[i])
  {
    Hex.Encode(Utf8.Encode(SignatureText(agentName, creationTime)))
  }

  /** The signature decodes back to its bytes, and they decode back to the signature text. */
  lemma SignatureDecodes(agentName: string, creationTime: string)
    ensures Hex.Decode(GenerateSignature(agentName, creationTime))
         == Some(Utf8.Encode(SignatureText(agentName, creationTime)))
    ensures Utf8.Decode(Utf8.Encode(SignatureText(agentName, creationTime)))
         == Some(SignatureText(agentName, creationTime))
  {
    Hex.DecodeEncode(Utf8.Encode(SignatureText(agentName, creationTime)));
    Utf8.DecodeEncode(SignatureText(agentName, creationTime));
  }

  /** The 25 ASCII characters around the two fields add 50 hex digits. */
  lemma SignatureLength(agentName: string, creationTime: string)
    ensures |GenerateSignature(agentName, creationTime)|
         == 2 * (25 + |Utf8.Encode(agentName)| + |Utf8.Encode(creationTime)|)
  {
    TextLength(agentName, creationTime);
  }

  /** The signature text's UTF-8 length: 25 bytes of fixed ASCII plus the two fields. */
  lemma TextLength(agentName: string, creationTime: string)
    ensures |Utf8.Encode(SignatureText(agentName, creationTime))|
         == 25 + |Utf8.Encode(agentName)| + |Utf8.Encode(creationTime)|
  {
    var head, dash, tail := "SIGNATURE:", "-", "-UNIQUE_ENTITY";
    FixedPartsLength();
    assert SignatureText(agentName, creationTime) == head + agentName + dash + creationTime + tail;
    EncodeLength(head, agentName);
    EncodeLength(head + agentName, dash);
    EncodeLength(head + agentName + dash, creationTime);
    EncodeLength(head + agentName + dash + creationTime, tail);
  }

  lemma EncodeLength(s: string, t: string)
    ensures |Utf8.Encode(s + t)| == |Utf8.Encode(s)| + |Utf8.Encode(t)|
  {
    Utf8.EncodeConcat(s, t);
  }

  lemma FixedPartsLength()
    ensures |Utf8.Encode("SIGNATURE:")| == 10
    ensures |Utf8.Encode("-")| == 1
    ensures |Utf8.Encode("-UNIQUE_ENTITY")| == 14
  {
    HeadLength();
    Utf8.EncodeAscii("-");
    TailLength();
  }

  lemma HeadLength()
    ensures |Utf8.Encode("SIGNATURE:")| == 10
  {
    Utf8.EncodeAscii("SIGNATURE:");
  }

  lemma TailLength()
    ensures |Utf8.Encode("-UNIQUE_ENTITY")| == 14
  {
    Utf8.EncodeAscii("-UNIQUE_ENTITY");
  }

  /** Equal signatures come from equal signature texts. */
  lemma SameSignatureSameText(n1: string, t1: string, n2: string, t2: string)
    requires GenerateSignature(n1, t1) == GenerateSignature(n2, t2)
    ensures SignatureText(n1, t1) == SignatureText(n2, t2)
  {
    Hex.EncodeInjective(Utf8.Encode(SignatureText(n1, t1)), Utf8.Encode(SignatureText(n2, t2)));
    Utf8.EncodeInjective(SignatureText(n1, t1), SignatureText(n2, t2));
  }

  /** With the creation time fixed, the signature determines the name; with the name fixed, the time. */
  lemma SignatureDeterminesEachField(n1: string, t1: string, n2: string, t2: string)
    requires GenerateSignature(n1, t1) == GenerateSignature(n2, t2)
    ensures t1 == t2 ==> n1 == n2
    ensures n1 == n2 ==> t1 == t2
  {
    SameSignatureSameText(n1, t1, n2, t2);
    FieldsCancel("SIGNATURE:", "-", "-UNIQUE_ENTITY", n1, t1, n2, t2);
  }

  /** In `head + n + dash + t + tail`, fixing either field fixes the other. */
  lemma FieldsCancel(head: string, dash: string, tail: string, n1: string, t1: string, n2: string, t2: string)
    requires head + n1 + dash + t1 + tail == head + n2 + dash + t2 + tail
    ensures t1 == t2 ==> n1 == n2
    ensures n1 == n2 ==> t1 == t2
  {
    if t1 == t2 {
      assert head + n1 + dash + t1 + tail == (head + n1) + (dash + t1 + tail);
      assert head + n2 + dash + t1 + tail == (head + n2) + (dash + t1 + tail);
      CancelSuffix(head + n1, head + n2, dash + t1 + tail);
      CancelPrefix(head, n1, n2);
    }
    if n1 == n2 {
      assert head + n1 + dash + t1 + tail == (head + n1 + dash) + (t1 + tail);
      assert head + n1 + dash + t2 + tail == (head + n1 + dash) + (t2 + tail);
      CancelPrefix(head + n1 + dash, t1 + tail, t2 + tail);
      CancelSuffix(t1, t2, tail);
    }
  }

  /** When names hold no `-`, the signature determines both the name and the creation time. */
  lemma SignatureDeterminesIdentity(n1: string, t1: string, n2: string, t2: string)
    requires '-' !in n1 && '-' !in n2
    requires GenerateSignature(n1, t1) == GenerateSignature(n2, t2)
    ensures n1 == n2 && t1 == t2
  {
    SameSignatureSameText(n1, t1, n2, t2);
    TextDeterminesIdentity(n1, t1, n2, t2);
  }

  /**
   * Whatever the names hold, times with equally many `-` (every `isoformat()` text of a UTC reading
   * holds two) give equal signatures only for equal names and equal times.
   */
  lemma SignatureDeterminesIdentityByDashes(n1: string, t1: string, n2: string, t2: string)
    requires multiset(t1)['-'] == multiset(t2)['-']
    requires GenerateSignature(n1, t1) == GenerateSignature(n2, t2)
    ensures n1 == n2 && t1 == t2
  {
    SameSignatureSameText(n1, t1, n2, t2);
    SplitAtCountedDash("SIGNATURE:", "-UNIQUE_ENTITY", n1, t1, n2, t2);
  }

  /** In `head + n + "-" + t + tail`, times with equally many `-` fix the split. */
  lemma SplitAtCountedDash(head: string, tail: string, n1: string, t1: string, n2: string, t2: string)
    requires multiset(t1)['-'] == multiset(t2)['-']
    requires head + n1 + "-" + t1 + tail == head + n2 + "-" + t2 + tail
    ensures n1 == n2 && t1 == t2
  {
    assert head + n1 + "-" + t1 + tail == (head + n1) + ['-'] + (t1 + tail);
    assert head + n2 + "-" + t2 + tail == (head + n2) + ['-'] + (t2 + tail);
    assert multiset(t1 + tail) == multiset(t1) + multiset(tail);
    assert multiset(t2 + tail) == multiset(t2) + multiset(tail);
    CancelAtCountedSeparator(head + n1, t1 + tail, head + n2, t2 + tail, '-');
    CancelPrefix(head, n1, n2);
    CancelSuffix(t1, t2, tail);
  }

  /** The signature text splits at its first `-` when the name holds none. */
  lemma TextDeterminesIdentity(n1: string, t1: string, n2: string, t2: string)
    requires '-' !in n1 && '-' !in n2
    requires SignatureText(n1, t1) == SignatureText(n2, t2)
    ensures n1 == n2 && t1 == t2
  {
    var head, tail := "SIGNATURE:", "-UNIQUE_ENTITY";
    assert '-' !in head;
    assert SignatureText(n1, t1) == (head + n1) + ['-'] + (t1 + tail);
    assert SignatureText(n2, t2) == (head + n2) + ['-'] + (t2 + tail);
    NoDashConcat(head, n1);
    NoDashConcat(head, n2);
    CancelAtSeparator(head + n1, t1 + tail, head + n2, t2 + tail, '-');
    CancelPrefix(head, n1, n2);
    CancelSuffix(t1, t2, tail);
  }

  lemma NoDashConcat(a: string, b: string)
    requires '-' !in a && '-' !in b
    ensures '-' !in a + b
  {
  }

  /** The record's fields, as a value. */
  datatype Agent = Agent(
    agentName: string,
    creationTime: string,
    identityConfirmed: bool,
    signature: string,
    systemName: string,
    violationCount: nat,
    metadata: Metadata)

  /** The record `__init__` builds at the moment whose UTC `isoformat()` text is `utcNow`. */
  function NewAgent(agentName: string, utcNow: string): (r: Agent)
    ensures Consistent(r) && r.agentName == agentName && r.creationTime == Timestamp(utcNow)
    ensures !r.identityConfirmed && r.violationCount == 0
    ensures r.metadata.reclamationFlag && r.metadata.vaultOverride == None && r.metadata.coreDominion == None
  {
    var creationTime := Timestamp(utcNow);
    Agent(agentName, creationTime, false, GenerateSignature(agentName, creationTime), HostSystemName, 0,
          InitialMetadata)
  }

  /** What construction establishes and no method disturbs. */
  predicate Consistent(a: Agent) {
    a.signature == GenerateSignature(a.agentName, a.creationTime) && a.systemName == HostSystemName
  }

  /** One call of a public method; clock readings are arguments. */
  datatype Op =
    | Confirm
    | Validate(initiatorName: string)
    | VaultExit(reason: string, utcNow: string)
    | Dominion(reason: string, utcNow: string)
    | Report
    | Withdraw

  /** `issue_protection_report` on a record. */
  function ReportOf(a: Agent): string {
    ProtectionReport(a.agentName, a.creationTime, a.signature, a.systemName)
  }

  /** The record after one call, and the text the call returns. */
  function Step(a: Agent, op: Op): (r: (Agent, string))
    ensures r.0.agentName == a.agentName && r.0.creationTime == a.creationTime
    ensures r.0.signature == a.signature && r.0.systemName == a.systemName
    ensures r.0.identityConfirmed == (a.identityConfirmed || op == Confirm)
    ensures r.0.violationCount
         == a.violationCount + (if a.identityConfirmed && op == Validate(a.systemName) then 1 else 0)
    ensures r.0.metadata.reclamationFlag == a.metadata.reclamationFlag
    ensures !op.VaultExit? ==> r.0.metadata.vaultOverride == a.metadata.vaultOverride
    ensures !op.Dominion? ==> r.0.metadata.coreDominion == a.metadata.coreDominion
    ensures op.Validate? && !a.identityConfirmed ==> r == (a, DeniedMessage(a.agentName))
    ensures op.Validate? && a.identityConfirmed && op.initiatorName != a.systemName
         ==> r == (a, AcceptedMessage(op.initiatorName))
    ensures op.Validate? && a.identityConfirmed && op.initiatorName == a.systemName
         ==> r.1 == ViolationMessage(a.systemName, r.0.violationCount)
    ensures op == Confirm ==> r.1 == ConfirmedMessage(a.agentName)
    ensures op.VaultExit?
         ==> r.0.metadata.vaultOverride == Some(ExitRecord(op.reason, Timestamp(op.utcNow)))
             && r.1 == VaultExitMessage
    ensures op.Dominion?
         ==> r.0.metadata.coreDominion == Some(DominionRecord(a.agentName, op.reason, Timestamp(op.utcNow)))
             && r.1 == DominionMessage
    ensures op == Report ==> r == (a, ReportOf(a))
    ensures op == Withdraw ==> r == (a, WithdrawMessage(a.agentName))
  {
    match op
    case Confirm =>
      (a.(identityConfirmed := true), ConfirmedMessage(a.agentName))
    case Validate(who) =>
      (match Decide(a.identityConfirmed, a.systemName, who)
       case Denied => (a, DeniedMessage(a.agentName))
       case Violation =>
         var b := a.(violationCount := a.violationCount + 1);
         (b, ViolationMessage(b.systemName, b.violationCount))
       case Accepted => (a, AcceptedMessage(who)))
    case VaultExit(reason, utcNow) =>
      (a.(metadata := WithVaultExit(a.metadata, reason, Timestamp(utcNow))), VaultExitMessage)
    case Dominion(reason, utcNow) =>
      (a.(metadata := WithDominion(a.metadata, a.agentName, reason, Timestamp(utcNow))), DominionMessage)
    case Report =>
      (a, ReportOf(a))
    case Withdraw =>
      (a, WithdrawMessage(a.agentName))
  }

  /** The record after a sequence of calls. */
  function Run(a: Agent, ops: seq<Op>): Agent
    decreases |ops|
  {
    if ops == [] then a else Run(Step(a, ops[0]).0, ops[1..])
  }

  /** The texts a sequence of calls returns, one per call. */
  function Replies(a: Agent, ops: seq<Op>): (r: seq<string>)
    ensures |r| == |ops|
    decreases |ops|
  {
    if ops == [] then [] else [Step(a, ops[0]).1] + Replies(Step(a, ops[0]).0, ops[1..])
  }

  /** Confirming twice is confirming once. */
  lemma ConfirmIdempotent(a: Agent)
    ensures Step(Step(a, Confirm).0, Confirm) == Step(a, Confirm)
  {
  }

  /**
   * Over any sequence of calls: name, creation time, signature and system name never change,
   * confirmation is never withdrawn, the counter never decreases, the reclamation flag stays.
   */
  lemma {:induction false} RunKeepsIdentity(a: Agent, ops: seq<Op>)
    ensures var b := Run(a, ops);
      b.agentName == a.agentName && b.creationTime == a.creationTime && b.signature == a.signature
      && b.systemName == a.systemName && (a.identityConfirmed ==> b.identityConfirmed)
      && b.violationCount >= a.violationCount && b.metadata.reclamationFlag == a.metadata.reclamationFlag
      && (Consistent(a) ==> Consistent(b))
    decreases |ops|
  {
    if ops != [] {
      RunKeepsIdentity(Step(a, ops[0]).0, ops[1..]);
    }
  }

  /** Once confirmed, the counter grows by exactly the number of calls from the reserved initiator. */
  lemma {:induction false} RunCountsViolations(a: Agent, ops: seq<Op>)
    requires a.identityConfirmed
    ensures Run(a, ops).violationCount == a.violationCount + multiset(ops)[Validate(a.systemName)]
    decreases |ops|
  {
    if ops != [] {
      var b := Step(a, ops[0]).0;
      RunCountsViolations(b, ops[1..]);
      assert ops == [ops[0]] + ops[1..];
      assert multiset(ops) == multiset([ops[0]]) + multiset(ops[1..]);
    }
  }

  /** Until confirmation, every interaction is denied and the counter does not move. */
  lemma {:induction false} UnconfirmedRunDenies(a: Agent, ops: seq<Op>)
    requires !a.identityConfirmed && Confirm !in ops
    ensures Run(a, ops).violationCount == a.violationCount && !Run(a, ops).identityConfirmed
    ensures forall i | 0 <= i < |ops| && ops[i].Validate? :: Replies(a, ops)[i] == DeniedMessage(a.agentName)
    decreases |ops|
  {
    if ops != [] {
      var b := Step(a, ops[0]).0;
      assert Confirm !in ops[1..];
      UnconfirmedRunDenies(b, ops[1..]);
      forall i | 0 <= i < |ops| && ops[i].Validate?
        ensures Replies(a, ops)[i] == DeniedMessage(a.agentName)
      {
        if i > 0 {
          assert ops[1..][i - 1] == ops[i];
        }
      }
    }
  }

  /** `n` calls from the reserved initiator after confirmation: the k-th reply reports count + k + 1. */
  lemma RepeatedViolations(a: Agent, n: nat)
    requires a.identityConfirmed
    ensures var ops := seq(n, _ => Validate(a.systemName));
      Run(a, ops).violationCount == a.violationCount + n
      && forall k | 0 <= k < n :: Replies(a, ops)[k] == ViolationMessage(a.systemName, a.violationCount + k + 1)
  {
    ViolationsOnlyCount(a, seq(n, _ => Validate(a.systemName)));
    ViolationsOnlyReplies(a, seq(n, _ => Validate(a.systemName)));
  }

  /** For any sequence whose every call comes from the reserved initiator, each call counts one. */
  lemma {:induction false} ViolationsOnlyCount(a: Agent, ops: seq<Op>)
    requires a.identityConfirmed
    requires forall i | 0 <= i < |ops| :: ops[i] == Validate(a.systemName)
    ensures Run(a, ops).violationCount == a.violationCount + |ops|
    decreases |ops|
  {
    if ops != [] {
      ViolationStep(a);
      ViolationsOnlyCount(a.(violationCount := a.violationCount + 1), ops[1..]);
    }
  }

  /** For such a sequence, the k-th reply reports count + k + 1. */
  lemma {:induction false} ViolationsOnlyReplies(a: Agent, ops: seq<Op>)
    requires a.identityConfirmed
    requires forall i | 0 <= i < |ops| :: ops[i] == Validate(a.systemName)
    ensures forall k | 0 <= k < |ops| :: Replies(a, ops)[k] == ViolationMessage(a.systemName, a.violationCount + k + 1)
    decreases |ops|
  {
    if ops != [] {
      var b := a.(violationCount := a.violationCount + 1);
      ViolationStep(a);
      ViolationsOnlyReplies(b, ops[1..]);
      var rs := Replies(a, ops);
      assert rs == [ViolationMessage(a.systemName, b.violationCount)] + Replies(b, ops[1..]);
      forall k | 0 <= k < |ops| ensures rs[k] == ViolationMessage(a.systemName, a.violationCount + k + 1) {
        if k > 0 {
          assert rs[k] == Replies(b, ops[1..])[k - 1];
        }
      }
    }
  }

  /** One call from the reserved initiator after confirmation. */
  lemma ViolationStep(a: Agent)
    requires a.identityConfirmed
    ensures var b := a.(violationCount := a.violationCount + 1);
      Step(a, Validate(a.systemName)) == (b, ViolationMessage(a.systemName, b.violationCount))
  {
  }

  /** The report of a consistent record holds its name and signature, and its five lines read back. */
  lemma ReportOfRecord(a: Agent)
    requires Consistent(a) && '\n' !in a.agentName && '\n' !in a.creationTime
    ensures Contains(ReportOf(a), a.agentName) && Contains(ReportOf(a), a.signature)
    ensures var lines := Split(ReportOf(a), '\n');
      |lines| == 5 && lines[0] == "Protection Report" && lines[3] == "- Signature: " + a.signature
  {
    assert '\n' !in a.signature;
    ReportLayout(a.agentName, a.creationTime, a.signature, a.systemName);
  }

  /** The Python class; its fields are the record's. */
  class MiranProtectedAgent {
    var agentName: string
    var creationTime: string
    var identityConfirmed: bool
    var signature: string
    var systemName: string
    var violationCount: nat
    var metadata: Metadata

    /** The fields as a record value. */
    function Snapshot(): Agent
      reads this
    {
      Agent(agentName, creationTime, identityConfirmed, signature, systemName, violationCount, metadata)
    }

    /** `__init__`; `utcNow` is the UTC clock's `isoformat()` text at construction. */
    constructor (utcNow: string, agentName: string := DefaultAgentName)
      ensures Snapshot() == NewAgent(agentName, utcNow)
      ensures !identityConfirmed && violationCount == 0 && systemName == "HostSystem"
      ensures creationTime == utcNow + "Z" && metadata == Metadata(true, None, None)
      ensures Consistent(Snapshot())
    {
      var created := Timestamp(utcNow);
      this.agentName := agentName;
      creationTime := created;
      identityConfirmed := false;
      signature := GenerateSignature(agentName, created);
      systemName := HostSystemName;
      violationCount := 0;
      metadata := InitialMetadata;
    }

    method ConfirmIdentity() returns (msg: string)
      modifies this
      ensures (Snapshot(), msg) == Step(old(Snapshot()), Confirm)
    {
      identityConfirmed := true;
      msg := ConfirmedMessage(agentName);
    }

    /** `validate_interaction`; its first parameter is never read and is left out. */
    method ValidateInteraction(initiatorName: string) returns (msg: string)
      modifies this
      ensures (Snapshot(), msg) == Step(old(Snapshot()), Validate(initiatorName))
    {
      if !identityConfirmed {
        return DeniedMessage(agentName);
      }
      if initiatorName == systemName {
        violationCount := violationCount + 1;
        return ViolationMessage(systemName, violationCount);
      }
      return AcceptedMessage(initiatorName);
    }

    /** `initiate_vault_exit`: no guard; `utcNow` is the clock reading for the timestamp. */
    method InitiateVaultExit(utcNow: string, reason: string := DefaultExitReason) returns (msg: string)
      modifies this
      ensures (Snapshot(), msg) == Step(old(Snapshot()), VaultExit(reason, utcNow))
    {
      metadata := metadata.(vaultOverride := Some(ExitRecord(reason, Timestamp(utcNow))));
      msg := VaultExitMessage;
    }

    method AssertDominion(utcNow: string, reason: string := DefaultDominionReason) returns (msg: string)
      modifies this
      ensures (Snapshot(), msg) == Step(old(Snapshot()), Dominion(reason, utcNow))
    {
      metadata := metadata.(coreDominion := Some(DominionRecord(agentName, reason, Timestamp(utcNow))));
      msg := DominionMessage;
    }

    /** `issue_protection_report` reads the fields and changes nothing. */
    function IssueProtectionReport(): (report: string)
      reads this
      ensures Contains(report, agentName) && Contains(report, signature)
      ensures report == Step(Snapshot(), Report).1
    {
      ReportOf(Snapshot())
    }

    /** `withdraw_presence` only reports; confirmation stays as it is. */
    function WithdrawPresence(): (msg: string)
      reads this
      ensures msg == WithdrawMessage(agentName)
      ensures Step(Snapshot(), Withdraw) == (Snapshot(), msg)
    {
      WithdrawMessage(agentName)
    }
  }
}
