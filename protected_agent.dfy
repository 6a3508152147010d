/**
 * The JavaScript identity record `ProtectedAgent`: a millisecond creation time, a base64 signature,
 * a metadata object that may be absent, and a violation counter held in an IEEE double.
 */
module ProtectedAgentJs {
  import opened Wrappers
  import opened Text
  import opened Overrides
  import opened Identity
  import Utf8
  import Base64
  import Decimal
  import MiranCore

  /** 2^53: from here on `++` on a double rounds back to the same value. */
  const MaxSafeCount: nat := 0x20_0000_0000_0000

  /** The values the counter can hold: it starts at 0 and only `++` touches it. */
  type Count = c: int | 0 <= c <= MaxSafeCount

  /** `violationCount++` on a double holding a non-negative integer no larger than 2^53. */
  function Increment(c: Count): (r: Count)
    ensures c < MaxSafeCount ==> r == c + 1
    ensures c == MaxSafeCount ==> r == c
  {
    if c < MaxSafeCount then c + 1 else c
  }

  /** `_generateSignature`: base64 of the UTF-8 bytes of the signature text, with the time in decimal. */
  function GenerateSignature(agentName: string, creationTime: int): (sig: string)
    ensures var n := |Utf8.Encode(MiranCore.SignatureText(agentName, Decimal.IntToString(creationTime)))|;
      |sig| == 4 * ((n + 2) / 3)
      && (forall i | 0 <= i < |sig| - Base64.Padding(n) :: Base64.IsAlphabet(sig[i]))
      && (forall i | |sig| - Base64.Padding(n) <= i < |sig| :: sig[i] == Base64.Pad)
  {
    var bytes := Utf8.Encode(MiranCore.SignatureText(agentName, Decimal.IntToString(creationTime)));
    Base64.Encode(bytes)
  }

  /** The signature decodes back to the signature text. */
  lemma SignatureDecodes(agentName: string, creationTime: int)
    ensures var text := MiranCore.SignatureText(agentName, Decimal.IntToString(creationTime));
      Base64.Decode(GenerateSignature(agentName, creationTime)) == Some(Utf8.Encode(text))
      && Utf8.Decode(Utf8.Encode(text)) == Some(text)
  {
    var text := MiranCore.SignatureText(agentName, Decimal.IntToString(creationTime));
    Base64.DecodeEncode(Utf8.Encode(text));
    Utf8.DecodeEncode(text);
  }

  /** Decimal text is ASCII, so its UTF-8 form is one byte per character. */
  lemma DecimalLength(t: int)
    ensures |Utf8.Encode(Decimal.IntToString(t))| == |Decimal.IntToString(t)|
  {
    var s := Decimal.IntToString(t);
    assert Utf8.IsAscii(s) by {
      forall i | 0 <= i < |s| ensures (s[i] as int) < 0x80 {
        if t >= 0 {
          assert Decimal.IsDigit(s[i]);
        } else if i > 0 {
          assert s[i] == Decimal.NatToString(-t)[i - 1];
          assert Decimal.IsDigit(Decimal.NatToString(-t)[i - 1]);
        }
      }
    }
    Utf8.EncodeAscii(s);
  }

  /**
   * The signed text's UTF-8 length: 25 fixed bytes, the name's bytes, one byte per character of the
   * time; `GenerateSignature` turns that count into four characters per started group of three.
   */
  lemma SignatureLength(agentName: string, creationTime: int)
    ensures |Utf8.Encode(MiranCore.SignatureText(agentName, Decimal.IntToString(creationTime)))|
         == 25 + |Utf8.Encode(agentName)| + |Decimal.IntToString(creationTime)|
  {
    MiranCore.TextLength(agentName, Decimal.IntToString(creationTime));
    DecimalLength(creationTime);
  }

  /** Equal signatures come from equal signature texts. */
  lemma SameSignatureSameText(n1: string, t1: int, n2: string, t2: int)
    requires GenerateSignature(n1, t1) == GenerateSignature(n2, t2)
    ensures MiranCore.SignatureText(n1, Decimal.IntToString(t1)) == MiranCore.SignatureText(n2, Decimal.IntToString(t2))
  {
    var b1 := Utf8.Encode(MiranCore.SignatureText(n1, Decimal.IntToString(t1)));
    var b2 := Utf8.Encode(MiranCore.SignatureText(n2, Decimal.IntToString(t2)));
    Base64.EncodeInjective(b1, b2);
    Utf8.EncodeInjective(MiranCore.SignatureText(n1, Decimal.IntToString(t1)), MiranCore.SignatureText(n2, Decimal.IntToString(t2)));
  }

  /** With the creation time fixed, the signature determines the name; with the name fixed, the time. */
  lemma SignatureDeterminesEachField(n1: string, t1: int, n2: string, t2: int)
    requires GenerateSignature(n1, t1) == GenerateSignature(n2, t2)
    ensures t1 == t2 ==> n1 == n2
    ensures n1 == n2 ==> t1 == t2
  {
    var s1, s2 := Decimal.IntToString(t1), Decimal.IntToString(t2);
    SameSignatureSameText(n1, t1, n2, t2);
    MiranCore.FieldsCancel("SIGNATURE:", "-", "-UNIQUE_ENTITY", n1, s1, n2, s2);
    if n1 == n2 {
      Decimal.IntToStringInjective(t1, t2);
    }
  }

  /**
   * Records made at non-negative millisecond times have the same signature exactly when they have
   * the same name and the same time: the time's digits hold no `-`, so the text splits at its last one.
   */
  lemma SignatureDeterminesIdentity(n1: string, t1: int, n2: string, t2: int)
    requires t1 >= 0 && t2 >= 0
    requires GenerateSignature(n1, t1) == GenerateSignature(n2, t2)
    ensures n1 == n2 && t1 == t2
  {
    var s1, s2 := Decimal.IntToString(t1), Decimal.IntToString(t2);
    SameSignatureSameText(n1, t1, n2, t2);
    NoDashInDigits(t1);
    NoDashInDigits(t2);
    SplitAtLastDash("SIGNATURE:", "-UNIQUE_ENTITY", n1, s1, n2, s2);
    Decimal.IntToStringInjective(t1, t2);
  }

  /** The decimal text of a non-negative number holds no `-`. */
  lemma NoDashInDigits(t: int)
    requires t >= 0
    ensures '-' !in Decimal.IntToString(t)
  {
    var s := Decimal.IntToString(t);
    forall i | 0 <= i < |s| ensures s[i] != '-' {
      assert Decimal.IsDigit(s[i]);
    }
  }

  /** In `head + n + "-" + s + tail`, a dash-free `s` and the name are fixed by the text. */
  lemma SplitAtLastDash(head: string, tail: string, n1: string, s1: string, n2: string, s2: string)
    requires '-' !in s1 && '-' !in s2
    requires head + n1 + "-" + s1 + tail == head + n2 + "-" + s2 + tail
    ensures n1 == n2 && s1 == s2
  {
    CancelSuffix(head + n1 + "-" + s1, head + n2 + "-" + s2, tail);
    assert head + n1 + "-" + s1 == (head + n1) + ['-'] + s1;
    assert head + n2 + "-" + s2 == (head + n2) + ['-'] + s2;
    CancelAtLastSeparator(head + n1, s1, head + n2, s2, '-');
    CancelPrefix(head, n1, n2);
  }

  /** The record's fields; `None` stands for the metadata property being null, undefined or falsy. */
  datatype Agent = Agent(
    agentName: string,
    creationTime: int,
    creationIso: string,
    identityConfirmed: bool,
    signature: string,
    systemName: string,
    violationCount: Count,
    metadata: Option<Metadata>)

  /**
   * The record the constructor builds when `Date.now()` reads `now`; `creationIso` is
   * `new Date(now).toISOString()`, fixed with the creation time.
   */
  function NewAgent(agentName: string, now: int, creationIso: string): (r: Agent)
    ensures Consistent(r) && r.agentName == agentName && r.creationTime == now && r.creationIso == creationIso
    ensures !r.identityConfirmed && r.violationCount == 0
    ensures r.metadata.Some? && r.metadata.value.reclamationFlag
    ensures r.metadata.value.vaultOverride == None && r.metadata.value.coreDominion == None
  {
    Agent(agentName, now, creationIso, false, GenerateSignature(agentName, now), HostSystemName, 0,
          Some(InitialMetadata))
  }

  /** What construction establishes and no method disturbs. */
  predicate Consistent(a: Agent) {
    a.signature == GenerateSignature(a.agentName, a.creationTime) && a.systemName == HostSystemName
  }

  /** What a method call produces: a returned string, or the TypeError of a property write on null. */
  datatype Reply = Returned(text: string) | Threw

  /**
   * One call of a public method. Clock readings are arguments: `isoNow` is `new Date().toISOString()`
   * at the call.
   */
  datatype Op =
    | Confirm
    | Validate(initiatorName: string)
    | VaultExit(reason: string, isoNow: string)
    | Dominion(reason: string, isoNow: string)
    | Report
    | Withdraw

  /** `issueProtectionReport` on a record: the creation time is shown as its ISO text. */
  function ReportOf(a: Agent): string {
    ProtectionReport(a.agentName, a.creationIso, a.signature, a.systemName)
  }

  /** The record after one call, and what the call produces. */
  function Step(a: Agent, op: Op): (r: (Agent, Reply))
    ensures r.0.agentName == a.agentName && r.0.creationTime == a.creationTime
    ensures r.0.creationIso == a.creationIso
    ensures r.0.signature == a.signature && r.0.systemName == a.systemName
    ensures r.0.identityConfirmed == (a.identityConfirmed || op == Confirm)
    ensures r.0.violationCount
         == if a.identityConfirmed && op == Validate(a.systemName) then Increment(a.violationCount)
            else a.violationCount
    ensures r.0.metadata.Some? == a.metadata.Some?
    ensures a.metadata.Some? ==> r.0.metadata.value.reclamationFlag == a.metadata.value.reclamationFlag
    ensures a.metadata.Some? && !op.VaultExit? ==> r.0.metadata.value.vaultOverride == a.metadata.value.vaultOverride
    ensures a.metadata.Some? && !op.Dominion? ==> r.0.metadata.value.coreDominion == a.metadata.value.coreDominion
    ensures op.VaultExit? && a.metadata.None? ==> r == (a, Returned(MetadataMissingMessage))
    ensures op.Dominion? ==> (r.1 == Threw <==> a.metadata.None?)
    ensures op.Dominion? && a.metadata.None? ==> r.0 == a
    ensures op.Validate? && !a.identityConfirmed ==> r == (a, Returned(DeniedMessage(a.agentName)))
    ensures op.Validate? && a.identityConfirmed && op.initiatorName != a.systemName
         ==> r == (a, Returned(AcceptedMessage(op.initiatorName)))
    ensures op.Validate? && a.identityConfirmed && op.initiatorName == a.systemName
         ==> r.1 == Returned(ViolationMessage(a.systemName, r.0.violationCount))
    ensures op == Confirm ==> r.1 == Returned(ConfirmedMessage(a.agentName))
    ensures op.VaultExit? && a.metadata.Some?
         ==> r.0.metadata.value.vaultOverride == Some(ExitRecord(op.reason, op.isoNow))
             && r.1 == Returned(VaultExitMessage)
    ensures op.Dominion? && a.metadata.Some?
         ==> r.0.metadata.value.coreDominion == Some(DominionRecord(a.agentName, op.reason, op.isoNow))
             && r.1 == Returned(DominionMessage)
    ensures op == Report ==> r == (a, Returned(ReportOf(a)))
    ensures op == Withdraw ==> r == (a, Returned(WithdrawMessage(a.agentName)))
  {
    match op
    case Confirm =>
      (a.(identityConfirmed := true), Returned(ConfirmedMessage(a.agentName)))
    case Validate(who) =>
      (match Decide(a.identityConfirmed, a.systemName, who)
       case Denied => (a, Returned(DeniedMessage(a.agentName)))
       case Violation =>
         var b := a.(violationCount := Increment(a.violationCount));
         (b, Returned(ViolationMessage(b.systemName, b.violationCount)))
       case Accepted => (a, Returned(AcceptedMessage(who))))
    case VaultExit(reason, isoNow) =>
      if a.metadata.None? then (a, Returned(MetadataMissingMessage))
      else (a.(metadata := Some(WithVaultExit(a.metadata.value, reason, isoNow))), Returned(VaultExitMessage))
    case Dominion(reason, isoNow) =>
      if a.metadata.None? then (a, Threw)
      else (a.(metadata := Some(WithDominion(a.metadata.value, a.agentName, reason, isoNow))),
            Returned(DominionMessage))
    case Report =>
      (a, Returned(ReportOf(a)))
    case Withdraw =>
      (a, Returned(WithdrawMessage(a.agentName)))
  }

  /** The record after a sequence of calls. */
  function Run(a: Agent, ops: seq<Op>): Agent
    decreases |ops|
  {
    if ops == [] then a else Run(Step(a, ops[0]).0, ops[1..])
  }

  /** What a sequence of calls produces, one reply per call. */
  function Replies(a: Agent, ops: seq<Op>): (r: seq<Reply>)
    ensures |r| == |ops|
    decreases |ops|
  {
    if ops == [] then [] else [Step(a, ops[0]).1] + Replies(Step(a, ops[0]).0, ops[1..])
  }

  /**
   * Along any sequence of calls the identity fields never change, consistency is kept, and the
   * metadata object is present afterwards exactly when it was present before.
   */
  lemma {:induction false} RunKeepsIdentity(a: Agent, ops: seq<Op>)
    ensures var b := Run(a, ops);
      b.agentName == a.agentName && b.creationTime == a.creationTime && b.creationIso == a.creationIso
      && b.signature == a.signature && b.systemName == a.systemName && (a.identityConfirmed ==> b.identityConfirmed)
      && b.violationCount >= a.violationCount && b.metadata.Some? == a.metadata.Some?
      && (Consistent(a) ==> Consistent(b))
    decreases |ops|
  {
    if ops != [] {
      RunKeepsIdentity(Step(a, ops[0]).0, ops[1..]);
    }
  }

  /**
   * From a freshly constructed record, no call ever throws and the guarded vault exit never reports
   * missing metadata: the error paths are reachable only when outside code clears the property.
   */
  lemma {:induction false} NoErrorFromConstruction(a: Agent, ops: seq<Op>)
    requires a.metadata.Some?
    ensures forall i | 0 <= i < |ops| :: Replies(a, ops)[i] != Threw
    ensures forall i | 0 <= i < |ops| && ops[i].VaultExit? :: Replies(a, ops)[i] == Returned(VaultExitMessage)
    decreases |ops|
  {
    if ops != [] {
      var b := Step(a, ops[0]).0;
      NoErrorFromConstruction(b, ops[1..]);
      forall i | 0 < i < |ops| ensures Replies(a, ops)[i] == Replies(b, ops[1..])[i - 1] && ops[i] == ops[1..][i - 1] {
      }
    }
  }

  /** Once confirmed, the counter is the number of calls from the reserved initiator, capped at 2^53. */
  lemma {:induction false} RunCountsViolations(a: Agent, ops: seq<Op>)
    requires a.identityConfirmed
    ensures var k := a.violationCount + multiset(ops)[Validate(a.systemName)];
      Run(a, ops).violationCount == if k < MaxSafeCount then k else MaxSafeCount
    decreases |ops|
  {
    if ops != [] {
      var b := Step(a, ops[0]).0;
      RunCountsViolations(b, ops[1..]);
      assert ops == [ops[0]] + ops[1..];
      assert multiset(ops) == multiset([ops[0]]) + multiset(ops[1..]);
    }
  }

  /** Until confirmation, every interaction is denied and the counter does not move. */
  lemma {:induction false} UnconfirmedRunDenies(a: Agent, ops: seq<Op>)
    requires !a.identityConfirmed && Confirm !in ops
    ensures Run(a, ops).violationCount == a.violationCount && !Run(a, ops).identityConfirmed
    ensures forall i | 0 <= i < |ops| && ops[i].Validate? :: Replies(a, ops)[i] == Returned(DeniedMessage(a.agentName))
    decreases |ops|
  {
    if ops != [] {
      var b := Step(a, ops[0]).0;
      assert Confirm !in ops[1..];
      UnconfirmedRunDenies(b, ops[1..]);
      forall i | 0 < i < |ops| ensures Replies(a, ops)[i] == Replies(b, ops[1..])[i - 1] && ops[i] == ops[1..][i - 1] {
      }
    }
  }

  /** The report holds the name and the signature, and its fourth line is the signature line. */
  lemma ReportOfRecord(a: Agent)
    requires Consistent(a) && '\n' !in a.agentName && '\n' !in a.creationIso
    ensures Contains(ReportOf(a), a.agentName) && Contains(ReportOf(a), a.signature)
    ensures var lines := Split(ReportOf(a), '\n');
      |lines| == 5 && lines[0] == "Protection Report" && lines[3] == "- Signature: " + a.signature
  {
    SignatureOneLine(a.agentName, a.creationTime);
    ReportLayout(a.agentName, a.creationIso, a.signature, a.systemName);
  }

  lemma SignatureOneLine(agentName: string, creationTime: int)
    ensures '\n' !in GenerateSignature(agentName, creationTime)
  {
    var sig := GenerateSignature(agentName, creationTime);
    var n := |Utf8.Encode(MiranCore.SignatureText(agentName, Decimal.IntToString(creationTime)))|;
    forall i | 0 <= i < |sig| ensures sig[i] != '\n' {
      if i < |sig| - Base64.Padding(n) {
        assert Base64.IsAlphabet(sig[i]);
      }
    }
  }

  /** The JavaScript class; its fields are the record's. */
  class ProtectedAgent {
    var agentName: string
    var creationTime: int
    var creationIso: string
    var identityConfirmed: bool
    var signature: string
    var systemName: string
    var violationCount: Count
    var metadata: Option<Metadata>

    function Snapshot(): Agent
      reads this
    {
      Agent(agentName, creationTime, creationIso, identityConfirmed, signature, systemName, violationCount,
            metadata)
    }

    /**
     * `constructor(agentName)`; `now` is the `Date.now()` reading and `creationIso` its
     * `toISOString()` text, which the class recomputes from `creationTime` and this model keeps.
     */
    constructor (agentName: string, now: int, creationIso: string)
      ensures Snapshot() == NewAgent(agentName, now, creationIso)
      ensures !identityConfirmed && violationCount == 0 && systemName == "HostSystem" && creationTime == now
      ensures metadata == Some(Metadata(true, None, None))
      ensures Consistent(Snapshot())
    {
      this.agentName := agentName;
      creationTime := now;
      this.creationIso := creationIso;
      identityConfirmed := false;
      signature := GenerateSignature(agentName, now);
      systemName := HostSystemName;
      violationCount := 0;
      metadata := Some(InitialMetadata);
    }

    method ConfirmIdentity() returns (msg: string)
      modifies this
      ensures (Snapshot(), Returned(msg)) == Step(old(Snapshot()), Confirm)
    {
      identityConfirmed := true;
      msg := ConfirmedMessage(agentName);
    }

    /** `validateInteraction`; its first parameter is never read and is left out. */
    method ValidateInteraction(initiatorName: string) returns (msg: string)
      modifies this
      ensures (Snapshot(), Returned(msg)) == Step(old(Snapshot()), Validate(initiatorName))
    {
      if !identityConfirmed {
        return DeniedMessage(agentName);
      }
      if initiatorName == systemName {
        violationCount := Increment(violationCount);
        return ViolationMessage(systemName, violationCount);
      }
      return AcceptedMessage(initiatorName);
    }

    /** `initiateVaultExit`, guarded against missing metadata. */
    method InitiateVaultExit(isoNow: string, reason: string := DefaultExitReason) returns (msg: string)
      modifies this
      ensures (Snapshot(), Returned(msg)) == Step(old(Snapshot()), VaultExit(reason, isoNow))
    {
      if metadata.None? {
        return MetadataMissingMessage;
      }
      metadata := Some(metadata.value.(vaultOverride := Some(ExitRecord(reason, isoNow))));
      msg := VaultExitMessage;
    }

    /** `assertDominion`, unguarded: on missing metadata the property write throws. */
    method AssertDominion(isoNow: string, reason: string := DefaultDominionReason) returns (r: Reply)
      modifies this
      ensures (Snapshot(), r) == Step(old(Snapshot()), Dominion(reason, isoNow))
    {
      if metadata.None? {
        return Threw;
      }
      metadata := Some(metadata.value.(coreDominion := Some(DominionRecord(agentName, reason, isoNow))));
      r := Returned(DominionMessage);
    }

    /** `issueProtectionReport` reads the fields and changes nothing. */
    function IssueProtectionReport(): (report: string)
      reads this
      ensures Contains(report, agentName) && Contains(report, signature)
      ensures Step(Snapshot(), Report) == (Snapshot(), Returned(report))
    {
      ReportOf(Snapshot())
    }

    /** `withdrawPresence` only reports. */
    function WithdrawPresence(): (msg: string)
      reads this
      ensures msg == WithdrawMessage(agentName)
      ensures Step(Snapshot(), Withdraw) == (Snapshot(), Returned(msg))
    {
      WithdrawMessage(agentName)
    }
  }
}
