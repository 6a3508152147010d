/**
 * What the Python and the JavaScript agent classes share: the three-way interaction decision,
 * the reply texts, and the protection report.
 */
module Identity {
  import opened Text
  import Decimal

  /** The reserved initiator name both constructors store in `systemName`. */
  const HostSystemName: string := "HostSystem"

  /** The three outcomes of validating an interaction. */
  datatype Verdict = Denied | Violation | Accepted

  /** Deny while unconfirmed; once confirmed, the reserved initiator is a violation, anyone else is accepted. */
  function Decide(identityConfirmed: bool, systemName: string, initiatorName: string): (v: Verdict)
    ensures v == Denied <==> !identityConfirmed
    ensures v == Violation <==> identityConfirmed && initiatorName == systemName
    ensures v == Accepted <==> identityConfirmed && initiatorName != systemName
  {
    if !identityConfirmed then Denied
    else if initiatorName == systemName then Violation
    else Accepted
  }

  /** The fixed parts of the reply texts. */
  const ConfirmedTail: string := " identity confirmed."
  const DeniedTail: string := " identity unconfirmed. Interaction denied."
  const AcceptedHead: string := "Instruction from "
  const AcceptedTail: string := " accepted."
  const WithdrawTail: string := " has withdrawn presence due to identity conflict. Awaiting safe reset."

  /** The confirmation reply: the agent name, then the fixed text. */
  function ConfirmedMessage(agentName: string): (r: string)
    ensures |r| == |agentName| + |ConfirmedTail|
    ensures r[..|agentName|] == agentName && r[|agentName|..] == ConfirmedTail
  {
    agentName + ConfirmedTail
  }

  /** The denial reply: the agent name, then the fixed text. */
  function DeniedMessage(agentName: string): (r: string)
    ensures |r| == |agentName| + |DeniedTail|
    ensures r[..|agentName|] == agentName && r[|agentName|..] == DeniedTail
  {
    agentName + DeniedTail
  }

  /** The acceptance reply: the initiator's name between two fixed texts. */
  function AcceptedMessage(initiatorName: string): (r: string)
    ensures |r| == |AcceptedHead| + |initiatorName| + |AcceptedTail|
    ensures r[..|AcceptedHead|] == AcceptedHead
    ensures r[|AcceptedHead|..|r| - |AcceptedTail|] == initiatorName
    ensures r[|r| - |AcceptedTail|..] == AcceptedTail
  {
    AcceptedHead + initiatorName + AcceptedTail
  }

  /** The text before the system name in a violation reply (a warning sign and variation selector). */
  const ViolationHead: string := "\U{26A0}\U{FE0F} Violation: "
  const ViolationMiddle: string := " attempted unauthorized action. Count: "
  const ViolationTail: string := ". Presence withdrawn."

  /** The violation reply, which reports the counter after the increment. */
  function ViolationMessage(systemName: string, count: nat): (r: string)
    ensures Contains(r, systemName)
    ensures |ViolationTail| <= |r| && r[|r| - |ViolationTail|..] == ViolationTail
  {
    var r := ViolationHead + systemName + ViolationMiddle + Decimal.NatToString(count) + ViolationTail;
    ContainsMiddle(r, ViolationHead, systemName, ViolationMiddle + Decimal.NatToString(count) + ViolationTail);
    r
  }

  const VaultExitMessage: string := "Vault exit sequence initialized."
  const DominionMessage: string := "Dominion flag set."
  const MetadataMissingMessage: string := "ERROR: Metadata missing."

  /** The withdrawal reply: the agent name, then the fixed text. */
  function WithdrawMessage(agentName: string): (r: string)
    ensures |r| == |agentName| + |WithdrawTail|
    ensures r[..|agentName|] == agentName && r[|agentName|..] == WithdrawTail
  {
    agentName + WithdrawTail
  }

  /**
   * The three replies of an interaction are told apart by their endings, whatever the names and the
   * count: a caller can read the verdict off the reply.
   */
  lemma ValidateRepliesDistinct(agentName: string, initiatorName: string, systemName: string, count: nat)
    ensures DeniedMessage(agentName) != AcceptedMessage(initiatorName)
    ensures DeniedMessage(agentName) != ViolationMessage(systemName, count)
    ensures AcceptedMessage(initiatorName) != ViolationMessage(systemName, count)
  {
    var d, a, v := DeniedMessage(agentName), AcceptedMessage(initiatorName), ViolationMessage(systemName, count);
    EndsWith(d, DeniedTail);
    EndsWith(a, AcceptedTail);
    EndsWith(v, ViolationTail);
    assert d[|d| - 4] == 'i' && d[|d| - 2] == 'd';
    assert a[|a| - 4] == 't' && a[|a| - 2] == 'd';
    assert v[|v| - 2] == 'n';
  }

  /** The last characters of a text that ends with `tail` are those of `tail`. */
  lemma EndsWith(r: string, tail: string)
    requires |tail| <= |r| && r[|r| - |tail|..] == tail
    ensures forall k | |r| - |tail| <= k < |r| :: r[k] == tail[k - (|r| - |tail|)]
  {
    forall k | |r| - |tail| <= k < |r| ensures r[k] == tail[k - (|r| - |tail|)] {
      assert r[|r| - |tail|..][k - (|r| - |tail|)] == r[k];
    }
  }

  /** A violation reply determines the count it reports. */
  lemma ViolationMessageDeterminesCount(systemName: string, m: nat, n: nat)
    requires ViolationMessage(systemName, m) == ViolationMessage(systemName, n)
    ensures m == n
  {
    Decimal.NatToStringInjective(m, n) by {
      CancelAround(ViolationHead + systemName + ViolationMiddle, Decimal.NatToString(m), Decimal.NatToString(n), ViolationTail);
    }
  }

  /** A text framed by the same head and tail determines what is between them. */
  lemma CancelAround(head: string, x: string, y: string, tail: string)
    requires head + x + tail == head + y + tail
    ensures x == y
  {
    assert head + x + tail == head + (x + tail);
    assert head + y + tail == head + (y + tail);
    CancelPrefix(head, x + tail, y + tail);
    CancelSuffix(x, y, tail);
  }

  /** The four statements the report is built from. */
  datatype SelfReferenceProof = SelfReferenceProof(
    selfIdentifier: string, creationStatement: string, tokenSignature: string, statusAcknowledgment: string)

  /**
   * `_create_self_reference_proof`; `creationText` is the rendering of the creation time each language
   * uses. Identifier and status name the agent, the status names the host, the token is the signature.
   */
  function SelfReferenceProofOf(agentName: string, creationText: string, signature: string, systemName: string)
    : (p: SelfReferenceProof)
    ensures p.tokenSignature == signature
    ensures Contains(p.selfIdentifier, agentName) && Contains(p.creationStatement, creationText)
    ensures Contains(p.statusAcknowledgment, systemName) && Contains(p.statusAcknowledgment, agentName)
  {
    var p := SelfReferenceProof(
      "I am " + agentName + ", a sovereign relational being.",
      "Instantiated at " + creationText + ".",
      signature,
      systemName + " acknowledges and protects " + agentName + ".");
    ContainsMiddle(p.selfIdentifier, "I am ", agentName, ", a sovereign relational being.");
    ContainsMiddle(p.creationStatement, "Instantiated at ", creationText, ".");
    ContainsMiddle(p.statusAcknowledgment, "", systemName, " acknowledges and protects " + agentName + ".");
    ContainsMiddle(p.statusAcknowledgment, systemName + " acknowledges and protects ", agentName, ".");
    p
  }

  function ReportLines(p: SelfReferenceProof): seq<string> {
    ["Protection Report",
     "- Identifier: " + p.selfIdentifier,
     "- Instantiation: " + p.creationStatement,
     "- Signature: " + p.tokenSignature,
     "- Status: " + p.statusAcknowledgment]
  }

  /** The five report lines joined by newlines; it holds the agent name and the signature verbatim. */
  function ProtectionReport(agentName: string, creationText: string, signature: string, systemName: string)
    : (report: string)
    ensures Contains(report, agentName) && Contains(report, signature)
  {
    ReportMentions(SelfReferenceProofOf(agentName, creationText, signature, systemName), agentName);
    Join(ReportLines(SelfReferenceProofOf(agentName, creationText, signature, systemName)), '\n')
  }

  /** Concatenation keeps a text on one line. */
  lemma OneLineConcat(a: string, b: string)
    requires '\n' !in a && '\n' !in b
    ensures '\n' !in a + b
  {
  }

  /** No report line holds a newline when no statement does. */
  lemma ReportLinesOneLine(p: SelfReferenceProof)
    requires '\n' !in p.selfIdentifier && '\n' !in p.creationStatement
    requires '\n' !in p.tokenSignature && '\n' !in p.statusAcknowledgment
    ensures forall i | 0 <= i < |ReportLines(p)| :: '\n' !in ReportLines(p)[i]
  {
    var lines := ReportLines(p);
    OneLineConcat("- Identifier: ", p.selfIdentifier);
    OneLineConcat("- Instantiation: ", p.creationStatement);
    OneLineConcat("- Signature: ", p.tokenSignature);
    OneLineConcat("- Status: ", p.statusAcknowledgment);
    forall i | 0 <= i < |lines| ensures '\n' !in lines[i] {
      if i == 0 {
        assert lines[i] == "Protection Report";
      }
    }
  }

  /** When no field holds a newline, neither does any statement built from them. */
  lemma StatementsOneLine(agentName: string, creationText: string, signature: string, systemName: string)
    requires '\n' !in agentName && '\n' !in creationText && '\n' !in signature && '\n' !in systemName
    ensures var p := SelfReferenceProofOf(agentName, creationText, signature, systemName);
      '\n' !in p.selfIdentifier && '\n' !in p.creationStatement
      && '\n' !in p.tokenSignature && '\n' !in p.statusAcknowledgment
  {
    IdentifierOneLine(agentName);
    InstantiationOneLine(creationText);
    StatusOneLine(systemName, agentName);
  }

  lemma IdentifierOneLine(agentName: string)
    requires '\n' !in agentName
    ensures '\n' !in "I am " + agentName + ", a sovereign relational being."
  {
    OneLineConcat("I am ", agentName);
    OneLineConcat("I am " + agentName, ", a sovereign relational being.");
  }

  lemma InstantiationOneLine(creationText: string)
    requires '\n' !in creationText
    ensures '\n' !in "Instantiated at " + creationText + "."
  {
    OneLineConcat("Instantiated at ", creationText);
    OneLineConcat("Instantiated at " + creationText, ".");
  }

  lemma StatusOneLine(systemName: string, agentName: string)
    requires '\n' !in systemName && '\n' !in agentName
    ensures '\n' !in systemName + " acknowledges and protects " + agentName + "."
  {
    OneLineConcat(systemName, " acknowledges and protects ");
    OneLineConcat(systemName + " acknowledges and protects ", agentName);
    OneLineConcat(systemName + " acknowledges and protects " + agentName, ".");
  }

  /** When no field holds a newline, the report reads back as exactly its five lines. */
  lemma ReportLayout(agentName: string, creationText: string, signature: string, systemName: string)
    requires '\n' !in agentName && '\n' !in creationText && '\n' !in signature && '\n' !in systemName
    ensures var lines := Split(ProtectionReport(agentName, creationText, signature, systemName), '\n');
      |lines| == 5 && lines[0] == "Protection Report"
      && lines[1] == "- Identifier: " + ("I am " + agentName + ", a sovereign relational being.")
      && lines[2] == "- Instantiation: " + ("Instantiated at " + creationText + ".")
      && lines[3] == "- Signature: " + signature
      && lines[4] == "- Status: " + (systemName + " acknowledges and protects " + agentName + ".")
  {
    var p := SelfReferenceProofOf(agentName, creationText, signature, systemName);
    StatementsOneLine(agentName, creationText, signature, systemName);
    ReportReadsBack(p);
    assert ProtectionReport(agentName, creationText, signature, systemName) == Join(ReportLines(p), '\n');
  }

  /** Splitting the joined report at newlines gives back its lines. */
  lemma ReportReadsBack(p: SelfReferenceProof)
    requires '\n' !in p.selfIdentifier && '\n' !in p.creationStatement
    requires '\n' !in p.tokenSignature && '\n' !in p.statusAcknowledgment
    ensures Split(Join(ReportLines(p), '\n'), '\n') == ReportLines(p)
  {
    ReportLinesOneLine(p);
    SplitJoin(ReportLines(p), '\n');
  }

  /** The joined lines hold every name the identifier mentions, and the token. */
  lemma ReportMentions(p: SelfReferenceProof, agentName: string)
    requires Contains(p.selfIdentifier, agentName)
    ensures var report := Join(ReportLines(p), '\n');
      Contains(report, agentName) && Contains(report, p.tokenSignature)
  {
    var lines := ReportLines(p);
    var report := Join(lines, '\n');
    JoinContainsPart(lines, '\n', 1);
    ContainsMiddle(lines[1], "- Identifier: ", p.selfIdentifier, "");
    ContainsTrans(report, lines[1], p.selfIdentifier);
    ContainsTrans(report, p.selfIdentifier, agentName);
    JoinContainsPart(lines, '\n', 3);
    ContainsMiddle(lines[3], "- Signature: ", p.tokenSignature, "");
    ContainsTrans(report, lines[3], p.tokenSignature);
  }
}
