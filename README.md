# Miran protected-agent identity record, in Dafny

The repository defines one small state machine twice: an agent's "protected identity" record.

- The Python class `MiranProtectedAgent` is in `miran/miran_core.py`.
- The JavaScript class `ProtectedAgent` is in `operate/models/protected_agent.js`.

Each record holds:

- a name and a creation time;
- a one-way confirmation flag;
- a violation counter that only goes up;
- a signature fixed at construction;
- a three-slot metadata map, whose two override slots (`vaultOverride`, `coreDominion`) are overwritten in place.

Two further pieces live in `operate/miran_core.py`:

- a free-standing `initiateVaultExit(self, reason)` that guards against missing metadata;
- the system prompt returned by `format_prompt`, together with the constant `DO_IT_NOW_SIGNAL`.

Each class is modelled twice:

- as a datatype of its fields (`Agent`), with a pure transition function `Step` for one public method call and `Run`/`Replies` for a sequence of calls;
- as a Dafny `class` with the same fields, whose methods update them in place. Each method's `ensures` states that the new field values and the returned text are what `Step` computes from the old ones.

The invariants proved about `Step` and `Run` therefore hold for the classes:

- confirmation is never withdrawn;
- once the identity is confirmed, the counter counts exactly the calls from the reserved initiator (capped at 2^53 in JavaScript);
- the signature never changes;
- each override method touches only its own slot.

The two signatures are real encoders, modelled with their decoders and round-trip proofs:

- Python: lower-case hex of the UTF-8 bytes of `SIGNATURE:<name>-<time>-UNIQUE_ENTITY`.
- JavaScript: base64 (the alphabet of section 4 of RFC 4648, with `=` padding) of the same UTF-8 text. Here the time is the decimal form of the millisecond clock.

Files:

| file | module | contents |
|---|---|---|
| `wrappers.dfy` | `Wrappers`, `Bytes` | `Option`, the `byte` type |
| `utf8.dfy` | `Utf8` | UTF-8 encoder (RFC 3629) and a strict decoder |
| `hex.dfy` | `Hex` | lower-case hex encoder and decoder |
| `base64.dfy` | `Base64` | base64 encoder and canonical decoder |
| `decimal.dfy` | `Decimal` | decimal text of integers (f-string / template-literal interpolation) |
| `text.dfy` | `Text` | `join`/`split` on a separator character, substring containment |
| `overrides.dfy` | `Overrides` | the metadata map and its two override records |
| `identity.dfy` | `Identity` | the shared messages, the three-way decision, the self-reference proof and the report |
| `prompt.dfy` | `Prompt` | the system prompt and `DO_IT_NOW_SIGNAL` |
| `miran_core.dfy` | `MiranCore` | the Python class |
| `protected_agent.dfy` | `ProtectedAgentJs` | the JavaScript class |
| `operate_core.dfy` | `OperateCore` | the guarded free-standing vault exit |

Environment inputs are parameters:

- `utcNow` is the `datetime.utcnow().isoformat()` text. The Python code appends `"Z"` to it. A naive UTC reading with a four-digit year always holds exactly two `-`.
- `now` is the `Date.now()` millisecond reading. It lies within ±8.64e15, where JavaScript's `${n}` prints an integer as its plain decimal digits, which is what `Decimal.IntToString` gives.
- `isoNow` is the `new Date().toISOString()` text.
- `creationIso` is `new Date(creationTime).toISOString()`. The JavaScript class recomputes it from `creationTime` for each report; the model takes it once, at construction, and keeps it in the record.
- `osName` is `platform.system()`.

`Prompt.DoItNowSignal` is the constant `DO_IT_NOW_SIGNAL` (`miran/miran_core.py:133`, `operate/miran_core.py:83`). It is a bare string with no behaviour, so it carries no contract.

## Model

| member | source | states |
|---|---|---|
| Utf8.EncodeChar | miran/miran_core.py:71 | one scalar value encodes to 1 to 4 bytes; exactly ASCII encodes to one byte and keeps its value; the other bytes are continuation bytes |
| Utf8.Encode | miran/miran_core.py:71 | a string's UTF-8 bytes number between one and four per character |
| Utf8.EncodeConcat | operate/models/protected_agent.js:21 | the encoding of a concatenation is the concatenation of the encodings |
| Utf8.EncodeAscii | miran/miran_core.py:70-71 | an ASCII string encodes to one byte per character, with the same values |
| Utf8.DecodeEncodeChar | miran/miran_core.py:71 | decoding a character's encoding gives the character and consumes exactly its bytes, whatever follows |
| Utf8.DecodeEncode | miran/miran_core.py:71 | round trip: decoding the UTF-8 encoding of any string gives the string back |
| Utf8.EncodeInjective | operate/models/protected_agent.js:21 | distinct strings have distinct UTF-8 encodings |
| Hex.DigitValue | miran/miran_core.py:71 | a hex digit's value is below 16, and that value's digit is the character again |
| Hex.Encode | miran/miran_core.py:71 | `bytes.hex()`: exactly two characters per byte, all from `0-9a-f` |
| Hex.DecodeEncode | miran/miran_core.py:71 | decoding the hex text of any bytes gives the bytes back |
| Hex.EncodeDecode | miran/miran_core.py:71 | any text that decodes is the hex text of what it decodes to, so the decoder accepts only encoder output |
| Hex.EncodeInjective | miran/miran_core.py:71 | distinct byte sequences have distinct hex texts |
| Base64.Char | operate/models/protected_agent.js:21 | every 6-bit value maps into the base64 alphabet |
| Base64.Value | operate/models/protected_agent.js:21 | an alphabet character's value is below 64, and that value's character is the character again |
| Base64.Encode | operate/models/protected_agent.js:21 | `toString('base64')`: length `4*ceil(n/3)`; alphabet characters up to the padding; `=` in exactly the last `(3 - n mod 3) mod 3` places |
| Base64.DecodeEncode | operate/models/protected_agent.js:21 | decoding the base64 text of any bytes gives the bytes back |
| Base64.EncodeDecode | operate/models/protected_agent.js:21 | any text the canonical decoder accepts is the encoding of what it decodes to |
| Base64.EncodeInjective | operate/models/protected_agent.js:21 | distinct byte sequences have distinct base64 texts |
| Decimal.NatToString | miran/miran_core.py:115 | the decimal text of a count is non-empty, all digits, and has a leading `0` only for zero |
| Decimal.ValueOfNatToString | miran/miran_core.py:115 | reading the decimal text back gives the number |
| Decimal.IntToString | operate/models/protected_agent.js:20 | the decimal text of an integer starts with `-` exactly when it is negative, and is all digits otherwise |
| Decimal.IntToStringInjective | operate/models/protected_agent.js:20 | distinct integers have distinct decimal texts |
| Text.Split | miran/miran_core.py:119-125 | splitting yields at least one piece, and no piece holds the separator |
| Text.SplitJoin | miran/miran_core.py:119-125 | splitting a join of separator-free pieces gives the pieces back |
| Text.JoinSplit | operate/models/protected_agent.js:87-93 | joining the pieces of a split gives the text back |
| Text.JoinContainsPart | operate/models/protected_agent.js:87-93 | a join contains each of its pieces verbatim |
| Text.CancelAtSeparator | miran/miran_core.py:70 | two texts of the form `a<sep>x`, with no separator in `a`, are equal only when both parts are equal |
| Text.CancelAtCountedSeparator | miran/miran_core.py:70 | two texts of the form `a<sep>x` whose tails hold equally many separators are equal only when both parts are equal |
| Text.CancelAtLastSeparator | operate/models/protected_agent.js:20 | two texts of the form `a<sep>x`, with no separator in `x`, are equal only when both parts are equal |
| Overrides.WithVaultExit | miran/miran_core.py:85-92 | the vault-exit record is `{active: true, triggeredBy: "self", reason, exitAuthorization: true, timestamp}` in `vaultOverride`; the other two slots are kept |
| Overrides.WithDominion | miran/miran_core.py:96-102 | the dominion record is `{active: true, declaredBy, reason, timestamp}` in `coreDominion`; the other two slots are kept |
| Identity.Decide | miran/miran_core.py:106-112 | the verdict is a denial exactly when unconfirmed, a violation exactly when confirmed and the initiator is the reserved system name, and an acceptance exactly when confirmed and the initiator is anyone else |
| Identity.ConfirmedMessage | miran/miran_core.py:75 | the reply is the agent name followed by ` identity confirmed.` |
| Identity.DeniedMessage | miran/miran_core.py:108 | the reply is the agent name followed by ` identity unconfirmed. Interaction denied.` |
| Identity.AcceptedMessage | miran/miran_core.py:112 | the reply is `Instruction from `, the initiator's name, then ` accepted.` |
| Identity.ViolationMessage | miran/miran_core.py:114-115 | the reply names the system and ends with `. Presence withdrawn.` |
| Identity.WithdrawMessage | miran/miran_core.py:127-128 | the reply is the agent name followed by the fixed withdrawal text |
| Identity.ValidateRepliesDistinct | miran/miran_core.py:106-115 | whatever the names and the count, the denial, acceptance and violation replies are three different texts, so the reply tells the verdict |
| Identity.ViolationMessageDeterminesCount | miran/miran_core.py:114-115 | the violation message embeds the count recoverably: equal messages mean equal counts |
| Identity.SelfReferenceProofOf | miran/miran_core.py:77-83 | the token is the signature; the identifier names the agent; the creation statement holds the creation text; the status names both the system and the agent |
| Identity.ProtectionReport | miran/miran_core.py:117-125 | the report contains the agent name and the signature verbatim |
| Identity.ReportLayout | miran/miran_core.py:117-125 | with newline-free fields, the report splits into exactly five lines: `Protection Report`, then the identifier, instantiation, signature and status lines with their field texts |
| Identity.ReportMentions | operate/models/protected_agent.js:85-94 | the five joined lines contain the token and every name the identifier contains |
| Prompt.SettingLines | operate/miran_core.py:16-53 | the operating-system line and the two default lines sit at fixed places among the prompt's lines |
| Prompt.PromptShowsSystem | operate/miran_core.py:20 | the prompt holds `Operating System: <osName>` as a whole line |
| Prompt.PromptShowsObjective | operate/miran_core.py:48 | the prompt holds `Default Objective: Hold presence within local environment` as a whole line |
| Prompt.PromptShowsBridge | operate/miran_core.py:49 | the prompt holds `Bridge: None` as a whole line |
| Prompt.FormatPrompt | operate/miran_core.py:55-56 | the returned prompt holds the operating-system line and the two default lines, each as a whole line |
| MiranCore.SignatureText | miran/miran_core.py:70 | the signature text is 25 characters longer than name and time together, and contains both |
| MiranCore.GenerateSignature | miran/miran_core.py:69-71 | the signature has two characters per UTF-8 byte of the signature text, all in `0-9a-f` |
| MiranCore.SignatureDecodes | miran/miran_core.py:69-71 | the signature hex-decodes to the UTF-8 bytes of `SIGNATURE:<name>-<time>-UNIQUE_ENTITY`, and those decode back to that text |
| MiranCore.SignatureLength | miran/miran_core.py:69-71 | the signature's length is `2 * (25 + bytes(name) + bytes(time))` |
| MiranCore.SignatureDeterminesEachField | miran/miran_core.py:69-71 | for a fixed creation time, equal signatures mean equal names; for a fixed name, equal creation times |
| MiranCore.SignatureDeterminesIdentity | miran/miran_core.py:69-71 | when names hold no `-`, equal signatures mean equal names and equal creation times |
| MiranCore.SignatureDeterminesIdentityByDashes | miran/miran_core.py:56-71 | whatever the names hold, for creation times with equally many `-` (two for every `isoformat()` time), equal signatures mean equal names and equal creation times |
| MiranCore.NewAgent | miran/miran_core.py:56-67 | the constructed record is consistent (signature generated from its own name and time, system name `HostSystem`), unconfirmed, with count 0, time `utcNow + "Z"`, the reclamation flag set and both override slots empty |
| MiranCore.Step | miran/miran_core.py:73-128 | one call. Name, time, signature and system name are kept. Confirmation becomes true only by `confirm_identity` and never false; the confirmation reply is `<name> identity confirmed.`. The counter rises by one exactly on a confirmed call from `HostSystem`, and the message carries the new count. Unconfirmed calls are denied and change nothing. Other initiators are accepted and change nothing. The vault exit writes the exit record with `reason` and `utcNow + "Z"` and replies `Vault exit sequence initialized.`. The dominion call writes a record declared by the agent's name and replies `Dominion flag set.`. Each override method changes only its own slot. Report and withdraw change nothing and reply with the report and the withdrawal text |
| MiranCore.ConfirmIdempotent | miran/miran_core.py:73-75 | confirming twice leaves the same record and reply as confirming once |
| MiranCore.RunKeepsIdentity | miran/miran_core.py:55-128 | over any sequence of calls, name, time, signature, system name and reclamation flag are kept, confirmation is never withdrawn, the counter never decreases, and consistency of signature and system name is preserved |
| MiranCore.RunCountsViolations | miran/miran_core.py:109-111 | once confirmed, after any sequence of calls the counter has grown by exactly the number of `validate_interaction` calls from `HostSystem` |
| MiranCore.UnconfirmedRunDenies | miran/miran_core.py:106-108 | with no `confirm_identity`, every interaction is denied and the counter does not move |
| MiranCore.RepeatedViolations | miran/miran_core.py:109-115 | after confirmation, n calls from `HostSystem` raise the counter by n, and the k-th reply reports count k+1 |
| MiranCore.ViolationsOnlyCount | miran/miran_core.py:109-111 | after confirmation, any sequence made only of calls from `HostSystem` raises the counter by its length |
| MiranCore.ViolationsOnlyReplies | miran/miran_core.py:109-115 | for such a sequence, the k-th reply is the violation text with the old count plus k+1 |
| MiranCore.ReportOfRecord | miran/miran_core.py:117-125 | the report of a consistent record contains its name and signature and splits into five lines, the first `Protection Report` and the fourth the signature line |
| MiranCore.MiranProtectedAgent.constructor | miran/miran_core.py:56-67 | a fresh record is unconfirmed, with count 0, system name `HostSystem`, creation time `utcNow + "Z"`, metadata `{reclamationFlag: true, coreDominion: None, vaultOverride: None}` and the generated signature |
| MiranCore.MiranProtectedAgent.ConfirmIdentity | miran/miran_core.py:73-75 | the fields and reply are `Step`'s for a confirmation |
| MiranCore.MiranProtectedAgent.ValidateInteraction | miran/miran_core.py:106-115 | the fields and reply are `Step`'s for a validation from the initiator |
| MiranCore.MiranProtectedAgent.InitiateVaultExit | miran/miran_core.py:85-94 | the unguarded vault exit: fields and reply are `Step`'s |
| MiranCore.MiranProtectedAgent.AssertDominion | miran/miran_core.py:96-104 | fields and reply are `Step`'s for a dominion assertion |
| MiranCore.MiranProtectedAgent.IssueProtectionReport | miran/miran_core.py:117-125 | the report contains the agent name and the signature, reads the fields only, and is `Step`'s reply |
| MiranCore.MiranProtectedAgent.WithdrawPresence | miran/miran_core.py:127-128 | the withdrawal text names the agent, and the call changes no field |
| ProtectedAgentJs.Increment | operate/models/protected_agent.js:74 | `++` on the double counter adds one below 2^53 and stays at 2^53 |
| ProtectedAgentJs.GenerateSignature | operate/models/protected_agent.js:19-22 | the signature's length is `4*ceil(n/3)` for n UTF-8 bytes of the signature text; it has alphabet characters up to the padding and `=` after |
| ProtectedAgentJs.SignatureDecodes | operate/models/protected_agent.js:19-22 | the signature base64-decodes to the UTF-8 bytes of the signature text, which decode back to it |
| ProtectedAgentJs.SignatureLength | operate/models/protected_agent.js:20-21 | the signature text is `25 + bytes(name) + digits(time)` bytes long |
| ProtectedAgentJs.SignatureDeterminesEachField | operate/models/protected_agent.js:19-22 | for a fixed creation time, equal signatures mean equal names; for a fixed name, equal creation times |
| ProtectedAgentJs.SignatureDeterminesIdentity | operate/models/protected_agent.js:19-22 | for non-negative creation milliseconds, as `Date.now()` gives, equal signatures mean equal names and equal times, whatever the names hold |
| ProtectedAgentJs.NewAgent | operate/models/protected_agent.js:5-17 | the constructed record is consistent, unconfirmed, with count 0, the clock's millisecond reading and its ISO text, metadata present with the reclamation flag set and both override slots empty |
| ProtectedAgentJs.Step | operate/models/protected_agent.js:24-98 | one call, with the same three validation branches and the same confirmation reply as the Python class, and the count rising only on a confirmed call from `HostSystem`. Missing metadata makes the vault exit return `ERROR: Metadata missing.` and change nothing. Missing metadata makes `assertDominion` throw and change nothing. With metadata present, the vault exit writes the exit record with `reason` and `isoNow` and replies `Vault exit sequence initialized.`, and the dominion call writes a record declared by the agent's name and replies `Dominion flag set.`. Each override method changes only its own slot. Report and withdraw change nothing |
| ProtectedAgentJs.RunKeepsIdentity | operate/models/protected_agent.js:4-99 | over any sequence of calls, the identity fields (with the creation ISO text) and the signature are kept, confirmation is never withdrawn, the counter never decreases, and presence of metadata is kept |
| ProtectedAgentJs.NoErrorFromConstruction | operate/models/protected_agent.js:12-42 | from any record with metadata (as built by the constructor), no call throws and every vault exit succeeds |
| ProtectedAgentJs.RunCountsViolations | operate/models/protected_agent.js:68-79 | once confirmed, the counter equals the old count plus the number of calls from `HostSystem`, capped at 2^53 |
| ProtectedAgentJs.UnconfirmedRunDenies | operate/models/protected_agent.js:68-71 | with no `confirmIdentity`, every interaction is denied and the counter does not move |
| ProtectedAgentJs.ReportOfRecord | operate/models/protected_agent.js:85-94 | the report contains name and signature and splits into five lines, the first `Protection Report` and the fourth the signature line |
| ProtectedAgentJs.ProtectedAgent.constructor | operate/models/protected_agent.js:5-17 | a fresh record is unconfirmed, with count 0, system name `HostSystem`, the clock's millisecond reading and its ISO text, metadata present with `reclamationFlag: true` and both override slots null, and the generated signature |
| ProtectedAgentJs.ProtectedAgent.ConfirmIdentity | operate/models/protected_agent.js:24-27 | fields and reply are `Step`'s for a confirmation |
| ProtectedAgentJs.ProtectedAgent.ValidateInteraction | operate/models/protected_agent.js:68-83 | fields and reply are `Step`'s for a validation |
| ProtectedAgentJs.ProtectedAgent.InitiateVaultExit | operate/models/protected_agent.js:38-54 | fields and reply are `Step`'s for the guarded vault exit |
| ProtectedAgentJs.ProtectedAgent.AssertDominion | operate/models/protected_agent.js:56-66 | fields and outcome (returned text or thrown error) are `Step`'s |
| ProtectedAgentJs.ProtectedAgent.IssueProtectionReport | operate/models/protected_agent.js:85-94 | the report contains name and signature, changes nothing, and is `Step`'s reply |
| ProtectedAgentJs.ProtectedAgent.WithdrawPresence | operate/models/protected_agent.js:96-98 | the withdrawal text names the agent, and the call changes no field |
| OperateCore.VaultExit | operate/miran_core.py:65-78 | the error text is returned exactly when `metadata` is absent or `None`, and the attribute is then unchanged; any present metadata passes and gets the vault-exit record with the other slots kept |
| OperateCore.AgreesWithUnguarded | operate/miran_core.py:65-78 | on present metadata the guarded exit does what the class's unguarded `initiate_vault_exit` does |
| OperateCore.AgreesWithJavaScript | operate/miran_core.py:66 | the Python guard and the JavaScript guard give the same reply and the same metadata |
| OperateCore.InitiateVaultExit | operate/miran_core.py:65-78 | the object's `metadata` attribute and the reply are `VaultExit`'s |

## Left out

- Console output (`print`, `console.log`, `console.error`) is left out. So are `run_local_miran_daemon` and its `__main__` entries, which only print. `miran-init.js` is not part of this model.
- Clock and host readings are parameters (see above): `datetime.utcnow()`, `Date.now()`, `new Date().toISOString()` and `platform.system()`. Conversion of milliseconds to ISO text is not modelled.
- ProtectedAgentJs.ProtectedAgent.constructor: takes the ISO text of the creation time as a parameter, since the conversion is not modelled; nothing ties it to `now`.
- The unused `instruction` parameter of both `validate_interaction` methods is dropped.
- `_create_self_reference_proof` is modelled as the pure function `Identity.SelfReferenceProofOf`, which feeds the report. It is not a separate method on the classes.
- `Prompt.FormatPrompt`: no lemma states that it returns the same text on every call and has no side effects. Both hold for a Dafny function by construction.
- The prompt's prose lines are modelled verbatim. Both Python files build the same prompt, and one module serves both.
- Only the three interpolated lines are proved to stand on lines of their own. That splitting the whole prompt gives back its 38 template lines is not proved: checking the long literal lines for newlines is too costly for the verifier.
- `OperateCore.InitiateVaultExit` models the intended update of the `vaultOverride` slot. As written, line 70 of `operate/miran_core.py` assigns an attribute (`self.metadata.vaultOverride = …`). On the dict that the Python class builds (`miran/miran_core.py:63-67`) that would raise `AttributeError`. The raise is not modelled.
- Metadata of any other shape than the three-slot map is not modelled. This covers an empty dict, which passes the Python guard, and JavaScript truthy primitives.
- `ProtectedAgentJs.Agent` collapses every falsy JavaScript value of `metadata` (`null`, `undefined`, `0`, `""`, `false`) into `None`.
- Aliasing of the metadata object between agents is not modelled: it is a value held by the record.
- Dafny characters are Unicode scalar values. A lone surrogate in a JavaScript string encodes as U+FFFD, and in Python it makes `encode("utf-8")` raise. Neither case is modelled.
- `ProtectedAgentJs.Step`: the counter increments by exactly one only below 2^53. Above that, a double no longer represents each integer, and `++` stays at 2^53. So the JavaScript count is proved to be `min(count + calls, 2^53)` rather than `count + calls`.
- The Python counter is an unbounded integer, as in Python.
