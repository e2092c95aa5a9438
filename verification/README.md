# Verification of the sec-lsm-manager core

This project models the parts of the security manager that carry its logic and
proves what they promise: the line protocol, the template engine, path
normalisation, the session with its context, and the permission transactions.
`dafny verify dfyconfig.toml` checks all of it.

## How the modules follow the program

| module | program | what is in it |
|---|---|---|
| `Text` | C strings, error numbers | options, zero-terminated reading |
| `Escaping` | `prot.c`, on values | encoding, decoding, the end of a record, lawful escapings |
| `Buffers` | `prot.c`, `buf_*` | class `Buf` (one ring or one line buffer) and class `FieldTable` (field pointers) |
| `Protocol` | `prot.c`, `prot_*` | the state functions and class `Prot` |
| `Channel` | two handlers and a byte stream | runs of a receiver alone, and of sender, wire and receiver |
| `Utf8` | `utf8-utils.c` | the scan and what it accepts |
| `MustachText`, `MustachMachine`, `MustachMeaning` | `mustach.c` | reading a template as a tree, the stack machine, what it means |
| `MustachWriting`, `Rendering` | `mustach.c`, `template.c` | templates character by character: which tree or error each is, and what a session makes of it |
| `Plugs`, `TemplateClient` | `plugs.c`, `template.c` | the linked list of plugs, the plug cursor of the callbacks |
| `PathStd`, `PathNormal` | `path-utils.c` | the loop, and what its result is |
| `Permissions`, `Paths` | `permissions.c`, `paths.c` | the two growing collections |
| `ContextSpec`, `Contexts`, `Replay` | `context.c` | the session data as a value, as an object, and what a display shows |
| `Settings` | `context.c` | which settings are accepted and what each changes, in plain numbers and words |
| `Database`, `Actions`, `Outcomes` | `cynagora-interface.c`, `action.c` | the permission transaction, install and uninstall, and their answers in plain numbers |
| `SessionSpec`, `Replies`, `Links`, `Clients` | `client.c` | requests and replies as functions, that replies can be read back, the output link, the connection |
| `Requests`, `Redisplay` | `client.c` | the requests and their answers word by word, whole sessions as lists of settings and actions, and a display sent back |

Where the program updates something in place there is a class whose methods are
proved equal to functions on plain values (`PutSpec`, `GetSpec`, `SetIdSpec`,
`OnRequestSpec`, ...); the theorems over runs are about those functions. What
these functions say is stated once more without them, in the words, character
codes and numbers of the program (`Settings`, `Outcomes`, `Requests`,
`MustachWriting`, `Rendering`), so that `Clients.ServeConnection` ends in the
very words that the peer reads.

Bytes are Dafny characters. C strings are strings without a zero. What the
kernel, the file system, the permission library and the security module answer
are parameters: every read may deliver any part of the stream or fail, every
write may take any part of the buffer, every check and library call may fail.

## What the program does that its documents or names do not say

* `QA/SEC-LSM-MGR.PRO.md` (lines 73-76) asks for a backslash to be escaped only
  at the end of a field or before a space or line feed. That loses one of two
  adjacent backslashes; the program also escapes before a backslash
  (`PairOfBackslashesIsRead`). `docs/Protocol.md` (line 16) asks for all three
  characters to be escaped always, which the program does not do, and need not
  (`EscapeIsShortest`, `EveryLawfulRecordDecodes`).
* `docs/Protocol.md` (lines 127-129) limits identities to 199 characters; the
  program takes 200.
* `prot_putx` is not all or nothing: when exactly the final line feed does not
  fit, the fields stay pending (`PutxIsAtomicUnlessFull` says when,
  `PutxMayKeepPending` gives a case).
* `[]` and `[""]` are the same line, and a record shows at most 20 fields
  (`Seen`, `Expected`).
* An identity set after a clear keeps the tail of a longer earlier one
  (`ShownIsRequestedIff`, `TailIsKept`). Creation leaves the last of the 201
  bytes as it was, which shows with an identity of 200 characters only
  (`LastByteMatters`). The session theorems take that byte to be zero.
* A path through a name too long for the buffer and back is refused, although its
  normal form is short (`LongWayToTheRoot` says exactly when).
* A relative path can come out absolute: `.//a` gives `/a`
  (`RelativeBecomesAbsoluteIff` says exactly when).
* A granted permission section inside a plug section loses the plug cursor
  (`UndisturbedIffServable`, `NestingLosesThePlug`).
* `is_utf8` accepts more than the grammar in section 4 of RFC 3629, for instance the
  overlong C0 80 (`NotOnlyRfcTexts`); `FollowsRfcIff` says exactly which of the
  accepted texts follow it.
* A display ends in an internal error exactly when one of its lines is longer
  than the 2000 bytes of the output buffer (`DisplayIff`), which a permission
  whose own request fits can bring about (`LongPermissionStopsDisplay`).
* An uninstall that the security module refuses has dropped the permissions
  already (`RefusedUninstallEmpties`), and a refused install leaves them granted
  when the compensating drop fails (`FailedInstallLeaves`).

## Model

| member | source | states |
|---|---|---|
| Escaping.ScannerAgreesWithReader | src/protocol/prot.c:283-298 | looking backwards at the parity of backslashes stops at exactly the line feed where reading from the left ends the record |
| Escaping.NoEndMeansNoStop | src/protocol/prot.c:283-298 | the two views also agree when there is no end |
| Escaping.EndIsStable | src/protocol/prot.c:283-298 | bytes received later never move the end of a record |
| Escaping.StopIsLocal | src/protocol/prot.c:289-292 | the backward test depends on the bytes before it only, so a scan may be resumed |
| Escaping.EscapeIsLawful | src/protocol/prot.c:153-177 | what the program emits is one of the lawful escapings of the field |
| Escaping.EscapeIsShortest | src/protocol/prot.c:153-177 | and no lawful escaping is shorter |
| Escaping.PairOfBackslashesIsRead | src/protocol/prot.c:153-177 | the documented rule for backslashes loses one of a pair; the program's does not |
| Escaping.DecodesIffLawful | src/protocol/prot.c:252-276 | a text decodes to exactly the field f if and only if it is a lawful escaping of f |
| Escaping.EveryLawfulRecordDecodes | QA/SEC-LSM-MGR.PRO.md:70-81 | whichever backslashes an emitter escapes beyond those it must, the same fields are recovered |
| Escaping.SplitInvertsEncode | src/protocol/prot.c:143-185 | splitting and unescaping inverts encoding, for any characters |
| Escaping.EncodedEnd | src/protocol/prot.c:143-185 | no encoded field contains the end of a record |
| Escaping.DecodeInvertsEncode | src/protocol/prot.c:240-277 | a record is read back as its first 20 fields, none for the single empty field |
| Escaping.RecordRoundTrip | src/protocol/prot.c:423-432 | one put is one whole record on the line, read back as what was put |
| Escaping.RecordsAsPut | src/protocol/prot.c:240-277 | one to 20 C strings are read back as they are, of more the first 20; an empty record and a single empty field show nothing, or an empty record where those are allowed |
| Escaping.RecordsAppend | src/protocol/prot.c:487-510 | the records of a stream are those of its whole parts, in order |
| Buffers.Buf.PutCar | src/protocol/prot.c:122-135 | one byte is queued, or refused exactly when the ring is full |
| Buffers.Buf.PutString | src/protocol/prot.c:143-185 | the escaped field is queued across the wrap, or nothing is, exactly when it does not fit |
| Buffers.Buf.WriteLength | src/protocol/prot.c:190-235 | one or two segments are given to the kernel; exactly a prefix of the queue leaves |
| Buffers.Buf.ScanEndRecord | src/protocol/prot.c:283-298 | a resumed scan finds the first unescaped line feed, or that there is none |
| Buffers.Buf.GetFields | src/protocol/prot.c:240-277 | decoding in place yields the fields of the pure decoder, each inside the record, and leaves the bytes behind the record alone |
| Buffers.Buf.Crop | src/protocol/prot.c:303-308 | the bytes in front are removed, the others keep their order |
| Buffers.Buf.Read | src/protocol/prot.c:314-332 | reads append, never beyond 2000 bytes, and a failing read changes nothing |
| Protocol.PutIsAtomic | src/protocol/prot.c:423-432 | with nothing pending a put succeeds exactly when the encoded record fits, and else changes nothing |
| Protocol.BytesOnTheLine | src/protocol/prot.c:143-185 | the bytes of records: 32 between fields, 10 behind the last, 92 in front of these and of itself |
| Protocol.PutxIsAtomicUnlessFull | src/protocol/prot.c:442-459 | the variant differs from a put exactly when the fields fill the buffer |
| Protocol.PutxMayKeepPending | src/protocol/prot.c:442-459 | a field of 2000 bytes that the variant refuses and keeps, where a put drops it |
| Protocol.Prot.PutCancel | src/protocol/prot.c:376-381 | only the pending part is dropped |
| Protocol.Prot.PutEnd | src/protocol/prot.c:384-395 | the pending part is committed with its line feed, or stays pending when that does not fit |
| Protocol.Prot.PutField | src/protocol/prot.c:398-407 | a field and its separator go to the pending part; what is committed is untouched |
| Protocol.Prot.PutFields | src/protocol/prot.c:410-420 | the same for several fields |
| Protocol.Prot.Put | src/protocol/prot.c:423-432 | a put on the ring is PutSpec on the queue |
| Protocol.Prot.Putx | src/protocol/prot.c:442-459 | the variant on the ring is PutxSpec on the queue |
| Protocol.Prot.Write | src/protocol/prot.c:468-474 | only committed bytes leave, from the front |
| Protocol.Prot.Read | src/protocol/prot.c:482-484 | bytes read go behind those held, whether or not a record is decoded |
| Protocol.Prot.Get | src/protocol/prot.c:487-502 | empty records are skipped, the loop ends, and the result is that of GetSpec |
| Protocol.Prot.Fields | src/protocol/prot.c:487-502 | the field pointers denote the strings of the current record |
| Protocol.Prot.Next | src/protocol/prot.c:505-510 | the current record is dropped, the bytes behind it stay |
| Channel.RecordsDependOnBytesOnly | src/protocol/prot.c:303-332 | records reported and records held are those of the bytes taken, however the reads cut them |
| Channel.ChunkIndependence | src/protocol/prot.c:487-510 | two receivers of the same bytes report the same records |
| Channel.GetVerdict | src/protocol/prot.c:487-502 | "message too big" exactly when 2000 bytes without an unescaped line feed are held; "again" exactly when fewer are |
| Channel.EndToEnd | src/protocol/prot.c:423-510 | under any interleaving of puts, partial writes, chunked reads, gets and nexts the records delivered are a prefix of those put, and the rest is in the buffers and on the wire |
| Channel.DrainedMeansDelivered | src/protocol/prot.c:423-510 | with everything drained all records have been delivered |
| Channel.NeverTooBig | src/protocol/prot.c:423-510 | a receiver of records that could be put never answers "message too big" |
| Channel.Drain | src/protocol/prot.c:462-510 | from every reachable state some schedule delivers everything: nothing gets stuck |
| Utf8.IsUtf8 | src/utf8-utils.c:28-50 | the scan decides Continues |
| Utf8.AcceptsExactlyGroups | src/utf8-utils.c:28-50 | accepted are exactly the concatenations of a lead byte with the continuation bytes it announces |
| Utf8.AcceptsExactlyChunks | src/utf8-utils.c:28-50 | the same with the byte ranges of each length in numbers |
| Utf8.RfcTextsAreAccepted | src/utf8-utils.c:28-50 | every text of the grammar in section 4 of RFC 3629 is accepted |
| Utf8.NotOnlyRfcTexts | src/utf8-utils.c:37-38 | the overlong C0 80 is accepted although no split of it follows that grammar |
| Utf8.FollowsRfcIff | src/utf8-utils.c:28-50 | a text follows that grammar if and only if it is accepted, has no C0, C1 or F5 to F7, and has the narrower second bytes behind E0, ED, F0 and F4 |
| Utf8.EscapingKeepsUtf8 | src/protocol/prot.c:143-185 | a field is valid if and only if its escaping is |
| Utf8.RecordsKeepUtf8 | src/protocol/prot.c:423-432 | a record is valid text if and only if its fields are |
| MustachText.ParsedIsClosed | src/templating/mustach.c:306-350 | a template read to its end has only closed sections |
| MustachText.TemplateRoundTrip | src/templating/mustach.c:220-350 | every well-nested tree of at most 256 levels has a template that is read as that tree |
| MustachWriting.NamedWithBlanks | src/templating/mustach.c:262-290 | the bytes 9 to 13 and 32 around a name do not belong to it, and it may have 1024 bytes |
| MustachWriting.WrittenIsRead | src/templating/mustach.c:220-350 | however a tree of at most 256 levels is written, with any blanks around its names and any of the tag forms, it is read as that tree and answered 0 |
| MustachWriting.BrokenIsRefused | src/templating/mustach.c:220-350 | a template that goes wrong at any depth is answered -2, -3, -4, -6, -7 or -8 for what goes wrong first |
| MustachMachine.StepKeeps | src/templating/mustach.c:220-373 | each turn does the first part of what the stack, the flags and the template still mean |
| MustachMachine.CloseKeeps | src/templating/mustach.c:335-350 | a closing tag leaves the section or goes back to its start, as the tree says |
| MustachMachine.EveryRunAnswersVerdict | src/templating/mustach.c:204-374 | the answer depends on the text alone: with any interface, a machine that stops answers the verdict on the text |
| MustachMachine.MachineFollowsTree | src/templating/mustach.c:204-374 | when iterations end the machine stops on every template, and its calls are those of the tree |
| MustachMachine.Process | src/templating/mustach.c:204-374 | the loop with its stack array terminates, answers the verdict and prints the recursive meaning of the tree |
| MustachMeaning.RunsAreBalanced | src/templating/mustach.c:316-350 | with any interface, the calls of a machine that has stopped keep the discipline of enter, next and leave, negated sections included; when it answers OK every section found has been left |
| MustachMeaning.CallsAreBalanced | src/templating/mustach.c:316-350 | the same for the calls of the tree, which exist when iterations end |
| MustachMeaning.EvalIsDenote | src/templating/mustach.c:316-350 | with a stack-disciplined interface a section's body is printed once per item and a negated one when there is none |
| TemplateClient.Data.Put | src/templating/template.c:46-80 | the text of each marker by its name: the identity or the plug's, with dashes turned to underscores where asked, and nothing for other names |
| TemplateClient.MarkerShows | src/templating/template.c:46-80 | the same of the text that templates are rendered with |
| TemplateClient.SectionsByName | src/templating/template.c:82-118 | which sections there are by name, and how often |
| TemplateClient.Data.EnterSection | src/templating/template.c:82-103 | the cursor and the answer of entering a section |
| TemplateClient.Data.NextItem | src/templating/template.c:112-118 | the cursor moves along the list |
| TemplateClient.Data.Leave | src/templating/template.c:105-110 | the cursor is always reset |
| TemplateClient.TemplatesEnd | src/templating/template.c:82-118 | every template terminates, whatever it nests |
| TemplateClient.TemplatesImplement | src/templating/template.c:82-118 | away from permission sections inside plug sections the callbacks serve sections as an author reads them |
| TemplateClient.RespectfulTemplateMeansWhatItReads | src/templating/template.c:122-153 | a template is rendered as it reads whenever its reading meets no granted permission section inside a plug section |
| TemplateClient.TemplateMeansWhatItReads | src/templating/template.c:122-153 | a template without such nesting is rendered as it reads |
| Rendering.WrittenPrints | src/templating/template.c:122-153 | a written template without such nesting prints the plain reading of its tree |
| Rendering.MarkerPrints | src/templating/template.c:46-80 | a marker between two texts prints what its name stands for between them |
| Rendering.ConditionPrints | src/templating/template.c:82-103 | a section around text prints it exactly if its condition holds, a negated one exactly if it does not |
| Rendering.PlugsPrint | src/templating/template.c:82-118 | a plug section prints its body once per plug, in the order of the list |
| TemplateClient.UndisturbedIffServable | src/templating/template.c:105-118 | sections leave the cursor as they found it if and only if no granted permission section is met inside a plug section |
| TemplateClient.NestingLosesThePlug | src/templating/template.c:105-118 | a template, and data, for which the nesting loses every plug name |
| Plugs.PlugSet.Add | src/context/plugs.c:53-87 | a request goes to the head of the list |
| Plugs.PlugSet.Has | src/context/plugs.c:90-105 | the search over the links finds exactly the matching requests |
| Permissions.PermissionSet.Add | src/context/permissions.c:71-113 | appended once, in blocks of eight, unless present or of illegal size |
| Permissions.PermissionSet.HasPermission | src/context/permissions.c:56-67 | present under the configured comparison |
| Permissions.SameIs | src/context/permissions.c:56-67 | what the comparison is, in character codes |
| Permissions.AddKeepsDistinct | src/context/permissions.c:71-113 | permissions stay pairwise different and of legal size |
| Paths.TypeRoundTrip | src/context/paths.c:126-150 | a name is read as a valid type if and only if it is the name of that type |
| Paths.PathTypeGet | src/context/paths.c:133-140 | the search of the table finds the type of a name |
| Paths.PathSet.Add | src/context/paths.c:88-122 | appended, or refused for its length or type |
| PathStd.Normalize | src/path-utils.c:27-73 | exact under truncation: a result below size means that the buffer holds the terminated normal form; the result never understates its length and nothing beyond size is written |
| PathNormal.AbsoluteNormalForm | src/path-utils.c:27-73 | from the root, the normal form is the components with empty ones and "." dropped and ".." popping, joined |
| PathNormal.SegmentsAreBetweenSlashes | src/path-utils.c:27-73 | the pieces are what stands between slashes |
| PathNormal.ResolveSnoc | src/path-utils.c:27-73 | what one more piece does to the components: nothing if empty or a dot, pop for a double dot, else push |
| PathNormal.RelativeNormalForm | src/path-utils.c:27-73 | the normal form of a path that stays relative |
| PathNormal.StdIsIdempotent | src/path-utils.c:27-73 | normalising twice is normalising once, for every path |
| PathNormal.SameFormIffSameComponents | src/path-utils.c:27-73 | two paths from the root have one normal form if and only if they have the same components |
| PathNormal.RelativeBecomesAbsoluteIff | src/path-utils.c:32-72 | when a relative path comes out absolute |
| PathNormal.RelativeMayBecomeAbsolute | src/path-utils.c:32-72 | an example of that |
| ContextSpec.DoKeepsGood | src/context/context.c:107-352 | every request, accepted or refused, keeps the context good |
| ContextSpec.ReachableIsGood | src/context/context.c:107-352 | in every reachable context paths are absolute, normal, short and distinct, permissions and import directories distinct, and need_id holds exactly when it should |
| ContextSpec.OneEntryPerLocation | src/context/context.c:218-276 | a lexical location is in the path set at most once |
| ContextSpec.ErrorIsSticky | src/context/context.c:166-352 | while the error is up every setting is refused and changes nothing |
| ContextSpec.ShownIdIsLegal | src/context/context.c:68-114 | the identity shown is empty or legal |
| ContextSpec.ShownIsRequestedIff | src/context/context.c:68-114 | it is the one requested if and only if no longer one was accepted before |
| ContextSpec.TailIsKept | src/context/context.c:68-114 | an example of the tail that stays |
| ContextSpec.LastByteMatters | src/context/context.c:46-54 | when the byte left unset at creation shows |
| Settings.IdAccepted | src/context/context.c:166-187 | an identity is accepted exactly if no error is up, none is set, and it has 2 to 200 letters, digits, dashes and underscores; what it changes, and the number of each refusal |
| Settings.PermissionAccepted | src/context/context.c:190-215 | the same for permissions of 2 to 1024 bytes that are not there yet |
| Settings.TypesByName | src/context/paths.c:126-150 | the ten names of types, in order |
| Settings.PathAccepted | src/context/context.c:218-276 | a path is accepted exactly if no error is up, its type has one of the ten names, its normal form is from the root and of at most 1023 bytes, no stored path has its components, and the file system does not object |
| Settings.PathRefused | src/context/context.c:218-276 | the number of each refusal, in order; that of the file system is passed on |
| Settings.PlugAccepted | src/context/context.c:280-352 | the same for plugs, with both directories |
| Settings.PlugRefused | src/context/context.c:280-352 | and their refusals, in order |
| Settings.LongWayToTheRoot | src/path-utils.c:27-73 | through a name and back to the root is accepted exactly if the name has at most 1024 bytes |
| Settings.ClearEmpties | src/context/context.c:107-114 | after a clear there is nothing to show, nothing needed and no error |
| Contexts.IsValidId | src/context/context.c:130-162 | the length of an identity of 2 to 200 letters, digits, dashes and underscores, else an error |
| Contexts.Locate | src/context/context.c:229-237 | the bounded normal form of a path from the root, else nothing |
| Contexts.Context.constructor | src/context/context.c:46-54 | everything is empty but the last byte of the identity |
| Contexts.Context.Clear | src/context/context.c:107-114 | everything is emptied but the bytes behind the first of the identity |
| Contexts.Context.SetId | src/context/context.c:166-186 | the bytes of the identity are overwritten without a terminator |
| Contexts.Context.AddPermission | src/context/context.c:190-214 | the new permissions and the answer |
| Contexts.Context.AddPath | src/context/context.c:218-276 | the new paths and the answer, errors in the program's order |
| Contexts.Context.AddPlug | src/context/context.c:280-352 | the new plug list and the answer, errors in the program's order |
| Contexts.Context.Visit | src/context/context.c:363-387 | the items are met in order until the visitor refuses one |
| Replay.DisplayReplays | src/context/context.c:166-387 | what a visit shows, played back as settings into a fresh context, is accepted entirely and rebuilds it, the plug list reversed |
| Replay.ReachableDisplayReplays | src/context/context.c:166-387 | so for every reachable context |
| Database.PoliciesAreAtomic | src/perm-cynagora/cynagora-interface.c:80-138 | the rules of a label become the wanted ones, or nothing changes; other labels never change |
| Database.PoliciesSucceed | src/perm-cynagora/cynagora-interface.c:80-138 | with success answered everywhere the transaction succeeds |
| Database.FirstFailureAnswers | src/perm-cynagora/cynagora-interface.c:80-143 | the answer is the first failure in the order of the calls |
| Database.GrantedIs | src/perm-cynagora/cynagora-interface.c:42-124 | the rules granted: any session, any user, each permission, "yes" |
| Database.Cynagora.SetPolicies | src/perm-cynagora/cynagora-interface.c:80-143 | the sequence of calls has the effect of PoliciesSpec for every answer of the library, and every transaction entered is left |
| Actions.CheckPlugInstallable | src/action/action.c:49-89 | the error of the first refused plug request; zero exactly if the session holds the export permission of each plug's application, public or partner as the library says |
| Actions.PlugsPass | src/action/action.c:49-89 | the same of the check as a function |
| Actions.FirstPlugAnswers | src/action/action.c:49-89 | the first plug that may not be exported answers: the library's error, or -1 |
| Actions.CheckContextMethod | src/action/action.c:98-114 | a raised error, or a missing identity that is needed, is refused |
| Actions.Install | src/action/action.c:122-161 | permissions first, then the security module, with a compensating drop |
| Actions.Uninstall | src/action/action.c:165-193 | permissions are dropped first, then the security module is called |
| Outcomes.ActionsWithoutId | src/action/action.c:98-193 | without an identity both actions are refused if one is needed; else the security module alone answers |
| Outcomes.InstallWithId | src/action/action.c:122-161 | with one an install is refused by the plugs, the transaction or the security module, in that order |
| Outcomes.UninstallWithId | src/action/action.c:165-193 | the same for an uninstall |
| Outcomes.InstallGrants | src/action/action.c:122-161 | after a successful install the label of the identity shown has exactly the permissions of the session |
| Actions.ActOutcome | src/action/action.c:122-193 | exactly what one action, successful or not, makes of the rules of its label: kept, emptied or granted |
| Actions.OutcomeByAnswer | src/action/action.c:122-193 | with working compensation an install grants if and only if it succeeds, and empties exactly when the security module refuses it |
| Actions.FailedInstallLeaves | src/action/action.c:141-156 | what a refusing security module leaves, with and without a working drop |
| Actions.RefusedUninstallEmpties | src/action/action.c:174-188 | an uninstall refused by the security module has emptied the rules already |
| Actions.RulesOverRuns | src/action/action.c:122-193 | over any run the rules of a label are exactly what the last action that changed them made of them, and those of the start if none did |
| Actions.GrantsAreInstalled | src/action/action.c:122-193 | with working compensation, granted rules are those of the last successful install, and kept ones mean there was none |
| Actions.OtherLabelsAreUntouched | src/action/action.c:122-193 | no action changes the rules of another label, whatever fails |
| SessionSpec.OneStatusPerRequest | src/protocol/client.c:315-502 | each request that is not empty gets exactly one done or error, after its data |
| SessionSpec.ErrorFlagStep | src/protocol/client.c:231-247 | the error flag after a request |
| SessionSpec.ErrorFlagOverRuns | src/protocol/client.c:231-502 | the flag is up exactly when an error was answered since the creation or the last clear |
| SessionSpec.ErrorBlocksEverything | src/protocol/client.c:359-489 | while it is up settings and actions change nothing and answer not-recoverable |
| SessionSpec.ViolationIsFinal | src/protocol/client.c:498-502 | after a protocol violation no request is handled |
| SessionSpec.SessionsStayGood | src/protocol/client.c:315-502 | every session keeps its context good |
| SessionSpec.HandleAppend | src/protocol/client.c:602-634 | handling requests in two batches is handling them in one |
| SessionSpec.DisplayIff | src/protocol/client.c:279-290 | a display shows everything exactly when each of its lines fits in the output buffer |
| SessionSpec.LongPermissionStopsDisplay | src/protocol/client.c:279-290 | a permission whose request is exactly 2000 bytes is accepted, and then no display can show it |
| Requests.RequestByItsWords | src/protocol/client.c:315-502 | for every session and request, given by its words: the settings, actions, version, log switch and end of the session that follow, and the words of every line of the answer |
| Requests.TurnIsAnswered | src/protocol/client.c:231-290 | each request is answered by lines that begin with "string" and then one "done" or "error", the latter exactly when the error flag is raised |
| Requests.SessionIsRun | src/protocol/client.c:315-634 | the context after a session is what its settings, clears and errors make of it, the rules are what one install or uninstall per such request makes of them, the lines are those of the requests |
| Requests.RulesOverSessions | src/protocol/client.c:315-634 | the rules of a label after a session are what its last effective action made of them |
| Redisplay.StdIsUtf8 | src/path-utils.c:27-73 | normalisation takes valid texts to valid texts |
| Redisplay.SessionsAreSpoken | src/protocol/client.c:324-326 | every session holds valid texts only |
| Redisplay.DisplayCanBeSentBack | src/protocol/client.c:250-290 | the lines of a complete display that begin with "string", sent without that word to a new session, are all answered "done" and rebuild the session with its plugs reversed |
| Redisplay.EveryDisplayCanBeSentBack | src/protocol/client.c:250-290 | so after any requests |
| Replies.StdIsNulFree | src/path-utils.c:27-73 | normalisation brings in no zero |
| Replies.RequestIsFine | src/protocol/client.c:315-502 | requests of C strings keep all strings of the session C strings, and every reply can be read back |
| Replies.RepliesAreReadable | src/protocol/client.c:602-634 | so for every sequence of requests |
| Links.Link.Putx | src/protocol/client.c:186-223 | a line is queued whole, after a flush if need be, and refused only if it can never fit |
| Links.Link.Flush | src/protocol/client.c:144-176 | everything committed is written and nothing else |
| Links.RecordsOfPrefix | src/protocol/prot.c:487-510 | bytes still to come only add records behind those that are there |
| Links.PeerReadsPrefix | src/protocol/client.c:144-247 | whatever part of the output has been sent, the peer reads it as the first of the lines put, in order, and as all of them after a flush |
| Clients.CkArg | src/protocol/client.c:127-135 | equality of two words from an offset on |
| Clients.Recognize | src/protocol/client.c:354-496 | the command of a word, found from its first character on |
| Clients.CheckUtf8 | src/protocol/client.c:300-306 | all fields are valid |
| Clients.ProposesVersion | src/protocol/client.c:334-341 | the search of a greeting finds the version wherever it is proposed |
| Clients.VisitShows | src/protocol/client.c:250-290 | a visit shows the items up to the first that cannot be sent |
| Clients.Client.SendError | src/protocol/client.c:243-247 | the flag is raised and the error line sent |
| Clients.Client.DoDisplay | src/protocol/client.c:279-290 | the lines and the state after a display |
| Clients.Client.OnRequest | src/protocol/client.c:315-502 | one request changes the session and puts the lines that OnRequestSpec says |
| Clients.Client.ServeAll | src/protocol/client.c:608-618 | the complete requests held are handled in order, as far as the session stays valid |
| Clients.Client.ProcessInput | src/protocol/client.c:602-634 | whatever the kernel delivers, the session and the lines put are a function of the bytes read: their records handled in order; nothing waits to be sent |
| Clients.RepliesReadBack | src/protocol/client.c:144-247 | the peer reads the replies back as they were put |
| Clients.ServeConnection | src/protocol/client.c:524-634 | from its creation on, the peer of a connection reads exactly the words that the requests among the bytes received call for, and the context and the rules are those of their settings and actions |

## Left out

- Fields that are null pointers (taken as empty ones) and the wrap-around of the unsigned field counter of a put.
- Sockets, polling, interrupted calls and file descriptors; the model of a read or a write is its answer.
- Clients.Client.ProcessInput: the connection stays open; being closed while serving is not modelled.
- Links.Link.Flush: a write always takes at least one byte in the end; write errors and waiting are not modelled.
- Links.Link.Putx: so a flush that fails, and the line lost by it, are not modelled either.
- Channel.EndToEnd: the sender puts whole records; sending field by field is covered by the class only.
- Allowing empty records is fixed for a run.
- Failing allocations, logging, and the printing of requests to the log.
- MustachText.TemplateRoundTrip: delimiters keep their default; a tag that changes them or includes a partial ends the run with a code of its own.
- MustachMachine.Process: callbacks and the output never fail, and the text put is not escaped for HTML.
- TemplateClient.TemplateMeansWhatItReads: the template comes from memory and its result goes to memory; errors of reading and closing files are not modelled.
- Clients.Client.DoDisplay: the items are first visited and then put, which the order of lines does not show.
- Character classes and case folding are those of the C locale.
- Database.Cynagora.SetPolicies: rules of other clients in the library, expiry and the wildcard matching of a drop are reduced to the rules of one label.
- Actions.Install: the back ends of the security module answer a number; the files they write are not modelled.
- The server's accept loop, the client library, the command line tools and the simulations: mostly plumbing.
