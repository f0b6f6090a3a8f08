# Universal Launcher kernel: a verified model

This project models the parts of the Universal Launcher kernel and client that keep state or that a format
depends on, and proves what they promise. `dafny verify dfyconfig.toml` checks all of it.

## What is modelled

**The session journal** (`runtime/launcher/kernel/ulk_session.c`). A directory is a map from file name to bytes. `JournalStore` says which files
count as records and proves the sorted scan to be the newest-first listing of them; `JournalDecision` holds the
decision a write takes on that scan; `JournalProtocol` is the write as a state machine of small steps (acquire, scan
and choose, write the temporary file, rename, scan again, delete one by one, release) for any number of clients, with
a crash or an error return possible at every step. `JournalSafety` proves the invariant step by step,
`JournalGuarantees` what follows over every run, `JournalLastRun` the lookup on a listing, legacy records included,
`JournalHistory` the refinement of the append-only admission log by the truncating store, `JournalIntact` and
`JournalRecovery` what no crash can take away and when a gap is closed for good, `JournalStretches` exactly when Last
Run is right after any number of them, `JournalLimits` the exact edges, and `JournalScenarios` (over `JournalReach`) the runs that lead to them.
`ScanFailure` settles why a scan fails. `JournalWriter` is the write itself, a class whose files change
in place and whose every change is shown to be a protocol step; `JournalReader` is the read side with the two-call
output; `JournalApi` adds input validation (`SessionRecord`, `RecordValidation`). The machine also keeps what no client
sees: the log of all admissions, how many of its newest entries are certain to be retained, where the retained part
starts, whether it may have a gap, and whether a retention pass was ever cut short or skipped.

**The record file.** `FieldCodec`, `DiskRecord` and `DiskBuffer` are the text format, its round trip and the parser
that splits its buffer in place; `Crc32` (over `LinearRegister` and `ByteBits`) is the CRC-32 of section 8 of RFC 1952
with its burst detection; `DiskDamage` turns that into what a damaged file parses to. `DiskFormat` hands the format to
the protocol, which is stated for any format that reads back what it writes.

**JSON.** `Json` is a reader by the grammar of RFC 8259 and a printer for documents, with the round trip between
them; `SessionJson` and `SessionOutput` are the rendered sessions, `CommandGraph`, `GraphRoom` and `JsonBuffer` the
command graph with its two passes.

**The command registry** (`runtime/launcher/kernel/ulk_api.c`). `CommandTable` is the ordered map with its overlay of built-in commands;
`Registry` and `RegistryContext` are the context object with its growing array, its ten copies an entry and the graph
it owns, over an allocator that may refuse anything (`Allocator`). Ownership is followed through one block chosen
arbitrarily before anything runs, so what is shown of it holds of each block. `Effects` and `Recognisers` are the
index scanners, each equal to its grammar.

**Owned responses** (`runtime/client/ulk_owned_response.c`), **setup projection** (`runtime/launcher/kernel/ulk_setup_handoff.c`) and **the reference graph** (`runtime/launcher/kernel/ulk_reference_model.c`) are `OwnedResponse`,
`SetupHandoff`, `ReferenceModel` and `References`. `Bytes`, `Runs`, `TextBuilder` and `StatusCodes` are shared.

## Where the code and its description part

- A first-version record has order 0, so completing it assigns a fresh order and moves it to the front, although
  `docs/architecture/session_journal.md` has a terminal replacement keep the original order
  (`JournalDecision.TransitionOrder` says exactly when it does).
- Views are measured with their NULs and stored up to the first one: an accepted record can be stored in a form that
  no longer validates (`SessionRecord.AcceptedStaysValid` says exactly when).
- A write can report an error after its commit: when the second scan or a deletion fails
  (`JournalWriter.Journal.Write`, outcomes NotVerified and NotPruned).
- A limit of 1024 lets a 1025th record be committed; no scan succeeds afterwards and nothing changes any more
  (`JournalScenarios.PastTheCap`, `JournalLimits.UnscannableForever`).
- Retention deletes from the cut towards the oldest, so a crash inside it can make Last Run answer with an admission
  older than one that was made later and deleted (`JournalScenarios.StaleLastRun`).
  `JournalStretches.RunLastRunDecided` says exactly when; runnables among the newest admissions are never affected
  (`JournalRecovery.RecentAdmissionsAnswer`), and the next pass that finishes within them mends the journal
  (`JournalRecovery.LastRunAfterMending`).
- The reason reported for an unreadable journal can depend on the order in which the directory is enumerated
  (`ScanFailure.ReasonIndependence` says exactly when).
- The reference graph judges a plan by revisions alone, the setup projection also by lifecycle and verification
  (`ReferenceModel.GraphVerdict`).
- A refused or failed operation on a reference that is not active reports fresh plans
  (`SetupHandoff.ReportOnInactiveReference`), and a completed one brings an archived reference back
  (`SetupHandoff.AcceptanceIgnoresLifecycle`).

## Model

| member | source | states |
|---|---|---|
| JournalStore.TempIsNotRecordName | runtime/launcher/kernel/ulk_session.c:544-573 | a temporary name never counts as a record name, whatever the session is called, so half-written files are never scanned and never collide with a record |
| JournalStore.TargetNameInjective | runtime/launcher/kernel/ulk_session.c:1102-1104 | two sessions never share a record file |
| JournalStore.ViewOfWrite | runtime/launcher/kernel/ulk_session.c:544-573 | renaming a printed record into place adds or replaces exactly that record in what the directory says |
| JournalStore.ViewOfDelete | runtime/launcher/kernel/ulk_session.c:1117-1128 | removing a file removes exactly its record |
| JournalStore.NewestFirstUnique | runtime/launcher/kernel/ulk_session.c:827-836 | two newest-first lists of the same records are the same list |
| JournalStore.LoadMeaning | runtime/launcher/kernel/ulk_session.c:810-825 | loading succeeds exactly when every record file is readable and there are at most 1024, and then reads each file once, in enumeration order |
| JournalStore.SortMeaning | runtime/launcher/kernel/ulk_session.c:827-836 | the sort permutes, and orders strictly when session ids differ |
| JournalStore.ScanIsListing | runtime/launcher/kernel/ulk_session.c:860-923 | on a sound store the scan succeeds exactly up to 1024 records and is then the newest-first listing of all of them |
| JournalStore.ScanOrderIndependent | runtime/launcher/kernel/ulk_session.c:860-923 | whether the scan succeeds never depends on the enumeration order, and neither does its result |
| ScanFailure.FailureCause | runtime/launcher/kernel/ulk_session.c:860-923 | every failure has its cause in the directory: a file of a later version, or a corrupt one or more readable records than the cap |
| ScanFailure.ReasonIndependence | runtime/launcher/kernel/ulk_session.c:903-921 | the reason a failing scan gives is the same for every enumeration if and only if there is not both a file of a later version and a corrupt one or more readable records than the cap |
| ScanFailure.UnscannableFails | runtime/launcher/kernel/ulk_session.c:860-923 | on any directory whatever, a scan fails if and only if some record file is unreadable or there are more than 1024 records |
| ScanFailure.TwoReasons | runtime/launcher/kernel/ulk_session.c:903-921 | with both kinds of cause, one enumeration reports incompatible and another corrupt |
| DiskFormat.ReasonCanDiffer | runtime/launcher/kernel/ulk_session.c:712-716 | so it happens in the actual format: an empty record file beside a sealed file of any later version |
| DiskFormat.ReasonDiffersOnDisk | runtime/launcher/kernel/ulk_session.c:712-716 | for instance beside one of the next version |
| SessionRecord.NewerTotal | runtime/launcher/kernel/ulk_session.c:827-836 | the comparator is a strict order, total on different session ids |
| SessionRecord.NewerTransitive | runtime/launcher/kernel/ulk_session.c:827-836 | the comparator is transitive |
| SessionRecord.AcceptedConverts | runtime/launcher/kernel/ulk_session.c:575-602 | every record the validator accepts is converted, and fits its buffers |
| SessionRecord.AcceptedStores | runtime/launcher/kernel/ulk_session.c:575-602 | what is stored is the accepted record with its free texts cut at their first NUL |
| SessionRecord.AcceptedStaysValid | runtime/launcher/kernel/ulk_session.c:947-979 | an accepted record can be rendered again if and only if no required text starts with a NUL |
| RecordValidation.ValidateRecord | runtime/launcher/kernel/ulk_session.c:989-1023 | the validator accepts exactly the stated condition |
| RecordValidation.ValidateResult | runtime/client/ulk_operation.c:126-181 | the result validator accepts exactly the stated condition, outcome class by outcome class |
| JournalDecision.DecideLoop | runtime/launcher/kernel/ulk_session.c:1063-1096 | the loop with its running maximum and inherited order computes the decision function |
| JournalDecision.DecideMeaning | runtime/launcher/kernel/ulk_session.c:1063-1096 | on a sound store: replay if and only if the content is already there; past every record if and only if the request is admissible; exhausted if and only if it is admissible, inherits no order and the largest order is the last one; a commit keeps the store sound |
| JournalDecision.RefusalMeaning | runtime/launcher/kernel/ulk_session.c:1063-1096 | each refusal reason if and only if the newest retained obstacle calls for it, or orders have run out |
| JournalDecision.OrderMeaning | runtime/launcher/kernel/ulk_session.c:1063-1096 | the order committed is the inherited one if the session has one, else one above the largest |
| JournalDecision.TransitionOrder | runtime/launcher/kernel/ulk_session.c:1085-1096 | a transition keeps the order of the record it completes if and only if that record has one; a legacy record (order 0) moves to the front |
| JournalProtocol.InitialInv | runtime/launcher/kernel/ulk_session.c:1025-1057 | a sound directory with nobody active satisfies the protocol invariant |
| JournalSafety.ChooseKeeps | runtime/launcher/kernel/ulk_session.c:1063-1105 | scanning, deciding and opening the temporary file keep the invariant and change no visible record |
| JournalSafety.WriteTempKeeps | runtime/launcher/kernel/ulk_session.c:544-562 | a partly written temporary file keeps the invariant and is invisible |
| JournalSafety.RenameKeeps | runtime/launcher/kernel/ulk_session.c:544-573 | the rename is the commit point: the invariant is kept and exactly the chosen record appears or is replaced |
| JournalSafety.RescanKeeps | runtime/launcher/kernel/ulk_session.c:1109-1117 | the second scan names distinct victims, never the newest record |
| JournalSafety.DeleteKeeps | runtime/launcher/kernel/ulk_session.c:1117-1128 | each deletion keeps the invariant and removes exactly one record, never the newest issued |
| JournalSafety.FailKeeps | runtime/launcher/kernel/ulk_session.c:1130-1139 | an error return at any point keeps the invariant and changes no visible record |
| JournalSafety.StepKeeps | runtime/launcher/kernel/ulk_session.c:1025-1139 | every step of any client, a crash included, keeps the invariant: readable store, unique ids, attempts and positive orders, one lock holder, an ascending admission log whose head is retained |
| Runs.RunKeeps | runtime/launcher/kernel/ulk_session.c:1025-1139 | what every step keeps holds after any run of steps |
| JournalGuarantees.RunSound | runtime/launcher/kernel/ulk_session.c:1025-1139 | every world reachable by any interleaving, failures and crashes included, is sound |
| JournalGuarantees.VisibleStep | runtime/launcher/kernel/ulk_session.c:544-573 | one step leaves the visible records, or adds or replaces the one being committed, or deletes one that has a full limit of newer records in front of it: nothing else |
| JournalGuarantees.RefusalIsQuiet | runtime/launcher/kernel/ulk_session.c:1063-1096 | a replayed or refused write leaves every file as it was |
| JournalGuarantees.RunEvolves | runtime/launcher/kernel/ulk_session.c:604-636 | while a session stays retained it changes at most from running to terminal, with identity, runnable, process and start fixed and its order kept if it had one; a terminal record never changes |
| JournalGuarantees.FreshOrder | runtime/launcher/kernel/ulk_session.c:1085-1096 | a fresh admission gets an order above every order ever issued, evicted ones included |
| JournalGuarantees.RunKeepsIssued | runtime/launcher/kernel/ulk_session.c:1085-1096 | an issued order stays issued for the rest of the run |
| JournalGuarantees.OrdersOnlyGrow | runtime/launcher/kernel/ulk_session.c:1063-1096 | over a whole run a later fresh admission exceeds every order issued earlier |
| JournalIntact.RunIntact | runtime/launcher/kernel/ulk_session.c:1117-1129 | in every reachable world, crashes included, the newest admissions counted as intact are retained |
| JournalIntact.NewestSurvive | runtime/launcher/kernel/ulk_session.c:1109-1129 | if every limit is at least n, the n newest admissions are retained in every reachable world, whatever was cut short |
| JournalHistory.RunExplained | runtime/launcher/kernel/ulk_session.c:1025-1139 | in every reachable world without a gap the issued records are those of a suffix of the admission log, and legacy records are left only while nothing of the log is missing; a finished pass within the intact entries closes a gap |
| JournalHistory.ListingIsSuffix | runtime/launcher/kernel/ulk_session.c:860-923 | between passes the listing is the newest-first view of that suffix, with legacy records at most behind the whole log |
| JournalLastRun.LastRunLoop | runtime/launcher/kernel/ulk_session.c:1185-1203 | the lookup loop returns the first listed record of the runnable |
| JournalLastRun.LastRunOfSuffix | runtime/launcher/kernel/ulk_session.c:1185-1203 | the newest match of a suffix is the newest match of the whole history |
| JournalHistory.LastRunIsMostRecent | runtime/launcher/kernel/ulk_session.c:1141-1208 | in every reachable world without a gap, between writes, Last Run is the most recent admission of the runnable ever made, or a legacy record if it was never admitted, or not found |
| JournalRecovery.RecentAdmissionsAnswer | runtime/launcher/kernel/ulk_session.c:1141-1208 | if every limit is at least n, Last Run is right in every reachable world for every runnable among the last n admissions, whatever was cut short and whether or not there are legacy records |
| JournalRecovery.LastRunUnlessCutShort | runtime/launcher/kernel/ulk_session.c:1117-1208 | from the start of a run, or from a pass that finishes within the intact entries, and until a pass is cut short, Last Run is right: a condition on what the clients do alone |
| JournalRecovery.RunUngapped | runtime/launcher/kernel/ulk_session.c:1117-1129 | without a pass cut short no gap ever opens |
| JournalRecovery.LastRunAfterMending | runtime/launcher/kernel/ulk_session.c:1109-1129 | a finished pass with a limit of at most the intact entries, or with every entry intact, makes the listing a suffix view and Last Run right again, whatever was cut short before |
| JournalRecovery.LastRunAfterPass | runtime/launcher/kernel/ulk_session.c:1109-1129 | so does, if every limit is at least n, every finished pass of limit at most n |
| JournalRecovery.GapHasCause | runtime/launcher/kernel/ulk_session.c:1117-1129 | a gap only ever comes from an error or a crash of the lock holder inside its pass |
| JournalRecovery.IssuedBeatsLegacy | runtime/launcher/kernel/ulk_session.c:827-836 | a match with an issued order beats every legacy match |
| JournalLimits.LastRunAcrossGap | runtime/launcher/kernel/ulk_session.c:1117-1129 | after a pass cut short with victims left over, Last Run is right if and only if no deleted admission of the runnable is newer than every kept one while older ones are left |
| JournalStretches.RunLastRunDecided | runtime/launcher/kernel/ulk_session.c:1141-1208 | in every reachable world, whatever was cut short and however often, Last Run is right if and only if the newest admission of the runnable is left, or no record of the runnable is left, or it was never admitted |
| JournalStretches.RunStretches | runtime/launcher/kernel/ulk_session.c:1109-1129 | besides a beginning, the log is missing at most as many stretches as passes were cut short, and one more while a pass is under way |
| JournalLimits.CutShort | runtime/launcher/kernel/ulk_session.c:1117-1129 | the step that ends the first such pass early, a crash or a failed deletion, leaves exactly that situation in a journal without legacy records |
| JournalScenarios.StaleLastRun | runtime/launcher/kernel/ulk_session.c:1117-1129 | two writes with limit two, one with limit one and a crash after its first deletion lead from an empty journal to a stale Last Run, whatever the three requests |
| JournalScenarios.StaleOnDisk | runtime/launcher/kernel/ulk_session.c:1117-1208 | the same with three actual requests, the actual record format and the scan of the lookup |
| JournalLimits.UnscannableIsStuck | runtime/launcher/kernel/ulk_session.c:860-923 | in a directory with an unreadable record file or more than 1024 records, and nothing in flight, no step touches a file |
| JournalLimits.UnscannableForever | runtime/launcher/kernel/ulk_session.c:860-923 | nor does any run of any clients, and no scan of it ever succeeds |
| JournalLimits.FreshCommitGrows | runtime/launcher/kernel/ulk_session.c:1109-1117 | a commit adds one record exactly when its session is new |
| JournalLimits.FullJournalOverflows | runtime/launcher/kernel/ulk_session.c:810-825 | a commit passes the cap if and only if the journal holds 1024 records and the session is new |
| JournalScenarios.PastTheCap | runtime/launcher/kernel/ulk_session.c:810-825 | a limit of 1024 and 1025 sessions lead from an empty journal to an idle one past the cap |
| JournalLimits.EveryScanFits | runtime/launcher/kernel/ulk_session.c:810-825 | with limits of at most 1023 and no pass skipped or cut short, every scan of a writer fits the cap |
| JournalWriter.ScanRecords | runtime/launcher/kernel/ulk_session.c:860-923 | the enumeration loop, in whatever order entries come, computes the scan function |
| JournalWriter.Journal.constructor | runtime/launcher/kernel/ulk_session.c:1025-1057 | a journal object starts as a run of length zero |
| JournalWriter.Journal.WriteAtomic | runtime/launcher/kernel/ulk_session.c:544-573 | write, flush, rename or clean up: committed exactly, or no visible change; each file change is a protocol step |
| JournalWriter.Journal.Prune | runtime/launcher/kernel/ulk_session.c:1117-1128 | the deletion loop removes the listed records from the cut on, up to the one where it stopped |
| JournalWriter.Journal.Retain | runtime/launcher/kernel/ulk_session.c:1109-1129 | rescan and retention after a commit: cut down to the newest, or not verified because over the cap, or stopped part of the way |
| JournalWriter.Journal.Write | runtime/launcher/kernel/ulk_session.c:1054-1139 | a whole write extends a run of the protocol and its outcome says what happened: done means replayed without touching a file, or committed and cut down to the limit; refused means untouched, for the reason given; not verified and not pruned mean committed all the same, the first exactly when 1024 records were there and the session was new; unreadable if and only if a record file is unreadable or there are more than 1024 records, whatever else the directory holds, with a reason the files give and every file untouched |
| JournalApi.WriteRecord | runtime/launcher/kernel/ulk_session.c:1025-1139 | refused before the lock exactly for an invalid record, root or limit; otherwise the whole write with the limit resolved (0 means 64), on an unreadable directory as well |
| JournalReader.CopyJson | runtime/launcher/kernel/ulk_session.c:925-945 | the size is reported whatever the buffer; null with 0 succeeds; a smaller buffer fails and is untouched; a large enough one receives the text and its terminator and nothing behind them changes |
| JournalReader.Lookup | runtime/launcher/kernel/ulk_session.c:1141-1208 | every lookup outcome with what it leaves in the output parameters and the buffer; a valid record is missed only after a refused allocation |
| JournalReader.FirstMatchIsSession | runtime/launcher/kernel/ulk_session.c:1185-1203 | Inspect finds the one retained record of a session, or there is none |
| JournalReader.FirstMatchIsLastRun | runtime/launcher/kernel/ulk_session.c:1223-1234 | Last Run is the lookup by runnable |
| JournalReader.LookupIsMostRecent | runtime/launcher/kernel/ulk_session.c:1141-1208 | the promise on Last Run, both halves, for the record format actually written: in every run none of whose passes is cut short, legacy records included |
| JournalReader.TwoCallsDeliver | runtime/launcher/kernel/ulk_session.c:925-945 | the size of the first call always suffices for the second, which then delivers a text that reads back as the record and leaves the rest of the buffer alone |
| JournalReader.ListSessions | runtime/launcher/kernel/ulk_session.c:1236-1290 | the list output is the printed list of the first records up to the limit, every one of them valid; otherwise an error and an untouched buffer, for an invalid record, a failed scan or a refused allocation |
| Crc32.ComputeChecksum | runtime/launcher/kernel/ulk_session.c:250-263 | the byte and bit loops compute the register function |
| Crc32.BitStepInjective | runtime/launcher/kernel/ulk_session.c:255-260 | the bit step is injective on 32-bit states |
| Crc32.BurstsDetected | runtime/launcher/kernel/ulk_session.c:250-263 | equal-length texts that differ only inside four consecutive bytes have different checksums |
| LinearRegister.FoldWindow | runtime/launcher/kernel/ulk_session.c:250-263 | a difference that is zero outside a window and leaves the register at zero leaves it at zero over the window alone |
| FieldCodec.HexBijection | runtime/launcher/kernel/ulk_session.c:265-286 | hex decoding accepts exactly the encodings of NUL-free strings that fit the buffer, and inverts encoding |
| FieldCodec.ParsePrintI64 | runtime/launcher/kernel/ulk_session.c:288-297 | every 64-bit integer is read back from its decimal print |
| FieldCodec.ParsePrintWord | runtime/launcher/kernel/ulk_session.c:666-676 | every checksum is read back from its eight digits |
| TextBuilder.Builder.Reserve | runtime/launcher/kernel/ulk_session.c:151-170 | growth keeps the text; a refused reallocation changes nothing a reader sees |
| TextBuilder.Builder.Append | runtime/launcher/kernel/ulk_session.c:172-184 | appends the text, or leaves it as it was for a refused allocation or an impossible size |
| TextBuilder.Builder.AppendHex | runtime/launcher/kernel/ulk_session.c:202-214 | appends the hex encoding, two digits a byte |
| DiskBuffer.SerializeInto | runtime/launcher/kernel/ulk_session.c:638-678 | the printed file is the specified one: fields, bars, checksum, newline; refused only without an order or for want of memory |
| DiskBuffer.SerializeStored | runtime/launcher/kernel/ulk_session.c:638-678 | a record that fits its buffers is printed if and only if it has an order and no allocation is refused |
| DiskBuffer.SplitInPlace | runtime/launcher/kernel/ulk_session.c:706-714 | overwriting the separators and keeping the starts yields exactly the split of the body |
| DiskBuffer.ParseInPlace | runtime/launcher/kernel/ulk_session.c:680-746 | parsing by in-place splitting returns what the parse function returns, for every file |
| DiskRecord.ParseSerialize | runtime/launcher/kernel/ulk_session.c:638-746 | a printed record parses back to the same record, for every record within its capacities with a positive order |
| DiskRecord.ParseSerializeLegacy | runtime/launcher/kernel/ulk_session.c:715-746 | the first-version layout of a record parses to the same record with order 0 |
| DiskDamage.SerializedFits | runtime/launcher/kernel/ulk_session.c:516-542 | every printed record is below the size a read refuses |
| DiskDamage.ByteDamage | runtime/launcher/kernel/ulk_session.c:680-746 | changing any one byte of a record file to any other byte is corrupt, or reads as the identical record |
| DiskDamage.BurstDamage | runtime/launcher/kernel/ulk_session.c:680-746 | changing up to four neighbouring bytes before the last bar without introducing a NUL is always corrupt |
| DiskFormat.V2ReadsBack | runtime/launcher/kernel/ulk_session.c:638-746 | the format the journal writes meets the condition all protocol results rest on |
| Json.ReadEscaped | runtime/launcher/kernel/ulk_session.c:216-248 | a printed string, read by section 7 of RFC 8259, is the string, whatever bytes it holds |
| Json.PrintDenotes | runtime/launcher/kernel/ulk_session.c:748-808 | any printed document denotes its value wherever it stands in a JSON text (RFC 8259), whatever its strings, numbers and nesting |
| Json.ParsePrinted | runtime/launcher/kernel/ulk_session.c:748-808 | printing then parsing gives the value back |
| SessionOutput.AppendJsonString | runtime/launcher/kernel/ulk_session.c:216-248 | the escaping loop appends the quoted string, or fails for a refused allocation or an impossible size |
| SessionOutput.AppendDoc | runtime/launcher/kernel/ulk_session.c:748-808 | the renderer appends exactly the printed document, or fails for a refused allocation or an impossible size |
| SessionJson.RecordTextBound | runtime/launcher/kernel/ulk_session.c:748-808 | no valid record prints to an impossible size |
| SessionJson.RecordReadsBack | runtime/launcher/kernel/ulk_session.c:748-808 | a rendered record is well-formed JSON and reads back as its document |
| SessionJson.ListReadsBack | runtime/launcher/kernel/ulk_session.c:1271-1281 | a rendered list is well-formed JSON and reads back as its document |
| SessionJson.TextDeterminesRecord | runtime/launcher/kernel/ulk_session.c:748-808 | two valid records render alike if and only if they agree in everything visible: all but order, unknown exit code and the result of a running session |
| Recognisers.ScanIdentifier | runtime/client/ulk_operation.c:13-55 | accepts exactly the identifiers |
| Recognisers.ScanCommandName | runtime/client/ulk_operation.c:57-98 | the flag scanner accepts exactly dotted names of at least two segments, each starting with a letter |
| Recognisers.ScanRelativePath | runtime/launcher/kernel/ulk_product_composition.c:68-87 | accepts exactly relative paths whose slash-split has no dot-dot segment |
| Recognisers.ScanText | runtime/launcher/kernel/ulk_api.c:185-197 | accepts exactly 1 to 4096 bytes without NUL |
| Recognisers.ScanCanonicalCommandId | runtime/launcher/kernel/ulk_api.c:199-229 | the flag scanner accepts exactly dotted ids of at least two non-empty segments, minus the two aliases |
| Effects.ScanTurn | runtime/launcher/kernel/ulk_api.c:255-285 | one turn of the scan agrees with the grammar: more after a comma, an end after the bracket, or no list |
| Effects.ScanEffects | runtime/launcher/kernel/ulk_api.c:242-289 | the index scanner accepts exactly the texts the effects grammar derives |
| Effects.EffectsDenote | runtime/launcher/kernel/ulk_api.c:242-289 | an accepted effects text, embedded as it is, is a JSON array of its tokens |
| Effects.EffectsUnique | runtime/launcher/kernel/ulk_api.c:242-289 | the text determines its tokens |
| CommandTable.Registered | runtime/launcher/kernel/ulk_api.c:458-531 | registering adds one binding at the end and changes no other lookup |
| CommandTable.Unregistered | runtime/launcher/kernel/ulk_api.c:1045-1075 | unregistering removes one binding, keeps the order and changes no other lookup |
| CommandTable.RegisterUnregister | runtime/launcher/kernel/ulk_api.c:1045-1075 | register then unregister restores the same sequence |
| CommandTable.BuiltinNamesDiffer | runtime/launcher/kernel/ulk_api.c:80-148 | the eleven built-in names differ |
| CommandTable.EntryDescribes | runtime/launcher/kernel/ulk_api.c:707-803 | every graph entry carries the metadata of what dispatch would run under its name |
| CommandTable.EntriesDiffer | runtime/launcher/kernel/ulk_api.c:707-803 | no command is listed twice |
| CommandTable.ListedIffDispatched | runtime/launcher/kernel/ulk_api.c:939-979 | a name is listed if and only if it dispatches |
| CommandGraph.GraphReadsBack | runtime/launcher/kernel/ulk_api.c:624-657 | the graph text is well-formed JSON and decodes to exactly the entries printed, raw effects included |
| CommandGraph.GraphTellsTable | runtime/launcher/kernel/ulk_api.c:707-803 | this holds for every registry content the validators admit |
| GraphRoom.EntryFits | runtime/launcher/kernel/ulk_api.c:669-700 | one entry and its comma fit the room the first pass sets aside for it |
| GraphRoom.GraphFits | runtime/launcher/kernel/ulk_api.c:707-803 | the computed capacity exceeds the printed length, for any entries |
| GraphRoom.SameTexts | runtime/launcher/kernel/ulk_api.c:669-700 | both passes cover the same eleven texts |
| JsonBuffer.Buffer.AppendChar | runtime/launcher/kernel/ulk_api.c:565-573 | succeeds exactly when the character still fits |
| JsonBuffer.Buffer.AppendRaw | runtime/launcher/kernel/ulk_api.c:553-563 | succeeds exactly when the text still fits |
| JsonBuffer.Buffer.AppendString | runtime/launcher/kernel/ulk_api.c:575-611 | succeeds exactly when the quoted string still fits, and then appended it |
| JsonBuffer.Buffer.AppendMetadata | runtime/launcher/kernel/ulk_api.c:624-657 | succeeds exactly when the entry still fits, and then appended it |
| Registry.DoubledMeaning | runtime/launcher/kernel/ulk_api.c:420-441 | growth reaches what is required, stays within the budget and below twice the requirement |
| Registry.ValidateDescriptor | runtime/launcher/kernel/ulk_api.c:476-492 | the descriptor checks accept exactly the stated condition |
| Registry.CapacityAddMetadata | runtime/launcher/kernel/ulk_api.c:669-700 | fails exactly when the true sum does not fit a size |
| Registry.CapacityOf | runtime/launcher/kernel/ulk_api.c:715-743 | the first pass computes the capacity, failing exactly on overflow |
| Registry.CapacityBound | runtime/launcher/kernel/ulk_api.c:396-441 | no table within the storage budget makes the capacity overflow |
| Registry.PrintGraph | runtime/launcher/kernel/ulk_api.c:745-800 | with the computed capacity no append fails and the buffer holds the graph text |
| Allocator.Heap.Free | runtime/launcher/kernel/ulk_api.c:349-355 | a block may be freed only while live (for one block chosen arbitrarily in advance, hence for each) |
| RegistryContext.Context.constructor | runtime/launcher/kernel/ulk_api.c:898-937 | a new context is empty and owns only its own block |
| RegistryContext.Context.EnsureCapacity | runtime/launcher/kernel/ulk_api.c:401-456 | refuses exactly above the limit, fails exactly when the allocator does, otherwise grows by the doubling rule; entries untouched |
| RegistryContext.Context.FindRegistered | runtime/launcher/kernel/ulk_api.c:318-336 | finds the entry with the name, if any |
| RegistryContext.Context.CopyTexts | runtime/launcher/kernel/ulk_api.c:498-525 | all ten copies, or none kept |
| RegistryContext.Context.Register | runtime/launcher/kernel/ulk_api.c:458-531 | appends; or invalid exactly when the registration is not admissible; or an error exactly when the allocator refused, with entries and graph as before; every block owned once throughout |
| RegistryContext.Context.CloseGap | runtime/launcher/kernel/ulk_api.c:1060-1069 | the shift loop removes one entry and clears the last slot |
| RegistryContext.Context.Unregister | runtime/launcher/kernel/ulk_api.c:1045-1075 | removes exactly the named entry, or nothing |
| RegistryContext.Context.Resolve | runtime/launcher/kernel/ulk_api.c:939-979 | an empty name is refused; dispatch goes to the registered handler, else the built-in, else unsupported |
| RegistryContext.Context.ListEntries | runtime/launcher/kernel/ulk_api.c:767-793 | the two overlay loops list the entries |
| RegistryContext.Context.InspectGraph | runtime/launcher/kernel/ulk_api.c:707-803 | the graph is the text of the current table unless the allocator refused; nothing else can fail |
| RegistryContext.Context.Destroy | runtime/launcher/kernel/ulk_api.c:1082-1104 | every block of the context is freed, none twice |
| RegistryContext.Create | runtime/launcher/kernel/ulk_api.c:898-937 | a context, or none exactly when the allocator refused |
| RegistryContext.Life | runtime/launcher/kernel/ulk_api.c:898-1104 | over any run of requests between creation and destruction, with any refusals, nothing leaks |
| OwnedResponse.CheckedTotal | runtime/client/ulk_owned_response.c:65-76 | the checked additions give the true sum, or fail exactly when it does not fit |
| OwnedResponse.FillStorage | runtime/client/ulk_owned_response.c:172-193 | the moving cursor writes the three texts one after another |
| OwnedResponse.Owned.Copy | runtime/client/ulk_owned_response.c:117-217 | succeeds exactly on a free destination, valid inputs, a sum within limit and size, and a granted block; then the three views tile the block with the source bytes and the selected callbacks are kept; otherwise cleared, or untouched if it held storage |
| OwnedResponse.Owned.Release | runtime/client/ulk_owned_response.c:269-283 | frees what is held, clears, and does nothing the second time |
| OwnedResponse.Run | runtime/client/ulk_owned_response.c:117-283 | over any run of copies and releases live blocks equal owners holding storage |
| SetupHandoff.ValidateRequest | runtime/launcher/kernel/ulk_setup_handoff.c:155-183 | accepted exactly when the request carries every identity of a valid reviewed plan, invalid exactly when plan or request is malformed, an error otherwise |
| SetupHandoff.RefreshRecord.Project | runtime/launcher/kernel/ulk_setup_handoff.c:185-271 | status and refresh for every plan, reference and result; a late refusal leaves the structure reset |
| SetupHandoff.LaunchPlanStatus | runtime/launcher/kernel/ulk_setup_handoff.c:273-295 | fresh exactly for an active reference with the bound id, revision and verification |
| SetupHandoff.ReportedStatusIsPlanStatus | runtime/launcher/kernel/ulk_setup_handoff.c:185-295 | for every binding that was fresh, the reported status is its status against the projected reference |
| SetupHandoff.ReportOnInactiveReference | runtime/launcher/kernel/ulk_setup_handoff.c:202-223 | on a reference that was not active the report is right if and only if the result was completed or recovery-required |
| SetupHandoff.AcceptanceIgnoresLifecycle | runtime/launcher/kernel/ulk_setup_handoff.c:185-200 | acceptance does not look at the lifecycle: an archived reference can come back |
| SetupHandoff.CreationIsManaged | runtime/launcher/kernel/ulk_setup_handoff.c:244-271 | a created reference is valid, active and managed |
| SetupHandoff.ProjectionKeepsIdentity | runtime/launcher/kernel/ulk_setup_handoff.c:185-271 | one accepted projection keeps install id, product, exact version and managed ownership |
| SetupHandoff.HistoryKeepsIdentity | runtime/launcher/kernel/ulk_setup_handoff.c:185-271 | so does any sequence of them |
| ReferenceModel.Validation.Validate | runtime/launcher/kernel/ulk_reference_model.c:219-319 | the first issue in order of precedence, and the plan status of a valid graph |
| ReferenceModel.ProjectionKeepsGraph | runtime/launcher/kernel/ulk_reference_model.c:219-319 | putting the projected reference into a valid graph leaves it valid |
| ReferenceModel.HistoryKeepsGraph | runtime/launcher/kernel/ulk_reference_model.c:219-319 | so does any history of projections |
| ReferenceModel.GraphVerdict | runtime/launcher/kernel/ulk_reference_model.c:303-319 | the graph verdict on a fresh plan equals the reported status if and only if the revision alone does not mislead: recovery, uninstall, or a new verification under the old revision |
| ReferenceModel.GraphErrsTowardsFresh | runtime/launcher/kernel/ulk_reference_model.c:303-319 | where they differ the graph says fresh of a plan reported stale, never the reverse |

## Left out

- Operating system calls: file handles, flushing, locks, paths and reparse checks are not modelled; the model assumes an atomic rename and an exclusive lock that a crash releases, and lets every write, rename, removal and allocation on the write path fail.
- Directories whose readable records contradict each other (two of one attempt, two of one order, one under another session's name): no run from a sound directory leads to one, and a write into one is not modelled.
- Failing reads: a scan fails in the model for an unreadable record or the cap, not for a refused allocation or a read error.
- Readers as protocol steps: lookups and lists change nothing and hold the lock, so they are methods over the files of a world rather than actions of the machine.
- FieldCodec.ParsePrintI64: the parsers model leading blanks, signs and the hex prefix as far as the corruption results need them, with a 64-bit unsigned long.
- Json.ParsePrinted: the reader takes a numeric escape only below 0x80 and does not check that bytes from 0x80 up form UTF-8, because neither printer does.
- SessionOutput.AppendDoc: member names and fixed punctuation are appended member by member where the source appends longer literals; the text is the same, the number of appends is not.
- RegistryContext.Context.Resolve: handlers are opaque and are not run; the fixed payloads of the built-in commands are not modelled.
- RegistryContext.Context.Destroy: the order in which the ten texts of an entry are freed is not modelled.
- OwnedResponse.Owned.Copy: default and custom allocators share one account of blocks here.
- Structure sizes and null pointers: taken as given, except where a null view or a missing record decides a result.
- Product composition: only its relative-path recogniser is modelled; its other validators are conjunctions of field checks.
- Name-lookup functions, status codes and messages, the Python tools, schemas and TOML records.
