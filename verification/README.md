# Native CSM VGA Selector: a verified model

Native CSM VGA Selector is a UEFI application that hands a legacy boot to a
secondary GPU. On the way it rewrites state it does not own: the BBS boot
priorities, VGA forwarding bits of PCI bridges, the configuration directory and a
menu marker. Each rewrite must either finish or be put back. This project models
those rewrites in Dafny, together with the parsers and checkers that guard them,
and proves what they keep over every input, every run and every failure.

Verify everything with `dafny verify dfyconfig.toml`.

## Components

- `PriorityPlan.dfy`, `PriorityTransaction.dfy`: the planner of BBS boot priorities
  and the journaled transaction that applies and rolls back a plan
  (`LegacyBootTarget.c`, `LegacyBootPolicy.inc`).
- `PathClassification.dfy`, `RouteTransfer.dfy`, `RoutePaths.dfy`: splitting two
  bridge paths, moving and restoring the VGA route, and the whole way from the
  inventory to the routed registers (`RuntimePlan.c`, `NativeCsmVgaBoot.c`).
- `ConfigVolume.dfy`, `ConfigRecovery.dfy`, `ConfigTorn.dfy`, `ConfigSave.dfy`,
  `ConfigGenerate.dfy`: file operations with crashes, the verified save, recovery,
  the archive of failed configurations and first-run generation (`ConfigFile.c`,
  `ConfigRecovery.c`, `ProbeConfig.c`).
- `IniText.dfy`, `IniParser.dfy`, `IniLines.dfy`: the strict parser
  (`CandidateIni.c`, `MarkerConfig.h`).
- `IniPrint.dfy`, `IniPrintExact.dfy`, `IniSpelling.dfy`: a printer for whole
  configurations that does not use the parser, the round trip through both, and
  exactly which keys, values and configurations the parser accepts.
- `IniEdit.dfy`, `IniEditCommutes.dfy`, `IniEditExact.dfy`, `IniEditCondition.dfy`,
  `IniReturns.dfy`: the in-place editor (`ConfigEdit.c`), exactly when it commutes
  with parsing, and a text for which it does not.
- `IniFormat.dfy`, `IniFormatMeaning.dfy`, `IniWriter.dfy`: the text of the candidate
  INI, its size and its meaning, and the code that writes it (`CandidateIni.c`).
- `MemoryMap.dfy`: the memory-range checker (`MemoryMap.c`).
- `OptionRom.dfy`: the option-ROM chain parser (`OptionRom.c`).
- `BridgePath.dfy`: the two bridge-path builders (`PciEnumerate.c`).
- `Handoff.dfy`: countdown, marker and the retry loop (`BootCountdown.c`,
  `Marker.c`, `NativeCsmVgaSelector.c`, the frame of `NativeCsmVgaBoot.c`).
- `Utf8.dfy`: the UTF-16 to UTF-8 encoder (`Log.c`).
- `Basics.dfy`: shared types.

## The environment

What the application cannot control is nondeterministic.

- BBS table. A log call, flush or firmware check may fail at every call, and the
  table may change by itself during one. A store may misbehave and leave any table
  behind. Ghost counters (`memoryFaults`, `callFaults`) and the ghost flag
  `disturbed` record this, so each claim names what it tolerates.
- Registers. A write may fail or leave any value; `faults` counts such events.
- Files. `Volume.images` collects every directory image that a crash could leave. A
  write may be torn into any bytes that are no longer than the text; deletes and
  renames are atomic; the status of a write, delete or rename is not believed, since
  it may report failure after taking effect or success without effect. After a failed
  rename the open file is deleted wherever it is by then. Reads are honest but may
  fail. The ghost counter `faults` counts every failure and every false report, so
  claims can also say what succeeds when nothing misbehaves.
- Keys, timers and all other foreign calls return any status.

Three properties hold only under a condition, and each has its exact condition and
an input that fails it.

- The parser accepts a generated text exactly when the two selected addresses differ
  (`IniFormatMeaning.FormatParseRoundTrip`).
- Editing commutes with parsing exactly on the editable texts
  (`IniEditCondition.EditCommutesIffEditable`): those for which the editor finds every
  target, and inserts a missing description only inside what the parser takes for
  `[Boot]` and only if the parser has none. This depends on the text alone. Texts with
  carriage returns only at line ends are always editable;
  `IniReturns.InnerReturnBreaksEditing` gives one that is not. The save needs none of
  this: it accepts an edit exactly if only the targets change.
- After a crash inside recovery the same bytes are recovered exactly when the torn
  active file is unusable or already complete (`ConfigRecovery.RecoveryCanBeRepeated`);
  `ConfigTorn.TornRecoveryDiffers` gives a torn file that is usable.

## Model

| member | source | states |
|---|---|---|
| PriorityPlan.BuildPriorityPlan | NativeCsmVgaSelectorPkg/Application/LegacyBootTarget.c:2226-2359 | Succeeds exactly when the selected row is eligible, a usable order ranks every eligible row and no protected row holds priority 0, each error having its own exact condition; the result is the plan `IsPlan` and the expected priorities are the journal. The priority-exhaustion branch is unreachable. |
| PriorityPlan.RankPass | NativeCsmVgaSelectorPkg/Application/LegacyBootTarget.c:2284-2340 | One pass extends a partial plan by exactly the rows of its class, in order; it fails only if some eligible row has no rank. |
| PriorityPlan.FindBest | NativeCsmVgaSelectorPkg/Application/LegacyBootTarget.c:2286-2328 | The row found precedes every other unranked row of the pass. |
| PriorityPlan.PlanGuarantees | NativeCsmVgaSelectorPkg/Application/LegacyBootTarget.c:2226-2359 | A plan gives priority 0 to the selected disk alone; eligible rows get exactly 0..k-1 without repeats, ordered by `Precedes`; all other rows keep their journal value. |
| PriorityPlan.RankFollowsOrder | NativeCsmVgaSelectorPkg/Application/LegacyBootTarget.c:2284-2340 | Ranks order rows exactly as the class and key order does, and are distinct. |
| PriorityPlan.RanksAreDense | NativeCsmVgaSelectorPkg/Application/LegacyBootTarget.c:2284-2340 | Every rank below the number of eligible rows is taken. |
| PriorityTransaction.ReverseReplayRestores | NativeCsmVgaSelectorPkg/Application/LegacyBootTarget.c:3369-3598 | Replaying a history rooted in the journal backwards gives the journal priorities, from any intermediate priorities. |
| PriorityTransaction.BootTarget.VerifyLive | NativeCsmVgaSelectorPkg/Application/LegacyBootTarget.c:2489-2668 | Success means the whole live table is the journal with the given priorities; without a fault a matching table is accepted. |
| PriorityTransaction.BootTarget.JournalAndValidate | NativeCsmVgaSelectorPkg/Application/LegacyBootTarget.c:2686-2998 | Success captures the table as the journal, with a plan that follows the arguments: rows are eligible exactly as the policy says of the captured rows, the evidence and the order, kept rows keep their priority byte for byte, and the others rank by boot class and LegacyDevOrder; without a fault it succeeds exactly on a first call over an unchanged table that can be planned; a second call is refused and keeps the journal. |
| PriorityPlan.PolicyPlanFollows | NativeCsmVgaSelectorPkg/Application/LegacyBootPolicy.inc:33-108 | Whatever plan the planner makes of the policy, told without either: the rows that must be kept (disabled, suppressed, of another type) keep their priority, the selected disk gets 0, and the rest are numbered densely in their order. |
| PriorityPlan.PolicyCanPlan | NativeCsmVgaSelectorPkg/Application/LegacyBootTarget.c:2226-2359 | A plan exists exactly when the selected row is a hard disk with status flags or corroborating evidence, a usable order ranks every row that may move, and no kept row holds priority 0. |
| PriorityTransaction.BootTarget.ValidateOriginal | NativeCsmVgaSelectorPkg/Application/LegacyBootTarget.c:3000-3037 | Success means the context is clean and an undisturbed table is the journal. |
| PriorityTransaction.BootTarget.WritePriority | NativeCsmVgaSelectorPkg/Application/LegacyBootTarget.c:3184-3367 | At most one record per call, written before the store; success updates the expected priorities at one index; the history guard is unreachable; the live table keeps matching the expected priorities unless memory misbehaves. |
| PriorityTransaction.BootTarget.UndoRecord | NativeCsmVgaSelectorPkg/Application/LegacyBootTarget.c:3412-3551 | Undoing record k moves the table from undone-to-k+1 to undone-to-k whatever is logged, and never turns an overall failure into success. |
| PriorityTransaction.BootTarget.RollbackInternal | NativeCsmVgaSelectorPkg/Application/LegacyBootTarget.c:3369-3598 | If identities are intact and stores stick, the table ends at the journal even if every log call fails, and also after an earlier failed rollback; flags and history are cleared only on success. |
| PriorityTransaction.BootTarget.ValidateApplied | NativeCsmVgaSelectorPkg/Application/LegacyBootTarget.c:3039-3125 | Success means applied and every priority as planned with every other byte unchanged; its own zero-priority guards are unreachable. |
| PriorityTransaction.BootTarget.FindPlanned | NativeCsmVgaSelectorPkg/Application/LegacyBootTarget.c:3693-3713 | Density makes the search for the next planned priority always succeed. |
| PriorityTransaction.BootTarget.Unprioritize | NativeCsmVgaSelectorPkg/Application/LegacyBootTarget.c:3659-3681 | After phase one every eligible row is expected unprioritized, with at most one record per row. |
| PriorityTransaction.BootTarget.AssignRanks | NativeCsmVgaSelectorPkg/Application/LegacyBootTarget.c:3683-3715 | After phase two the expected priorities are the plan and at least one write was recorded; the history stays within 512 records. |
| PriorityTransaction.BootTarget.Apply | NativeCsmVgaSelectorPkg/Application/LegacyBootTarget.c:3600-3762 | Success means the plan is live and no other byte changed; a second apply is refused; whatever call fails, a failed first apply is rolled back: if stores stick and the range check lets the replay start, the table is the journal again; only the environment can make a first apply fail. |
| PriorityTransaction.BootTarget.Rollback | NativeCsmVgaSelectorPkg/Application/LegacyBootTarget.c:3764-3784 | Success means clean, unapplied and back at the journal; a tracked table with no faults always rolls back. |
| PriorityTransaction.BootTarget.Release | NativeCsmVgaSelectorPkg/Application/LegacyBootTarget.c:3786-3856 | Refused exactly while the context is dirty or has history; a release means an undisturbed table is the journal. |
| PriorityTransaction.AnyRun | NativeCsmVgaSelectorPkg/Application/LegacyBootTarget.c:3600-3800 | Over any sequence of operations in any order with any environment: dirty exactly when there is history, and a clean context means an undisturbed table is byte-identical to the journal. |
| PathClassification.Classify | NativeCsmVgaSelectorPkg/Application/RuntimePlan.c:508-653 | Shared is the longest common prefix, each path is shared followed by its exclusive part, both exclusive parts are disjoint; the two failures happen exactly on differing journals and on rejoining paths. |
| PathClassification.PartsAreDisjoint | NativeCsmVgaSelectorPkg/Application/RuntimePlan.c:415-431 | For duplicate-free paths the three parts are pairwise disjoint, so no bridge the target needs is disabled. |
| RouteTransfer.RoutePlan.RoutePart | NativeCsmVgaSelectorPkg/Application/NativeCsmVgaBoot.c:280-379 | Routes one part bridge by bridge with read-back, marking each attempt before its write; nothing outside the part changes. |
| RouteTransfer.RoutePlan.RouteApply | NativeCsmVgaSelectorPkg/Application/NativeCsmVgaBoot.c:414-562 | Success leaves forwarding off on the active-exclusive bridges and on along the target path, and the command register as required; any failure leaves a restorable plan. |
| RouteTransfer.RoutePlan.RouteEndpoint | NativeCsmVgaSelectorPkg/Application/NativeCsmVgaBoot.c:500-562 | Success means the non-Ignore command bits have their policy values and all others are unchanged. |
| RouteTransfer.RoutePlan.RestorePart | NativeCsmVgaSelectorPkg/Application/NativeCsmVgaBoot.c:639-735 | Restores the attempted bridges of a part in reverse order; success leaves none attempted. |
| RouteTransfer.RoutePlan.RouteRestore | NativeCsmVgaSelectorPkg/Application/NativeCsmVgaBoot.c:597-750 | From any failed prefix, a clear dirty flag means every journaled register holds its original value; without faults the flag clears. |
| RouteTransfer.RoutePlan.Release | NativeCsmVgaSelectorPkg/Application/RuntimePlan.c:1280-1302 | Refused exactly while dirty or with an applied endpoint write; otherwise every register is original, and success of all releases means the plan is cleared. |
| RoutePaths.CommonBridge | NativeCsmVgaSelectorPkg/Application/RuntimePlan.c:567-610 | A bridge on both strict paths has the same place on both, and everything above it is shared. |
| RoutePaths.StrictPathsDoNotRejoin | NativeCsmVgaSelectorPkg/Application/RuntimePlan.c:587-617 | Over distinct bridges the exit for paths that rejoin is unreachable. |
| RoutePaths.SharedJournalsAgree | NativeCsmVgaSelectorPkg/Application/RuntimePlan.c:574-578 | Journals that match the snapshot never differ on a shared bridge, so that exit is unreachable too. |
| RoutePaths.CopyAndJournal | NativeCsmVgaSelectorPkg/Application/RuntimePlan.c:433-506 | Succeeds, unless a read fails, exactly when the registers hold the snapshot of the path, and then the journal is that snapshot. |
| RoutePaths.StrictPathIsUnique | NativeCsmVgaSelectorPkg/Application/PciEnumerate.c:1533-1599 | Over distinct device paths a display has only one strict path. |
| RoutePaths.BuildAndClassify | NativeCsmVgaSelectorPkg/Application/RuntimePlan.c:508-653 | Success gives the parts of the two strict paths, without a repeated bridge, and no bridge the target needs among those to be disabled; a rejoining path is never reported for distinct bridges; over distinct device paths and without a failed read it succeeds exactly when both paths are cross-checked, have at most 16 bridges and are as the inventory recorded them. |
| RoutePaths.PlanAndTransfer | NativeCsmVgaSelectorPkg/Application/NativeCsmVgaBoot.c:882-886 | From the inventory to the registers: success turns VGA on for every ancestor of the target, off for those only the active display has, and changes no other bit of any bridge; a failed transfer is restored at once: unless the restoration itself meets a fault, no register has changed; a plan is made exactly when one can be made, and without a register fault it is carried out. |
| ConfigVolume.Volume.ReadFile | NativeCsmVgaSelectorPkg/Application/ConfigFile.c:12-92 | Success gives exactly the bytes of a file of at most 65536; without a fault each status has its exact cause. |
| ConfigVolume.Volume.DeleteIfPresent | NativeCsmVgaSelectorPkg/Application/ConfigFile.c:127-163 | Success means the name is gone; every image has the file whole or not at all. |
| ConfigVolume.Volume.Fill | NativeCsmVgaSelectorPkg/Application/ConfigFile.c:165-221 | Create, write and read-back: success means the new file holds exactly the text; no image differs in any other name. |
| ConfigVolume.Volume.Rename | NativeCsmVgaSelectorPkg/Application/ConfigFile.c:223-298 | Atomic; the file is afterwards under exactly one of the two names. |
| ConfigVolume.Volume.CreateVerifiedCopy | NativeCsmVgaSelectorPkg/Application/ConfigFile.c:300-405 | Success adds an exact copy under a new name; an existing file is never overwritten; no image differs in any other name. |
| ConfigVolume.Volume.RestoreRollback | NativeCsmVgaSelectorPkg/Application/ConfigFile.c:407-497 | Success makes the target equal to the copy; no image differs outside the target, so the copy survives every crash. |
| ConfigVolume.Volume.Displace | NativeCsmVgaSelectorPkg/Application/ConfigFile.c:591-609 | In every image the old content is in the target or, once the target is gone, in its verified copy. |
| ConfigVolume.Volume.Publish | NativeCsmVgaSelectorPkg/Application/ConfigFile.c:611-632 | Rename with cleanup: success moves the text to the target; every image is before, renamed, or without the open file. |
| ConfigVolume.Volume.WriteViaTemp | NativeCsmVgaSelectorPkg/Application/ConfigFile.c:499-634 | Success gives the exact new directory; in every image the target is old, new, or absent with its old content in the rollback copy, a target that may not be replaced is untouched, and no other name changes; only a fault or a refused request (`MaySave`) makes it fail. |
| ConfigRecovery.ReadUsable | NativeCsmVgaSelectorPkg/Application/ConfigRecovery.c:31-59 | Succeeds only on a file that parses, states its mode and is complete for it, and without a fault on exactly those. |
| ConfigRecovery.LoadRecoverable | NativeCsmVgaSelectorPkg/Application/ConfigRecovery.c:61-95 | Loads what the image stands for (the first usable of active, previous, temporary); only the active file is ever written, so the recovery source is unchanged in every image; first-run status only if none of the three files exists; without a fault everything recoverable is recovered unless the user declines. |
| ConfigRecovery.RecoveryCanBeRepeated | NativeCsmVgaSelectorPkg/Application/ConfigRecovery.c:61-95 | After a crash inside recovery, recovery loads the same bytes again exactly when the torn active file is not usable by itself or already is the source. |
| ConfigTorn.TornRecoveryDiffers | NativeCsmVgaSelectorPkg/Application/ConfigFile.c:407-497 | A torn restoration, a proper prefix of its source, that is usable by itself: the next recovery loads other bytes. |
| ConfigRecovery.FreeNumber | NativeCsmVgaSelectorPkg/Application/ConfigRecovery.c:107-113 | The archive number found is unused; failure means all 99 are used. |
| ConfigRecovery.ArchiveAll | NativeCsmVgaSelectorPkg/Application/ConfigRecovery.c:102-118 | In every image everything that existed is unchanged and only archives are added; success archives all present files. |
| ConfigRecovery.PreserveFailedConfigs | NativeCsmVgaSelectorPkg/Application/ConfigRecovery.c:97-127 | In every image each original content is under its own name, or every one of them is archived under a fresh name; other files and earlier archives never change; success frees the three names; only a fault, an unreadable file or 99 used archive names make it fail. |
| ConfigSave.VerifyComplete | NativeCsmVgaSelectorPkg/Application/ProbeConfig.c:408-458 | Succeeds exactly on texts that parse to a boot-ready configuration with the chosen targets. |
| ConfigSave.EditText | NativeCsmVgaSelectorPkg/Application/ProbeConfig.c:471-483 | Succeeds exactly when the edit exists and fits, and gives that text, for any address record. |
| ConfigSave.ReplaceActive | NativeCsmVgaSelectorPkg/Application/ProbeConfig.c:486-498 | Every image recovers to exactly the old or exactly the new bytes and changes only the three configuration names; success leaves the new text active and the old one as previous. |
| ConfigSave.SaveEditedTargets | NativeCsmVgaSelectorPkg/Application/ProbeConfig.c:460-508 | From a usable configuration every image recovers to the old text or its edit; success leaves the edit active, which means the old configuration with exactly the three targets replaced whatever the text looks like, and the old text as previous; from an unusable one nothing changes; only a fault makes a save with a correct edit fail. |
| ConfigSave.TargetsAreValid | NativeCsmVgaSelectorPkg/Application/ProbeConfig.c:408-458 | Only addresses the format can express pass the check, so a save with any other address is refused. |
| ConfigSave.EditKeepsMeaning | NativeCsmVgaSelectorPkg/Application/ProbeConfig.c:460-508 | For every text that parses, an edit that passes the check changes nothing but the targets. |
| ConfigSave.CheckAcceptsExactly | NativeCsmVgaSelectorPkg/Application/ProbeConfig.c:408-458 | For a boot configuration the check accepts exactly the edits that change nothing but the targets. |
| ConfigSave.CheckAcceptsEditable | NativeCsmVgaSelectorPkg/Application/ProbeConfig.c:460-484 | Told from the old text: an edit that fits passes the check exactly when the text is editable. |
| ConfigSave.TidyEditIsAccepted | NativeCsmVgaSelectorPkg/Application/ProbeConfig.c:460-484 | For tidy boot configurations and distinct valid targets the check never refuses the edit. |
| ConfigGenerate.VerifyGenerated | NativeCsmVgaSelectorPkg/Application/ProbeConfig.c:408-458 | Succeeds exactly on texts that select the given targets, or none for an incomplete selection. |
| ConfigGenerate.ReloadActive | NativeCsmVgaSelectorPkg/Application/ProbeConfig.c:712-716 | The final load may recover: without a recovery source it changes nothing, otherwise only the active file; success means a complete boot configuration. |
| ConfigGenerate.PublishActive | NativeCsmVgaSelectorPkg/Application/ProbeConfig.c:622-742 | First run: an existing configuration or previous copy is unchanged in every image, and with neither there a new one is complete in every image; success leaves identical active and previous files that boot from the targets; a configuration that fails its checks is deleted again; only a fault or a name in the way makes it fail. |
| ConfigGenerate.PublishReport | NativeCsmVgaSelectorPkg/Application/ProbeConfig.c:622-711 | No configuration file changes; in every image the report is old, new, or in its rollback copy; success leaves only the new report. |
| ConfigGenerate.WriteCandidateIni | NativeCsmVgaSelectorPkg/Application/ProbeConfig.c:510-758 | An edit saves into a usable configuration as SaveEditedTargets does and otherwise changes nothing; a generation writes the active configuration only on a complete first run, otherwise only the report, and success publishes exactly the formatted text, which selects what was chosen; only a fault or a name in the way makes a correct selection fail. |
| ConfigGenerate.GeneratedTextSelects | NativeCsmVgaSelectorPkg/Application/ProbeConfig.c:408-458 | The check of the generated text accepts a well-formed selection exactly when the two addresses differ or the selection is incomplete. |
| IniText.ParseNumber | NativeCsmVgaSelectorPkg/Application/MarkerConfig.h:31-52 | The guarded digit loop returns the number exactly when it is well formed and at most the maximum. |
| IniText.AddressRoundTrip | NativeCsmVgaSelectorPkg/Application/CandidateIni.c:855-921 | Parsing a printed address gives the address, in either letter case. |
| IniParser.ParseConfigStrict | NativeCsmVgaSelectorPkg/Application/CandidateIni.c:1169-1263 | The byte loop computes `Parse`, errors included; what `Parse` means is stated by the rows of `IniPrint`, `IniPrintExact` and `IniSpelling`. |
| IniParser.ParsedTargetsAreValid | NativeCsmVgaSelectorPkg/Application/CandidateIni.c:1169-1263 | Whatever text is parsed, its targets have device at most 31 and function at most 7. |
| IniParser.AppendLine | NativeCsmVgaSelectorPkg/Application/CandidateIni.c:1188-1250 | Appending a line with any line ending means parsing that line: a text means the fold of its lines. |
| IniParser.EndLine | NativeCsmVgaSelectorPkg/Application/CandidateIni.c:1188-1195 | A closing line ending does not change the meaning. |
| IniPrint.NumberRoundTrip | NativeCsmVgaSelectorPkg/Application/MarkerConfig.h:31-52 | A printed number is read back in decimal and in hexadecimal, in either letter case, exactly if it is at most the maximum. |
| IniPrint.FourRoundTrip | NativeCsmVgaSelectorPkg/Application/CandidateIni.c:820-853 | Four hexadecimal digits are read back. |
| IniPrint.SettingTaken | NativeCsmVgaSelectorPkg/Application/CandidateIni.c:950-1128 | For each of the 24 settings: the printed value under the documented key stores exactly that setting. |
| IniPrint.PrintParseRoundTrip | NativeCsmVgaSelectorPkg/Application/CandidateIni.c:923-1263 | For every valid configuration, printed in any order of sections and of settings, numbers in either radix: parsing the text gives exactly the configuration. |
| IniPrintExact.AcceptedSets | NativeCsmVgaSelectorPkg/Application/CandidateIni.c:950-1128 | An accepted pair is a documented setting of its section that was absent; it is present afterwards and nothing else has changed. |
| IniPrintExact.RefusalReason | NativeCsmVgaSelectorPkg/Application/CandidateIni.c:950-1128 | A refused pair is unsupported exactly for an unknown key of Video, Boot or Endpoint, and otherwise compromised data. |
| IniPrintExact.HeaderOutcome | NativeCsmVgaSelectorPkg/Application/CandidateIni.c:923-952 | A documented header opens its section once; a repeated one is compromised data, anything else in brackets is unsupported. |
| IniPrintExact.StandardLaysOut | NativeCsmVgaSelectorPkg/Application/CandidateIni.c:1169-1263 | Every configuration can be printed in the documented order. |
| IniPrintExact.ParserYieldsExactly | NativeCsmVgaSelectorPkg/Application/CandidateIni.c:1169-1263 | A configuration is the parse of some text exactly when it is valid: values in range, unseen settings at their defaults, a complete enabled marker, distinct targets outside Probe. |
| IniPrintExact.ReprintKeepsMeaning | NativeCsmVgaSelectorPkg/Application/CandidateIni.c:1169-1263 | A parsed text and its configuration printed in any layout have the same meaning. |
| IniSpelling.AcceptedIsSpelled | NativeCsmVgaSelectorPkg/Application/CandidateIni.c:950-1128 | The text of an accepted pair spells exactly the value it stores: the digits in any case and with leading zeros only in marker numbers, fixed words, plain texts, and disk names plain or quoted. |
| IniLines.DiskRoundTrip | NativeCsmVgaSelectorPkg/Application/CandidateIni.c:331-395 | Decoding an encoded disk name gives exactly the name, with padding, quotes and backslashes. |
| IniLines.EncodeShape | NativeCsmVgaSelectorPkg/Application/CandidateIni.c:331-361 | An encoded name is printable, trimmed, without an equals sign, and at most 130 characters. |
| IniLines.PairLine | NativeCsmVgaSelectorPkg/Application/CandidateIni.c:1215-1246 | A key=value line sets exactly that key in the current section. |
| IniEdit.EditTargets | NativeCsmVgaSelectorPkg/Application/ConfigEdit.c:44-114 | Succeeds exactly when the rewritten text exists and is shorter than the capacity, and returns that text; too long a text is a capacity error. |
| IniEdit.EditIsExact | NativeCsmVgaSelectorPkg/Application/ConfigEdit.c:60-113 | For any input with an edit, each piece is one whole input line, kept or replaced, or the insertion; the pieces cover the input in order, nothing but lines that assign a target changes, and every target is written exactly once; so one description is inserted exactly when none is assigned. |
| IniEditCommutes.EditCommutesWithParsing | NativeCsmVgaSelectorPkg/Application/ConfigEdit.c:30-114 | For every boot configuration whose carriage returns stand in runs at line ends and every valid distinct choice, the edited text parses to the same configuration with only the three targets replaced. |
| IniEditCommutes.LineAgrees | NativeCsmVgaSelectorPkg/Application/ConfigEdit.c:66-100 | The editor and the parser agree on which line is a header, a target assignment or something else. |
| IniEditExact.AppendRaw | NativeCsmVgaSelectorPkg/Application/CandidateIni.c:1188-1250 | A raw line, carriage returns anywhere, is parsed as its stripped form. |
| IniEditExact.EditKeepsSettings | NativeCsmVgaSelectorPkg/Application/ConfigEdit.c:44-114 | For every text: if it and its edit both parse, they agree on every setting that is not a target. |
| IniEditExact.EditCommutesExactly | NativeCsmVgaSelectorPkg/Application/ConfigEdit.c:44-114 | For every text that parses, the edit means the old configuration with only the targets replaced exactly when it exists and its parse selects the chosen targets. |
| IniEditCondition.EditCommutesIffEditable | NativeCsmVgaSelectorPkg/Application/ConfigEdit.c:30-114 | The same, told from the input: exactly when the edit exists and any insertion stands inside the parsed [Boot] section of a text without a description. |
| IniEditCondition.EditableForAnyChoice | NativeCsmVgaSelectorPkg/Application/ConfigEdit.c:44-114 | Whether a text is editable does not depend on the choice. |
| IniEditCondition.TidyIsEditable | NativeCsmVgaSelectorPkg/Application/ConfigEdit.c:44-114 | Every boot configuration with carriage returns only at line ends is editable. |
| IniReturns.ReturnIsInvisible | NativeCsmVgaSelectorPkg/Application/CandidateIni.c:1190-1196 | The parser ignores a carriage return wherever it stands. |
| IniReturns.EditNeedsKey | NativeCsmVgaSelectorPkg/Application/ConfigEdit.c:79-91 | A text that does not contain the key of the GPU, unbroken, has no edit. |
| IniReturns.InnerReturnBreaksEditing | NativeCsmVgaSelectorPkg/Application/ConfigEdit.c:79-91 | A text that parses to a complete boot configuration and that no choice can edit, because of a carriage return inside a key. |
| IniFormat.BdfIsFormat | NativeCsmVgaSelectorPkg/Application/CandidateIni.c:189-202 | A printed location is the address format the parser reads. |
| IniFormatMeaning.FormattedTextFits | NativeCsmVgaSelectorPkg/Application/CandidateIni.h:7-14 | Any contents of up to 32 displays and 64 disks, unterminated strings and maximal raw locations included, format to fewer than 65536 bytes. |
| IniFormatMeaning.JoinMeaning | NativeCsmVgaSelectorPkg/Application/CandidateIni.c:578-763 | A text of terminated lines means the fold of the lines. |
| IniFormatMeaning.FormatParseRoundTrip | NativeCsmVgaSelectorPkg/Application/CandidateIni.c:578-763 | The generated text parses to exactly the selected addresses, the exact disk name and the fixed policies; to no targets for an incomplete selection; and is refused exactly when both addresses are equal. |
| IniWriter.IsExactlyRepresentable | NativeCsmVgaSelectorPkg/Application/CandidateIni.c:296-329 | The scan accepts exactly the representable names. |
| IniWriter.TextBuffer.PutChar | NativeCsmVgaSelectorPkg/Application/CandidateIni.c:89-104 | The buffer holds as much as fits, and has failed exactly when something did not. |
| IniWriter.TextBuffer.PutCommentText | NativeCsmVgaSelectorPkg/Application/CandidateIni.c:117-145 | Writes printable text up to the terminator, dots for other bytes, and a note for an unterminated array. |
| IniWriter.TextBuffer.PutHex | NativeCsmVgaSelectorPkg/Application/CandidateIni.c:147-163 | Writes the low digits of the number, most significant first. |
| IniWriter.TextBuffer.PutDec | NativeCsmVgaSelectorPkg/Application/CandidateIni.c:165-187 | Writes the decimal digits of any 64-bit number; the 24-byte buffer is never the limit. |
| IniWriter.EncodeDiskDescription | NativeCsmVgaSelectorPkg/Application/CandidateIni.c:331-361 | Rejects exactly unrepresentable names; success is the exact encoding; 131 bytes are always enough. |
| IniWriter.ValidateSelections | NativeCsmVgaSelectorPkg/Application/CandidateIni.c:509-576 | Accepts exactly the selections in which the named rows, and only they, are selected, eligible and located, with a representable disk name. |
| IniWriter.FormatCandidateIni | NativeCsmVgaSelectorPkg/Application/CandidateIni.c:578-763 | Rejects exactly inconsistent selections, succeeds exactly when the text is shorter than the capacity, returns exactly the specified lines, and never runs out of 65536 bytes. |
| MemoryMap.RangeAccessible | NativeCsmVgaSelectorPkg/Application/MemoryMap.c:158-281 | Grants access exactly when no descriptor overflows and every byte lies in exactly one nonempty descriptor that permits it, whether or not the extent is asked for; the reported extent is maximal up to saturation; the walk terminates. |
| MemoryMap.Scan | NativeCsmVgaSelectorPkg/Application/MemoryMap.c:197-230 | One pass finds the covering descriptor, an overlap and the next start, or an overflow. |
| MemoryMap.OrderIndependent | NativeCsmVgaSelectorPkg/Application/MemoryMap.c:158-281 | Neither the answer nor the extent depends on the order of the descriptors. |
| MemoryMap.AccessibleIsOrderFree | NativeCsmVgaSelectorPkg/Application/MemoryMap.c:158-281 | Whether a byte is accessible depends on the multiset of descriptors alone. |
| MemoryMap.ExtentIsUnique | NativeCsmVgaSelectorPkg/Application/MemoryMap.c:158-281 | There is only one correct extent. |
| MemoryMap.PermissionTable | NativeCsmVgaSelectorPkg/Application/MemoryMap.c:18-41 | The whole permission table: which types and attributes allow reading and writing. |
| MemoryMap.WritableIsReadable | NativeCsmVgaSelectorPkg/Application/MemoryMap.c:271-281 | A writable range is readable. |
| OptionRom.ParseAndValidate | NativeCsmVgaSelectorPkg/Application/OptionRom.c:588-1007 | Every status has its cause: the walk completes exactly when the images tile the ROM, and then the outcome is about that tiling, the reported image being the first target with both checksums zero; the missing-final-indicator exit is unreachable. A size or address that does not fit is refused exactly. |
| OptionRom.CheckImage | NativeCsmVgaSelectorPkg/Application/OptionRom.c:640-905 | Classifies an image exactly: malformed, other, UEFI target, rejected or acceptable legacy target. |
| OptionRom.WalkDeviceList | NativeCsmVgaSelectorPkg/Application/OptionRom.c:197-250 | Succeeds exactly when a zero entry ends the list inside the image, and finds the device exactly when it is listed before it. |
| OptionRom.CheckMetadata | NativeCsmVgaSelectorPkg/Application/OptionRom.c:252-424 | Accepts exactly a run-time size within the image, a contained configuration header and a contained entry point. |
| OptionRom.CheckPcat | NativeCsmVgaSelectorPkg/Application/OptionRom.c:426-586 | Accepts exactly a legacy size within the image that contains the PCI data structure, also within a nonzero run-time size; reports the legacy checksum. |
| OptionRom.ComputeChecksum | NativeCsmVgaSelectorPkg/Application/OptionRom.c:83-107 | The byte sum modulo 256 of the range. |
| OptionRom.TilingCovers | NativeCsmVgaSelectorPkg/Application/OptionRom.c:953-990 | Every byte of a tiled ROM lies in exactly one image. |
| OptionRom.TilingIsUnique | NativeCsmVgaSelectorPkg/Application/OptionRom.c:953-990 | A ROM has at most one tiling. |
| OptionRom.ImageReadsBack | NativeCsmVgaSelectorPkg/Application/OptionRom.c:640-760 | An image built from its fields, anywhere in a ROM, passes the header check and every field is read back from its bytes. |
| BridgePath.SortBySize | NativeCsmVgaSelectorPkg/Application/PciEnumerate.c:1506-1531 | In place: a permutation of the indices, sorted by device-path size. |
| BridgePath.BuildDevicePath | NativeCsmVgaSelectorPkg/Application/PciEnumerate.c:1533-1599 | The path holds exactly the ancestor bridges, once each, sorted; it succeeds exactly when their number is one less than the PCI nodes of the selected path. |
| BridgePath.CountPciNodes | NativeCsmVgaSelectorPkg/Application/PciEnumerate.c:1570-1594 | Counts the PCI nodes up to the end node, or reports a malformed node. |
| BridgePath.PathIsCounted | NativeCsmVgaSelectorPkg/Application/PciEnumerate.c:1570-1594 | Of a path built from nodes the walk counts exactly the PCI nodes. |
| BridgePath.SizeOrderIsNesting | NativeCsmVgaSelectorPkg/Application/PciEnumerate.c:1486-1531 | Size order is nesting order: each path begins every later one. |
| BridgePath.CrossCheck | NativeCsmVgaSelectorPkg/Application/PciEnumerate.c:1673-1704 | Succeeds exactly when each secondary bus is the next bus, each primary bus its own bus, and the child bus is within the subordinate bus. |
| BridgePath.FindParent | NativeCsmVgaSelectorPkg/Application/PciEnumerate.c:1616-1645 | Finds the only bridge to a bus, or reports none or several. |
| BridgePath.BuildBusPath | NativeCsmVgaSelectorPkg/Application/PciEnumerate.c:1601-1671 | Terminates; succeeds exactly when a complete climb exists, and the path read backwards is that duplicate-free climb of only parents; a failure returns the climb so far and the exact reason why it cannot go on. |
| BridgePath.ClimbsAgree | NativeCsmVgaSelectorPkg/Application/PciEnumerate.c:1614-1659 | Climbs are determined by the inventory: of two climbs one begins the other. |
| BridgePath.StuckCannotClimb | NativeCsmVgaSelectorPkg/Application/PciEnumerate.c:1639-1657 | A climb that is stuck for any of the failure reasons leaves no complete climb. |
| BridgePath.ClimbEndsAtRoot | NativeCsmVgaSelectorPkg/Application/PciEnumerate.c:1614-1671 | A complete climb has reached bus 0 exactly when some record sits on bus 0. |
| BridgePath.ClimbReachesRoot | NativeCsmVgaSelectorPkg/Application/PciEnumerate.c:1614-1671 | For a display taken from the inventory every successful climb has reached bus 0. |
| BridgePath.ReverseInPlace | NativeCsmVgaSelectorPkg/Application/PciEnumerate.c:1661-1668 | Reverses the array in place. |
| BridgePath.BusPathIsLinked | NativeCsmVgaSelectorPkg/Application/PciEnumerate.c:1601-1704 | A bus path can fail its cross-check only on a subordinate bus number. |
| BridgePath.StrictIsSuffix | NativeCsmVgaSelectorPkg/Application/PciEnumerate.c:1533-1704 | If both builders succeed and every bus below the first strict bridge is nonzero, the strict path is a suffix of the bus path, and all of it when it starts on bus 0. |
| Handoff.Countdown.Wait | NativeCsmVgaSelectorPkg/Application/BootCountdown.c:51-90 | The first of the 100 ticks that is not quiet decides: a key aborts with its action, a failure is returned, and neither completes the countdown; only a hundred quiet ticks do. A second wait, or one after an action, is refused. |
| Handoff.Countdown.Finish | NativeCsmVgaSelectorPkg/Application/BootCountdown.c:92-106 | A return is clean exactly for a prepared attempt whose countdown did not complete, whose plan was released and whose files closed; only then a pressed key is passed on, and otherwise the result is the first failure of cleanup, attempt and closing. |
| Handoff.Marker.Configure | NativeCsmVgaSelectorPkg/Application/Marker.c:14-17 | Configuring loses the restoration exactly if one was pending. |
| Handoff.Marker.Apply | NativeCsmVgaSelectorPkg/Application/Marker.c:100-122 | Unless one was already pending nothing is lost, not even by a failed read: once attempted, the saved original is the file as it was; success leaves exactly the profile block; a file that does not carry the header and a profile line is refused and left alone, any other is written unless a call fails. |
| Handoff.MarkerBlockNames | NativeCsmVgaSelectorPkg/Application/Marker.c:112-119 | A reader of the profile field, defined on its own, finds the profile in the block; the block passes the header check and the rest is blanks and a final line feed. |
| Handoff.Marker.Restore | NativeCsmVgaSelectorPkg/Application/Marker.c:124-133 | Succeeds exactly when nothing is left pending, and then the file is as it was; only a failed call leaves it pending, and without an attempt nothing is touched. |
| Handoff.Selector.BootRun | NativeCsmVgaSelectorPkg/Application/NativeCsmVgaBoot.c:754-1051 | At most one disconnect and one marker apply, each only after a completed countdown and with AutoBoot set; a clean return means neither happened; with AutoBoot only a failed call, a key or a refused marker keeps the machine from being handed over. |
| Handoff.Selector.AfterBoot | NativeCsmVgaSelectorPkg/Application/NativeCsmVgaSelector.c:112-143 | Another round only if nothing irreversible happened and nothing awaits restoration; a clean failed attempt with an edit request always gets one, a clean cancel never does. |
| Handoff.Selector.Run | NativeCsmVgaSelectorPkg/Application/NativeCsmVgaSelector.c:95-143 | Over any number of rounds: at most one disconnect and one marker apply, both only with AutoBoot set and Probe clear, every attempt but the last returned cleanly before its countdown completed, and a pending marker restoration always ends the run with an error. |
| Handoff.Selector.Application | NativeCsmVgaSelectorPkg/Application/NativeCsmVgaSelector.c:50-146 | The same for the whole application with the loads before the loop and inside discovery: no load and no second apply ever discards a pending restoration. |
| Utf8.UnicodeToUtf8 | NativeCsmVgaSelectorPkg/Application/Log.c:73-148 | At most three bytes per unit; well-formed UTF-8 (section 3 of RFC 3629) that decodes to the input with each unpaired surrogate replaced by U+FFFD. |
| Utf8.ScalarsAreTheText | NativeCsmVgaSelectorPkg/Application/Log.c:73-148 | Encoded to UTF-16 again, the scalar values are the input with each unpaired surrogate replaced. |
| Utf8.DecodeEncodeAll | NativeCsmVgaSelectorPkg/Application/Log.c:73-148 | Decoding the encoding of any scalar values gives them back. |

## Left out

- LegacyDevOrder parsing (`LegacyBootOrder.inc`): the planner takes ranks and disabled flags as parameters. The ROM and firmware evidence used by eligibility is a parameter too.
- BBS discovery, Boot#### option parsing, owned string copies, CRC32 and SHA-256 reports: each is one call that may fail.
- Candidate ranking (`NcvRankDisplays`, `NcvRankStorage`) and collection: single-pass minima whose claims are easy; the formatter takes the selection as input.
- Pool allocation, NULL arguments and the address wrap-around of buffers other than the ROM: abstracted away, except that release is refused while dirty.
- PCI and bridge-control registers are records of the named bits and one value for the other bits, so bit masks are not modelled; a configuration-space write that changes another register is not modelled.
- Console screens, key polling, timers and log text: only the statuses that steer control flow remain. What the console and the timer answer in each tick is a parameter.
- Route transfer inside the running boot: `BootRun` treats everything after the disconnect as one step that boots or stops the machine, as the source does; the transfer itself is `RouteTransfer`.
- RoutePaths.BuildAndClassify: takes records with distinct identities, which come from distinct firmware handles, and a register for each; root-bridge association and the display class of the two endpoints are checked elsewhere in the source and not modelled.
- Flushing is part of the write it follows; directory entries and volume metadata are not modelled below the level of names and contents.
- `LegacyStorageRom.c`, `LegacyFirmwareDisk.c`, `LegacyRomGuard.c`, `RomPlacement.c`, packaging scripts and installers: not part of this model.
