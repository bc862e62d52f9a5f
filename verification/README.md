# Boot-time platform checks, modelled and proved in Dafny

This project models the handwritten C headers and Python checkers that prepare a Qotom board for
LeanOS: the builder of isolated page-table roots, the PCI, EHCI and xHCI protocols that run against
a device which may answer anything, the boot text console, the Multiboot2 parsers, the control-flow
audit of the kernel image and the comment stripper of the proof-policy check.

`dafny verify dfyconfig.toml` checks everything.

| file | contents |
|---|---|
| `arithmetic.dfy`, `masks.dfy`, `source_masks.dfy` | division by quotient and remainder; bitwise operators on numbers, and what comparing under a mask means for the fields; every register test in the source's own masks |
| `paging.dfy`, `copy_roots.dfy`, `copy_root_builder.dfy`, `frame_windows.dfy` | the four-level walk, what a closed root and a copy root are, the in-place builder, the two window roots |
| `platform.dfy` | the outside world: reads, stores and delays with a log of every event |
| `capabilities.dfy`, `capability_decoder.dfy`, `observation.dfy` | the capability-list walk, the capture decoder, the bracketed observations |
| `pending.dfy`, `root_port.dfy`, `broadcom.dfy`, `broadcom_d3.dfy`, `broadcom_assign.dfy`, `broadcom_run.dfy` | polling for quiet, gating the root port, D3hot entry, return to D0, and the recorded run of all |
| `semaphore.dfy`, `ehci.dfy`, `xhci.dfy`, `xhci_handoff.dfy`, `xhci_smi.dfy`, `xhci_captured.dfy` | the ownership handoffs, the SMI stage and the recorded xHCI run |
| `config_access.dfy`, `enumeration.dfy`, `command_clear.dfy` | ECAM and CF8 addressing, the segment scan, the ordered Command clear |
| `console.dfy`, `multiboot.dfy` | the cell buffer against a scrollback, the two tag parsers |
| `port_audit.dfy`, `stripper.dfy`, `strip_laws.dfy` | dominance in the kernel's control-flow graph, the lexer and the laws that determine it |

## How the outside world is modelled

Every callback of the C code is a method of the class `Platforms.Platform`. A platform that is not
`faithful` returns arbitrary results, and each read, store and delay is appended to a ghost log, so
what is proved about the log holds for every device behaviour, including one that changes its answers
between two reads. A faithful platform answers from a map of words and performs every byte, 16-bit and
dword store, and its firmware may let go of an ownership bit after a number of delays, other registers
changing with it; it serves the theorems that a protocol succeeds. Methods take a ghost flag `ready` when they promise
success on such a platform: the flag implies the state of the memory, and the contract says what then
must happen.

Words are integers below 2^32 (64-bit page-table entries are naturals). A mask of one contiguous field
is written as division and remainder, which `Masks.FieldMask`, `RegisterFields.FieldsAreMasks` and the
module `SourceMasks` justify; the masks that are not, in the USB handoffs, are compared bit by bit as the source does, and
what that means for the fields is proved.
The 64-bit visited bitmap is a sequence of 64 booleans. Records
that the C code fills through an out-parameter are values returned by the method, built up in the same
order; a read that fails leaves its destination as it was.

The audit of the kernel image is measured against a machine that is defined on mnemonics and not on the
audit's own classes: what is not known to fall through, branch or return may go anywhere, a call comes
back to the next instruction or enters the body at its printed target, a return leaves the body, and a
machine parameter says which mnemonics only fall through and whether a halt can wake.

Where a comment and the code differ, the model follows the code: the assignment of the Broadcom
function does not itself compare PMCSR with 400b before its store, as its comment suggests, but hands
the value read to the generated write check; and the polling helper's comment names Command 0003,
while the code takes the expected Command as an argument.

## Model

| member | source | states |
|---|---|---|
| `Paging.WalkReadsOneLeaf` | include/qotom_copy_root_builder.h:70-84 | with the checked ancestors in memory, the four-level walk of any 48-bit address reads exactly one leaf, and faults outside the first 16 MiB |
| `Paging.LinkedExactly` | include/qotom_copy_root_builder.h:70-84 | the ancestor test in numbers: every linking entry is its table's address plus 7 or plus 27 hex, every other directory entry 0 or 20 hex, all else 0 |
| `CopyRoots.ClosedRootIsolates` | include/qotom_copy_root_builder.h:86-90 | from every linear address the closed root reaches no protected frame and otherwise translates as the source does |
| `CopyRoots.CopyRootAddsOnlyAliases` | include/qotom_copy_root_builder.h:88-89 | the copy root translates as the closed root except at the alias pages, which map their frame supervisor, no-execute, writable iff requested |
| `CopyRoots.BuiltRootsIsolate` | include/qotom_copy_root_builder.h:86-94 | both statements at once for the result of a successful build, at every address |
| `CopyRoots.BuiltIsolating` | include/qotom_copy_root_builder.h:86-113 | disjoint roots fit into one memory, and every memory that holds them isolates at every address |
| `CopyRoots.BuiltUnique` | include/qotom_copy_root_builder.h:150-180 | the source's leaves alone determine both built roots; their tables are fresh, without Accessed |
| `CopyRootBuilder.VerdictIsolates` | include/qotom_copy_root_builder.h:95-160 | the positive verdict alone supplies everything isolation needs: linked source, disjoint ranges, distinct protected frames, sound aliases |
| `CopyRoots.AliasLeafTranslation` | include/qotom_copy_root_builder.h:173-176 | what the installed alias word means to the walk |
| `CopyRoots.LeavesConserved` | include/qotom_copy_root_builder.h:162-172 | the removed and the retained leaves partition the present source leaves |
| `CopyRoots.CopyLeavesCounted` | include/qotom_copy_root_builder.h:162-178 | the copy root has the retained leaves plus one per alias |
| `CopyRootBuilder.RangesDisjointExact` | include/qotom_copy_root_builder.h:54-60 | the subtraction test holds iff the two byte ranges share no byte |
| `CopyRootBuilder.IsProtected` | include/qotom_copy_root_builder.h:62-68 | membership in the protected list |
| `CopyRootBuilder.SourceAncestors` | include/qotom_copy_root_builder.h:70-84 | accepts iff the three upper levels link the eleven pages, word for word, with or without Accessed in each linking entry |
| `CopyRootBuilder.CheckProtected` | include/qotom_copy_root_builder.h:114-122 | accepts iff one to sixteen distinct 40-bit frames |
| `CopyRootBuilder.CheckAliases` | include/qotom_copy_root_builder.h:138-148 | accepts iff every alias is an absent source page and a protected frame, pairwise distinct in both |
| `CopyRootBuilder.FillLeaves` | include/qotom_copy_root_builder.h:162-172 | both leaf arrays are the filtered source and the counters are the sizes of the removed and retained sets |
| `CopyRootBuilder.TallyTotals` | include/qotom_copy_root_builder.h:162-172 | the running counters equal set cardinalities |
| `CopyRootBuilder.InstallAliases` | include/qotom_copy_root_builder.h:173-176 | exactly the alias pages change, each to its alias word |
| `CopyRootBuilder.BuildCopyRoots` | include/qotom_copy_root_builder.h:95-180 | the status is the first failing check in order; a rejection leaves both roots and the record untouched; success builds both roots and their counts, and, with all pages below 2^52, the three roots isolate in every memory that holds them, of which there is one |
| `CopyRootBuilder.VerdictExactly` | include/qotom_copy_root_builder.h:103-148 | the verdict in bytes and numbers: the first of shared storage, unlinked source, unsound frames, alias count, shared inputs and unsound aliases decides |
| `CopyRootBuilder.UseIgnored` | include/qotom_copy_root_builder.h:70-84 | Accessed bits that the processor has set in the source do not change the verdict |
| `FrameWindows.RootExact` | include/frame_copy_window.h:75-98 | the scan accepts iff the root is linked, equals the closed root off the slots and maps exactly the window at them |
| `FrameWindows.GeometryExactly` | include/frame_copy_window.h:58-69 | the geometry check accepts iff the window is one or two whole pages below 16 MiB and its slots lie behind the first leaf |
| `FrameWindows.WindowMeaning` | include/frame_copy_window.h:110-116 | the requested aliases are the window's own pages, slot by slot, writable as asked |
| `FrameWindows.BuiltIsExact` | include/frame_copy_window.h:116-131 | a successful build always passes the scan |
| `FrameWindows.ExactWalk` | include/frame_copy_window.h:71-74 | every translation of a scanned root |
| `FrameWindows.WindowRootsDifferOnlyInWriting` | include/frame_copy_window.h:100-102 | fetch and send grant the same everywhere except writing through the alias slots |
| `FrameWindows.FetchRootKept` | include/frame_copy_window.h:110-132 | the fetch root survives the send build iff the two are different roots |
| `FrameWindows.WindowBuild` | include/frame_copy_window.h:103-134 | geometry and both builder verdicts alone decide the status: the rebuild and scan failures cannot happen when the record is unset or from the same source |
| `Capabilities.Pigeonhole` | boot/pci-capabilities.h:51-59 | distinct aligned offsets from 64 to 252 are at most 48 |
| `Capabilities.WalkList` | boot/pci-capabilities.h:47-67 | for any answers: a linked list of distinct slots, at most 48 reads, each way of stopping explained, the capacity guard never the reason |
| `Capabilities.WalkFindsList` | boot/pci-capabilities.h:47-70 | on truthful answers the walk returns the list the memory holds |
| `Capabilities.Collect` | boot/pci-capabilities.h:26-71 | at most 52 reads; success is a complete terminated list with its whole log; every failure status and offset explained; success on memory that holds a list |
| `CapabilityDecoder.DecodeFunction` | scripts/check-qotom-pci-capabilities-capture.py:57-99 | the decoder loop accepts iff the record is a possible failure or a complete list |
| `CapabilityDecoder.FailureExactly` | scripts/check-qotom-pci-capabilities-capture.py:64-77 | which offset each failure status may name |
| `CapabilityDecoder.CollectorPasses` | scripts/check-qotom-pci-capabilities-capture.py:61-99 | every outcome of the collector on valid arguments passes the decoder |
| `CapabilityDecoder.AcceptedIsDescribed` | scripts/check-qotom-pci-capabilities-capture.py:79-99 | memory built from an accepted list describes exactly that list |
| `CapabilityDecoder.CollectAccepted` | scripts/check-qotom-pci-capabilities-capture.py:79-99 | for every accepted list there is a platform on which the collector returns it |
| `Observation.SameList` | boot/pci-express-observation.h:20-27 | equality of lists |
| `Observation.Select` | boot/pci-express-observation.h:46-52 | none, one or several entries with the identifier |
| `Observation.ObserveExpress` | boot/pci-express-observation.h:32-83 | at most 106 reads on any platform and 102 on success; success is two identical complete collections around the two payload reads; why each other status arises; success on memory that holds a usable list |
| `Observation.ObservePower` | boot/pci-power-observation.h:21-63 | the same for one payload read, at most 105 reads |
| `SourceMasks.ArgumentsExactly` | boot/pci-capabilities.h:32-33 | the arguments, the layout and the list head under the source's masks |
| `SourceMasks.IdentityExactly` | boot/pci-capabilities.h:35-46 | the four identity checks: which word, under which mask |
| `SourceMasks.ExpressExactly` | boot/pci-express-observation.h:54-64 | the accepted PCI Express capabilities under the source's masks |
| `SourceMasks.PowerExactly` | boot/pci-power-observation.h:42-46 | the accepted power capabilities |
| `SourceMasks.SampleExactly` | boot/qotom-pcie-pending.h:19-28 | which samples count as the same: both successful, same offset and device capabilities, control equal outside the pending bit 21, which a clear sample has zero |
| `SourceMasks.EndpointWordExactly` | boot/qotom-broadcom-d3.h:84-88 | the endpoint's header words under 0010ffff and ffffffff |
| `SourceMasks.BridgeWordExactly` | boot/qotom-rootport-bme.h:29-33 | the bridge's header words under 0010ffff, 0000ffff and ffffffff |
| `SourceMasks.RootSampleExactly` | boot/qotom-rootport-bme.h:11-15 | the root port's prior sample |
| `SourceMasks.EhciExactly` | boot/qotom-ehci-capabilities.h:34-47 | the EHCI header and its five words under their masks |
| `SourceMasks.EhciFormatExactly` | boot/qotom-ehci-capabilities.h:57-59 | the accepted EHCI capability registers |
| `SourceMasks.XhciWordExactly` | boot/qotom-xhci-capabilities.h:33-40 | the six xHCI words under their masks |
| `SourceMasks.WindowExactly` | boot/qotom-xhci-legacy.h:18-21 | the addresses an extended capability may have |
| `SourceMasks.SmiExactly` | boot/qotom-xhci-smi.h:4-5 | no reserved bit, and nothing but status bits, as masks |
| `SourceMasks.SmiPriorExactly` | boot/qotom-xhci-smi.h:42-48 | what the SMI stage demands of the handoff's record and list, in numbers |
| `SourceMasks.PresentExactly` | boot/pci-enumeration.h:65-65 | a function is present iff its vendor identifier is not ffff |
| `SourceMasks.ReadbackExactly` | boot/pci-command-executor.h:92-92 | Command reads back as zero, every other word as in the inventory |
| `Pending.ExpressAnswers` | boot/qotom-pcie-pending.h:58-62 | a successful observation reads the device control register exactly once |
| `Pending.Poll` | boot/qotom-pcie-pending.h:55-64 | a completed poll is one sample between two reads of the expected Command |
| `Pending.CountNext` | boot/qotom-pcie-pending.h:67-68 | the counter is one exactly after a clear sample and two exactly at the first adjacent clear pair |
| `Pending.ConfirmQuiet` | boot/qotom-pcie-pending.h:40-75 | success at the first adjacent clear pair within 100 polls, polls - 1 delays; timeout after 100 polls without such a pair; every broken-off poll explained; no store; the trailing return unreachable; two polls on a quiet platform |
| `Pending.QuietStatusWord` | boot/qotom-pcie-pending.h:65-68 | success returns the prior status word with the pending bit cleared |
| `Broadcom.CapsValid` | boot/qotom-broadcom-d3.h:40-48 | accepts iff the list is the captured one |
| `Broadcom.Refresh` | boot/qotom-broadcom-d3.h:76-93 | only reads, at most 227; success is the sixteen expected header words, then one read each of device control and PMCSR with the captured values, refusal names the part that failed; succeeds on memory holding the captured function |
| `Broadcom.RootPriorExactly` | boot/qotom-broadcom-d3.h:55-72 | the test on the root port's records, in the source's masks |
| `Broadcom.RootFeedsD3` | boot/qotom-broadcom-d3.h:55-72 | a completed clear and a quiet confirmation meet the D3 entry's demands iff the bridge is the captured one and its prior sample showed device status 10 or 11 hex |
| `RootPort.ClearRoot` | boot/qotom-rootport-bme.h:42-64 | result and log of every run: refresh, Command 7, one store of 3, Command 3, refresh, Command 3; each failure explained; success on faithful memory |
| `RootPort.RootStores` | boot/qotom-rootport-bme.h:36-45 | at most one store, 3 to the port's own Command, and only after a complete refresh and a read of 7 |
| `RootPort.ConfirmRootQuiet` | boot/qotom-pcie-pending.h:88-112 | polls under Command 3 only after a completed clear |
| `RootPort.QuietSample` | boot/qotom-pcie-pending.h:65-69 | success reports the device status of the sample before |
| `BroadcomD3.DisableCommand` | boot/qotom-broadcom-d3.h:129-140 | Command := 0 is stored only after a complete refresh and a read of 6, and read back |
| `BroadcomD3.Settle` | boot/qotom-broadcom-d3.h:141-151 | no store; success is refresh, polling run and refresh, all under Command 0; a failure names the part that failed, and a polling run that broke off says what its last poll saw |
| `BroadcomD3.RequestD3Hot` | boot/qotom-broadcom-d3.h:152-166 | one store of 400b followed by reads only, and what each status says about them |
| `BroadcomD3.EnterD3Hot` | boot/qotom-broadcom-d3.h:106-167 | the complete log of every run by its record; the prior check in numbers: captured endpoint and bridge, a clear that read 7 and left 3, device status 10 or 11 hex; success on ready memory, leaving Command 0 and PMCSR 400b |
| `BroadcomD3.D3Stores` | boot/qotom-broadcom-d3.h:95-105 | under any device behaviour the stores are a prefix of Command := 0, PMCSR := 400b |
| `BroadcomD3.QuietBeforeD3` | boot/qotom-broadcom-d3.h:143-153 | the second store comes only after two adjacent clear samples, each between two reads of Command 0, ten milliseconds apart |
| `BroadcomD3.D3OkValid` | boot/qotom-broadcom-assign.h:44-52 | a successful entry leaves exactly the record that assignment demands |
| `BroadcomAssign.AssignHeader` | boot/qotom-broadcom-assign.h:57-71 | sixteen matching words and a complete unchanged list, at most 68 reads |
| `BroadcomAssign.Recover` | boot/qotom-broadcom-assign.h:147-169 | the recovery delay first, then identity, refresh in D0, two clear samples and the final sweep; no store; each failure, a broken-off poll included, explained by what was read |
| `BroadcomAssign.AssignD0` | boot/qotom-broadcom-assign.h:108-180 | the complete log of every run by its record; the prior check and the arguments of both generated checks in numbers; success and its record on ready memory when both checks answer 1 |
| `BroadcomAssign.AssignStores` | boot/qotom-broadcom-assign.h:90-107 | at most one store, PMCSR := 4008, and only after the write check returned 1 on what was just read |
| `BroadcomAssign.SleepThenAssign` | boot/qotom-broadcom-assign.h:83-107 | from the literal records, on a faithful platform holding the captured function, entry then assignment succeed with exactly the three stores and the recorded D3 result; in the memory after any event from the first store on Command is 0, and PMCSR ends at 4008 |
| `BroadcomAssign.CapturedPlatform` | boot/qotom-broadcom-d3.h:26-54 | such a platform exists for every valid header with a capability list |
| `BroadcomRun.QuietSleepAssign` | boot/qotom-broadcom-d3.h:95-105 | root port clear, quiet confirmation, D3hot entry and assignment in sequence on one platform: all succeed, with four stores in order and no other |
| `BroadcomRun.RecordedRun` | boot/qotom-broadcom-d3.h:106-167 | the recorded board as plain memory yields the recorded results of all stages |
| `Semaphores.OwnershipWords` | boot/qotom-ehci-handoff.h:75-77 | a polled word that passes the change check is the initial word with the OS bit set, the BIOS bit still set or cleared |
| `Semaphores.SameOwnership` | boot/qotom-ehci-handoff.h:26-28 | the xor under the complement of the ownership mask is zero iff the words agree outside those two bits |
| `Semaphores.PlainIsMask` | boot/qotom-ehci-handoff.h:75-76 | the word without its ownership bits is the masked word |
| `SourceMasks.OwnershipExactly` | boot/qotom-ehci-handoff.h:64-77 | owned by the BIOS alone, the request, the release and the polled comparison under the source's masks |
| `Semaphores.SameLegacy` | boot/qotom-ehci-handoff.h:20-31 | accepts iff the lists agree, up to the ownership bits of the legacy entry when these are mutable |
| `Semaphores.PollOnce` | boot/qotom-ehci-handoff.h:69-77 | one delay and one read; what the record then holds, for going on, for release and for each failure; with firmware that lets go, which poll sees it |
| `Ehci.CollectEhciCapabilities` | boot/qotom-ehci-capabilities.h:27-62 | five matching configuration words before three registers, at most eight reads, zero on failure |
| `Ehci.WalkEhci` | boot/qotom-ehci-legacy.h:40-60 | distinct slots, at most one legacy entry, at most 48 reads, every way of stopping explained |
| `Ehci.CollectLegacy` | boot/qotom-ehci-legacy.h:27-70 | at most 57 reads; success publishes a complete list with its control word outside every entry, failure nothing and a reason for each status |
| `Ehci.RequestHandoff` | boot/qotom-ehci-handoff.h:41-92 | at most one byte store, 100 delays and 214 reads under any behaviour; observed means the initial word with the BIOS bit cleared and the OS bit set, and an otherwise unchanged list; what each refusal saw; with firmware that lets go after k delays, observed at poll k when k is at most 100 and timeout otherwise |
| `Ehci.RequestSetsOsBit` | boot/qotom-ehci-handoff.h:66-68 | the byte stored at offset 3 of a BIOS-owned word sets the OS bit and nothing else |
| `Ehci.CollectorTruthful` | boot/qotom-ehci-legacy.h:27-70 | on truthful answers no failure status is possible and the list in memory is what is published |
| `Ehci.CapturedHandoff` | boot/qotom-ehci-handoff.h:41-92 | the captured controller as a platform, and its handoff for every k: the result words, and the one byte store |
| `Ehci.DecoderExact` | scripts/check-qotom-ehci-handoff-capture.py:34-61 | for every status after the store the decoder's relation holds iff the protocol's result relation does |
| `Ehci.DecoderAcceptsRuns` | scripts/check-qotom-ehci-handoff-capture.py:34-61 | every result from the captured binding passes the decoder; the initial-state status cannot occur |
| `Xhci.CollectXhciCapabilities` | boot/qotom-xhci-capabilities.h:22-53 | seven registers between two checks of six configuration words, at most 19 reads |
| `Xhci.Increasing` | boot/qotom-xhci-legacy.h:46-64 | offsets of the list strictly increase |
| `Xhci.ChainFinite` | boot/qotom-xhci-legacy.h:18-21 | a list inside the window has at most 8192 entries, limit or not |
| `Xhci.LegacyUnique` | boot/qotom-xhci-legacy.h:57-61 | at most one legacy entry |
| `Xhci.NothingAtControl` | boot/qotom-xhci-legacy.h:62-69 | the check of one link keeps every entry away from the legacy control word |
| `Xhci.WalkXhci` | boot/qotom-xhci-legacy.h:46-65 | at most 48 reads, every way of stopping explained |
| `Xhci.CollectLegacy` | boot/qotom-xhci-legacy.h:33-76 | at most 87 reads, registers sampled on both sides of the walk; success publishes a complete list, failure nothing and a reason for each status |
| `Xhci.NeverStops` | boot/qotom-xhci-legacy.h:33-76 | on truthful answers no failure status is possible |
| `XhciHandoff.MaskChosenAlike` | boot/qotom-xhci-handoff.h:29-36 | the mask never covers the bits that select it: both entries would choose the same one |
| `XhciHandoff.EntryExactly` | boot/qotom-xhci-handoff.h:25-36 | which bits of an entry may differ, without the masks: 16 and 24 at the legacy entry, 18:16 and 31:20 at the identified vendor entry, none elsewhere |
| `XhciHandoff.DifferenceEquivalence` | boot/qotom-xhci-handoff.h:30-61 | having no final difference is reflexive, symmetric and transitive |
| `XhciHandoff.FinalDifference` | boot/qotom-xhci-handoff.h:39-61 | the comparison reports the first difference and nothing else |
| `XhciHandoff.RequestHandoff` | boot/qotom-xhci-handoff.h:85-147 | at most one dword store, 100 delays and 274 reads; observed means the support word handed over and no final difference; each final failure diagnosed from its log; with firmware that lets go after k delays, observed at poll k iff k is at most 100, also when the vendor entry's live status changes on release |
| `XhciSmi.HandoffFeedsSmi` | boot/qotom-xhci-smi.h:42-48 | exactly when an observed handoff satisfies the next stage's demands |
| `XhciSmi.SmiOwned` | boot/qotom-xhci-smi.h:13-19 | accepts iff the first entry at 8460 is the owned support word |
| `XhciSmi.DisableSmi` | boot/qotom-xhci-smi.h:28-65 | one zero store at most, 174 reads, no delay; observed means all enables off and a final list that agrees with the one the caller started from; success on a truthful controller |
| `XhciSmi.SmiBitsAreMask` | boot/qotom-xhci-smi.h:4-5 | the enable bits as fields are the bits of the mask e011 |
| `XhciSmi.HandoffThenSmi` | boot/qotom-xhci-smi.h:28-65 | handoff and SMI stage in sequence on one cooperative controller both succeed |
| `XhciCaptured.CapturedRun` | boot/qotom-xhci-handoff.h:85-147 | the recorded controller, its vendor status changing as recorded or to any other live status: handoff and SMI stage succeed with the recorded words and stores |
| `ConfigAccess.EcamRoundTrip` | boot/qotom-ecam-read.h:18-30 | the ECAM address decodes to its function and offset |
| `ConfigAccess.Cf8RoundTrip` | boot/pci-config-read.h:18-27 | the CF8 address word decodes to its function and offset |
| `ConfigAccess.PortsDiffer` | boot/qotom-ecam-read.h:18-30 | both encodings are injective |
| `ConfigAccess.SpaceShown` | boot/qotom-ecam-read.h:43-58 | hence any configuration space can be shown in full through either mechanism |
| `ConfigAccess.ReadVia` | boot/qotom-ecam-read.h:46-58 | reads exactly the encoded address, or refuses unread outside the segment or the captured allocation |
| `Enumeration.FoundExactly` | boot/pci-enumeration.h:52-86 | the filter contains a header iff its function is present |
| `Enumeration.FoundOrdered` | boot/pci-enumeration.h:52-86 | the filter is in strictly increasing bus, device, function order |
| `Enumeration.LogMeasured` | boot/pci-enumeration.h:52-86 | whatever is answered: one read per function and fifteen more per header, and the headers among the answers in strictly increasing order |
| `Enumeration.EnumerateSegment` | boot/pci-enumeration.h:42-93 | for any answers the log is, function after function in index order, exactly what each was asked, and the published headers are exactly those among the answers; a failure names its function, word and last read, everything before it was read, and nothing is published; over a fixed space success iff at most sixteen functions are present, and then exactly the filter |
| `Enumeration.ScanBothWays` | boot/pci-enumeration.h:42-93 | scans of one space through ECAM and CF8 return the same result and snapshot |
| `CommandClear.ScheduleIsStablePartition` | boot/pci-command-executor.h:38-40 | the served order lists every function once: downstream endpoints, bus-zero endpoints, bridges, each in snapshot order |
| `CommandClear.ReadBack` | boot/pci-command-executor.h:82-97 | the words read into the slot, and which of them stopped the run |
| `CommandClear.ClearFunction` | boot/pci-command-executor.h:71-98 | one store, then the readback, in its own 25-word slot |
| `CommandClear.ExecuteCommandClear` | boot/pci-command-executor.h:45-104 | the complete result of every run: counts, location, trace and log; success on memory that still holds the inventory, leaving every Command zero |
| `CommandClear.SuccessfulRun` | boot/pci-command-executor.h:65-104 | fifteen stores of 0 to the Command registers in schedule order, 240 reads |
| `BootConsole.PrintableLineAdvance` | include/boot_text_console.h:97-110 | n printable bytes and a line feed from column zero, also on a line already written, advance exactly max(1, ceil(n/width)) rows, which hold them in order over what the first row showed |
| `BootConsole.FreshLineAdvance` | include/boot_text_console.h:97-110 | the same on a fresh line: the rows show the text and blanks |
| `BootConsole.GlyphShown` | include/boot_text_console.h:106-107 | a byte from space to tilde shows itself with attribute 07, any other a question mark |
| `BootConsole.ByteExactly` | include/boot_text_console.h:97-109 | what one byte does to the scrollback, cell by cell: carriage return, line feed, delayed wrap, one cell drawn |
| `BootConsole.ScreenExactly` | include/boot_text_console.h:87-96 | the screen is the last lines, top aligned while there are fewer than rows, and where the cursor is |
| `BootConsole.PaneExactly` | include/boot_text_console.h:97-109 | column x of row y is word y * stride + x |
| `BootConsole.MarginExactly` | include/boot_text_console.h:87-96 | every word right of the width or below the height is untouched |
| `BootConsole.TextLayout` | include/boot_text_console.h:97-110 | text without carriage returns is its paragraphs, wrapped, one after another |
| `BootConsole.Console.Scroll` | include/boot_text_console.h:90-95 | rows move up by one, the last is blank, the margin is untouched |
| `BootConsole.Console.NextLine` | include/boot_text_console.h:87-96 | a line feed of the scrollback |
| `BootConsole.Console.Putc` | include/boot_text_console.h:97-110 | one byte is one step of the scrollback; nothing happens when disabled or busy |
| `BootConsole.Console.Write` | include/boot_text_console.h:97-110 | after any byte sequence the cells are the last lines of the scrollback and nothing beyond the width was written |
| `BootConsole.Console.Enable` | include/boot_text_console.h:68-86 | a blank screen and cursor at the origin, or nothing at all |
| `Multiboot.ChainSound` | include/boot_text_console.h:38-61 | a traversal that ends well is a chain of aligned tags with one terminator at the end |
| `Multiboot.ChainComplete` | include/boot_text_console.h:38-61 | and every such chain is found by the traversal |
| `Multiboot.AdvanceCheckImplied` | include/boot_text_console.h:42-43 | the second bound check follows from alignment |
| `Multiboot.SameGeometry` | scripts/check-qotom-handoff-capture.py:25-28 | the unpacked framebuffer fields are the geometry the boot parser assembles |
| `Multiboot.DescribeTags` | scripts/check-qotom-handoff-capture.py:11-36 | the capture tool's report is the chain, each tag with the fields it unpacks |
| `Multiboot.ParseBootText` | include/boot_text_console.h:23-62 | accepts iff the header, chain, single framebuffer tag and surface check hold, and reads that tag's geometry |
| `Multiboot.ParsersAgree` | scripts/check-qotom-handoff-capture.py:11-36 | on blocks whose length is their declared total the boot parser accepts iff the report is valid, not too long, and its only framebuffer tag carries a geometry the surface check accepts |
| `Multiboot.CompareParsers` | include/boot_text_console.h:23-62 | both parsers run on one block: same verdict, and the boot parser's geometry is the one in the report's only framebuffer tag |
| `PortAudit.BuildGraph` | scripts/check-direct-port-sites.py:226-263 | every instruction's successors, or a refusal of unreviewed control flow |
| `PortAudit.BranchEdges` | scripts/check-direct-port-sites.py:247-257 | in every accepted graph both ways out of a conditional branch are edges |
| `PortAudit.JumpEdges` | scripts/check-direct-port-sites.py:241-246 | a jump's only edge is its printed target |
| `PortAudit.StopEdges` | scripts/check-direct-port-sites.py:258-259 | returns, `ud2` and halts have no edge |
| `PortAudit.OtherEdges` | scripts/check-direct-port-sites.py:235-262 | everything else continues at the next instruction, and a call names a symbol |
| `PortAudit.ReachableAddresses` | scripts/check-direct-port-sites.py:266-278 | the worklist returns exactly the addresses with a path that avoids the blocked one |
| `PortAudit.UnreachedIsDominated` | scripts/check-direct-port-sites.py:354-378 | not reached without the gate iff every path passes the gate |
| `PortAudit.Audit` | scripts/check-direct-port-sites.py:335-378 | accepts iff the calls are unique and reachable and the quarantine call dominates the user entry or the only halt |
| `PortAudit.OverapproximatesIffCovered` | scripts/check-direct-port-sites.py:226-263 | for every listing, repeated addresses included: every machine step is an edge iff the graph covers where each instruction can arrive |
| `PortAudit.OverapproximatesIffUnderstood` | scripts/check-direct-port-sites.py:226-263 | with one instruction per address: iff every instruction is one the opcode table gets right |
| `PortAudit.QuarantineBeforeUser` | scripts/check-direct-port-sites.py:369-378 | every execution of an accepted, covered body that arrives at the user entry has executed the quarantine call |
| `PortAudit.QuarantineBeforeHalt` | scripts/check-direct-port-sites.py:356-368 | the same for the halt of a terminal image |
| `PortAudit.AcceptedQuarantinesFirst` | scripts/check-direct-port-sites.py:335-378 | from the audit's acceptance, on the listing alone: understood instructions at distinct addresses never reach the user entry first |
| `PortAudit.PassesExactly` | scripts/check-direct-port-sites.py:235-257 | from one line of the listing: the graph construction goes on iff the shape passes |
| `PortAudit.HarmlessIffPlain` | scripts/check-direct-port-sites.py:235-262 | a passing shape of instruction is harmless in every accepted listing iff it is plain: not a call or `xbegin` without a printed target or with one in the body, not a halt that can wake, not a mnemonic of unknown flow |
| `PortAudit.ShapeEscapes` | scripts/check-direct-port-sites.py:235-262 | for every other passing shape: an accepted listing, understood but for that line, and an execution that skips the quarantine call |
| `PortAudit.PrefixesEscape` | scripts/check-direct-port-sites.py:260-262 | `notrack`, `bnd` and the far transfers pass and are not harmless, whatever else is known of the machine |
| `PortAudit.CallEscapes` | scripts/check-direct-port-sites.py:235-240 | an indirect call with a symbol in its comment, and a call into the body, pass and are not harmless |
| `PortAudit.RepeatedAddressEscapes` | scripts/check-direct-port-sites.py:226-228 | a listing with a repeated address that is accepted, not covered, and escapes |
| `Stripper.StripMeaning` | scripts/check-native-decide-policy.py:33-96 | the output has no comment opener and no quote, differs from the input only by blanks, equals it iff it was clean; idempotent |
| `Stripper.LinesKept` | scripts/check-native-decide-policy.py:149-150 | every offset keeps its line number |
| `Stripper.LineNumberExactly` | scripts/check-native-decide-policy.py:149-150 | the line number is one more than the line breaks before the offset |
| `Stripper.NewlineKept` | scripts/check-native-decide-policy.py:41-43 | exactly the line breaks stay line breaks |
| `Stripper.StripCommentsAndStrings` | scripts/check-native-decide-policy.py:33-96 | the index-driven machine computes the recursive grammar of nested block comments, line comments and escaped strings |
| `StripLaws.StripObeys` | scripts/check-native-decide-policy.py:33-96 | for every comment tree, literal and line comment as it is written, closed or not, and any text behind it: the construct is blanked and the rest stripped on its own; plain characters stay |
| `StripLaws.OnlyStripObeys` | scripts/check-native-decide-policy.py:33-96 | nothing else obeys these laws: they determine the result on every text |

## Left out

- Returns for null pointers, except in the copy-root builder: each is one test at the start of a function.
- The generated decisions: the text-surface check, the Broadcom write and admission checks and the inventory admission are function parameters; console geometry bounds are a precondition of enabling.
- `leanos_boot_text_surface`'s own arithmetic and any claim that a rejecting parse clears its output: it may leave a partly filled geometry.
- Serial text framing and regular expressions of the capture decoders: the integer and list conditions are modelled on parsed numbers.
- PortAudit.QuarantineBeforeUser: false of the code in general, since the opcode table takes prefixed and far transfers, indirect calls with a symbol in their comment and calls into the body for straight-line code; proved under the exact condition for the graph to over-approximate the machine, and `PortAudit.HarmlessIffPlain` says for every shape of instruction whether it can break the property.
- PortAudit.QuarantineBeforeHalt: under the same condition.
- What callees do before they return, and returns that do not go back to a call: the machine of the audit has one activation of the body.
- The caller-set part of the call-graph validation, and the parsing of disassembler output.
- The remaining bus-master-clear and state collectors (AHCI, EHCI, xHCI, HDA, graphics, Realtek, TXE): the same bracketed read, store and readback shape.
- The Realtek wrapper of the polling loop: a prior check in front of the modelled loop.
- The pending and D3 capture decoders, which are stricter than the code they decode: a run can time out or lose a delay with a clear last sample.
- The native inventory, final admission and BSP consumer headers, whose decisions are generated.
- Write-one-to-clear and read-only bits of the USB registers: on the faithful controllers of the success theorems a store is kept as written, while under arbitrary answers nothing is assumed about stores.
- Hardware meaning beyond the log: posted writes, firmware and SMM activity, TLB and CR3 effects.
- ELF, objdump, QEMU, manifest, hashing and bundle scripts.
