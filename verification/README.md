# Verified model of the .LEXE runtime core

A Dafny model of the parts of the package runtime that carry its guarantees:
the crash-safe install transaction, the dependency walker, the independent
package validator, the update protocol, the atomic file writer, the two glibc
computations, and the orders, codecs and printers they rest on. Everything is
checked by `dafny verify dfyconfig.toml`.

## How the source is modelled

- An object whose methods change its fields is a class
  (`Installer.InstallTransaction`, `DepEngine.Resolver`, `ZipValidator.Container`,
  `JsonStrict.DuplicateKeyDetector`, `AtomicWriter.Directory`, `Updater.Updater`);
  a loop is a loop. Each method is tied by its `ensures` to a function of its
  inputs, and the lemmas are about that function.
- The filesystem under `apps/<id>/` is a value (`AppDirectory.Disk`) and every
  mutation an effect on it. A crash leaves the disk between two effects or inside
  one that is not atomic: a recursive removal or a copy leaves a partial tree, a
  plain write a prefix. Renames and journal writes are atomic. An effect that cannot
  be carried out is an exception, and nothing after it is done; an exception inside
  the transaction is a crash, and the recovery that its handler runs is a recovery.
- The machine around an analysis is a `World` of functions: which paths are files,
  what the ELF reader says of a file, how a path is made canonical.
- SHA-256, Ed25519, entry inflation and the package pipeline are functions of the
  bytes. What a server, a download, a trust gate or a crash does is an input.
- Bytes are integers below 256; masks and shifts are written as the remainders,
  quotients and products they compute (`Utf8.MasksAreRanges` and
  `Utf8.ShiftIsProduct` say so for machine words). Where C++ reads `std::string`
  bytes as characters, the model uses `char`.

## Where the code and its documentation differ

The model follows the code. Each difference below has a lemma with a concrete
state, and the exact condition for the documented behaviour.

- The activation is documented as an atomic flip (transaction.hpp:15-24, HARDENING
  section A). `set_current_version` removes both pointers before it creates one, so
  there is a window without a current version (`Transaction.FlipHasAGap` says
  exactly which, `Transaction.ForwardFlipHasAGap` for a recovery), and without symlinks
  a crash can leave a prefix of the version name (`Transaction.FlipCanTear`). Recovery
  repairs both.
- `install` says that a recovered install lacks nothing that an ordinary one would have
  done (installer.cpp:640-644). Inside `apps/<id>/` it lacks one thing: the runtime
  contract is resolved after the record has gone into the journal and only by `install`,
  so a promoted install that recovery completes keeps the contract of the previous
  version, or none (`Transaction.CompletionExact`). The launcher decides by that
  contract: `Transaction.LaunchAfterCompletion` says when it decides alike, and
  `Transaction.StaleContractExample` is an update that it refuses to start.
- Outside `apps/<id>/` it lacks three: after the commit `install` writes the data-owner
  marker, records an explicit trust and removes the saved approvals
  (installer.cpp:906-934). Recovery records a trust that is never explicit, and neither
  recovery nor a second `install` of the same package makes up for the rest
  (`InstallEndings.RerunSettlesNothing`). `InstallEndings.CompletionIsWholeExact` and
  `InstallEndings.BesideAfterCommit` say exactly when nothing is lost.
  `InstallEndings.MarkerMissingExample` is a first install after which the data of the
  application has no owner, which HARDENING.md:242 relies on.
- The comment at installer.cpp:899-904 leaves an existing marker as it is; the code
  writes it each time, and not atomically. `InstallEndings.MarkerCanTear`: a crash inside
  the write of a first install leaves part of a key, and the application's own publisher
  is refused from then on.
- A source that the user has set is "never silently replaced" (installer.cpp:739-741).
  `set_source` does not recover first, so a pending install brings its source back:
  `UpdateProtocol.SetSourceExact`, `UpdateProtocol.SourceIsKept` and, as an example,
  `UpdateProtocol.SourceLostExample`.
- A crash in `begin` after the staging directory is made and before the journal is
  written leaves the staging directory; no recovery removes it, the next install
  does (`Transaction.BeginLeavesStaging`, `Transaction.RecoveryClearsStaging`).
- `promote` and `abort` remove `versions/<target>`. This is safe because the target
  is not the current version, which `install` refuses; `Transaction.CurrentTargetWouldBreak`
  shows what would happen otherwise. A version other than the current one that was
  kept for a rollback is lost when its reinstallation is rolled back: that version
  is the target, and "other versions are unchanged" speaks of the others.
- `sandbox_search_dirs` stops at the package's own directories and omits `$ORIGIN`
  entries that stand after an absolute one, so a library found only there is
  reported from the build machine (`DepResolve.LateOriginExample`;
  `DepResolve.IndependentIffRobust` is the exact condition).
- A library whose soname is spelled `<root>` makes the walker report a cycle that is
  not there (`DepWalk.RootNameExample`). `DepWalk.CyclesExact` is the exact condition
  for an empty report to mean an acyclic graph, and `DepWalk.NamedReportsExact` reads
  the report so that it is right for every name.
- crypto.cpp:295-306 wants an application to stay updatable when its recorded key is
  not in the canonical spelling; `Updater::check` decodes the recorded key strictly,
  so no update can be offered to it (`UpdateProtocol.OfferableExact`,
  `UpdateProtocol.OfferableSomewhere`).
- After an update that was cut short past its promotion, the next update is measured
  against the record from before; it can replace the pending version by one of the
  same rank and another spelling (`UpdateProtocol.RespellingExample`,
  `UpdateProtocol.SuccessExact`). Versions still never go down or come back.
- `quote_windows_arg` is the inverse of the rules for arguments; the program name, the
  first word of the line, is read by another rule. `WinArgs.WholeLineExact` says for
  which program names the whole vector comes back.
- A data descriptor may stand without its signature word (section 4.3.9.3 of the
  APPNOTE). The validator looks for the word, so where the checksum that begins a
  descriptor without it spells it, the record is taken to be four bytes longer, and a
  correct archive has unaccounted bytes (`ZipWriter.SpelledWordExample`). It also takes
  the end of the last comment for a ZIP64 locator if it looks like one
  (`ZipWriter.SpelledLocatorExample`). `ZipWriter.WrittenIsFramed`: these are the only
  archives within the limits that it does not accept.
- A desktop-entry value, or a list, that begins with a space loses it in reading
  (`DesktopEntry.ValueReadsBack`, `DesktopEntry.ListReadsBack`).
- depengine.hpp calls the glibc requirement one notion; the two computations differ
  when the highest need has a negative minor version (`Glibc.RequirementsAgree`,
  `Tux32.NegativeMinorExample`).

## Model

| member | source | states |
|---|---|---|
| Installer.AppDir.SetCurrentVersion | src/lexe/state/registry.cpp:362-389 | the flip: version must exist, or an exception ends it; remove symlink, remove current.txt, then create one of them |
| Installer.InstallTransaction.Begin | src/lexe/install/transaction.cpp:150-159 | old staging goes, fresh staging is made, then the journal says Preparing |
| Installer.InstallTransaction.MarkPhase | src/lexe/install/transaction.cpp:138-162 | one journal write with the target, the previous version, the phase and the pending record |
| Installer.InstallTransaction.Promote | src/lexe/install/transaction.cpp:189-219 | target trees removed, meta renamed in, version renamed in, journal Promoted, in this order and up to the first that fails |
| Installer.InstallTransaction.Commit | src/lexe/install/transaction.cpp:225-229 | staging removed, then the journal |
| Installer.InstallTransaction.Abort | src/lexe/install/transaction.cpp:231-243 | staging, target version and target meta removed, the journal last |
| Installer.RecoverLocked | src/lexe/install/installer.cpp:962-1074 | from any disk, carries out the recovery program as far as it goes; the exception comes exactly when a promoted version directory is gone while its metadata is there, a version is reported exactly when one was completed forward, and exactly then its key is recorded as trusted where the trust store takes it |
| Installer.CompleteForward | src/lexe/install/installer.cpp:1018-1074 | the forward half of recovery: active files, the pending record with the target version, the flip or its exception, the trust record, the end of the transaction |
| Installer.Transact | src/lexe/install/installer.cpp:769-885 | performs the 21 effects of an install in order, the record being the one in the journal with desktop files and the runtime contract resolved in between; an unsound staged tree is an exception after the sixth |
| Installer.Install | src/lexe/install/installer.cpp:536-937 | recovery first, then the gates in order, then the transaction. Installed or failed exactly when every gate lets the package in, installed exactly if the staged tree is sound too. Installed: the payload is under the version, the metadata under the version and beside the record, the version is current, everything else is as recovery left it, and each field of the record is the named one of manifest, options or old record; the key is trusted, the marker names it, the approvals are gone. Failed: as recovery left it but without the target. Healed or refused: as recovery left it, with the reason of the first gate that refuses; and in every case the effects carried out |
| Installer.InstalledContents | src/lexe/install/installer.cpp:769-885 | the disk after the uninterrupted transaction of a package: payload, metadata, active files, current version and every field of the record |
| Installer.FailedContents | src/lexe/install/installer.cpp:886-899 | after an unsound tree and the rollback: the disk from before, without the target |
| Installer.AdmittedExact | src/lexe/install/installer.cpp:656-757 | the gates let a package in exactly if it is well-formed, trusted and permitted, and over an installation only under the same key, not the current version and none below it unless asked for |
| InstallPlan.RefusalExact | src/lexe/install/installer.cpp:656-757 | each other answer of the gates under exactly its own condition, in the order of the gates |
| Installer.ProceedIsAccepted | src/lexe/install/installer.cpp:729-757 | past the gates, on a settled disk, the trust store lets the key in and the transaction is one that the machine of all runs accepts |
| Installer.Outside.RecordAccept | src/lexe/verify/trust.cpp:415-453 | the trust record afterwards, and the refusals of a block, another key or an unreadable record |
| Installer.Outside.Settle | src/lexe/install/installer.cpp:899-934 | the marker, then the trust record, then the approvals, each only after the one before |
| LocalTrust.AllowedIsRecorded | src/lexe/verify/trust.cpp:415-453 | a key that the gate lets in is recorded without objection by `install` and by recovery, and is known to the gate afterwards |
| LocalTrust.GateExact | src/lexe/verify/trust.cpp:341-410 | a key is let in exactly if there is no record and the data has no other owner, or the record has that key and no block |
| LocalTrust.TrimmedExact | src/lexe/verify/trust.cpp:341-362 | the owner is the marker without exactly the blanks and line ends at its end |
| LocalTrust.ForgottenGateExact | src/lexe/verify/trust.cpp:341-362 | once the trust record is forgotten, a key is let in exactly if the marker names it or names none |
| LocalTrust.KeyIsItsMarker | src/lexe/install/installer.cpp:570-579 | a marker that holds a key is read back as that key |
| InstallEndings.BesideAfterCompletion | src/lexe/install/installer.cpp:899-934 | after a crash between promotion and commit, and recovery, the state outside the directory is that of the whole install if and only if the marker named the key, no approvals were saved, and an explicit trust was there before |
| InstallEndings.BesideAfterCommit | src/lexe/install/installer.cpp:899-934 | after a crash at or behind the commit it is if and only if the steps left would have changed nothing |
| InstallEndings.RerunSettlesNothing | src/lexe/install/installer.cpp:615-669 | installing the same package again reports success or a conflict and changes nothing |
| InstallEndings.CompletionIsWholeExact | src/lexe/install/installer.cpp:640-647 | inside and outside together: a recovered install is the whole one if and only if the contracts agree and nothing was left to settle |
| InstallEndings.MarkerMissingExample | src/lexe/verify/trust.cpp:341-362 | a recovered first install: after the trust is forgotten any key is let in, where a whole install lets in only its own |
| InstallEndings.MarkerCanTear | src/lexe/install/installer.cpp:906-912 | a torn marker of a first install makes the gate refuse the application's own key |
| Transaction.InvNext | src/lexe/install/transaction.cpp:150-243 | every step of an install, a recovery on any host or a crash, in any order, keeps the invariant of the machine |
| Transaction.Safety | src/lexe/install/transaction.cpp:150-243 | in every state of every run with any number of crashes: versions other than the target are unchanged; before promotion `current` names a complete version with complete meta or nothing; after it the target is complete and `current` is at a point of the flip |
| Transaction.NeverStuck | src/lexe/install/transaction.cpp:189-219 | no rename, extraction or flip of any run fails because something it needs is missing or in the way |
| Transaction.RecoverIdempotent | src/lexe/install/transaction.hpp:15-24 | from any disk, also one on which recovery throws, a second recovery changes nothing |
| Transaction.RecoveryConverges | src/lexe/install/transaction.hpp:9-24 | one uninterrupted recovery of any reachable disk, on any host, throws nothing and leaves no journal and a complete active version or none; the durable phase alone decides between the previous installation and the new one with exactly the pending record |
| Transaction.InterruptedRecovery | src/lexe/install/installer.cpp:962-1074 | a recovery cut short after or inside any effect is completed by the next one, on another host, to exactly the disk of a single recovery there |
| Transaction.AnyNumberOfCrashes | src/lexe/install/installer.hpp:264-268 | so is any chain of interrupted recoveries on different hosts: the result is that of one recovery on the host that removed the journal |
| Transaction.RecoveryClearsStaging | src/lexe/install/transaction.hpp:20-24 | after recovery there is no staging exactly when there was none, or a journal and no exception |
| Transaction.InstallActivates | src/lexe/install/installer.cpp:849-885 | an uninterrupted install makes the new version active, with the resolved runtime contract in its record |
| Transaction.CompletionExact | src/lexe/install/installer.cpp:876-878 | inside `apps/<id>/`, recovery of any promoted disk of a run ends on the disk of the uninterrupted install but for the record; on that record too if and only if the runtime contract carried over is the one the payload resolves to |
| Transaction.LaunchAfterCompletion | src/lexe/runtime/launcher.cpp:546-570 | after the uninterrupted install the launcher decides by the resolved contract, after a recovered one by that of the previous version or none |
| Transaction.StaleContractExample | src/lexe/install/installer.cpp:1018-1054 | an update that brings a missing library is completed by recovery, is active, and is refused by the launcher |
| Transaction.FlipHasAGap | src/lexe/state/registry.cpp:374-389 | an upgrade cut short after k effects has no current version exactly for the effects between removing the old pointer and creating the new one |
| Transaction.ForwardFlipHasAGap | src/lexe/install/installer.cpp:1052-1056 | the same window of a forward recovery: after its fourth and fifth effect, and before that what the crash had left |
| Transaction.FlipCanTear | src/lexe/state/registry.cpp:374-389 | without symlinks, any non-empty prefix of the new version name can be left as the current one; that is a complete version exactly if it is the whole name or the name of another complete one |
| Transaction.BeginLeavesStaging | src/lexe/install/transaction.cpp:150-159 | a crash before the first journal write leaves staging that recovery does not see |
| Transaction.FailureRollsBack | src/lexe/install/installer.cpp:886-899 | an exception between the first journal write and the Promoted one ends with the previous installation active and the target gone |
| Transaction.CurrentTargetWouldBreak | src/lexe/install/transaction.cpp:189-243 | with the current version as target, the trace from `begin` on: no valid current version between the removal and the renames of `promote`, nor after the rollback of any crash before the Promoted journal |
| Lex.CompareTransitive | src/lexe/base/versioncmp.cpp:31-57 | byte-string comparison is transitive, strictly where one step is strict |
| Lex.CompareExact | src/lexe/base/versioncmp.cpp:31-57 | below exactly if, after a common beginning, the first text ends or has the smaller byte; zero exactly for the same text |
| DepResolve.RobustIsIndependent | src/lexe/analysis/depengine.cpp:377-429 | two machines that agree on what the sandbox can see give the same resolved path and origin, under the robustness condition |
| DepResolve.FragileDependsOnMachine | src/lexe/analysis/depengine.cpp:300-349 | without it, the machines that have the soname in every machine-only directory and in none give different answers |
| DepResolve.IndependentIffRobust | src/lexe/analysis/depengine.cpp:300-429 | for a soname the sandbox can satisfy, the answer is the same on every machine if and only if no machine-only directory comes before the shared file or the second look finds that file |
| DepResolve.LateOriginIsFragile | src/lexe/analysis/depengine.cpp:340-349 | a library found only by an `$ORIGIN` entry after a machine-only one is never robust |
| DepResolve.LateOriginExample | src/lexe/analysis/depengine.cpp:340-349 | an executable with the rpath `/b:$ORIGIN` and its library beside it: the answer depends on the build machine |
| DepEngine.Resolver.Visit | src/lexe/analysis/depengine.cpp:351-459 | the recursive visit over `dependencies`, `index`, `on_path` and `cycles` computes the walk function |
| DepEngine.Resolver.Need | src/lexe/analysis/depengine.cpp:358-458 | one needed soname: met again, or discovered, opened, visited and closed |
| DepEngine.Resolver.MeetAgain | src/lexe/analysis/depengine.cpp:358-376 | a known soname gains the dependant once, and a pair is reported when it is on the path |
| DepEngine.Analyze | src/lexe/analysis/depengine.cpp:464-491 | nothing for a file that is not ELF; otherwise the entries of the walk, sorted by soname, and its cycles. Every entry is for a soname that an object of the walk needs: the host, driver, bundled or unresolved kind by its name and by whether a file was found, the first file in search order or the one of the sandbox in its place, where that lies, its machine and its needs; the objects are the executable and the files of the bundled entries |
| DepReport.EntriesExact | src/lexe/analysis/depengine.cpp:351-459 | the same of every walk, without the functions that build it; and no library of the host or of a driver is ever walked |
| DepReport.DiscoverExact | src/lexe/analysis/depengine.cpp:265-459 | of one needed soname: a host name is of the host, another driver name is forbidden whether found or not, and only of the rest the found ones are bundled; a file outside package and system gives way to what the sandbox finds |
| DepReport.HostNameExact | src/lexe/analysis/depengine.cpp:45-58 | the fifteen names of the host, and every loader |
| DepReport.DriverNameExact | src/lexe/analysis/depengine.cpp:63-77 | the twelve prefixes of driver libraries |
| DepReport.SearchOrder | src/lexe/analysis/depengine.cpp:300-349 | position by position: payload, runpath, rpath, the directories of the caller, the system; a runtime contract has no payload and no directories of the caller, the sandbox only the payload and the system |
| DepReport.DefaultDirsExact | src/lexe/analysis/depengine.cpp:104-116 | the directories of the system for each machine |
| DepReport.ResolveExact | src/lexe/analysis/depengine.cpp:187-208 | the first directory with a file of that name, and none for a soname that is a path |
| DepReport.OriginExact | src/lexe/analysis/depengine.cpp:233-257 | in the package under an own `$ORIGIN` entry or the payload; else in the system; else elsewhere |
| DepEngine.SortDepsSorts | src/lexe/analysis/depengine.cpp:464-491 | the result is ordered by soname |
| DepWalk.WalkIsComplete | src/lexe/analysis/depengine.cpp:351-459 | the finished walk satisfies the whole invariant with nothing left open |
| DepWalk.CapHolds | src/lexe/analysis/depengine.cpp:351-459 | the node cap is never exceeded and every soname is listed once, for every graph |
| DepWalk.ListIsExact | src/lexe/analysis/depengine.cpp:351-491 | below the cap: the list holds exactly what the root and the walked libraries need, and `needed_by` is exactly the set of objects that need the entry, without repeats |
| DepWalk.ReportsAreCycles | src/lexe/analysis/depengine.cpp:358-376 | every reported pair that names a walked library is an edge back to an ancestor and closes a cycle; any other names an unwalked `<root>` |
| DepWalk.NamedReportsExact | src/lexe/analysis/depengine.cpp:351-459 | below the cap and for every name: some report names a walked library if and only if the graph of walked objects has a cycle |
| DepWalk.RootReportsExact | src/lexe/analysis/depengine.cpp:358-376 | below the cap, where no library `<root>` is walked, the reports that name it are one less than its mentions in the needed lists |
| DepWalk.CyclesExact | src/lexe/analysis/depengine.cpp:351-459 | below the cap, an empty report means an acyclic graph and the other way round if and only if the graph has a cycle, or a library `<root>` is walked, or the needed lists of the walked objects mention `<root>` at most once |
| DepWalk.RootNameExample | src/lexe/analysis/depengine.cpp:351-376 | a soname spelled `<root>` yields a report although the graph is acyclic |
| ZipFraming.EndToEndTiles | tools/lexe-conformance/lexe_conformance.py:553-571 | spans that follow one another cover every offset of the range exactly once |
| ZipFraming.TilesEndToEnd | tools/lexe-conformance/lexe_conformance.py:553-571 | sorted spans that cover every offset once follow one another |
| ZipFraming.FramingExact | tools/lexe-conformance/lexe_conformance.py:486-571 | in whatever order the spans were collected, the cursor loop finds nothing exactly when they tile the range |
| ZipFraming.ScanAgrees | tools/lexe-conformance/lexe_conformance.py:503-551 | the header scan finds nothing exactly when every local header is there and agrees with its central record |
| ZipFraming.CleanIffFramed | tools/lexe-conformance/lexe_conformance.py:574-625 | the framing checks report nothing if and only if the archive is framed |
| ZipFraming.EveryByteAccounted | tools/lexe-conformance/lexe_conformance.py:234-325 | in a framed file every byte lies in exactly one of: one local record named by the directory, one counted central record, the final 22 bytes |
| ZipFraming.ReportExact | tools/lexe-conformance/lexe_conformance.py:486-625 | every finding is reported exactly when what it says of end record, directory and local headers is so |
| ZipWriter.EndRead | tools/lexe-conformance/lexe_conformance.py:234-278 | of every file that the writer makes, the end record is read with the fields that were written |
| ZipWriter.DirectoryRead | tools/lexe-conformance/lexe_conformance.py:280-324 | the central records are read back as the members that were written, to the end of the directory |
| ZipWriter.LocalRead | tools/lexe-conformance/lexe_conformance.py:503-549 | a local header is read back field by field; its record ends where it was written to end, unless a descriptor without its word has a checksum that spells the word |
| ZipWriter.WrittenIsFramed | tools/lexe-conformance/lexe_conformance.py:486-625 | every archive within the 16- and 32-bit limits is readable, and framed exactly if no checksum spells the descriptor word and nothing before the end record spells a ZIP64 locator |
| ZipWriter.SpelledWordExample | tools/lexe-conformance/lexe_conformance.py:541-549 | an archive of one empty member whose checksum spells the word is found to have unaccounted bytes |
| ZipWriter.SpelledLocatorExample | tools/lexe-conformance/lexe_conformance.py:254-257 | an archive whose last comment looks like a ZIP64 locator is refused as ZIP64 |
| ZipValidator.Container.ParseCentralDirectory | tools/lexe-conformance/lexe_conformance.py:280-325 | the stored entries and end are those of the record chain; the container is unreadable exactly where the chain throws, or is empty though the end record announces a directory |
| ZipValidator.Container.WalkRecords | tools/lexe-conformance/lexe_conformance.py:288-325 | the loop over the central records computes the record chain, including where unpacking throws |
| ZipValidator.Container.ScanLocals | tools/lexe-conformance/lexe_conformance.py:503-551 | the findings and the spans of the local headers, up to the first missing one |
| ZipValidator.Container.CheckSpans | tools/lexe-conformance/lexe_conformance.py:553-571 | the cursor loop adds exactly the findings of its specification |
| ZipValidator.Container.CheckFraming | tools/lexe-conformance/lexe_conformance.py:574-625 | the findings of the container checks, in order |
| ZipValidator.Validate | tools/lexe-conformance/lexe_conformance.py:486-625 | throws exactly where the file gives nothing to read; reports nothing exactly for framed files, of which every byte is accounted for once; otherwise each finding exactly when what it says is so; and of every file that the independent writer makes it reports nothing exactly if the file is unambiguous |
| Json.StartValue | tools/lexe-conformance/lexe_conformance.py:854-888 | one round of the outer loop keeps the answer of the recursive reading |
| Json.AttachValue | tools/lexe-conformance/lexe_conformance.py:889-916 | attaching a finished value to the top of the stack keeps the answer, and moves on |
| Json.IterativeParse | tools/lexe-conformance/lexe_conformance.py:836-916 | the parser with an explicit stack terminates and returns the result of the recursive reading: same tree, same duplicates, same position, same failures |
| JsonDocuments.StrictJson | tools/lexe-conformance/lexe_conformance.py:743-785 | one value with white space around it and nothing after it |
| JsonGrammar.SpelledIsRead | tools/lexe-conformance/lexe_conformance.py:836-916 | every spelling of a value by the grammar of RFC 8259 is read as its tree, to its last token |
| JsonGrammar.ReadIsSpelled | tools/lexe-conformance/lexe_conformance.py:836-916 | whatever is read was spelled by the grammar |
| JsonGrammar.AcceptedIffText | tools/lexe-conformance/lexe_conformance.py:743-785 | a token list is accepted if and only if it is a document of sections 2 to 5 of RFC 8259 |
| JsonGrammar.DupsExact | tools/lexe-conformance/lexe_conformance.py:754-760 | a duplicate is listed if and only if some object, at any depth, repeats a key |
| JsonGrammar.PrintReads | tools/lexe-conformance/lexe_conformance.py:836-916 | reading undoes the printer with arbitrary white space |
| JsonStrict.DuplicateKeyDetector.OnKey | src/lexe/base/json_strict.cpp:44-50 | the key is added to the top set; refused, with the message, exactly when it was there |
| JsonStrict.DuplicateKeyDetector.Run | src/lexe/base/json_strict.cpp:112-125 | the run over the events of a document stops exactly at the first repeated key |
| JsonStrict.DetectValue | src/lexe/base/json_strict.cpp:40-56 | a value inside a document leaves the stack of key sets as it found it, or the run has stopped at a repeated key |
| JsonStrict.SidesAgree | src/lexe/base/json_strict.cpp:22-63 | the event handler accepts exactly the trees for which the validator lists no duplicate, and never pops an empty stack |
| AtomicWriter.TmpNamesInjective | src/lexe/base/util.cpp:299-303 | the temporary name determines process id and counter, and is never the file itself |
| AtomicWriter.NeverTorn | src/lexe/base/util.cpp:281-325 | in every interleaving of any number of writers the file is the initial content, missing on the fallback path only, or one writer's complete text; where renames replace, no writer fails |
| AtomicWriter.FileIsThereAtTheEnd | src/lexe/base/util.cpp:310-325 | once every writer has finished, the file exists |
| AtomicWriter.SuccessIsTrue | src/lexe/base/util.cpp:281-325 | in every interleaving, a writer that reports success has put its whole text in place at some step of its own |
| AtomicWriter.AloneSucceeds | src/lexe/base/util.cpp:281-325 | a writer alone ends successfully with its whole text and no temporary, on either path |
| AtomicWriter.Directory.WriteAtomic | src/lexe/base/util.cpp:281-325 | the method as a whole: success, the whole text, nothing else changed |
| Versions.NumericByValue | src/lexe/base/versioncmp.cpp:31-40 | digit components of any length compare as the numbers they stand for |
| Versions.ComponentExact | src/lexe/base/versioncmp.cpp:42-57 | below exactly for a smaller number, a number against anything else, or an earlier byte string; level exactly for equal numbers or equal texts |
| Versions.SplitExact | src/lexe/base/versioncmp.cpp:61-82 | the components are the one list of texts without dots that the version joins |
| Versions.OrderExact | src/lexe/base/versioncmp.cpp:61-82 | below exactly if, after level components, the list ends or has a component below |
| Versions.ComponentTransitive | src/lexe/base/versioncmp.cpp:42-57 | component comparison is transitive across the numeric and non-numeric classes |
| Versions.TotalPreorder | src/lexe/base/versioncmp.cpp:61-82 | the version order flips its sign when its arguments are swapped and is transitive, strictly where one step is strict |
| Versions.EqualIsCongruent | src/lexe/base/versioncmp.cpp:61-82 | versions that compare equal compare alike with every other version |
| Versions.NonNumericIsAbove | src/gui/lexe-builder/builder.cpp:771-785 | a version whose first component is not a number is above every version whose first component is |
| Versions.CompareVersions | src/lexe/base/versioncmp.cpp:61-82 | the loop over two positions computes that order of the component lists, and says which comes first |
| WinArgs.QuoteWindowsArg | src/lexe/base/util.cpp:593-622 | the nested loops compute the quoting of the specification |
| WinArgs.QuotedExact | src/lexe/base/util.cpp:593-600 | a word is left as it is exactly if it is not empty and has none of the five special characters |
| WinArgs.ReadBody | src/lexe/base/util.cpp:593-622 | reading the quoted text up to its closing quote gives the word back, with every run of backslashes |
| WinArgs.RoundTrip | src/lexe/base/util.cpp:593-622 | for every list of words, joining the quoted words and reading the line returns the list |
| WinArgs.BuildCommandLine | src/lexe/base/util.cpp:624-631 | the command line of `run_process` reads back as its argument vector |
| WinArgs.ProgramNameExact | src/lexe/base/util.cpp:593-631 | by the rule for program names, the first word comes back exactly when it needs no quotes, or has no quote and does not end in a backslash |
| WinArgs.WholeLineExact | src/lexe/base/util.cpp:624-631 | program name and arguments together come back exactly under that condition |
| Utf8.StepReads | src/lexe/base/util.cpp:357-395 | a sequence that is accepted encodes a Unicode scalar value, and is its encoding |
| Utf8.EncodedReads | src/lexe/base/util.cpp:357-395 | whatever follows, the encoding of a scalar value is read as that value |
| Utf8.DecodersAgree | src/lexe/base/util.cpp:504-557 | the decoder inside `display_safe` and that of `is_valid_utf8`, written separately, accept the same sequences with the same values |
| Utf8.ValidExact | src/lexe/base/util.cpp:357-395 | a string is valid exactly when it is the encoding of some scalar values, and of one sequence only |
| Utf8.IsValidUtf8 | src/lexe/base/util.cpp:357-395 | the loop decides validity |
| DisplaySafe.SafeIsClean | src/lexe/base/util.cpp:504-557 | the output is valid UTF-8 without the control and hidden code points, for any input bytes |
| DisplaySafe.SafeExact | src/lexe/base/util.cpp:504-557 | text is left unchanged exactly when it is clean, and a second pass changes nothing |
| DisplaySafe.CodeIsSpelled | src/lexe/base/util.cpp:504-557 | whatever follows, a control is shown as `\xNN`, a hidden code point as `\u{NNNN}` in upper-case digits, and any other one as it is |
| DisplaySafe.BrokenIsSpelled | src/lexe/base/util.cpp:504-557 | a byte at which no encoded code point begins is shown as `\xNN`, and the text after it as by itself |
| DisplaySafe.DisplaySafe | src/lexe/base/util.cpp:504-557 | the loop computes the specification |
| DisplaySafe.DecodeAt | src/lexe/base/util.cpp:525-544 | the strict decoding of one sequence |
| Base64.DecodeUndoesEncode | src/lexe/base/util.cpp:87-169 | decoding the encoding of any byte string returns it |
| Base64.AlphabetExact | src/lexe/base/util.cpp:84-85 | the 64 characters of the alphabet in their order |
| Base64.EncodesTriple | src/lexe/base/util.cpp:87-117 | one, two or three bytes become the characters for their bits from the high ones down, with padding for what is missing |
| Base64.EncodeAfterDecode | src/lexe/base/util.cpp:133-169 | encoding what was decoded gives the text back with only the unused bits of its last sextet cleared |
| Base64.CanonicalExact | tools/lexe-conformance/lexe_conformance.py:1626-1632 | the texts that survive decoding and encoding are exactly the encodings, one for each byte string, and among accepted texts those with zero unused bits |
| Base64.DecodeIsGroups | src/lexe/base/util.cpp:133-169 | scanning by index and reading group by group accept the same texts with the same bytes |
| Base64.EncodeBytes | src/lexe/base/util.cpp:87-117 | the loop over groups of three and its remainders computes the encoding |
| Base64.DecodeText | src/lexe/base/util.cpp:133-169 | the decoder returns the bytes or the first fault: length, padding in the middle, or a character outside the alphabet |
| Base64.DecodeFaultExact | src/lexe/base/util.cpp:133-169 | a text is taken exactly if its length is a multiple of four and every character has its place; else the fault is the length, or that of the first character out of place |
| PublisherKey.OneSpelling | src/lexe/package/crypto.cpp:329-359 | a key has exactly one accepted spelling, and the runtime and the validator accept it and no other text |
| PublisherKey.SameKeyExact | src/lexe/package/crypto.cpp:311-373 | two texts are the same key exactly if both have the prefix and decode to the same 32 bytes |
| PublisherKey.SameKeyIsSameText | src/lexe/package/crypto.cpp:361-373 | between accepted texts, the same key is the same text |
| UpdateProtocol.VetExact | src/lexe/install/updater.cpp:247-305 | a download passes exactly if the offer is newer, its digest is the signed one, and it is a package of the same id under the same key text in the canonical spelling, itself newer |
| UpdateProtocol.VetFailures | src/lexe/install/updater.cpp:103-305 | each failure of the checks exactly under its own condition, in their order: nothing newer, no file, another digest, no package, another id, an unreadable or another key |
| UpdateDocument.DocumentExact | src/lexe/install/updater.cpp:164-235 | a parsed document is an offer exactly if it has the known format, this id, and on the channel a version, an address and a lower-case digest, which are then the ones offered; that of another application exactly if an acceptable head names one; else malformed |
| UpdateDocument.CheckExact | src/lexe/install/updater.cpp:120-245 | every answer of the check exactly under its own condition: no application, no source, too large or missing files, an unreadable key, a bad signature, and the reading of the signed document |
| UpdateDocument.ApplyExact | src/lexe/install/updater.cpp:247-327 | a refused update leaves everything as it was, or as recovery has settled it; a successful one has identity and version of the package, the recorded channel, the address it came from, and the update source as before |
| UpdateProtocol.StepKeeps | src/lexe/install/updater.cpp:247-341 | every update attempt, however it ends, change of source and recovery keeps id and key and never lowers the version; a change of version that is no rise needs an interrupted install |
| UpdateProtocol.IdentityIsKept | src/lexe/install/updater.cpp:280-302 | over every run the id and the pinned key text never change, also in a pending install |
| UpdateProtocol.VersionsNeverGoDown | src/lexe/install/updater.cpp:103-114 | over every run the version never goes down |
| UpdateProtocol.NoVersionRecurs | src/lexe/install/updater.cpp:103-114 | over every run a version that has been replaced never comes back |
| UpdateProtocol.SuccessExact | src/lexe/install/updater.cpp:103-114 | a successful update has raised the version if and only if it did not find a pending one of the same rank |
| UpdateProtocol.OfferableExact | src/lexe/install/updater.cpp:146-147 | in any world, some answer of the server makes an offer exactly if the recorded key is canonically spelled and some document with an offer verifies under it |
| UpdateProtocol.OfferableSomewhere | src/lexe/install/updater.cpp:146-147 | in some world an offer is possible exactly for a canonically spelled recorded key |
| UpdateProtocol.StepKeepsSource | src/lexe/install/installer.cpp:738-742 | no update, however it ends, and no recovery replaces a configured source |
| UpdateProtocol.SetSourceExact | src/lexe/install/updater.cpp:329-341 | a change of source takes effect if and only if nothing is pending, or only an install with that source |
| UpdateProtocol.SourceIsKept | src/lexe/install/updater.cpp:329-341 | over every run, what was in effect after a change of source, the new source or that of the pending install, stays until the next change |
| UpdateProtocol.SourceLostExample | src/lexe/install/updater.cpp:329-341 | a source set while an update is pending is undone by the recovery |
| UpdateProtocol.RespellingExample | src/lexe/install/updater.cpp:303-327 | with 1.0 pending over 0.9, an update to 1.00 is installed over it |
| UpdateCrashes.CutInstallSimulated | src/lexe/install/installer.cpp:769-885 | an install cut short after or inside any effect leaves a disk that the protocol describes as one of its endings |
| UpdateCrashes.CutRecoverySimulated | src/lexe/install/installer.cpp:962-1074 | so does a recovery cut short anywhere |
| UpdateCrashes.UpdateSimulated | src/lexe/install/updater.cpp:247-327 | an update on a disk, vetted, recovered, judged and installed as far as it gets, is a step of the protocol |
| UpdateCrashes.RunSimulated | src/lexe/install/updater.cpp:247-341 | every run of updates, crashes, recoveries and changes of source on disks is a run of the protocol |
| UpdateCrashes.DisksNeverGoBack | src/lexe/install/updater.cpp:103-114 | on the disks themselves: id and key stay, the version that is active or will be never goes down, and a replaced one never comes back |
| Updater.Updater.Check | src/lexe/install/updater.cpp:120-245 | the answer exactly, on the parsed tree: an offer if and only if the signed document tells one for this id and channel, with its very fields, and every failure under its own condition; no document is parsed before its own signature verified with the pinned key, and an offered digest is one a parsed document names |
| Updater.Updater.Apply | src/lexe/install/updater.cpp:247-327 | the registry afterwards is the one of the protocol, other applications are untouched, and every install that is started is of a package whose digest a verified and parsed document names |
| Updater.Updater.SetSource | src/lexe/install/updater.cpp:329-341 | refused for an empty url or an unknown id; otherwise only the source changes |
| Glibc.FoldIsHighest | src/lexe/analysis/depengine.cpp:150-182 | the running maximum is one of the versions read and none is above it |
| Glibc.NeedExact | src/lexe/analysis/depengine.cpp:150-182 | a version is read from a need exactly if the need is the prefix, a number up to the first dot and a number after it, as `std::stoi` takes numbers; the second reader wants both not negative |
| Glibc.WrittenVersion | src/lexe/analysis/tux32.cpp:90-100 | every version within 32 bits, as a linker writes it, is read back |
| Glibc.RequirementIsHighest | src/lexe/analysis/tux32.cpp:134-149 | each requirement is the one version read from a need that no version read is above, or none |
| Glibc.MaxGlibcVersion | src/lexe/analysis/depengine.cpp:150-182 | the report's requirement is the maximum over the executable and the bundled libraries, and nothing else |
| Glibc.RequirementsAgree | src/lexe/analysis/tux32.cpp:134-149 | both computations give the same text if and only if the highest need does not have a major version and a negative minor one |
| Glibc.NonNegativeAgree | src/lexe/analysis/depengine.cpp:150-182 | they agree wherever no version number is negative |
| Tux32.OffendersExact | src/lexe/analysis/tux32.cpp:187-211 | some object is above the ceiling if and only if the requirement of the whole package is |
| Tux32.VerdictExact | src/lexe/analysis/tux32.cpp:219-257 | every verdict is given exactly under its own condition in the documented precedence, the ceiling being that every version read from the executable or a bundled library has a lower major number, or the same and a minor one not above; the verdicts with notes and incomplete closure are never given |
| Tux32.OffendersAre | src/lexe/analysis/tux32.cpp:187-211 | the offenders are exactly the objects whose highest version read is above the ceiling in numbers, with that version |
| Tux32.RequirementExact | src/lexe/analysis/tux32.cpp:183-211 | the requirement is the text of the highest version read in the package, and empty exactly where none is read |
| Tux32.CoreOneExact | src/lexe/analysis/tux32.cpp:28-38 | what meets Core 1: a dynamic x86_64 executable with nothing above 2.31 and no driver or missing library |
| Tux32.CeilingExample | src/lexe/analysis/tux32.cpp:24-26 | a need of 2.31 meets Core 1, one of 2.32 offends |
| Tux32.CeilingIsMonotone | src/lexe/analysis/tux32.cpp:24-26 | a higher ceiling never loses conformance |
| Tux32.Classified | src/lexe/analysis/tux32.cpp:163-181 | each bucket lists exactly the sonames of its kind, in order |
| Tux32.Symbols | src/lexe/analysis/tux32.cpp:183-211 | the requirement is the maximum of the package and the offenders are exactly the objects above the ceiling with their own maxima |
| Tux32.VerifyAgainstProfile | src/lexe/analysis/tux32.cpp:153-257 | verdict, requirement, offenders, the four lists and the note, each exactly, in numbers and names |
| Tux32.NegativeMinorExample | src/lexe/analysis/depengine.cpp:159-171 | needs 2.4 and 3.-1: the report says 3.-1, the verifier 2.4 |
| PackagePaths.PathProblems | tools/lexe-conformance/lexe_conformance.py:388-467 | the findings in order, each exactly when what it says of the path is so, and none exactly for the paths that keep every rule |
| PackagePaths.ProblemsExact | tools/lexe-conformance/lexe_conformance.py:388-467 | nothing is reported if and only if the path keeps every rule |
| PackagePaths.FindingsExact | tools/lexe-conformance/lexe_conformance.py:388-467 | each of the thirteen findings is reported exactly when it is so, with the limits in bytes and numbers |
| PackagePaths.SplitExact | tools/lexe-conformance/lexe_conformance.py:420-430 | the components are the one list of texts without slashes that the path joins |
| PackagePaths.StaysInside | tools/lexe-conformance/lexe_conformance.py:420-467 | followed from any root, a path without findings leads strictly inside it, to its own segments |
| PackagePaths.SamePlaceExact | tools/lexe-conformance/lexe_conformance.py:420-467 | two such paths lead to the same place exactly when they differ in a final slash at most |
| PackagePaths.SamePlaceWithoutCase | tools/lexe-conformance/lexe_conformance.py:655-674 | where case is ignored, the same place means the same path up to case |
| PackagePaths.FoldExact | tools/lexe-conformance/lexe_conformance.py:655-674 | two names are the same up to case exactly if they are the same letter by letter, in either case |
| Coverage.CheckEntries | tools/lexe-conformance/lexe_conformance.py:630-737 | nothing is reported exactly when names, uniqueness, case, directories, the signatures set and the required entries are in order; and each finding, the ones about a path among them, is reported exactly where it is so |
| Coverage.EntryRulesExact | tools/lexe-conformance/lexe_conformance.py:315-320 | a directory by a final slash or by the attribute bit 0x10; a stray member is any other name under `signatures/` |
| Coverage.CheckHashes | tools/lexe-conformance/lexe_conformance.py:985-1060 | nothing is reported exactly when the document is well shaped, its keys are exactly the coverable names, and every digest matches; and each of the eight findings exactly for the names of which it is so |
| Coverage.ExactlyOneClass | tools/lexe-conformance/lexe_conformance.py:969-1060 | with no finding, every entry is exactly one of: signed manifest, signed hash list, one of the two signatures, or a file whose digest matches its key |
| Coverage.SpecialEntries | tools/lexe-conformance/lexe_conformance.py:63-68 | each of the four special entries, by name, is there once |
| Coverage.NoOtherKeys | tools/lexe-conformance/lexe_conformance.py:1030-1048 | `files` has a key exactly for each covered entry |
| Coverage.PlacesAreDistinct | tools/lexe-conformance/lexe_conformance.py:643-674 | under any root the entries lie strictly inside and in different places, also where case is ignored |
| Identity.IsValidAppId | src/lexe/base/identity.cpp:12-40 | at most 255 characters, at least two segments, each of letters, digits and hyphens |
| Identity.ValidIdExact | src/lexe/base/identity.cpp:12-40 | the same character by character: letters, digits and hyphens, and dots, at least one, none at an end or beside another |
| SessionUnit.ExecStartReads | src/lexe/integration/session.cpp:91-106 | systemd reads the generated command as the runtime path without controls, `run`, the id, `--wait`, for every path; exactly so unless the path begins with one of its prefixes |
| SessionUnit.UnitReads | src/lexe/integration/session.cpp:165-231 | for every name, path and home and every valid id the unit is read line by line as what was meant: no value starts, ends or joins a line |
| SessionUnit.UnitSettings | src/lexe/integration/session.cpp:165-231 | a unit is written exactly for a service with a runtime path, and systemd reads of it always the same settings in the same order: the name, the documentation, the session, the command of four words, the restart rules, the home where there is one, the target |
| SessionUnit.StripExact | src/lexe/integration/session.cpp:26-41 | line ends and NUL become spaces, other controls go, everything else stays, character by character |
| SessionUnit.EnvironmentReads | src/lexe/integration/session.cpp:114-128 | one assignment, of the home without controls |
| SessionUnit.DescriptionReads | src/lexe/integration/session.cpp:26-66 | specifiers expand back to the name without controls |
| SessionUnit.UnitExecWord | src/lexe/integration/session.cpp:91-106 | the loops compute the quoted word |
| SessionUnit.UnitEnvAssignment | src/lexe/integration/session.cpp:114-128 | the loops compute the quoted assignment |
| DesktopEntry.ValueReadsBack | src/lexe/integration/desktop.cpp:33-46 | an escaped value reads back up to its leading spaces, so unchanged exactly when it does not begin with one |
| DesktopEntry.ListReadsBack | src/lexe/integration/desktop.cpp:50-58 | a list reads back exactly when its first element does not begin with a space |
| DesktopEntry.EntryReads | src/lexe/integration/desktop.cpp:99-132 | for every manifest with a valid id the entry is read as exactly the keys that were meant |
| DesktopEntry.EntrySettings | src/lexe/integration/desktop.cpp:99-132 | for every manifest with a valid id a desktop reads the type, the name, the command, the icon, no terminal, the categories and types where there are any, and the id |
| DesktopEntry.DistinctExact | src/lexe/integration/desktop.cpp:116-122 | each MIME type appears once, and none is lost or added |
| DesktopEntry.DistinctOrder | src/lexe/integration/desktop.cpp:116-122 | in the order of first appearance |
| DesktopEntry.CollectTypes | src/lexe/integration/desktop.cpp:116-122 | the loop collects the types in order of first appearance |
| DesktopEntry.WriteList | src/lexe/integration/desktop.cpp:109-129 | the loop writes every element escaped and terminated |
| IniText.DocumentReads | src/lexe/integration/session.cpp:15-29 | a document of well-formed lines is read back line by line |

## Left out

- Installing over an application that keeps a rolled-back version: which retained versions a
  rollback to or garbage collection would choose is not part of this model.
- Locks: one process at a time changes an application directory, as its lock ensures; two
  updaters of one application sharing one download file are not modelled.
- Transaction.Safety: says nothing stronger about `current` after promotion than that it is
  at some point of the flip, because the stronger statement is false there (FlipHasAGap).
- DepWalk.CyclesExact: speaks of the graph of walked objects, which are the bundled libraries
  that were found; with recursion off only the executable is walked.
- Installer.RecoverLocked: an interrupted purge, which the source finishes first, and the remains
  of an uninstall are not modelled. The journal is always readable and is there once it has been
  written: that takes a rename that replaces an existing file, since on the other path of
  `write_atomic` a crash between the removal and the second rename leaves no journal.
- InstallEndings.CompletionIsWholeExact: the times in the trust record, the fingerprint and the
  provenance text are left out, and so is the creation of the data directory. The manifest of a
  promoted version names the key of its pending record.
- Installer.Install: whether the version text is well-formed, the permissions are acceptable and
  the staged tree is sound is one yes-or-no input each; any other exception inside the transaction
  is a crash followed by a recovery.
- Transaction.CompletionExact: what the dependency engine makes of the payload is an input, and
  so is the time at which it was asked.
- DepResolve.IndependentIffRobust: the canonical form of a path is an arbitrary function, the
  same on both machines.
- Language-runtime hooks of the dependency engine: none is registered in the source.
- ZipValidator.Validate: whether the ZIP library opens the file is not part of this model; says
  nothing about the checks on sizes, methods, encryption flags and expansion ratio, each of which
  is one comparison.
- ZipWriter.WrittenIsFramed: the directory lists the members in the order of their local records,
  and the archive has no comment, which a package may not have.
- Entry inflation and the contents of local records: their lengths and fields are what is read.
- Json.IterativeParse: strings and numbers are tokens; escapes inside a string, number syntax
  and the depth limit of the recursive parser that is tried first are not modelled.
- JsonStrict.SidesAgree: speaks of documents of the grammar; size and depth budgets are left out.
- AtomicWriter.NeverTorn: a write into a temporary never fails, and no other program touches
  the directory.
- Coverage.CheckHashes: the declaration of executable files and the order in which findings of
  one kind are listed are left out.
- UpdateProtocol.StepKeeps: version text rules beyond being non-empty, trust evaluation and
  permission consent are two yes-or-no inputs of an attempt.
- WinArgs.RoundTrip: characters are UTF-16 code units taken one by one; a NUL, which would end
  the line for the operating system, is not treated.
- SessionUnit.ExecStartReads: assumes that systemd undoes a doubled dollar sign in the executable
  path as it does in the arguments. Numeric escapes in the reader are left out, since the writer
  makes none; unit names, file placement and the manageability messages too.
- DesktopEntry.EntryReads: the MIME XML document is left out: its escaping has the same shape.
- Glibc.RequirementsAgree: `std::stoi` is modelled for the C locale.
- Curve arithmetic, digests, HTTP, processes, environment and path detection, manifest fields,
  settings, GUI text and CLI dispatch: foreign calls, or long lists of single-branch facts.
- ELF and PE header readers: their results are given data.
