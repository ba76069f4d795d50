# Anise: sorting, solving and running package transactions

Anise is a package manager. This project models the part of it that decides what a
transaction does and in which order, and proves what the decisions are worth:

- **Sorter** (`Digraph`, `PackageThin`, `CycleDetector`, `CycleCuts`, `KeptRequires`, `Sorter`). A worklist sorts the
  packages by their requires. When it stalls, a recursive walk with one shared stack, never
  popped, cuts requires in place. After the walk no cycle is left; a closed input is always
  sorted, however cyclic; an acyclic input comes out in dependency order and unchanged. Maps
  are walked in any order, and deletions happen after each pass. `KeptRequires` says exactly
  when the walk leaves the requires of a package alone.
- **Transactions** (`Packages`, `Planner`, `OrderOperations`, `Database`, `Installer`). The
  sorted additions and the removes become one list of operations. `Planner` is the list as a
  function with its properties; `OrderOperations` computes it step by step. `Database` runs
  such a list against the records of packages and files. `Installer` checks the files of the
  packages to install first and then executes; the end result is one theorem about
  `Installer.ArtifactsManager.Upgrade`.
- **Uninstall** (`Uninstall`, `UninstallOrders`). The reverse dependencies of all roots, found
  with one shared mutable task, and their removal, for every order of roots and packages.
- **Solvers** (`Resolver`, `Leftovers`, `VersionSort`, `UpgradeSelector`, `UpgradePlan`,
  `UpgradeRun`). The mutually recursive install resolver, the sorter of the versions of one
  package, the selector of upgrade candidates, the partition of the candidates into lists to
  remove, update and install, and all of it in one, up to the upgraded system.
  `ReplacementExample`, `ProvidedExample`, `SkippedHeadExample`, `LeftoverExample` and
  `DowngradeExample` hold methods that call the model on concrete inputs, with what every such
  call ends in as their contract; `ExampleVersions` is the version library that they sort with.
- **Smaller cores** (`MemoryIndex`, `BuildVersion`). The version index of the in-memory
  database against the full scan of the Bolt database, and the bump of a build version.

A package is known by its name, which stands for category and name together; an `Atom` is a
name with a version or a version selector. The Gentoo version library is a parameter: which
atoms it parses, its verdict on a selector and a version, and the order of versions. The
searcher, the sorters, the set of files on the target and the hash of a package are
parameters too; `VersionSort` shows that the sorter by version meets what is asked of it.

`Digraph.dfy` holds the facts about walks, cycles and sinks that the sorter and the uninstall
share. Methods are proved against a predicate or a function on plain values; the lemmas about
that predicate say what the steps of the method keep. Lemmas named `...Meaning` say the same
without the functions that the methods run.

Where the code does not do what one would expect of it, the exact condition is proved, with a
concrete input:

- File check: an owned file that is not on the target is not seen (`Installer.DisjointAfterCheck`,
  `Installer.MissedFileExample`). A remove that claims files of another package by a list of its
  own would hide them too, but the upgrade solver builds every remove without files
  (`UpgradePlan.RemovalsAreHonest`).
- Uninstall: a second installed version of a removed package can stay and require what was
  removed; whether it does can depend on the order of the installed packages
  (`Uninstall.DanglesInSomeOrder`, `Uninstall.TwinExample`, `Uninstall.OrderExample`), and
  whether it does in every order on which matches are possible together
  (`UninstallOrders.DanglesAlwaysExactly`, `UninstallOrders.CrossedExample`).
- Install: a require counts as provided when a provider listed for its name brings anything that
  the package admits, and what a package never mentions it admits (`Resolver.ProvidedExactly`,
  `Resolver.OtherProvideExample`); over packages that provide one name at most this makes no
  difference (`Resolver.PlainProvidersExactly`, `Resolver.RequiresMetAs`).
- Install: the head recorded for a package can be a version that was skipped
  (`Resolver.FirstFitHead`, `SkippedHeadExample.Run`).
- Install: a require can be met by a name under analysis that fails later. What was chosen then
  stays chosen, with a require that nothing meets; this takes a cycle of requires in the
  repositories (`Leftovers.MetOffCycle`, `LeftoverExample.Run`).
- Version sort: of two builds of one version the second is lost, and the first is listed twice
  (`VersionSort.RereadIsKept`, `VersionSort.BuildIsLost`).
- Upgrade: an installed require counts as met when an available version of it admits the
  candidate, whether or not the candidate admits that version
  (`UpgradeSelector.InstalledExactly`, `UpgradeSelector.FitsForAllSelections`,
  `UpgradeSelector.OneSidedExample`).
- Upgrade without the deep option: a nested resolution can store a version older than the
  installed one, although not when a version that is not older is available in no conflict
  (`UpgradeSelector.CheckCandidates`, `DowngradeExample.Run`).
- Upgrade lists: two packages replaced by the same third one make the install list hold it
  twice; a replacement that is already installed is added without a remove
  (`UpgradePlan.PartitionIsTransaction`, `UpgradePlan.SameReplacementExample`,
  `UpgradePlan.KeptReplacementExample`).
- Operation order: the first operation after the head removes is never looked at when a remove is
  placed (`Planner.RemovesBeforeAllConflicts`, `Planner.RemovesBeforeAllConflictsInEveryOrder`,
  `Planner.FirstRejectsExample`).
- Removes without additions: of several versions of one package only the first is removed, once
  for each (`Planner.OnlyRemovesAll`).
- Cycle detector: a package on no cycle can lose requires (`KeptRequires.KeepsInEveryOrder`,
  `CycleCuts.OffCycleExample`).
- Version index: a package that was removed and is still, or again, recorded in Bolt is not
  found through the index (`MemoryIndex.SelectorsAgree`, `MemoryIndex.CreatedTwiceIsLost`).
- Build bump: at the largest 64-bit number an `r`, `p` or `rc` build changes its prefix
  (`BuildVersion.BumpKeepsForm`, `BuildVersion.OverflowExample`).

Three branches are dead: the check that follows the walk in `depCycleDetector`
(pkg/v2/solver/solver.go:157-165), the error for a second run of the detector
(pkg/v2/solver/solver.go:252-256), and the conflict at position 0 in `OrderOperations`
(pkg/v2/solver/solver.go:444-449). The methods keep them, with `assert false` inside.

## Model

| member | source | states |
|---|---|---|
| `CycleDetector.DepCycleDetector` | pkg/v2/solver/solver.go:132-170 | The detector succeeds if and only if every require of a queued package is queued or injected, and then the requires relation of the queue is acyclic, for every starting graph and every order of the roots. It only drops requires, and the result is that of walking from the roots in turn, as a function. |
| `CycleDetector.RecursiveCheckDeps` | pkg/v2/solver/solver.go:87-130 | The method computes the functional walk: stack, requires and success are those of `Trace`. It terminates: the names not yet on the stack shrink, or the argument is on the stack already and the next one is not. |
| `CycleDetector.TraceFacts` | pkg/v2/solver/solver.go:87-130 | What the walk does: it only appends to the stack; a package loses exactly the requires that are on the stack when it is visited again; if the visit succeeds, every remaining require of what it visited is visited later or injected; it succeeds on a closed queue. |
| `CycleDetector.LastVisitsClimb` | pkg/v2/solver/solver.go:92-127 | On the stack that a finished walk leaves, the last visit of a package comes before the last visit of each of its remaining requires: a rank that climbs along every edge, so no walk comes back. |
| `CycleDetector.NestedVisitProgress` | pkg/v2/solver/solver.go:87-130 | The termination measure: a visit adds a new name to the stack, or starts from a package on it and then walks only requires that are not. |
| `CycleDetector.NextRootDone` | pkg/v2/solver/solver.go:142-167 | After one more root the roots walked so far lie on no cycle and their requires are available, whatever later walks drop. |
| `CycleDetector.AllRootsDone` | pkg/v2/solver/solver.go:142-167 | When every queued package was a root, no cycle is left and the original queue was closed. |
| `CycleCuts.OffCycleExample` | pkg/v2/solver/solver.go:87-170 | A graph of eight packages in which p requires q and lies on no cycle: whatever the order of the roots, the detector drops that require. |
| `KeptRequires.KeepsInEveryOrder` | pkg/v2/solver/solver.go:87-170 | When the detector leaves a package of a closed queue its requires, for every order of the roots: if and only if it requires no queued package, or it lies on no cycle, no package reaches two packages that require it, and none that requires it lists it after another require of it or one that leads back. |
| `KeptRequires.TraceMeetsOnce` | pkg/v2/solver/solver.go:87-130 | If one package at most requires m among those that a walk can reach, and lists it before anything that leads back, the walk puts m on the stack at most once. |
| `KeptRequires.TraceThorough` | pkg/v2/solver/solver.go:87-130 | A walk puts m on the stack at least once for itself and once for every require of m by a package that it meets for the first time; what it does not meet it leaves alone. |
| `KeptRequires.TwiceLoses` | pkg/package/package_thin.go:163-181 | A package that the walk meets twice loses a require: the one that its first visit went to is on the stack at the second. |
| `ThinPackages.PackageThin.BreakCyclesOnRequires` | pkg/package/package_thin.go:163-181 | The requires afterwards are those that are not on the stack, in their old order. |
| `ThinPackages.PackageThin.RequirePackage` | pkg/package/package_thin.go:110-118 | Whether some require has the name. |
| `Sorter.SortPkgsThinArr` | pkg/v2/solver/solver.go:172-317 | For every input with distinct names and every map order: on a closed input the sort succeeds, however cyclic it is; an answer is a permutation of the input; the first remaining require of a package that does not come before it, if any, is one that required it back. Cyclic or not, the answer goes on from a prompt answer of the first pass (as the row of `Sorter.FirstPass` says), pairs are broken only after it, and requires are cut only once, where nothing could go on, and as the detector cuts them. On an acyclic input it succeeds if and only if the input is closed, no require is cut, and every package comes after all its requires. |
| `Sorter.FirstPass` | pkg/v2/solver/solver.go:180-238 | The first pass puts each input either in the answer or in the queue. In the answer every package comes after all its requires, also on cyclic inputs; every input that all it needs, and all that needs in turn, precedes in the input is there; and nothing is left that was ready when the last input was taken. |
| `Sorter.IsInjectable` | pkg/v2/solver/solver.go:274-300 | A package can be injected if and only if all its requires are, or pairs may be broken and the first of them that is not is a queued package that requires it. |
| `Sorter.Sweep` | pkg/v2/solver/solver.go:272-310 | One pass over the queue in any order: packages move from the queue to the answer when they can be injected in their turn, none is lost, none stays that was ready at the start, and if none moved then none could be injected. |
| `Sorter.DrainQueue` | pkg/v2/solver/solver.go:242-312 | The loop terminates (queue size, then detector not yet run, then stall counter), the guard against a second run of the detector never fires, and on a closed input the queue is emptied. It ends without a cut, or with the one cut of the detector at a point where nothing could go on, or fails at such a point. |
| `Sorter.SettledHasReady` | pkg/v2/solver/solver.go:249-312 | A closed, acyclic, non-empty queue always holds a package that is ready, so nothing stalls after the detector. |
| `Sorter.StalledQueue` | pkg/v2/solver/solver.go:250-266 | On an acyclic graph a stalled queue misses some require, so the detector runs only to fail. |
| `Sorter.AfterDetector` | pkg/v2/solver/solver.go:256-266 | Whatever the detector cuts in the rest of the queue, the answer so far stays justified; on a closed input it never fails. |
| `Sorter.JustifiedAcyclicOrder` | pkg/v2/solver/solver.go:272-310 | On an acyclic graph the exception for pairs that require each other is never used: the order puts every require first. |
| `Sorter.AnswerIsPermutation` | pkg/v2/solver/solver.go:313-316 | An answer with every name once is a permutation of the input. |
| `OrderOperations.ToMap` | pkg/v2/compiler/types/artifact/map.go:37-47 | For each name of the pack the artefacts of that name, in their order. |
| `OrderOperations.CreateThinPkgsPlist` | pkg/v2/solver/solver.go:53-85 | One thin package for each artefact, in order, with the requires that the transaction itself adds. |
| `OrderOperations.KeptInOrder` | pkg/v2/solver/solver.go:66-81 | Every require inside the transaction is kept, however often it is listed, in the order of the requires. |
| `OrderOperations.ThinTransaction` | pkg/v2/solver/solver.go:53-85 | The requires of a transaction name only its own packages, so the thin list is closed and has distinct names. |
| `OrderOperations.SortAdditions` | pkg/v2/solver/solver.go:340-377 | Each requested install and update exactly once; with acyclic requires every dependency first; and with any requires in an order that the sorter gives for the merged packs. |
| `OrderOperations.NewRemoves` | pkg/v2/solver/solver.go:393-411 | The removes of names that are not added again, in the order of the pack. |
| `OrderOperations.ScanConflicts` | pkg/v2/solver/solver.go:424-441 | -1 if and only if no operation above `rmOps` rejects the new version, else the lowest one that does. |
| `OrderOperations.InterleaveRemoves` | pkg/v2/solver/solver.go:413-481 | The loop yields the functional interleaving; `idxOps` is the list length throughout; position 0 is never a conflict. `Planner.PlanRemovesLate` says where the removes stand. |
| `OrderOperations.OrderOperations` | pkg/v2/solver/solver.go:319-494 | It never fails on distinct additions; when a name that is removed twice is added again, the result performs exactly the requested operations, removes a name before it adds it and no earlier than the rejecting operations ask for, and, with acyclic requires, adds every dependency before its dependents. |
| `Planner.PlanPerforms` | pkg/v2/solver/solver.go:319-494 | The plan performs each requested operation exactly once, removes a name before it adds it, and its additions are the sorted additions in their order. |
| `Planner.PlanRemovesLate` | pkg/v2/solver/solver.go:416-481 | In terms of the verdicts: in the plan the remove of an added name stands directly before its addition, or directly before an operation that rejects the new version, but for removes that were placed later. With `Planner.InterleaveRemovesBeforeConflicts` that is the lowest one that rejects it. |
| `Planner.NamedFirst` | pkg/v2/solver/solver.go:421-422 | The entry of a name in the map of removes begins with the first of the pack, so this is the one that is removed. |
| `Planner.HeadInPackOrder` | pkg/v2/solver/solver.go:400-411 | The head removes keep the order of the pack. |
| `Planner.OnlyRemovesAll` | pkg/v2/solver/solver.go:379-393 | Without additions, every entry of the pack is removed if and only if no two entries share a name: of several versions of a package only the first is removed, once for each. |
| `Planner.HeadRemovesFirst` | pkg/v2/solver/solver.go:393-411 | With additions, the removes of names that are not added again are a prefix of the plan, and everything after them is about an added name. |
| `Planner.InterleaveRemovesBeforeConflicts` | pkg/v2/solver/solver.go:416-481 | The remove of an added name precedes every operation that stands above `rmOps` before the addition and whose package rejects the new version; later insertions keep it. |
| `Planner.InterleavedPlan` | pkg/v2/solver/solver.go:393-481 | For the whole interleaved list: head removes first, own remove before own addition, removes before conflicting operations, additions unreordered, everything performed. |
| `Planner.RemovesBeforeAllConflicts` | pkg/v2/solver/solver.go:424-441 | The scan stops above the first operation after the head removes: removes precede all rejecting operations, that one included, if and only if it does not reject a later addition that has a remove. |
| `Planner.RemovesBeforeAllConflictsInEveryOrder` | pkg/v2/solver/solver.go:424-441 | The same over all orders of the requested additions: removes precede all rejecting operations in every order if and only if no requested addition, placed first, rejects another one that has a remove. |
| `Planner.FirstRejectsExample` | pkg/v2/solver/solver.go:424-441 | The plan that adds a 1, which conflicts with q 2, and updates q 1 to q 2 adds a 1 before it removes q 1. |
| `Planner.PlanKeepsDependenciesFirst` | pkg/v2/solver/solver.go:340-377 | If the sorted additions put dependencies first, so does the plan with its removes. |
| `Packages.AdmitMeaning` | pkg/package/package.go:718-824 | When exactly a package is admitted, rejected, and undecided: with nothing to check it is admitted; else its version must parse, and the requires are compared in order with it or with what it provides until one does not accept, then the conflicts until one does; the first deviating comparison decides between rejection and error. |
| `Database.PlanRuns` | pkg/v2/installer/manager_upgrade.go:412-488 | Running the plan of a transaction never fails, holds at most one version of each name after every prefix, and ends with installed minus removed plus added, each with its own files. |
| `Database.PrefixRuns` | pkg/v2/installer/manager_upgrade.go:412-488 | After every prefix the database is what the operations of the prefix leave: what they added, and what was there and was not removed. |
| `Database.NotRegisteredYet` | pkg/v2/installer/manager.go:404-474 | When an addition runs, no record of its fingerprint is left, so registering never meets an existing file record. |
| `Database.PrefixKeepsOneVersion` | pkg/v2/installer/manager_upgrade.go:412-488 | At most one version per name at every step. |
| `Installer.ArtifactsManager.RemovePackage` | pkg/v2/installer/manager.go:288-340 | The effect on the database, with its three failing records and the force option. Without force it fails on a missing record; if only the package record is missing the file record is gone. |
| `Installer.ArtifactsManager.RegisterPackage` | pkg/v2/installer/manager.go:404-474 | It fails exactly on a file record that exists, without force; with force that record keeps its list; the package record is written unless it fails. |
| `Installer.ArtifactsManager.ExecuteOperations` | pkg/v2/installer/manager_upgrade.go:412-488 | The loop refines the run of the operations: one database for each operation, each a removal or a registration of the one before; the first remove that fails stops it, and a registration that fails is only noted. |
| `Installer.ArtifactsManager.BuildIndexFiles` | pkg/v2/installer/manager.go:655-679 | The index holds exactly the files that registered packages own, each with one of its owners. |
| `Installer.ArtifactsManager.ExistsPackageFile` | pkg/v2/installer/manager.go:641-653 | Found if and only if a registered package owns the file, and then an owner. |
| `Installer.ArtifactsManager.CollectRemoved` | pkg/v2/installer/manager.go:497-512 | Exactly the files that the removes account for: their own list or, if that is empty, the recorded one. |
| `Installer.InRemovedMeaning` | pkg/v2/installer/manager.go:500-505 | What a remove without a list of its own accounts for is what the package owns. |
| `Installer.PassesExactly` | pkg/v2/installer/manager.go:476-598 | When the removes bring no list or the recorded one and owned files are disjoint, the check passes if and only if no file is installed twice and no file to install is on the target and owned by a package that is not removed. |
| `Installer.ArtifactsManager.CheckFileConflicts` | pkg/v2/installer/manager.go:476-598 | It passes if and only if no file is installed twice and, with the system check, none is on the target, owned and not removed; safe mode only warns. A failure names a file that occurs twice, or one that is in conflict with the system. |
| `Installer.ArtifactsManager.Upgrade` | pkg/v2/installer/manager_upgrade.go:286-488 | Check, order, execute: with the system check, without safe mode, over disjoint files and removes without lists or with the recorded ones it passes if and only if no file is installed twice and none is on the target and owned by a package that is not removed; after a pass the transaction is committed, otherwise the database is untouched; with the system check and without safe mode the owned files are pairwise disjoint again if and only if the check could see every file that matters. |
| `Installer.DisjointAfterCheck` | pkg/v2/installer/manager.go:476-598 | After a committed transaction that passed the check, files are disjoint if and only if every file to install that an untouched package owns is on the target and is not claimed by a remove. |
| `Installer.PresentFilesAreSeen` | pkg/v2/installer/manager.go:497-583 | If all owned files are on the target and removes claim only files of their own packages, the check sees every file that matters. |
| `Installer.MissedFileExample` | pkg/v2/installer/manager.go:543-583 | A database, an addition and a target where the check passes and two packages own one file afterwards: the owned file is not on the target. |
| `Uninstall.ResolveRdependsTask.AddRdep2Map` | pkg/v2/installer/rdepend.go:46-55 | One more entry at the end of the list of the name, and nothing else. |
| `Uninstall.ResolveRdependsTask.BuildRdeps` | pkg/v2/installer/rdepend.go:67-97 | Under each name the map lists the installed packages that provide or require it, once for each provide and require, in the order of the system. |
| `Uninstall.ResolveRdependsTask.RecursiveResolveRdep` | pkg/v2/installer/rdepend.go:102-133 | The method computes the functional search: nothing if the package is resolved, else the package and then the searches of its users in order. It terminates. |
| `Uninstall.ResolveAll` | pkg/v2/installer/manager_uninstall.go:91-100 | With one shared task for all roots the matches are those of the functional search: by name and without duplicates the closure of the roots under "installed package that requires or provides a name of the set". |
| `Uninstall.MatchesAreClosure` | pkg/v2/installer/rdepend.go:102-133 | The search finds the closure, each name once, and every match is a root or uses a name that is reached from the roots without its own name. |
| `Uninstall.MatchedInSomeOrder` | pkg/v2/installer/rdepend.go:102-133 | Conversely every such package is the match of its name in some order of the roots and of the installed packages. |
| `Uninstall.ClosureIsLeast` | pkg/v2/installer/rdepend.go:102-133 | The closure is below every closed set that contains the roots. |
| `Uninstall.ClosureIsUnique` | pkg/v2/installer/manager_uninstall.go:91-100 | So the matched names do not depend on the order of the roots or of the installed packages. |
| `Uninstall.ClosureMeaning` | pkg/v2/installer/rdepend.go:67-133 | The closure, by packages: the least set that has the names of the roots and the name of every installed package that requires or provides a name of the set. |
| `Uninstall.Uninstall` | pkg/v2/installer/manager_uninstall.go:88-163 | The removal never fails, keeps everything outside the closure with its files, and removes a package of every name in it. No require of a removed name is left unless another version can be matched in the place of a package that requires one; one is left if such a package cannot be matched or two versions require one; with one installed version per name nothing of the closure stays and nothing dangles. |
| `Uninstall.TwinExample` | pkg/v2/installer/rdepend.go:102-115 | Two installed versions of a package that both require the root: every order leaves a require of the removed root. |
| `Uninstall.DanglesInSomeOrder` | pkg/v2/installer/manager_uninstall.go:88-100 | A condition on the installed set and the roots: some order leaves a require of a removed name if and only if a package that requires a name of the closure has another version that can be matched in its place. |
| `Uninstall.DanglesInEveryOrder` | pkg/v2/installer/manager_uninstall.go:88-100 | Every order leaves one if a package that requires a name of the closure cannot be matched, or if two versions of one name require such names. |
| `UninstallOrders.NothingDanglesExactly` | pkg/v2/installer/manager_uninstall.go:88-163 | For each order: no require of a removed name is left if and only if all packages that require a name of the closure are matched together. |
| `UninstallOrders.DanglesAlwaysExactly` | pkg/v2/installer/manager_uninstall.go:88-100 | So every order leaves one if and only if no order matches all of them. |
| `UninstallOrders.OneTwinExactly` | pkg/v2/installer/manager_uninstall.go:88-100 | If at most one package that requires a name of the closure has another version that can be matched, every order leaves such a require if and only if one of these packages cannot be matched. |
| `UninstallOrders.CrossedExample` | pkg/v2/installer/rdepend.go:102-133 | Seven installed packages: each that requires a removed name can be matched, and no two versions of a name require one, but no order matches them together, so every order leaves a require. |
| `Uninstall.OrderExample` | pkg/v2/installer/rdepend.go:67-92 | Two versions of which one requires the root and the other only provides it: one order of the installed packages leaves a require of the root, the other does not. |
| `Uninstall.RemovalsRun` | pkg/v2/installer/manager_uninstall.go:113-162 | Removing distinct matches succeeds and leaves exactly the other packages with their files. |
| `Resolver.Solver.ResolvePackage` | pkg/v2/solver/solver.go:704-820 | It terminates (the stack has no repeats and stays inside the known names) and succeeds exactly when the name is then a candidate or on the stack. Candidates are written once, never for a name on the stack, as the available versions less those banned when one was accepted: those in conflict and listed before it. In every run each require of an accepted version counts as met: it is installed in an admitted version, or a provider listed for it brings something that the package admits, or it is a candidate, or a name that was under analysis. It succeeds when conflicts are the only thing in the way (sorting loses no version of a package that is offered, every available package keeps a version in no conflict); and whenever the versions before position i are in conflict or rejected by the candidates at entry, and the one at i is in no conflict, admitted, and has its requires settled at entry: then this one is accepted. Without a sorted list, or if the first version errs at once, it ends with an error; if every version is skipped for what holds at entry, without a version and with nothing changed; when no verdict, search or sort fails it never ends with an error, and if one version fits whatever is chosen, with a version. |
| `Resolver.Solver.ProcessArtefactDeps` | pkg/v2/solver/solver.go:822-979 | In every run, when all requires are admitted each of them counts as met: installed in an admitted version, or a provider listed for it brings something that the package admits, or it is a candidate, or a name that was under analysis. If conflicts are the only thing in the way, all are admitted. If all are settled at entry nothing changes; if the first is rejected at entry so is the package, with nothing changed; if it errs there, the result is an error; and when no verdict, search or sort fails there is no error. |
| `Resolver.Solver.ProcessDep` | pkg/v2/solver/solver.go:829-976 | The same for one require. If nothing settles it, what is available for it afterwards is exactly what sorting or the search yields, the name resolved is its own or the first other one found, and the outcome follows from the call for that name: a first fit is chosen, and nothing else; an error at once is an error; all versions skipped is a rejection. |
| `Resolver.Solver.SettledAlready` | pkg/v2/solver/solver.go:831-886 | The outcome that needs no new resolution, exactly: an error, a rejection, or a require settled by an installed version, by anything admitted that a listed provider brings, or by a chosen or stacked name. |
| `Resolver.ProvidedExactly` | pkg/v2/solver/solver.go:849-872 | A require counts as provided if and only if a listed provider provides its name in an admitted version or brings something else that is admitted; so this is the expected reading exactly if the former holds or the latter does not. |
| `Resolver.OtherProvideExample` | pkg/v2/solver/solver.go:849-872 | p requires n 2; the only provider brings n 1, which p rejects, and m 1, which p never mentions: the require counts as provided and as met. |
| `Resolver.PlainProvidersExactly` | pkg/v2/solver/solver.go:849-872 | Over offered and installed packages that provide one name each at most, what counts as provided is provided under the required name in an admitted version. |
| `Resolver.RequiresMetAs` | pkg/v2/solver/solver.go:822-979 | Over such packages, in every run, each require of each accepted version is installed or provided under its name in an admitted version, a candidate, or was under analysis. |
| `Resolver.Solver.MakeAvailable` | pkg/v2/solver/solver.go:894-962 | What is available afterwards, exactly: the sorted list of the name, or, if there was none, all that the search found, in its order, after what was there. The name to resolve is the required one if it was available, else that of the first artefact found that has another name. |
| `Resolver.AddAllMeaning` | pkg/v2/compiler/types/artifact/map.go:116-129 | After adding a list each name has what it had, followed by the artefacts of the list with this name in their order, and there are no other names. |
| `Resolver.OtherNameIsFirst` | pkg/v2/solver/solver.go:942-959 | The other name is that of the first artefact that has one. |
| `Resolver.Solver.ArtefactAdmitByQueue` | pkg/v2/solver/solver.go:981-1002 | Admitted if and only if the head of every candidate admits the package. |
| `Resolver.ArtefactIsInConflict` | pkg/v2/solver/solver.go:1004-1088 | True if and only if some package of the conflict map does not admit it, or it conflicts with an installed package that it rejects, does not provide, and of which the search finds no version that it admits. |
| `Resolver.ConflictMeaning` | pkg/v2/solver/solver.go:1004-1087 | In the verdicts, the provides and the search alone: a package is in conflict if and only if a user in the conflict map does not admit it, or it has a conflict whose installed package it does not admit, none of its provides has the name of that package, and it admits no version that the search finds. |
| `ReplacementExample.ReplacementFits` | pkg/v2/solver/solver.go:1021-1029 | A package without requires that provides the name of each installed package it conflicts with, and that no user of the conflict map rejects, is the first fit of a request for it alone. |
| `ReplacementExample.Run` | pkg/v2/solver/solver.go:656-820 | The install of y 1, which conflicts with every x and provides x 1, over the installed x 1: it succeeds, and y 1 is the only candidate. |
| `Resolver.Solver.TryVersion` | pkg/v2/solver/solver.go:731-776 | One version fits only if the candidates before admit it and each of its requires counts as met, in every run; it counts as in conflict exactly if it is and conflicts are not ignored; one that the candidates at entry reject is skipped with nothing changed; one that is in no conflict, admitted and settled at entry fits with nothing changed; it fits when nothing else stands in the way. One that the candidates fail on, or whose first require errs at entry, is an error; one whose first require is rejected at entry is skipped with nothing changed. |
| `Resolver.Solver.CollectValid` | pkg/v2/solver/solver.go:796-817 | The versions that are not banned; the first of them is listed under what it provides, and nothing else is new among the providers. |
| `Resolver.NotBannedInOrder` | pkg/v2/solver/solver.go:796-817 | Every artefact of a version that is not banned is kept, in the order of the list. |
| `Resolver.Accepts` | pkg/v2/solver/solver.go:726-819 | Accepting a version keeps all invariants: the recorded head has passed the conflict check, the accepted version was admitted by the candidates before, and each of its requires counts as met by what is installed, by a listed provider that brings something admitted, or by a name chosen or under analysis. |
| `Resolver.HeadIsAccepted` | pkg/v2/solver/solver.go:796-817 | The head is the accepted version if every version listed before it is banned; and only then, unless the same artefact is listed twice. |
| `Resolver.FirstFitHead` | pkg/v2/solver/solver.go:731-817 | The condition on the inputs: when position i is the first version that is not in conflict or rejected by the candidates at entry, and it fits, the head that is recorded is this version if and only if every version before it is banned by a conflict. |
| `SkippedHeadExample.Run` | pkg/v2/solver/solver.go:703-820 | With repositories, the sorter of the code and one candidate c that conflicts with n 2: the call for n skips n 2, accepts n 1 and records n 2 at the head, whatever else it does. |
| `Resolver.SettledIsClosed` | pkg/v2/solver/solver.go:822-979 | When every name that was under analysis ended as a candidate, each require of each accepted version counts as met by what is installed, by a listed provider that brings something admitted, or by a candidate. |
| `Resolver.LuckyIsClosed` | pkg/v2/solver/solver.go:822-979 | In a run in which versions were rejected only for conflicts with the installed tree this is so for the chosen heads: the candidates are closed. |
| `Resolver.ChosenPairsAdmit` | pkg/v2/solver/solver.go:752-764 | In every run: of any two accepted versions, the head recorded for one admits the other, or one was under analysis while the other was resolved. |
| `Resolver.Solver.Install` | pkg/v2/solver/solver.go:656-701 | Without force success means that every requested name has a candidate; the answer holds the head of each candidate once; no head is in conflict; in every run each candidate has an accepted version whose requires count as met; in a run in which versions were rejected only for conflicts the candidates are closed; if one package is requested, and the first version of it finds its first require at once, what was chosen for that stays a candidate, even if the version fails; and when conflicts are the only thing in the way and every available package keeps a version in none, the run is one, and succeeds. If one package is requested and the first version that is not skipped fits at entry, exactly this one is chosen. When no verdict, search or sort fails and each requested package offers a version that fits whatever is chosen, the install succeeds with all of them. |
| `Leftovers.MetOffCycle` | pkg/v2/solver/solver.go:822-979 | In every run, whatever failed in it: each require of an accepted version is installed, or a listed provider brings something admitted, or it is a candidate, if the name of the version lies on no cycle of requires in the repositories. Only on such a cycle can a require be met by a name that was under analysis and failed later. |
| `Leftovers.AcyclicIsMet` | pkg/v2/solver/solver.go:822-979 | Over repositories without cycles of requires this is so for all accepted versions. |
| `LeftoverExample.Run` | pkg/v2/solver/solver.go:656-820 | The forced install of p, which requires m and z; m requires p, and z is in conflict. Whatever choices the run makes, it ends with the candidate m alone, which it returns: nothing that is chosen requires m, and nothing meets its require p. |
| `VersionSort.SortVersions` | pkg/v2/compiler/types/artifact/map.go:198-221 | The two loops compute the functional sort: what the library parses, sorted, and for each the first artefact that it prints. |
| `VersionSort.SortKeepsExactly` | pkg/v2/compiler/types/artifact/map.go:198-221 | The sort returns artefacts of the list only, and keeps every version if and only if each is printed by the library for some artefact of the list. |
| `VersionSort.RereadIsKept` | pkg/v2/compiler/types/artifact/map.go:198-221 | If the library prints the versions of the list as they are, the sort succeeds and returns each version as often as the list holds it, always in the build that is listed first. |
| `VersionSort.BuildIsLost` | pkg/v2/compiler/types/artifact/map.go:215-220 | Of two different artefacts of one version the first comes back twice and the second is lost. |
| `VersionSort.LibrarySorts` | pkg/v2/compiler/types/artifact/map.go:183-225 | A resolver with this sorter has what success asks of sorting (it does not fail, and loses no version of a package that is offered) if and only if the library prints all versions that are offered as they are. |
| `VersionSort.RereadsMeaning` | pkg/v2/compiler/types/artifact/map.go:183-196 | A version is printed as it was if and only if it is the version part, the suffix, and a plus sign with the build part unless that is empty, under the same name. |
| `VersionSort.BumpedRereads` | pkg/package/package.go:1094-1097 | A bumped version is printed as it is, if the library reads it back into its parts. |
| `VersionSort.SortDescends` | pkg/v2/compiler/types/artifact/map.go:211 | If the library puts later versions first, so does the sort. |
| `UpgradeSelector.CheckCandidate2Upgrade` | pkg/v2/solver/solver_upgrade.go:263-573 | For the installed package it is called for: what is stored holds all newer available versions that are in no conflict, and a version that fits; the head is not older than the installed version without the deep option, nor with it when the installed version is available, whatever was skipped or banned. Candidates are written once; others that are new come from nested resolutions. When only conflicts stand in the way and the newest version is newer and welcome to its users, it is stored at the head. What the search over the versions is decided to be at entry, it is: with a match at i the versions not banned before i are stored, with the provides of the first, and nothing else is new; if it stops or passes all, nothing is new; if it aborts, or there is no sorted list or installed package, the check fails. When no verdict fails and everything required is installed or provided, it does not fail. |
| `UpgradeSelector.CheckCandidates` | pkg/v2/solver/solver_upgrade.go:107-112 | Over the whole run, without the deep option: a stored head is older than the installed version if and only if it comes from a nested resolution that had banned every version that is not older. On the inputs: if sorting loses no version of a package that is offered, and an installed package has available a version that is not older and in no conflict in any of its builds, its stored head is not older. Every candidate that was not resolved has a stored version in no conflict, or the installed one with other requires, whose requires count as met by the candidates at the end. When conflicts are the only thing in the way and all that is offered for each listed package is welcome, or all is passed over, all checks succeed and the welcome ones are candidates. If the search for the first package is decided at entry to match, what it stores stays a candidate. When no verdict fails, everything required is installed or provided and sorting works, all checks succeed. |
| `UpgradeSelector.TryForUpgrade` | pkg/v2/solver/solver_upgrade.go:350-541 | One version of an installed package: it matches only if it fits; it is banned, or ends the search, only if it is not newer or in conflict. What is decided at entry by parsing, the order of versions, the hashes, the users, the conflicts, the candidates and the requires is what happens, with nothing changed unless it is an error: a newer version that its users admit, in no conflict, admitted by the candidates and with all requires settled matches. When no verdict fails and everything required is installed or provided, it is never an error and changes nothing. |
| `DowngradeExample.Run` | pkg/v2/solver/solver_upgrade.go:79-112 | A run of the checks of Upgrade for b 2 and a 1, in the order of their requires, with repositories and the sorter of the code: a 2 requires the new package x, x requires the installed b in another version than 2, and the installed tree conflicts with b 3. All checks succeed, b 1 is stored at the head of b, and the partition updates b 2 to it, whatever choices the run makes. |
| `UpgradeSelector.HeadIsNotOlder` | pkg/v2/repository/artifact_sort.go:13-57 | In a descending list the first version that is not banned is at least as new as any accepted one. |
| `UpgradeSelector.FindMatch` | pkg/v2/solver/solver_upgrade.go:335-543 | A match is not banned and fits: in no conflict and admitted by the candidates before, or the same version with other requires; admitted by its users if newer; not older without the deep option; each require counts as met in the sense of `UpgradeSelector.ProcessArtefactDeps4Upgrade`. A newer version is banned only for a conflict. If each version before i is skipped or banned at entry and the one at i matches, it is the match, the banned versions are exactly those, and nothing has changed; the same for a stop, an abort, and the end of the list. An older version matches only if the installed one is not listed before it, and nothing matches after the installed build. |
| `UpgradeSelector.UsersAdmitNew` | pkg/v2/solver/solver_upgrade.go:374-420 | Admitted only if every installed user admits the new version or some available version of the user does; rejected only if a user does not and all its available versions reject it; an error only if a user does not and the verdict of one of them fails. |
| `UpgradeSelector.CheckTree` | pkg/v2/solver/solver_upgrade.go:422-456 | A version fits only if every candidate admits it and each of its requires counts as met; it is in conflict exactly if it should be; it fits when nothing stands in the way. A conflict, a rejection by the candidates or by the first require that is not settled at entry, and a fit with all requires settled change nothing; a failing verdict of either is an error. |
| `UpgradeSelector.ProcessArtefactDeps4Upgrade` | pkg/v2/solver/solver_upgrade.go:575-713 | Admitted only if each require counts as met: installed in an admitted version, or installed with an available version that admits the candidate, be it admitted by the candidate or not; or a listed provider brings something admitted; or chosen or under analysis. Always admitted if nothing stands in the way. If the requires before the first that is not settled at entry decide, they decide as coded: all settled means admitted and one rejected means rejected, both with nothing changed, and one that fails means an error. A rejection comes only from a require that is rejected at entry. |
| `UpgradeSelector.ProcessDep4Upgrade` | pkg/v2/solver/solver_upgrade.go:578-703 | One require, exactly: an installed one is admitted, rejected or an error by its verdict and by the available versions, with nothing changed; one that is not installed but provided, chosen or under analysis is admitted with nothing changed; else the search fails, or the name that it leads to is resolved with all that it found available, and the outcome is admission with a version and an error without. |
| `ProvidedExample.Run` | pkg/v2/solver/solver_upgrade.go:621-643 | The upgrade of b 1 over the installed q 1, which provides n 1: b 2 requires n 1, for which the search finds nothing; the check succeeds and b 2 is stored. |
| `UpgradeSelector.InstalledExactly` | pkg/v2/solver/solver_upgrade.go:587-619 | The installed require really fits (its installed version is admitted, or it and the candidate admit each other in an available version) if and only if it counts as met and not all available versions that admit the candidate are rejected by it. |
| `UpgradeSelector.FitsForAllSelections` | pkg/v2/solver/solver_upgrade.go:587-619 | The condition on the versions: whichever of them are available, an installed require that counts as met really fits, if and only if the installed version is admitted or the candidate admits every available version that admits it. |
| `UpgradeSelector.OneSidedExample` | pkg/v2/solver/solver_upgrade.go:597-613 | p requires n 3, n 2 is installed, n 2.1 is all that is available: p rejects both, and the require counts as met. |
| `UpgradeSelector.SatisfiedForUpgradeExactly` | pkg/v2/solver/solver_upgrade.go:587-659 | What counts as met is installed or provided in versions that fit, or chosen, or under analysis, if packages provide one name at most and the check was not one-sided in this way. |
| `UpgradePlan.Partition` | pkg/v2/solver/solver_upgrade.go:150-250 | The three lists hold exactly the ousted installed packages, the updates and the installs; the update list has no repeats, and the install list none exactly when no two candidates bring the same new package. |
| `UpgradePlan.PartitionMeaning` | pkg/v2/solver/solver_upgrade.go:150-250 | The same in the heads, names and provides alone. |
| `UpgradePlan.IsPresent` | pkg/v2/compiler/types/artifact/map.go:69-76 | Whether the pack holds an artefact of the name. |
| `UpgradePlan.ListsAreOrdered` | pkg/v2/solver/solver_upgrade.go:152-248 | No name is both installed and updated, every update has its installed version in the remove list, every remove is of an installed package. |
| `UpgradePlan.PartitionIsTransaction` | pkg/v2/solver/solver_upgrade.go:152-248 | The lists are what ordering and execution need if and only if no two replaced packages bring the same replacement and no replacement is an installed package that is kept. |
| `UpgradePlan.PlainPartitionIsTransaction` | pkg/v2/solver/solver_upgrade.go:152-248 | Without replacements they always are. |
| `UpgradePlan.SameReplacementExample` | pkg/v2/solver/solver_upgrade.go:171-195 | Two packages replaced by the same third one: whatever the order, the install list holds that name twice. |
| `UpgradePlan.KeptReplacementExample` | pkg/v2/solver/solver_upgrade.go:186-191 | A replacement that is installed already is added by the install list without a remove. |
| `UpgradePlan.UpgradeSystem` | pkg/v2/installer/manager_upgrade.go:241-488 | From candidates to the upgraded system, replacements included, whenever the lists are a transaction: either the file check fails and nothing changes, or every head that installs or updates is registered with its files, nothing else is new, what is ousted and not added again is gone, and everything of another name stays. Owned files are disjoint afterwards if they were before and all of them are on the target. Over disjoint files it passes if and only if no file is installed twice and no file of a head is on the target and owned by a package that is not ousted. |
| `UpgradeRun.Upgrade` | pkg/v2/solver/solver_upgrade.go:107-256 | The check of all candidates and the execution in one: unless a check fails, and then nothing changes, the head of every candidate is registered and nothing else is new; without the deep option, when sorting loses no version of a package that is offered, no installed name that had available a version that is not older and in no conflict is registered in an older version. It ends with the transaction done only if that holds of the files, and, when only conflicts stand in the way of welcome versions, whenever it does. |
| `MemoryIndex.InMemoryDatabase.CreatePackage` | pkg/package/database_mem.go:178-197 | The state reflects the history with one more creation: store, version index and cache. |
| `MemoryIndex.InMemoryDatabase.PopulateCaches` | pkg/package/database_mem.go:216-244 | A fingerprint is indexed only the first time it is seen. |
| `MemoryIndex.InMemoryDatabase.RemovePackage` | pkg/package/database_mem.go:486-494 | The state reflects the history with one more remove; the cache of seen fingerprints is kept. |
| `MemoryIndex.InMemoryDatabase.FindPackages` | pkg/package/database_mem.go:367-405 | A selector finds exactly the matching packages that were created and never removed; the error "cache mismatch" never happens; "no versions" exactly for a name that was never created. |
| `MemoryIndex.BoltDatabase.CreatePackage` | pkg/package/database_boltdb.go:253-284 | One more record of the package. |
| `MemoryIndex.BoltDatabase.RemovePackage` | pkg/package/database_boltdb.go:417-428 | One record less; fails exactly when there is none. |
| `MemoryIndex.BoltDatabase.FindPackages` | pkg/package/database_boltdb.go:474-506 | A selector finds exactly the matching packages with a record. |
| `MemoryIndex.SelectorsAgree` | pkg/package/database_mem.go:367-405 | After any history index and full scan find the same fingerprints if and only if no matching package was removed once and still has a record; the index never finds more. |
| `MemoryIndex.SelectorsAgreeOnPackages` | pkg/package/database_boltdb.go:474-506 | The same for the packages themselves, when a fingerprint always stands for the same package. |
| `MemoryIndex.CreatedOnceLosesNothing` | pkg/package/database_mem.go:216-268 | If no package is created twice, both databases agree on selectors and on exact lookups, whatever is removed and when. |
| `MemoryIndex.CreatedTwiceIsLost` | pkg/package/database_boltdb.go:417-428 | Never creating a removed package again is not enough: a package created twice and removed once keeps a record in Bolt and leaves the index. |
| `MemoryIndex.IndexedIsPresent` | pkg/package/database_mem.go:229-251 | What is indexed is stored, and what is stored has a record in Bolt. |
| `BuildVersion.BumpKeepsForm` | pkg/package/package.go:1029-1097 | A bumped build part is classified with the same prefix and the next number, if and only if it is not an `r`, `p` or `rc` number that overflows 64 bits. |
| `BuildVersion.BumpMeaning` | pkg/package/package.go:1029-1097 | What a bump makes of a text: of an empty one 1; of a signed number, of a tag with digits, and of something that ends with the last dot before a number, what is before the number with the next one; of any other text the text with .1 behind it. |
| `BuildVersion.TestedBumps` | pkg/package/package_test.go:363-428 | The nine bumps of the tests of the repository. |
| `BuildVersion.AtoiMeaning` | pkg/package/package.go:1034-1036 | A text is read as a number if and only if it is an optional sign and digits whose value has 64 bits. |
| `BuildVersion.OverflowExample` | pkg/package/package.go:1094-1097 | The build part r9223372036854775807 loses its prefix when it is bumped. |
| `BuildVersion.BumpsAdd` | pkg/package/package.go:1029-1097 | k bumps add k to the number and leave the prefix, up to the largest 64-bit integer. |
| `BuildVersion.BumpsAreDistinct` | pkg/package/package.go:1029-1097 | No build part comes back. |
| `BuildVersion.PackageBumpsAdd` | pkg/package/package.go:1016-1100 | k bumps of a package change only the number of its build part, and add k to it. |
| `BuildVersion.DefaultPackage.BumpBuildVersion` | pkg/package/package.go:1016-1100 | It fails exactly when the version cannot be parsed, and then changes nothing; otherwise the version is the version part, the suffix, a plus sign and the bumped build part. |

## Left out

- Downloads, unpacking, removal of files from disk, finalizers, locks, goroutines, logging, command line, YAML and JSON: input and output.
- Version parsing and selectors: an oracle for the external Gentoo library; a package's own fingerprint string is the pair of name and version.
- The comparators of `sort.Slice`: the sorter by repository is a parameter, any permutation for the resolver and a descending one for the upgrade selector, and so is the order in which the version library sorts. The in-place sort of requires before the thin list is returned (`SortPackageThinList4Requires`) is not modelled; the sorter is proved for inputs in any order.
- `AtomMatches` and equality of names are one key equality; empty names are not modelled.
- Sorter.SortPkgsThinArr: requires distinct names, because the source keys its queue and its injected set by name; what it does with two inputs of one name is not modelled. On inputs that are both cyclic and not closed nothing is claimed about success, because the pass that breaks pairs looks no further than the first missing require.
- The twin of the sorter in anise-build (anise-build/pkg/v2/solver/solver_base.go:69-214, 265-348) is the same code without the filter of requires before it; `Sorter.SortPkgsThinArr` does not assume a closed input, so it covers the twin too.
- OrderOperations.OrderOperations: requires distinct names over installs and updates, as both solvers are meant to deliver them; nil packs count as empty.
- `showPackages`, the question to the user, pretend and download-only modes, and installs with `NoDeps`: branches around the modelled ones.
- Installer.ArtifactsManager.Upgrade: a failing unpack of one package is not modelled, so every operation reaches the database.
- Installer.ArtifactsManager.RegisterPackage: keeps one package record for each fingerprint, while a forced second registration adds one to Bolt; a transaction never registers a fingerprint that is there (`Database.NotRegisteredYet`), and the counts of records are in `MemoryIndex`.
- Installer.ArtifactsManager.CheckFileConflicts: the count of warnings in safe mode is left out; it does not change the result.
- Uninstall.Uninstall: the roots are the installed packages that the request names; the search for them is left out.
- Uninstall.DanglesInEveryOrder: one way only; `UninstallOrders.OneTwinExactly` is exact when at most one package has another version, and `UninstallOrders.CrossedExample` shows that beyond that it does not suffice to look at each package alone. `UninstallOrders.DanglesAlwaysExactly` is exact, over the orders.
- LeftoverExample.Run: an install with the force option; that an older version of p without requires makes the same run succeed without it is not shown.
- Resolver.Solver.Install: the preparation of the system, conflict and provides maps, the first search, and the choice among several providers (pkg/v2/solver/solver.go:496-655) come before the model; their results are parameters. Success with a `NoDeps` request is left out.
- Resolver.Solver.ResolvePackage: success is proved when conflicts are the only thing in the way (`Resolver.Unobstructed`), and when the first version that is not skipped fits at entry (`Resolver.FirstFit`); versions whose requires need resolutions of their own are covered by the former, one require at a time by `Resolver.Solver.ProcessDep`, and by `Resolver.AlwaysFits`.
- Leftovers.MetOffCycle: one way; a package on a cycle of requires can have all its requires met.
- UpgradeSelector.CheckCandidates: the condition on the inputs goes one way; a name without such a version may still be spared, as no nested resolution need come to it.
- UpgradeRun.Upgrade: the candidates have the names they are stored under, as all that the modelled selector stores; `UpgradePlan.UpgradeSystem` covers replacements.
- KeptRequires.KeepsInEveryOrder: the source sorts the roots by the number of their requires and by name, and the model takes any order of the roots. For the order of the source the condition is enough; that it fails means that some order cuts a require.
- Planner.RemovesBeforeAllConflictsInEveryOrder: all orders of the additions count, those that put a dependency after its dependent included; `Planner.RemovesBeforeAllConflicts` is exact for each single order.
- UpgradeSelector.CheckCandidate2Upgrade: candidates that reach the installed package through a provide (pkg/v2/solver/solver_upgrade.go:339-348) are not modelled; all available versions have the installed name.
- `prepareCandidates`, `analyzeInstalledPackages`, masks and subsets: they select inputs and keep no invariant of their own.
- MemoryIndex.InMemoryDatabase.CreatePackage: packages without provides only, so `getProvide` always fails; the map of reverse dependencies is left out. The errors of JSON and base64 cannot occur on what the database itself encodes.
- MemoryIndex.BoltDatabase.CreatePackage: every record gets a new identifier; saving the same Go object a second time, which overwrites its record, is not modelled.
- BuildVersion.PackageBumpsAdd: that the version library reads a bumped version back into the same parts is an assumption on the oracle. The integers of the program have 64 bits.
- Update in place of the Go maps of the solvers, databases and artefact packs: they are fields or variables of type `map` and `seq` that are reassigned. Aliasing between a sorted slice and the map that holds it is modelled by writing the sorted list back (pkg/v2/solver/solver.go:894-906).
