# SSAM in Dafny: container packages from build to teardown

SSAM manages container packages on embedded Linux. This project models the parts of it whose
correctness is not visible in any single function, and proves what they promise. Code that updates
fields, files or buffers in place is modelled by classes, methods and loops; each of these is proved
equal to a specification function, and the theorems are about those functions. Every step that can
fail takes its outcome as an argument, so each theorem covers every combination of failures.

| modules | what they model |
|---|---|
| `TomlCompiler`, `TomlCompilerProofs`, `TomlSharedNames`, `TomlProgram`, `TomlDenotation`, `TomlRefusals` | the macro that turns a TOML tree into structs and getters: the two traversals, the generated types, values of those types, an evaluator for the generated access expressions, the value a TOML file denotes, and what the macro refuses |
| `CommentRewriter`, `TomlText` | the line rewriter whose inner loop shares its iterator with the outer one; lines, optional keys and getter names |
| `Bincode`, `Utf8`, `PackageContainer`, `PackageContainerProofs`, `PackageReaderProofs` | the file format `[zip, payload table, size, version, magic]`, its bincode table, the signing writer and the reader with saturating and wrapping 64-bit arithmetic |
| `InstallTransaction` | installing a package file with backup and rollback |
| `PackageManager`, `PackageManagerProofs`, `ReloadProofs`, `ConsistencyProofs` | the store of live, broken and bundled packages over two directories; reload, install, upgrade, remove and recovery; theorems over every sequence of them |
| `MountStack`, `Setup`, `Lifecycle`, `LazyExecutor`, `MountedFiles`, `MountedImage`, `MountedGenerations` | the layers at a mount point and the image they show, the four concurrent tasks of setup, the status machine, the once-only executor, and the package manager and status machine together |
| `AttachRetry`, `MountLookup`, `OverlayOptions`, `VerityTable`, `Paths`, `RuntimeConfig`, `QuotaTimer` | loop device retries, mount lookup, overlay option escaping, the dm-verity table, path safety, the container's mounts and namespaces, and 40-bit quota timers |

The signature scheme, the hash, the zip writer, path canonicalisation and the case conversions of names
are function parameters. Two properties are assumed of the signature scheme: the public key accepts what
the matching private key signed, and such a signature is no longer than the key
(`PackageContainerProofs.KeyPair`); one of the zip writer: it stores each entry contiguously where its
index says (`StoresEntries`).

## What the proofs found

Some properties one would expect hold only under a condition. Each is proved with its exact condition.

- Table names of a TOML file need not be distinct, but two tables of one name share a struct. All getters
  are correct exactly when every step of every leaf path has the same type and optional mark in the tree
  as in the last table emitted under its parent's name (`TomlSharedNames.GettersCorrectIff`, with a failing
  tree in `SharedTableNameBreaks`).
- Two leaves get the same getter name exactly when their keys consist of the same words, as in `a_b` and
  `a.b` (`TomlText.NamesCollideIff`, `GetterNamesDistinctIff`, `NamesCollide`).
- A struct can come to contain itself: a table inside a table of its own name loses its fields to the outer
  one, which still holds it. That happens exactly when a name reaches itself through the last tables of each
  name (`TomlProgram.SizedIff`, `RecursiveTableFails`). A struct can also take the name of a built-in type
  that the program uses (`OptionTableFails`). With the conditions above, these say exactly when the emitted
  program meets rustc's demands on structs and getters (`ProgramAcceptedIff`).
- A mount or setup that returns Ok leaves the complete stack unless a base layer without its overlay was
  there before: the idempotency gate takes it for a finished mount (`MountStack.SuccessIsCompleteIff`,
  reachable by `PartialStackReachable`).
- The comment at ssamd/src/package.rs:634 says that in three statuses nothing is mounted. It holds after
  every history exactly when an earlier daemon left nothing mounted (`Lifecycle.SkipIsSafeIff`). Otherwise
  a package that was never set up keeps what was left, through a skipped teardown and through an upgrade
  (`LifecycleInvariant`, `TeardownEmptiesIff`, `UpgradeUnmountsForGoodIff`, `LeftoverReachable`). And even
  with nothing mounted, the skip is safe for good only in status Upgrading: in the other two a setup that
  is already queued can still mount (`SkipSafeForGoodIff`, `SetupMountsIff`).
- A failed install whose rollback worked restores all files exactly when nothing was at the destination
  (fresh and bundled), or (upgrade of a downloaded package) when the backup itself failed, or no older backup
  was there and no destination other than the installed file was changed. An older backup stays behind when
  an earlier upgrade could not delete it, and is then lost
  (`InstallTransaction.FailedInstallRestoresIff`, `InstallSucceeds`, `StaleBackupLost`).
- Live and broken names stay disjoint in every change except an install that is carried out under a broken
  package's own name, because the broken entry is looked up by file name
  (`PackageManagerProofs.DisjointIff`, `DoneIff`, reached in `ConsistencyProofs.ReinstallBreaksDisjoint`).
- After a reload every live package is at its recorded bundled path or in the downloaded directory exactly
  when, of the bundled files of each name not overridden, the last one listed can be created if any can
  (`ReloadProofs.ReloadOwnedIff`, with failing files in `DuplicateNamesBreakOwned`).
- An install that reaches its transaction keeps the live packages true to disk exactly when it changes no
  other live package's file, which is spelled out for the destination, the installed file and its backup
  and for every failure (`ConsistencyProofs.InstallOnDiskIff`, `InstallTransaction.Clobbers`). From a
  downloaded directory whose files carry the names an install gives them, this never fails
  (`RunsConsistent`). A removal keeps them true exactly unless its file is also another live package's
  (`RemoveOnDiskIff`).
- The kernel sees exactly the three overlay options iff neither the upper nor the work directory has an
  unescaped comma and the upper one does not end in an odd number of backslashes
  (`OverlayOptions.ThreeOptionsIff`); for the directories of an accepted package, iff the configured root has
  no unescaped comma (`PackageOptionsIff`, with failing roots in `CommaRootFails`).
- A successful mount or setup shows the package's own image exactly if nothing of another image was left at
  the mount point, since the gate does not look at what is mounted (`MountedImage.OwnImageIff`,
  `WrongImageAccepted`). After an upgrade this means: exactly if the replaced package was not left mounted
  (`MountedGenerations.ReplacementImageIff`).
- Splitting a quota timer and combining it again is the identity exactly on signed 40-bit values
  (`QuotaTimer.SplitCombine`).

## Model

| member | source | states |
|---|---|---|
| TomlCompiler.Emitter.DetermineType | proc_macros/src/lib.rs:80-107 | accepts exactly the values that compile, with their Rust type; collects the struct of every nested table |
| TomlCompiler.Emitter.GenerateFields | proc_macros/src/lib.rs:114-141 | one field per entry in order, Option exactly when its dotted path is marked |
| TomlCompiler.Emitter.AddProxyGetters | proc_macros/src/lib.rs:170-244 | appends the getters of the subtree, each with the chain of field reads and `?` for its path; the struct map is unchanged |
| TomlCompiler.Emitter.GenerateProxyGetters | proc_macros/src/lib.rs:148-167 | the getters of all root entries in order |
| TomlCompiler.Emitter.TraverseToml | proc_macros/src/lib.rs:314-344 | succeeds exactly on tables that compile, leaving the struct of each table, getters only on the root |
| TomlCompilerProofs.GetterCompilerCorrect | proc_macros/src/lib.rs:170-244 | for every accepted tree, one getter per leaf; each type-checks and on every well-typed value returns what walking to its leaf finds, never faulting |
| TomlCompilerProofs.OneGetterPerLeaf | proc_macros/src/lib.rs:148-244 | getters and leaves correspond one to one |
| TomlCompilerProofs.TableDeclared | proc_macros/src/lib.rs:280-344 | every table is declared once, with exactly the fields generated from its entries |
| TomlCompilerProofs.GetterTyped | proc_macros/src/lib.rs:196-243 | `?` is applied only to Option fields and only in getters returning Option; the result type is the leaf's |
| TomlCompilerProofs.GetterMeaning | proc_macros/src/lib.rs:196-243 | the getter returns the leaf iff every optional field on its path is present, else None; a present leaf has the declared type |
| TomlDenotation.GettersReturnTheFile | proc_macros/src/lib.rs:80-244 | the value a file denotes (strings, numbers, flags, arrays and tables, Some at marked keys) has the type of the emitted root struct exactly when the file conforms table by table: right kinds, 64-bit integers, like array elements, only optional entries missing; then every getter returns the denoted value of the leaf at its own path |
| TomlDenotation.DenoteIff | proc_macros/src/lib.rs:80-107 | a value of the file has the type the macro gave its entry exactly when it conforms to it |
| TomlRefusals.CompilesIff | proc_macros/src/lib.rs:80-107 | the macro compiles a value exactly when it supports every value it looks into: no floats and dates, no empty or mixed arrays, keys and struct names that are identifiers; of an array it looks into the first element only |
| TomlText.OptionalFromText | proc_macros/src/lib.rs:37-47 | from the text of the file: a field with dot-free keys is optional exactly when the text after some line's marker, trimmed, splits at dots into its path |
| TomlText.MarkedKeyIff | proc_macros/src/lib.rs:37-47 | a line marks a key exactly if it is the marker and the key, with white space around each |
| TomlText.LinesMean | proc_macros/src/lib.rs:37-47 | a text is read line by line, each ending at a newline with or without a carriage return |
| TomlText.GetterNameWords | proc_macros/src/lib.rs:247-256 | the name of a getter is `get` and the words of its keys in order, joined by underscores |
| TomlText.NamesCollideIff | proc_macros/src/lib.rs:247-256 | two paths get the same getter name exactly when their converted keys consist of the same words in order |
| TomlText.GetterNamesDistinctIff | proc_macros/src/lib.rs:148-256 | the getters of a program have distinct names exactly when no two leaves have the same words |
| TomlText.NamesCollide | proc_macros/src/lib.rs:247-256 | a leaf with an underscore in its key and one below a table get the same name |
| TomlProgram.ProgramAcceptedIff | proc_macros/src/lib.rs:314-424 | for every tree the macro compiles: one struct per identifier, none that contains itself by value, none named as a built-in type in use, typed getters and distinct getter names exactly when table names convert to different identifiers, no name reaches itself through the last tables of each name, no table takes the name of a built-in type the tree asks for, every leaf path agrees with the last table of each parent's name, and no two leaves have the same words; then all getters are correct and the root struct has values |
| TomlProgram.SizedIff | proc_macros/src/lib.rs:343 | no emitted struct contains itself by value exactly when no table name reaches itself through the last tables of each name |
| TomlProgram.AcceptedInhabited | proc_macros/src/lib.rs:314-344 | when every table has a struct of its own, no struct contains itself and the root struct has values |
| TomlProgram.RecursiveTableFails | proc_macros/src/lib.rs:343 | a table inside a table of its own name: every other demand is met, but the struct contains itself and has no value |
| TomlProgram.OptionTableFails | proc_macros/src/lib.rs:126-133 | a marked table whose identifier is Option takes the place of the type of its own field |
| TomlText.DottedInjective | proc_macros/src/lib.rs:125-126 | dotted paths of dot-free keys are equal iff the paths are |
| TomlSharedNames.GettersCorrectIff | proc_macros/src/lib.rs:314-344 | without assuming distinct table names: all getters type-check, and then are correct, exactly when every step of every leaf path agrees in type and optional mark with the last table emitted under its parent's name |
| TomlSharedNames.LastTableEmitted | proc_macros/src/lib.rs:343 | the struct of a name has the fields of the last table of that name in emission order |
| TomlSharedNames.DistinctIdentsIff | proc_macros/src/lib.rs:280-344 | every struct is declared once exactly when different table names convert to different identifiers |
| TomlSharedNames.GetterTypedIff | proc_macros/src/lib.rs:196-243 | a getter type-checks exactly when each step of its path selects a field of the right type in the struct of its parent's name |
| TomlSharedNames.SharedTableNameBreaks | proc_macros/src/lib.rs:343 | a tree with two tables of one name for which an emitted getter does not type-check |
| CommentRewriter.ReplaceOptionalComment | proc_macros/src/lib.rs:50-73 | the nested loop over one iterator equals a two-state automaton |
| CommentRewriter.RewriteKeepsUnmarked | proc_macros/src/lib.rs:50-73 | the live lines of the output are, in order, those of the input except the first after each marker |
| CommentRewriter.LiveLinePlaced | proc_macros/src/lib.rs:50-73 | every live line has its own place in the output, in order, commented out exactly when marked |
| CommentRewriter.PendingMeans | proc_macros/src/lib.rs:56-68 | the inner loop is searching exactly when some marker has had no live line after it |
| CommentRewriter.EveryLine | proc_macros/src/lib.rs:50-73 | what each line adds to the output: after an open marker, comments are copied, blank lines dropped and the live line commented out; elsewhere a marker is replaced and every other line copied, trimmed |
| CommentRewriter.TrimIff | proc_macros/src/lib.rs:55-63 | the trimmed text is the only one that stands in the line with nothing but white space around it and none at its own ends |
| TomlText.ReplaceInText | proc_macros/src/lib.rs:50-73 | the rewritten text, from splitting into lines to the final newline |
| TomlText.RewrittenTextKeepsUnmarked | proc_macros/src/lib.rs:50-73 | the rewritten text, read back as lines, has exactly the live lines of the original except the first after each marker |
| Bincode.IntRoundTrip | libssam/src/lib.rs:44-51 | fixed-width little-endian integers decode to themselves |
| Bincode.PayloadRoundTrip | libssam/src/ssam_package/ssam_pkg_payload.rs:102-107 | each payload variant decodes to itself at the end of its encoding, within the decode limit |
| Bincode.TableRoundTrip | libssam/src/ssam_package/ssam_pkg_payload.rs:165-180 | the payload table decodes to itself wherever it stands in a file, if its claimed size fits the limit |
| Utf8.IsUtf8Iff | libssam/src/ssam_package/ssam_pkg_payload.rs:102-107 | the byte strings accepted as external paths are exactly the UTF-8 encodings (section 3 of RFC 3629) of sequences of scalars |
| PackageReaderProofs.PayloadDecodesIff | libssam/src/ssam_package/ssam_pkg_payload.rs:102-107 | a payload is decoded exactly if its own encoding stands there, within the limit |
| PackageReaderProofs.DecodedTableMeans | libssam/src/ssam_package/ssam_pkg_payload.rs:165-180 | a table is decoded only from a count and that many well-formed entries, and is the map they build up |
| PackageReaderProofs.LocatedTableBytes | libssam/src/ssam_package/ssam_pkg_payload.rs:165-180 | the bytes of a table of five located payloads, tag by tag |
| PackageContainer.Handle.VerifyFooter | libssam/src/ssam_package.rs:96-149 | the footer check on the file's last bytes, with its three errors |
| PackageContainer.Handle.ReadPayload | libssam/src/ssam_package/ssam_pkg_payload.rs:31-74 | the size and saturating end checks, then the exact bytes |
| PackageContainer.Handle.VerifyPayloads | libssam/src/ssam_package/ssam_pkg_payload.rs:217-300 | hashes the signed payloads in type order and accepts them iff the signature verifies |
| PackageContainer.Handle.LoadPayloadsInfo | libssam/src/ssam_package.rs:560-617 | footer, size field, table offset, table and verification, read backwards from the end |
| PackageContainer.Sign | libssam/src/ssam_package/ssam_pkg_payload.rs:182-215 | signs the digest of the in-memory signed payloads in type order, or fails |
| PackageContainer.WrapPayloads | libssam/src/ssam_package.rs:475-515 | one zip entry per payload with its bytes, or failure |
| PackageContainer.WrapPayloadsInfo | libssam/src/ssam_package.rs:517-558 | appends the table that locates every entry, and its length; fails if an entry is missing or a write fails |
| PackageContainer.Wrap | libssam/src/ssam_package.rs:403-473 | signed payloads, archive, table, size, version and magic in this order, or failure if any step or write fails |
| PackageContainerProofs.ReaderSound | libssam/src/ssam_package.rs:350-392 | for arbitrary bytes, loading fails or returns exactly the three signed payloads as in-bounds slices of at most 4 MiB, whose concatenation the signature check accepted |
| PackageReaderProofs.OpensIff | libssam/src/ssam_package.rs:350-392 | for arbitrary bytes, exactly which files are opened: length, version, magic, size field, decodable table, payloads in bounds and within their caps, a signature over their concatenation that verifies, contents that deserialize |
| PackageReaderProofs.FooterErrorIs | libssam/src/ssam_package.rs:96-149 | which footer error each file gives |
| PackageReaderProofs.TamperedIsRefused | libssam/src/ssam_package/ssam_pkg_payload.rs:217-300 | a well-formed file whose signature does not fit its contents is refused with that error |
| PackageContainerProofs.ShortFileRejected | libssam/src/ssam_package.rs:560-606 | a file shorter than footer and size field is refused even with a valid footer |
| PackageContainerProofs.TableOffsetExact | libssam/src/ssam_package.rs:574-606 | the saturating and wrapping offset arithmetic gives the exact offset inside the file |
| PackageContainerProofs.PayloadBytesExact | libssam/src/ssam_package/ssam_pkg_payload.rs:31-74 | no sum saturates: a read succeeds iff the extent is small enough and in bounds |
| PackageContainerProofs.SignedMeans | libssam/src/ssam_package/ssam_pkg_payload.rs:182-215 | what is signed is metadata, runtime config and seccomp policy in this order, and only the signature is added |
| PackageContainerProofs.WrapSucceedsIff | libssam/src/ssam_package.rs:403-558 | wrapping succeeds exactly if signing does, the filesystem image is in memory or its external file can be read, the archive of the five entries in type order can be written and indexed, and all writes behind it succeed |
| PackageContainerProofs.WrapLoadRoundTrip | libssam/src/ssam_package.rs:350-617 | opening a wrapped file with the matching key gives back the three payloads byte for byte and the extent of exactly the filesystem image (the bytes in memory, or those of the external file), iff each payload fits the cap and deserializes |
| InstallTransaction.TransactionActor.ExecuteInstall | ssamd/src/package_manager/pkg_file.rs:268-378 | the files and the built package after any combination of step outcomes |
| InstallTransaction.TransactionActor.RollbackFileOps | ssamd/src/package_manager/pkg_file.rs:234-247 | renames the backup back, or removes the destination |
| InstallTransaction.InstallFrame | ssamd/src/package_manager/pkg_file.rs:268-378 | only the destination, the installed file and its backup can change |
| InstallTransaction.InstallSucceeds | ssamd/src/package_manager/pkg_file.rs:330-349 | on success the source image is at the destination and an upgrade leaves no old file beside it; its backup stays iff deleting it fails |
| InstallTransaction.FailedInstallRestoresIff | ssamd/src/package_manager/pkg_file.rs:225-247 | for every input: exactly when a rolled-back install leaves every file as it was, with the stale backup, the new destination and the file already at the destination as the failing cases |
| InstallTransaction.StaleBackupLost | ssamd/src/package_manager/pkg_file.rs:225-247 | a backup left by an earlier upgrade is lost by the next one that fails |
| InstallTransaction.ClobbersIff | ssamd/src/package_manager/pkg_file.rs:268-378 | for every file and every combination of failures, whether an install changes or removes it, by its place: destination, installed file or backup |
| InstallTransaction.OldImageSurvives | ssamd/src/package_manager/pkg_file.rs:225-247 | even if rollback fails, the old image is at its own path or at the backup path |
| PackageManager.Manager.ReloadPackages | ssamd/src/package_manager.rs:257-308 | the two-phase load as a fold over both listings |
| PackageManager.Manager.LoadParsedPackage | ssamd/src/package_manager.rs:311-361 | any failure degrades this one package to broken |
| PackageManager.Manager.Recover | ssamd/src/package_manager.rs:457-486 | the name is live as its file now is, or not live |
| PackageManager.Manager.InstallPackage | ssamd/src/package_manager.rs:685-754 | every refusal and its order, then install or upgrade with recovery |
| PackageManager.Manager.InstallAccepted | ssamd/src/package_manager.rs:711-753 | clearing the broken entry, the install mode, and recovery after a failed upgrade |
| PackageManager.Manager.RemovePackage | ssamd/src/package_manager.rs:517-595 | removal of a live or broken package with purge, file removal and restoration of the bundled version |
| PackageManagerProofs.SafetyOfRuns | ssamd/src/package_manager.rs:257-754 | no sequence of reloads, installs and removes, with any failures, changes a file in the bundled directory or lets the store point outside the two directories |
| PackageManagerProofs.LiveEntriesOwned | ssamd/src/package_manager.rs:257-754 | with one bundled file per name, every live entry of every run is at its recorded bundled path or directly in the downloaded directory |
| ReloadProofs.ReloadOwnedIff | ssamd/src/package_manager.rs:284-308 | after a reload every live entry is at its recorded bundled path or in the downloaded directory exactly when, for each bundled name not overridden, the last listed file can be created if any can |
| ReloadProofs.DuplicateNamesBreakOwned | ssamd/src/package_manager.rs:284-308 | a reload of two bundled files with the same package for which that fails |
| PackageManagerProofs.DestConfined | ssamd/src/package_manager.rs:429-436 | the destination of an accepted name is one plain component below the downloaded directory |
| PackageManagerProofs.DestInjective | ssamd/src/package_manager.rs:434-436 | distinct names have distinct destinations |
| PackageManagerProofs.OthersUntouched | ssamd/src/package_manager.rs:517-754 | a change touches no other package's live entry and no recorded bundled path |
| PackageManagerProofs.FailedInstall | ssamd/src/package_manager.rs:711-744 | after a failed transaction the broken entry under the destination's file name is gone, and the name is live iff it was before and its old file still reads and builds, and then as that file now is |
| PackageManagerProofs.FailedPurge | ssamd/src/package_manager.rs:534-554 | after a failed purge no file changed, and the name is live iff its file reads and builds |
| PackageManagerProofs.FailedChange | ssamd/src/package_manager.rs:517-754 | no failed change makes a package live that was not, or live at another path |
| PackageManagerProofs.RefusedChange | ssamd/src/package_manager.rs:685-726 | every refusal before the transaction leaves live packages and files untouched, all but a refused upgrade the whole state |
| PackageManagerProofs.RemoveSucceeds | ssamd/src/package_manager.rs:532-591 | success deletes exactly the package's file; the name is then live iff its recorded bundled version reads and builds, and is that version |
| ConsistencyProofs.RemovalRefusalsIff | ssamd/src/package_manager.rs:517-591 | each refusal or failure of a removal comes exactly if its own check is the first to fail |
| PackageManagerProofs.InstallSucceedsLive | ssamd/src/package_manager.rs:400-448 | success makes exactly the source image live at the name's destination, at a higher version unless forced |
| PackageManagerProofs.DoneIff | ssamd/src/package_manager.rs:685-754 | an install succeeds exactly if the source is a canonical package file outside both directories that verifies, its version is greater than that of a verified live one or the install is forced, its name is safe, volume data is there, a live package agrees to the upgrade, and the steps of the transaction succeed |
| PackageManagerProofs.RefusalsIff | ssamd/src/package_manager.rs:685-726 | each refusal of an install comes exactly if its own check is the first to fail, in the source's order; the transaction is reached exactly if none fails |
| PackageManagerProofs.PackageNameIff | ssamd/src/package_manager/parser.rs:15-22 | a package file name is something before a dot and the configured extension behind it, in any case |
| PackageManagerProofs.DisjointIff | ssamd/src/package_manager.rs:714-716 | a change keeps live and broken names disjoint iff it is not an install that will be carried out under a broken name |
| ConsistencyProofs.ReinstallBreaksDisjoint | ssamd/src/package_manager.rs:714-716 | a reload that finds a package it cannot build, and an install of that name after which it is both live and broken |
| ReloadProofs.ReloadIsOverride | ssamd/src/package_manager.rs:257-361 | with one file per name in each directory, each parsed name has exactly one entry, the downloaded one if there is one; bundled paths are all recorded; overridden bundled packages are never built |
| ReloadProofs.FilesLoaded | ssamd/src/package_manager.rs:257-361 | file by file: every downloaded package file is live or broken after a reload as its contents and its build say, and so is every bundled one that is not overridden |
| ReloadProofs.OverrideDetermines | ssamd/src/package_manager.rs:257-361 | that description determines the whole store |
| ReloadProofs.ReloadOrderIndependent | ssamd/src/package_manager/parser.rs:102-116 | the order in which directories list their files does not matter |
| ReloadProofs.ReloadDisjoint | ssamd/src/package_manager.rs:257-361 | after such a reload no name is both live and broken |
| ReloadProofs.ReloadForgets | ssamd/src/package_manager.rs:257-259 | the result of a reload depends only on the files |
| ConsistencyProofs.RunsConsistent | ssamd/src/package_manager.rs:257-754 | from a tidy downloaded directory, in every run with any failures, every live package is exactly what its file holds, a downloaded one at the file named after it, and the directory stays tidy |
| ConsistencyProofs.ReloadConsistent | ssamd/src/package_manager.rs:257-361 | a reload establishes this from any earlier store |
| ConsistencyProofs.InstallConsistent | ssamd/src/package_manager.rs:685-754 | an install keeps it, including failed upgrades and failed rollbacks |
| ConsistencyProofs.RemoveConsistent | ssamd/src/package_manager.rs:517-595 | a removal keeps it |
| ConsistencyProofs.FailedUpgradeUndone | ssamd/src/package_manager.rs:738-744 | when rollback and recovery work, a failed upgrade leaves exactly the same packages live, at their old versions |
| ConsistencyProofs.InstallOnDiskIff | ssamd/src/package_manager.rs:714-753 | for every install that reaches its transaction, fresh or upgrade, succeeding or failing anywhere: the live packages stay true to disk exactly when no other live package's file is changed and a successful one does not drop its own; every part of the condition can be told beforehand |
| ConsistencyProofs.RemoveOnDiskIff | ssamd/src/package_manager.rs:517-595 | a removal, whatever fails, keeps the live packages true to disk exactly unless it removes a file that is also another live package's |
| MountStack.MountPoint.MountDeviceWith | ssamd/src/mount.rs:663-676 | base, then overlay, the base rolled back if the overlay fails |
| MountStack.MountPoint.MountPkgfs | ssamd/src/mount.rs:762-854 | the idempotency gate, then attach, verity and mount |
| MountStack.MountPoint.UnmountPkgfs | ssamd/src/mount.rs:733-760 | the two guarded unmounts, top down |
| MountStack.MountPoint.SetupTask | ssamd/src/package.rs:239-261 | mount, and after a failure unmount and mount once more |
| MountStack.MountExactly | ssamd/src/mount.rs:663-854 | a mount over something does nothing and succeeds; over nothing it mounts base and overlay, or leaves nothing, or the base alone when its rollback failed too |
| MountStack.UnmountExactly | ssamd/src/mount.rs:733-760 | what an unmount leaves of each stack, step by step; it succeeds exactly when nothing is left |
| MountStack.SetupMountOkIff | ssamd/src/package.rs:239-261 | the mount task succeeds exactly if something is mounted, or the first mount succeeds, or what it left is taken down and the second succeeds |
| MountStack.StackInvariant | ssamd/src/mount.rs:663-854 | over every history with any failures, whatever part of the stack an earlier daemon left, the layers are a prefix of base and overlay, or of base alone |
| MountStack.UnmountEmpties | ssamd/src/mount.rs:733-760 | a successful unmount, cleanup or teardown leaves nothing mounted, also of what an earlier daemon left |
| MountStack.UnmountEmptiesIff | ssamd/src/mount.rs:733-760 | on a stack of any height, a successful unmount empties it iff it is no higher than the full stack |
| MountStack.SetupKeepsValid | ssamd/src/package.rs:239-261 | setup keeps the prefix, and its retry branch returning Ok leaves the stack complete |
| MountStack.SuccessIsCompleteIff | ssamd/src/mount.rs:767-778 | a successful mount or setup is complete iff it did not start from a base without its overlay |
| MountStack.PartialStackReachable | ssamd/src/mount.rs:669-673 | that start is reachable by a failed rollback |
| Setup.SetupConfluent | ssamd/src/package.rs:222-297 | every interleaving of the four tasks leaves the same resources and the same result, the error being that of the first failing task in the order executor, prepare, netns, mount |
| Setup.SetupResultIff | ssamd/src/package.rs:222-297 | under every interleaving, from the inputs alone: Ok exactly if an executor is there or can be built, a bundle is there or can be prepared, the bridge (if any) is created and attached, and the filesystem can be mounted; otherwise the error is the first of these that fails, and each resource is exactly as these say |
| Setup.SetupTerminates | ssamd/src/package.rs:222-297 | all four run to completion under every schedule that gives each its few steps |
| Setup.SetupOkMeans | ssamd/src/package.rs:282-296 | Ok iff all four are Ok, and then the executor, the mount, the bundle and the bridge network exist |
| Setup.LayersValidThroughout | ssamd/src/package.rs:239-265 | at every moment of every interleaving the layers are a valid prefix |
| Setup.ExecutorRefines | ssamd/src/package.rs:229-235 | the executor task of setup is one call of the once-only initialiser |
| Lifecycle.TransitionManager.Transition | ssamd/src/package/state_machine.rs:75-127 | the status and layers after a request, with setup failures compensated by a cleanup |
| Lifecycle.RefusedOrRecorded | ssamd/src/package/state_machine.rs:75-127 | which requests are refused, which are already fulfilled, and which only record the status |
| Lifecycle.StartStopStatus | ssamd/src/package/state_machine.rs:130-140 | a start or stop that acts leaves Running exactly of an active container's state, Ready exactly for an inactive one, Error exactly for a failure, which alone makes the request fail; the layers stay |
| Lifecycle.SetupStatus | ssamd/src/package/transition.rs:100-121 | setup ends Ready over a mount if all succeeds, otherwise in Error after the cleanup |
| Lifecycle.UnmountStatus | ssamd/src/package/transition.rs:162-314 | a cleanup or upgrade has its status exactly if the unmount succeeds |
| Lifecycle.RunningOnlyIf | ssamd/src/package/state_machine.rs:75-140 | in every history, a package is running in a state only if some start or stop ended with a container active in it, or it was set to it directly, and it has been so ever since |
| Lifecycle.TransitionManager.HandleTeardown | ssamd/src/package/state_machine.rs:42-50 | unmounts and keeps the status |
| Lifecycle.LifecycleInvariant | ssamd/src/package.rs:632-642 | after every history over whatever was left mounted: no half-way status is visible, the layers are a valid prefix, and where teardown is skipped something is mounted iff the package was never set up and the teardowns so far did not remove what was left |
| Lifecycle.SkipIsSafeIff | ssamd/src/package.rs:632-642 | a skipped teardown never leaves a mount, in any history, iff nothing was left by an earlier daemon |
| Lifecycle.TeardownEmptiesIff | ssamd/src/package.rs:632-642 | a teardown that returns Ok leaves something mounted exactly if it was skipped for a package never set up over a leftover mount |
| Lifecycle.TeardownEmpties | ssamd/src/package/state_machine.rs:42-50 | with other messages between the status query and the teardown message, its Ok still means nothing is mounted |
| Lifecycle.UpgradeUnmountsForGoodIff | ssamd/src/package/transition.rs:287-314 | after a successful upgrade request nothing is ever mounted for the old package again, exactly unless it was never set up and something was left mounted |
| Lifecycle.DeadStaysDead | ssamd/src/package/transition.rs:100-318 | an upgrading, failed or broken package never leaves those statuses, and once unmounted stays unmounted |
| Lifecycle.NoSetupStaysEmpty | ssamd/src/package/transition.rs:100-121 | only a setup request mounts anything |
| Lifecycle.SetupMountsIff | ssamd/src/package/transition.rs:100-121 | with nothing mounted, a setup request can mount something iff the status is Verified or Cleaned |
| Lifecycle.SkipSafeForGoodIff | ssamd/src/package.rs:632-642 | a skipped teardown with nothing mounted is safe for good iff the status is Upgrading; otherwise a queued setup can mount |
| Lifecycle.LeftoverReachable | ssamd/src/package/transition.rs:298-305 | a leftover mount survives a successful upgrade of a verified package |
| MountedImage.ApplyForgets | ssamd/src/mount.rs:663-854 | the mount stack with the image each layer shows refines the one without |
| MountedImage.OneImageAlways | ssamd/src/mount.rs:663-854 | whatever packages follow each other at a mount point, all layers always show one image |
| MountedImage.OwnImageIff | ssamd/src/mount.rs:767-778 | after a successful mount or setup the mounted image is the package's own iff nothing of another image was mounted there before |
| MountedImage.UnmountedThenOwn | ssamd/src/mount.rs:733-854 | after a successful unmount the next successful mount shows the right image |
| MountedImage.WrongImageAccepted | ssamd/src/mount.rs:767-778 | a leftover mount of another image is taken for the package's own |
| MountedFiles.RemoveTouchesMountedIff | ssamd/src/package_manager.rs:517-595 | a removal that changes anything happens with the package unmounted, exactly unless its teardown was skipped over a leftover mount; without a queued setup it stays unmounted |
| MountedFiles.UpgradeTouchesMountedIff | ssamd/src/package_manager.rs:718-744 | an upgrade that touches a file has had its package unmounted for good, with the same exception |
| MountedGenerations.OpsAllRun | ssamd/src/package/transition.rs:100-314 | every history of the status machine is a history of the mount stack |
| MountedGenerations.ReplacementImageIff | ssamd/src/package_manager.rs:718-744 | after a successful upgrade request, whatever the replaced package did and whatever failed, the first successful setup of the new package shows its own image iff the replaced package was not left mounted |
| LazyExecutor.Lazy.Get | ssamd/src/package.rs:146-169 | what one call returns and leaves in the cell and the arguments |
| LazyExecutor.AtMostOnce | ssamd/src/package.rs:126-170 | under every interleaving the constructor starts at most once and all successful calls agree |
| LazyExecutor.SuccessIsForever | ssamd/src/package.rs:126-170 | after success every later call returns that executor |
| LazyExecutor.FailureIsForever | ssamd/src/package.rs:126-170 | after failure or cancellation every later call fails |
| LazyExecutor.FailureCauses | ssamd/src/package.rs:126-170 | a failed and a cancelled construction both end there |
| LazyExecutor.FirstCallBuilds | ssamd/src/package.rs:146-169 | the first call through the permit builds the executor once and returns what it built |
| LazyExecutor.ReturnsAtOnce | ssamd/src/package.rs:146-169 | once the executor is there, a new call returns it at once and a waiting one when it goes on |
| LazyExecutor.CancelBeforeTake | ssamd/src/package.rs:146-169 | a call cancelled before it took the arguments leaves them and the permit to the next |
| AttachRetry.AttachWithRetry | ssamd/src/mount.rs:393-442 | for all u32 budgets, stops within B+W+1 attempts at the first stopping round: Ok exactly of the device attached there, and each error exactly for its own kind of round; a budget at the u32 maximum ends in counter overflow instead of exhaustion |
| AttachRetry.SucceedsIff | ssamd/src/mount.rs:410-430 | a device is returned iff a round attaches one and all earlier rounds were retries within their own budgets |
| AttachRetry.FirstStopIff | ssamd/src/mount.rs:402-441 | the loop ends in a round exactly if all earlier ones are retries within their own budgets and this one is none or finds its own budget used up |
| AttachRetry.FirstStopUnique | ssamd/src/mount.rs:402-441 | the stopping round is unique |
| MountLookup.BestMatchDeepest | ssamd/src/mount.rs:857-900 | the match is the deepest component-prefix mount of the target, none iff there is none |
| MountLookup.FindMountIff | ssamd/src/mount.rs:857-900 | an entry is found exactly if the target is a directory, the table can be read, and it is the last entry for the deepest mounted place above the target; nothing exactly if there is none |
| MountLookup.ExactMountIff | ssamd/src/mount.rs:911-917 | true iff the directory exists, the table is readable and has an entry for the same place |
| MountLookup.ExactMountMeansLayers | ssamd/src/mount.rs:911-917 | the gate is true exactly when at least one layer is mounted there |
| OverlayOptions.EscapeIsOnePass | ssamd/src/mount.rs:680-684 | three successive replacements equal one character map |
| OverlayOptions.LowerdirIsOneEntry | ssamd/src/mount.rs:678-684 | the escaped path is one entry of the colon list and unescapes to itself |
| OverlayOptions.ThreeOptionsIff | ssamd/src/mount.rs:686-693 | the kernel sees exactly the three options iff neither upper nor work directory has an unescaped comma and the upper one does not end in an odd number of backslashes |
| OverlayOptions.OpenIff | ssamd/src/mount.rs:686-693 | text escapes the comma put behind it iff it ends in an odd number of backslashes |
| OverlayOptions.PackageOptionsIff | ssamd/src/mount.rs:695-719 | for every accepted package name, the kernel sees exactly the three options iff the configured overlay root has no unescaped comma |
| OverlayOptions.CommaRootFails | ssamd/src/mount.rs:695-719 | every root with a comma and no backslash fails |
| OverlayOptions.DirComponents | ssamd/src/mount.rs:700-708 | the upper and work directories are `upper` and `work` in the directory of the package's name below the configured root |
| VerityTable.ResolvedFields | libssam/src/ssam_package.rs:38-67 | the resolved table splits into the ten kernel fields, the device in slots two and three, the five integers read back, and algorithm, root hash and salt as they were |
| VerityTable.ResolveKeepsSigned | libssam/src/ssam_package.rs:61-67 | resolution succeeds iff there is a space, and dropping the device slots gives back the signed string |
| Paths.IsSafeRelativePath | ssamd/src/utils.rs:234-249 | true iff there is a component and all are plain and free of NUL |
| Paths.SafeSegmentIff | ssamd/src/utils.rs:254-262 | exactly which names are safe segments |
| Paths.SafeSegmentComponents | ssamd/src/utils.rs:254-262 | a safe segment denotes exactly itself as a path |
| Paths.PlainStaysBelow | ssamd/src/utils.rs:234-249 | plain segments below a root resolve to a place below it |
| Paths.ComponentsMean | ssamd/src/utils.rs:234-249 | the components of the shortest paths and of two paths around a slash, which together fix those of every path |
| Paths.SafePathIff | ssamd/src/utils.rs:234-249 | exactly which path texts are safe: relative, no NUL, no `..` piece, no leading `.`, some plain piece |
| RuntimeConfig.BindMountsConfined | ssamd/src/executor.rs:365-394 | one confined mount per data directory in order iff all are safe; the source stays below the package root at the destination's own segments |
| RuntimeConfig.BindMountIff | ssamd/src/executor.rs:365-394 | exactly which data directories are accepted, from their text, with or without a leading slash |
| RuntimeConfig.Spec.AppendDataMounts | ssamd/src/executor.rs:204-217 | all bind mounts are appended or none |
| RuntimeConfig.Spec.ConfigureNetworkNamespace | ssamd/src/executor.rs:238-282 | network entries go first, then at most one is added |
| RuntimeConfig.OneNetworkNamespace | ssamd/src/executor.rs:238-282 | the container has one network namespace, or none in host mode |
| RuntimeConfig.NamespacePlaced | ssamd/src/executor.rs:244 | every other namespace is kept, in order |
| RuntimeConfig.NetworkEntryMeans | ssamd/src/executor.rs:246-281 | which network entry each mode adds, with which path, and exactly when it cannot |
| QuotaTimer.CombineSplit | quotactl-rs/src/lib.rs:649-662 | splitting a combined timer gives back both parts, and the timer is a 40-bit value |
| QuotaTimer.SplitCombine | quotactl-rs/src/lib.rs:649-662 | combining a split timer is sign extension modulo 2^40, the identity iff it is a 40-bit value |
| QuotaTimer.QuotaRoundTrip | quotactl-rs/src/lib.rs:664-723 | the record survives iff its three timers are 40-bit values |
| QuotaTimer.ConversionsAgree | quotactl-rs/src/lib.rs:664-723 | both conversions keep every field, and each timer's low 32 and next 8 bits are in its own two fields |
| QuotaTimer.KernelRoundTrip | quotactl-rs/src/lib.rs:664-723 | the kernel record survives up to its paddings |

## Left out

- TomlCompilerProofs.GetterCompilerCorrect: getters are identified by their path; when their names differ is TomlText.GetterNamesDistinctIff, and what happens without distinct table names is TomlSharedNames.GettersCorrectIff.
- TomlSharedNames.GettersCorrectIff: trees in which two different table names have one struct identifier, which declare one struct twice; TomlProgram.ProgramAcceptedIff covers them.
- PackageContainer.Wrap: the zip archive is any layout that stores entries contiguously; what a failed wrap leaves on disk is not stated.
- AttachRetry.AttachWithRetry: the sleep between attempts, and the wrap-around of a counter when overflow checks are off.
- MountStack.StackInvariant: a mount left by a daemon with another overlay setting, or of another package; MountStack.UnmountEmptiesIff covers its unmount.
- TomlProgram.ProgramAcceptedIff: names that the derive macros or other generated code could bring in; i64 and bool, which an upper camel case conversion never yields.
- TomlCompiler.Emitter.DetermineType: identifiers are ASCII, without Rust keywords; the case conversion of the heck crate is a function parameter.
- TomlCompiler.Emitter.AddProxyGetters: a getter carries its path; its name is TomlText.GetterName of that path.
- TomlCompiler.Emitter.TraverseToml: the token stream is a list of struct definitions, not Rust source text.
- PackageContainerProofs.WrapLoadRoundTrip: which payload contents deserialize is a parameter; the file is shorter than 2^63 bytes and the size bincode claims per table entry is a parameter bounded by the decode limit.
- PackageContainer.Handle.LoadPayloadsInfo: usize is 64 bits wide.
- InstallTransaction.TransactionActor.ExecuteInstall: the data directory and volume steps only appear as outcomes; their own rollback is not modelled.
- PackageManager.Manager.InstallPackage: versions are integers, standing for the total order of semantic versions; the requests of one manager are handled one at a time, and nothing else changes the directories meanwhile.
- MountLookup.ExactMountIff: canonicalisation is a function from strings to paths without empty components; symbolic links are not modelled.
- Lifecycle.TransitionManager.Transition: the container's own start and stop are an outcome; network detaching during cleanup cannot fail it and is left out.
- Setup.SetupConfluent: panicking tasks.
- Paths.IsSafeRelativePath: components are given; non-UTF-8 file names are not modelled.
- Real system calls, loop and device-mapper ioctls, netlink, systemd and threads: only their outcomes appear.
- RSA, SHA-256, PEM reading and zip compression: function parameters.
- gRPC client and server, CLI commands, logging and JSON responses: no claims beyond library behaviour.
- Bridge address allocation, data directory resize, AppArmor and seccomp profiles, configuration getters, block alignment: easy members.
