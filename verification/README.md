# Trillionnium OS release tooling: a Dafny model

The host tools of Trillionnium OS build, check, publish and sign system artifacts, and they fail closed: every step
either yields a value or denies. This project models the parts of those tools whose correctness is not visible from
one function body, and proves what they promise for every input, every reply, and every place a step can fail.

- **The rootfs archive.** `RootfsTar` prints a file tree as normalized tar members, `TarReplay` extracts them again,
  `TarInspect` is the independent checker. `Paths`, `PathOrder` and `Links` hold the lexical path arithmetic below
  them: splitting, `normpath`, `relpath`, the sort key, and symlink rewriting.
- **The Android staging filter.** `TarHeaders` is the octal and checksum arithmetic of a 512-byte header,
  `StagingFilter` the streaming transformer, `FilterGrammar` the grammar of the archives it accepts, `ArchiveLayout`
  the same archives by byte position, without the parser.
- **The sandbox filter and the ELF acceptor.** `Seccomp` compiles a deny list to classic BPF and interprets the
  result; `ElfReader` is the bounds-checked ELF64 reader (System V gABI, chapter 5); `Bits` is their bit arithmetic.
- **Build outputs.** `ReceiptEnv` projects a build environment to a receipt that does not mention descriptor numbers;
  `LinkAudit` counts hard links with a worklist of descriptors; `ScratchTree` and `Publication` follow the scratch
  directories and the atomic publication through every failing system call.
- **The G1 aggregate reader.** `JsonScan` is the depth pre-scan of a JSON text (RFC 8259); `ApiGet` the
  redirect-following GET (section 15.4 of RFC 9110, section 6.3 of RFC 9112).
- **Smaller machines.** `VersionNeed` parses counted version-need blocks; `SourceBinding`, `ReleaseReceipt` and
  `ReleaseRun` are the strict source-BOM preflight, the sign, OTA, verify and promote run, and the receipt it must be
  able to validate.

Conventions. Bytes are characters below 256, so that texts, paths and headers share one representation, and a file
name is its UTF-8 bytes. Denials differ only in their message, so all of them are `Outcomes.Denied`. Clocks, random
tokens, servers, tools and failing system calls are parameters: an arbitrary function says what happens at each
call. Loops and in-place updates of the tools are methods and classes; each is proved against a specification
function or predicate, and the theorems are lemmas about that specification.

Four properties do not hold as one would first state them. Each has its exact condition and an input that fails:

- An absolute symlink target that climbs above the root is rewritten by way of the working directory. The rewriting
  keeps its meaning exactly for targets that stay under the root, or when the working directory is `/`
  (`Links.NormalizedLinkKeepsMeaning`; failing family `Links.ReenteringTarget`, one input `Links.ReenteringExample`).
- Producer and checker of the normalized tar disagree exactly on names with a backslash and on archives beyond the
  checker's two ceilings (`TarInspect.ProducerCheckerAgree`; one input `TarInspect.BackslashExample`).
- The hard-link audit leaves one descriptor open exactly when the first of its calls to fail is the `fstat` of a
  subdirectory just opened (`LinkAudit.CountLinks`; one whole run `LinkAudit.LeakExample`).
- During a build the public output name shows nothing unfinished, unless it has the form of a scratch name. For every
  output name of that form that is not taken, and any free target name, there is a run that shows an empty directory
  under it (`Publication.BuildArtifacts`, `Publication.ExposureRun`).

The kernel sees the whole seccomp filter exactly below 2^16 instructions, because `SockFprog.length` is a 16-bit field
(`Seccomp.ProgramLength`). The staging filter would accept its own output exactly if no directory were expected; the
pinned configuration expects 265, so it never does (`FilterGrammar.AndroidOutputIsRefused`).

## Model

| member | source | states |
|---|---|---|
| Seccomp.FilterImplementsPolicy | tools/build_shell_exec_artifact_set.py:1324-1381 | For every architecture, deny list in any order with any duplicates, both socketpair settings and every system call, the emitted program stays in bounds and returns the action of a policy that compares numbers modulo 2^32 and names neither instructions nor stored fields. |
| Seccomp.FilterOnTables | tools/build_shell_exec_artifact_set.py:1324-1381 | On tables of 32-bit numbers: another architecture is killed; on this one exactly the listed numbers, the x32 numbers and the restricted socketpair fail with EPERM. |
| Seccomp.WordIsHeld | tools/build_shell_exec_artifact_set.py:1310-1316 | A `c_uint32` field keeps the one 32-bit value congruent to the integer, and the integer itself when it fits. |
| Seccomp.ArgumentWords | tools/build_shell_exec_artifact_set.py:184-186 | Absolute loads from byte 16 on read the low and the high half of each argument. |
| Seccomp.BuildFilter | tools/build_shell_exec_artifact_set.py:1324-1381 | The instruction-appending loop accepts exactly the machines in all three tables, and the kernel's run of what it builds gives the policy's action on every system call. |
| Seccomp.RunDenyRules | tools/build_shell_exec_artifact_set.py:1374-1381 | Running a deny list of any length answers EPERM exactly for a listed number. |
| Seccomp.RunSocketpairException | tools/build_shell_exec_artifact_set.py:1354-1371 | The socketpair block decides on the low 32 bits of the first argument and otherwise falls through. |
| Seccomp.ProgramLength | tools/build_shell_exec_artifact_set.py:1320-1384 | The 16-bit length field shows the kernel the whole program exactly when it has fewer than 2^16 instructions. |
| Seccomp.SortedSet | tools/build_shell_exec_artifact_set.py:1373-1374 | The deny numbers come out strictly increasing and with the same elements. |
| ElfReader.InspectStaticElf | tools/build_shell_exec_artifact_set.py:896-1098 | Total on every byte string; accepts exactly the static hardened images. |
| ElfReader.StaticElfByLayout | tools/build_shell_exec_artifact_set.py:896-973 | An image is accepted exactly when headers that meet the demands lie at their byte positions: the ELF header from byte 16, the program headers from e_phoff on, little-endian. |
| ElfReader.ReadEhdrIff | tools/build_shell_exec_artifact_set.py:914-928 | The unpacked ELF header is `h` exactly when bytes 16-63 print `h`, e_machine in bytes 18-19. |
| ElfReader.ReadPhdrIff | tools/build_shell_exec_artifact_set.py:962-973 | The unpacked program header is `p` exactly when its 56 bytes print `p`, p_filesz in bytes 32-39 and p_memsz in bytes 40-47. |
| ElfReader.CheckHeader | tools/build_shell_exec_artifact_set.py:907-951 | The chain of header tests accepts exactly the good identifications and headers. |
| ElfReader.FindsRetired | tools/build_shell_exec_artifact_set.py:953-956 | The search in the lowered bytes finds exactly an occurrence of a retired marker in any case. |
| ElfReader.StackIsPlain | tools/build_shell_exec_artifact_set.py:1045-1063 | An accepted image has no interpreter and exactly one stack header, readable and writable only. |
| ElfReader.CollectSegments | tools/build_shell_exec_artifact_set.py:958-1055 | The header loop accepts exactly when every header passes and the counts stay within bounds, and collects exactly the loads. |
| ElfReader.ScanDynamic | tools/build_shell_exec_artifact_set.py:1029-1044 | The table scan accepts exactly a table whose first DT_NULL is reached before any DT_NEEDED. |
| ElfReader.LoadsAreMappable | tools/build_shell_exec_artifact_set.py:974-1015 | Every accepted load's end is the same in 64-bit arithmetic, lies under the user limit and in the file, is page-congruent, and is never writable and executable. |
| ElfReader.EntryIsFileBacked | tools/build_shell_exec_artifact_set.py:1057-1060 | The entry point is an executable byte that the file provides. |
| ElfReader.DynamicTableIsMapped | tools/build_shell_exec_artifact_set.py:1029-1092 | The dynamic table is unique, closed, and covered by one load at the same displacement. |
| ReceiptEnv.ReceiptIsTemplate | tools/build_shell_exec_artifact_set.py:2069-2179 | The receipt of a built environment is that environment with each descriptor path replaced by its role's label. |
| ReceiptEnv.EnvironmentNamesRoles | tools/build_shell_exec_artifact_set.py:2069-2179 | The build environment gives each role's variable the path of that role's descriptor, its receipt gives it that role's label; search path, network, locale and timestamp are fixed. |
| ReceiptEnv.DescriptorsIff | tools/build_shell_exec_artifact_set.py:1867-1879 | Descriptors are accepted exactly when every role has one above 2 and no two roles share one. |
| ReceiptEnv.ReceiptIgnoresAllocation | tools/build_shell_exec_artifact_set.py:2069-2179 | Any two descriptor allocations give the same receipt, and distinct roles keep distinct labels. |
| ReceiptEnv.UnboundIsRejected | tools/build_shell_exec_artifact_set.py:2144-2179 | A path whose full numeral is unbound is refused, even when a prefix of the numeral is bound. |
| ReceiptEnv.UnboundEnvironmentIsRejected | tools/build_shell_exec_artifact_set.py:2144-2179 | An environment naming an unbound descriptor has no receipt. |
| ReceiptEnv.ReceiptEnvironment | tools/build_shell_exec_artifact_set.py:2144-2179 | The loop over the variables computes the projection of the theorems. |
| LinkAudit.CountLinks | tools/build_shell_exec_artifact_set.py:2514-2566 | For every tree: the worklist returns the recursive count exactly when the tree is within its bound, no other type claims the inode and no call of the audit's script fails; the descriptors open afterwards are the caller's, and one more exactly when the first call of the script to fail is an fstat. The script is a function of the tree and the inode and ends at a refused entry. |
| LinkAudit.Audit | tools/build_shell_exec_artifact_set.py:2519-2566 | The loop ends after the whole script, with the verdict of the rules and closings only, or at the first failing call followed by closings only. |
| LinkAudit.AuditDirectory | tools/build_shell_exec_artifact_set.py:2523-2557 | One directory, from pop to close, keeps count, descriptors and script in step, or ends the audit. |
| LinkAudit.VisitEntries | tools/build_shell_exec_artifact_set.py:2526-2555 | Reading one directory keeps counters, worklist and remaining tree in balance with the recursive count. |
| LinkAudit.PushChild | tools/build_shell_exec_artifact_set.py:2541-2555 | Queueing a subdirectory leaks its descriptor exactly when the open succeeds and the fstat fails. |
| LinkAudit.LeakExample | tools/build_shell_exec_artifact_set.py:2541-2552 | A whole audit of a harmless tree in which only the call after the openat fails: it is denied and one descriptor stays open. |
| LinkAudit.CloseAll | tools/build_shell_exec_artifact_set.py:2560-2565 | The handler closes everything on the worklist, each descriptor while it is open. |
| LinkAudit.ExactCountMeansNoOutsideLink | tools/build_shell_exec_artifact_set.py:2489-2496 | The audited count equals the link count exactly when no entry outside the scratch tree names the file. |
| LinkAudit.UncountedMeansUnnamed | tools/build_shell_exec_artifact_set.py:2533-2540 | The counts are zero exactly for a tree in which nothing names the inode. |
| Publication.BuildArtifacts | tools/build_shell_exec_artifact_set.py:2904-3195 | The trace extends the earlier one and is the history of the table, one system call a step; in each of its tables the output name is as before or complete and every sibling is unchanged, unless the output has the form of a scratch name; success means published; a scratch directory stays behind only after two faults (one for an output of scratch form), and only with one in the final clean-up, from whose start on the table only shrinks, or after an ignored removal error; an unhindered run publishes. |
| Publication.OutputIsComplete | tools/build_shell_exec_artifact_set.py:3160-3171 | A published table shows the four files with their bytes and modes, and no scratch directory beside them. |
| Publication.ExposureRun | tools/build_shell_exec_artifact_set.py:2220-2227 | A whole run that shows an unfinished directory under the output name at some moment exactly when that name has the form of a scratch name; beside the output name only the target name it draws has to be free. |
| Publication.PlanIsReady | tools/build_shell_exec_artifact_set.py:3163-3169 | The tool's own four files meet the conditions of the run. |
| Publication.Attempt | tools/build_shell_exec_artifact_set.py:2904-3172 | What the body of the run leaves for the final clean-up, in every outcome. |
| Publication.StageAndPublish | tools/build_shell_exec_artifact_set.py:3160-3172 | Staging ends published, holding one scratch directory after a fault or a clash with the output name, back at the start, or with the ignored removal error of its last call. |
| Publication.PublishDirectory | tools/build_shell_exec_artifact_set.py:2430-2454 | The published name is set exactly when the table is published; a matching staging directory is published when no call fails. |
| Publication.BuildTarget | tools/build_shell_exec_artifact_set.py:2904-3039 | The build ends with its target scratch directory gone and the table as before, or, after a fault, held for the final clean-up. |
| Publication.VerifyStaging | tools/build_shell_exec_artifact_set.py:2366-2393 | Inventory and file checks together accept only the exact expected directory. |
| Publication.WriteFile | tools/build_shell_exec_artifact_set.py:2309-2363 | A file is created exclusively with its bytes and mode; nothing but the scratch directory changes. |
| Publication.WriteAll | tools/build_shell_exec_artifact_set.py:2325-2331 | Short writes add up to exactly the bytes. |
| Publication.CreateScratch | tools/build_shell_exec_artifact_set.py:2220-2257 | A private empty directory with the first name drawn if that is free and no call fails, or the table as it was, or the leftover of a failed removal, which is the last call made and not the first fault. |
| Publication.CleanupScratch | tools/build_shell_exec_artifact_set.py:2297-2306 | Success restores the whole table; failure leaves only the scratch directory; it succeeds when none of its own calls fails. |
| Publication.RemoveContents | tools/build_shell_exec_artifact_set.py:2271-2294 | The recursive removal empties the directory and never touches anything numbered before it, whatever fails. |
| ScratchTree.Job.Restores | tools/build_shell_exec_artifact_set.py:2297-2306 | Removing the emptied scratch directory gives exactly the table before the run. |
| ScratchTree.Job.Publishes | tools/build_shell_exec_artifact_set.py:2430-2454 | Renaming an exactly staged directory gives exactly the old table plus the complete output. |
| ScratchTree.Job.NothingElse | tools/build_shell_exec_artifact_set.py:2271-2294 | No stray directory survives an emptied scratch directory. |
| ScratchTree.Job.StagedIsSafe | tools/build_shell_exec_artifact_set.py:2182-2216 | While scratch exists, the output name and every sibling are as before. |
| ScratchTree.Job.HistoryKeeps | tools/build_shell_exec_artifact_set.py:2182-2306 | Every system call inside the scratch directory extends the history by one permitted table. |
| ScratchTree.Job.NewOutputIsUnsafe | tools/build_shell_exec_artifact_set.py:2220-2227 | A directory just created under the output name is not a finished output. |
| Links.NormalizedLinkIsValid | tools/build_minimal_bookworm_rootfs.py:651-661 | Every emitted target is relative, clean, inside the root and accepted by the checker. |
| Links.RelativeLinkIsKept | tools/build_minimal_bookworm_rootfs.py:651-661 | A relative target is emitted as it is, exactly when it is not empty, has no NUL or backslash and resolves inside the root. |
| Links.ValidateLinkIff | tools/build_immutable_rootfs_erofs.py:932-938 | The checker accepts exactly the non-empty relative targets without NUL or backslash that resolve inside the root. |
| Links.NormalizedLinkKeepsMeaning | tools/build_minimal_bookworm_rootfs.py:651-661 | Rewriting an absolute target keeps its meaning exactly when it stays under the root or the working directory is the root. |
| Links.ReenteringTarget | tools/build_minimal_bookworm_rootfs.py:651-661 | The failing family: a target that climbs out and re-enters through the working directory's names. |
| Links.ReenteringExample | tools/build_minimal_bookworm_rootfs.py:651-661 | One such input. |
| Links.ContainedIffInside | tools/build_immutable_rootfs_erofs.py:1068-1085 | The depth counter accepts exactly the clean targets whose resolution stays inside the root. |
| Links.CounterAgreesWithChecker | tools/build_immutable_rootfs_erofs.py:932-938 | Counter and normalizing checker agree on clean targets. |
| Links.CheckContained | tools/build_immutable_rootfs_erofs.py:1068-1085 | The loop with its running depth computes the counter's verdict. |
| Links.ResolvesOutsideIffEscapes | tools/build_immutable_rootfs_erofs.py:932-938 | The printed escape test is the lexical one. |
| TarHeaders.OctalLayoutDecides | tools/build_immutable_rootfs_erofs.py:941-977 | A laid-out field is accepted exactly below 2^64, with its positional value. |
| TarHeaders.OctalAcceptedIsLaidOut | tools/build_immutable_rootfs_erofs.py:941-977 | Nothing but a laid-out or permitted blank field is accepted. |
| TarHeaders.ParseOctal | tools/build_immutable_rootfs_erofs.py:941-977 | The three loops compute the closed-form parser. |
| TarHeaders.DirectoryHeaderTotal | tools/build_immutable_rootfs_erofs.py:1088-1102 | Every header is rewritten without failure to a valid checksum and mode 0755, and is the same elsewhere. |
| TarHeaders.WrittenChecksumIsValid | tools/build_immutable_rootfs_erofs.py:989-996 | A blanked header with its sum written in has a valid checksum. |
| StagingFilter.ReproduceFilter | tools/build_immutable_rootfs_erofs.py:1105-1255 | The streaming loop computes the filter function and its receipt; what that function accepts and emits is `ArchiveLayout.AcceptsExactlyLayouts`. |
| StagingFilter.ReadTurn | tools/build_immutable_rootfs_erofs.py:1118-1242 | One pass of the read loop consumes, emits and updates what the turn function says. |
| StagingFilter.CopyData | tools/build_immutable_rootfs_erofs.py:1229-1242 | The block loop accepts exactly complete zero-padded data. |
| FilterGrammar.AcceptsExactlyArchives | tools/build_immutable_rootfs_erofs.py:1105-1255 | The filter accepts exactly the archives of the grammar over parsed headers, and outputs that archive with its directory headers rewritten. |
| ArchiveLayout.AcceptsExactlyLayouts | tools/build_immutable_rootfs_erofs.py:1105-1255 | The same by byte position and without the parser: every field of every header is printed at its offset, the data blocks are the octal number in bytes 124-135 rounded up and NUL-padded, long links come in order; the output differs in directory modes and their checksums, byte for byte. |
| ArchiveLayout.HeaderIff | tools/build_immutable_rootfs_erofs.py:999-1039 | The parser returns mode, size, mtime, type and dialect exactly for the blocks that print them at their offsets with zero owner and devices and a matching checksum. |
| ArchiveLayout.OctalFieldIff | tools/build_immutable_rootfs_erofs.py:941-977 | A field yields a value exactly when it spells that value below 2^64, or is a permitted blank. |
| ArchiveLayout.TextFieldIff | tools/build_immutable_rootfs_erofs.py:980-986 | A field yields a text exactly when it holds that text and NULs after it. |
| ArchiveLayout.MemberIff | tools/build_immutable_rootfs_erofs.py:1182-1222 | The member checks pass exactly for a path inside the root, a link name that fits the type, and links that resolve inside, a waiting long link included. |
| ArchiveLayout.MemberPathIff | tools/build_immutable_rootfs_erofs.py:1055-1066 | The member path is the name at 0 behind the prefix at 345, less one slash of a directory. |
| ArchiveLayout.PathIff | tools/build_immutable_rootfs_erofs.py:1042-1052 | A path is canonical exactly when it is the root or a join of printable components that never climb. |
| ArchiveLayout.LinkIff | tools/build_immutable_rootfs_erofs.py:1068-1085 | The counter accepts exactly joins of printable components that resolve inside the root. |
| ArchiveLayout.LonglinkIff | tools/build_immutable_rootfs_erofs.py:1143-1176 | A long-link block is exactly the marker header and one block with the expected target. |
| ArchiveLayout.PadsIff | tools/build_immutable_rootfs_erofs.py:1229-1242 | The data are the fewest whole blocks that hold the size, NUL after it. |
| ArchiveLayout.RewrittenIff | tools/build_immutable_rootfs_erofs.py:1088-1102 | The rewritten directory header is the only one with mode 0755, six digits of its own checksum, and every other byte kept. |
| FilterGrammar.FilterFrame | tools/build_immutable_rootfs_erofs.py:1105-1255 | Same length and framing, and equal outside the mode and checksum fields of directory headers, whatever the data. |
| FilterGrammar.OnlyDirectoryFieldsChange | tools/build_immutable_rootfs_erofs.py:1088-1102 | The frame property of the rewriting, position by position. |
| FilterGrammar.FilterIsOneWay | tools/build_immutable_rootfs_erofs.py:1182-1248 | For any configuration, the output is accepted again exactly when no directory is expected. |
| FilterGrammar.AndroidOutputIsRefused | tools/build_immutable_rootfs_erofs.py:1246-1247 | With the pinned configuration the filter never accepts its own output. |
| FilterGrammar.RewrittenHeaderParses | tools/build_immutable_rootfs_erofs.py:999-1039 | A rewritten header parses to the same header with mode 0755. |
| FilterGrammar.AdmittedSymlinkIsInside | tools/build_immutable_rootfs_erofs.py:1068-1085 | Every admitted symlink, long or short, resolves inside the root. |
| RootfsTar.BuildNormalizedTar | tools/build_minimal_bookworm_rootfs.py:681-730 | The archive loop computes the member list, its count and its regular bytes, and every member describes its source entry. |
| RootfsTar.ArchiveDescribesTree | tools/build_minimal_bookworm_rootfs.py:681-730 | Every field of every member: owner 0:0, the epoch, mode 0555 exactly if an execute bit is set; the first path of an inode carries its bytes and their number, each later one is a hard link to that first path. |
| RootfsTar.NormalModeMeans | tools/build_minimal_bookworm_rootfs.py:705-706 | A file becomes 0555 exactly when bit 0, 3 or 6 of its mode is set, and 0444 otherwise. |
| RootfsTar.ForbiddenIff | tools/build_minimal_bookworm_rootfs.py:77-84 | Refused are exactly the paths under the six listed prefixes. |
| RootfsTar.BuildSucceeds | tools/build_minimal_bookworm_rootfs.py:681-730 | It succeeds exactly when every path can be archived, and keeps names and order. |
| RootfsTar.ArchiveIgnoresListingOrder | tools/build_minimal_bookworm_rootfs.py:664-678 | The archive does not depend on the order in which the tree is listed. |
| PathOrder.SortedIsBytewise | tools/build_minimal_bookworm_rootfs.py:664-678 | The sorted list has the listed names once each, the root first and the others by their first differing byte. |
| TarReplay.RoundTrip | tools/build_minimal_bookworm_rootfs.py:664-730 | Extracting the members in order succeeds and rebuilds the normalized tree: paths, kinds, contents, targets and inode classes, with mode 0555 exactly for files with an execute bit and 0444 for the others. |
| TarReplay.LinksSurvive | tools/build_minimal_bookworm_rootfs.py:651-730 | Every extracted symlink is relative and stays inside; a relative target comes back as it was, an absolute one that stays under the root leads to the same place. |
| TarReplay.ExtractKeepsImage | tools/build_minimal_bookworm_rootfs.py:700-728 | Each extracted member extends the image by exactly its path. |
| TarReplay.ParentsAreExtracted | tools/build_minimal_bookworm_rootfs.py:664-678 | Every parent precedes its children. |
| TarInspect.ProducerCheckerAgree | tools/build_immutable_rootfs_erofs.py:1291-1354 | The checker accepts a produced archive exactly within its ceilings and without backslashes, and reports the producer's totals. |
| TarInspect.BackslashExample | tools/build_immutable_rootfs_erofs.py:917-929 | The producer archives a file named by one backslash, and the checker refuses that archive. |
| TarInspect.InspectNormalizedTar | tools/build_immutable_rootfs_erofs.py:1291-1354 | The member loop accepts exactly the normalized archives and returns their member count and regular bytes. |
| TarInspect.InspectIff | tools/build_immutable_rootfs_erofs.py:1291-1354 | An archive is accepted exactly when its names are clean and in archive order with a root among them, owner, timestamp, mode and size fit each kind, every symlink resolves inside the root, every hard link names an earlier regular member, and both ceilings hold. |
| TarInspect.CanonicalIsIdentity | tools/build_immutable_rootfs_erofs.py:917-929 | A path is returned unchanged exactly for clean member names. |
| TarInspect.MemberIsAccepted | tools/build_immutable_rootfs_erofs.py:1300-1350 | What the checker says about each produced member, in every case. |
| JsonScan.PreScanMeasuresNesting | tools/g1_pr_aggregate_common.py:96-124 | For every JSON text in every spelling the scan peaks at the structural nesting, accepts exactly up to 64, and ends where it began. |
| JsonScan.PrefixDepthIsOpenContainers | tools/g1_pr_aggregate_common.py:96-124 | After every prefix the depth is the number of open containers. |
| JsonScan.StrictJsonBoundsNesting | tools/g1_pr_aggregate_common.py:96-124 | A text reaches the parser exactly when its size and nesting are within bounds. |
| JsonScan.PreScan | tools/g1_pr_aggregate_common.py:96-124 | The loop over depth, quoted and escaped computes the scan. |
| JsonScan.RejectDuplicateMembers | tools/g1_pr_aggregate_common.py:77-83 | Accepted exactly for distinct names, and then every pair is kept. |
| ApiGet.Request | tools/g1_pr_aggregate_api.py:140-181 | A response exactly when the server leads to a complete body within five redirects; the log of requests follows those redirects. |
| ApiGet.TokenStaysHome | tools/g1_pr_aggregate_api.py:140-181 | Corollary of the log of `ApiGet.Request`: at most six requests to different secure URLs; the token only in the first and only to the scheme, host and port of the base URL; JSON mode never leaves them. |
| ApiGet.ReadBody | tools/g1_pr_aggregate_api.py:106-138 | A body exactly when it is delivered in time, within the budget and of the declared length; it is then all the chunks joined. |
| ApiGet.DeclaredLengthIff | tools/g1_pr_aggregate_api.py:108-124 | A length is declared exactly by one Content-Length of one to twenty digits within the budget, without Transfer-Encoding; none by acceptable headers without it; everything else is refused. |
| ApiGet.HeaderIff | tools/g1_pr_aggregate_api.py:45-48 | A header is found exactly when it occurs once in any case, and its text is trimmed. |
| ApiGet.LocationIff | tools/g1_pr_aggregate_api.py:167-174 | A reply redirects exactly with one of five codes and one printable Location. |
| ApiGet.ResolveIff | tools/g1_pr_aggregate_api.py:94-98 | A reference resolves to itself if it names its scheme and otherwise against the base, and only to a secure URL. |
| ApiGet.Get | tools/g1_pr_aggregate_api.py:186-195 | Both entry points keep these guarantees for every server, within 16 MiB for JSON and 256 MiB for bytes. |
| VersionNeed.ParseProviders | tools/build_codex_only_raw_elf_set.py:1518-1544 | Accepted exactly when the counted blocks are complete and the indices distinct; the map has as many entries as the counts declare, each from the nearest file line above. |
| VersionNeed.BindingIsExclusive | tools/build_codex_only_raw_elf_set.py:1547-1611 | A needed loader is accepted exactly when allowed and bound to the stack guard alone; an unneeded one exactly when nothing refers to it. |
| ReleaseRun.Execute | tools/android_release_ota.py:1956-2317 | Every run that gets past its preflight writes a receipt that passes the validator, whatever fails; the decision is DENY unless every check and all three renames succeeded, and then the user PASS exactly for build type user and the userdebug PASS exactly for userdebug, with boundaries of that build type; after a PASS the verified bytes have the final names; otherwise exactly the first `kept` final names are there, with the verified bytes, and none of them unless a reverse rename fails; a refused preflight leaves nothing. |
| ReleaseRun.Promote | tools/android_release_ota.py:2258-2267 | All three names are promoted, or exactly the first `kept` of them, and none, with the files restored, if every reverse rename succeeds. |
| ReleaseRun.RollBack | tools/android_release_ota.py:2263-2267 | The reverse loop undoes the promotion down to the first reverse rename that fails; exactly the final names before that one stay. |
| ReleaseRun.Check | tools/android_release_ota.py:2097-2257 | No error exactly when every check succeeded; the facts are then complete, and no final name exists. |
| ReleaseRun.Sign | tools/android_release_ota.py:2097-2182 | The signing stage reports no error exactly when all its checks succeeded. |
| ReleaseRun.BuildOta | tools/android_release_ota.py:2184-2254 | The OTA stage likewise, and the OTA facts carry the expected build type. |
| ReleaseReceipt.ExecutionReceiptValidates | tools/android_release_ota.py:475-583 | The validator's verdict on an execution receipt, whatever the binding and the facts: it passes exactly when the binding has the demanded form and an error-free run is complete. |
| ReleaseReceipt.ValidIsConsistent | tools/android_release_ota.py:475-583 | Whatever passes the validator has the decision, classification and eligibility of its own build type and error or material, claims no device write, upload or release, records no secret, and has all facts when it has no error. |
| ReleaseReceipt.DryRunSays | tools/android_release_ota.py:454-472 | A dry-run receipt has the decision of its build type and of whether material was read, and the boundaries of its build type. |
| SourceBinding.RequiredBindingFits | tools/android_release_ota.py:335-393 | Every binding the strict preflight lets through has the form the validator demands. |
| SourceBinding.RequireBindingIff | tools/android_release_ota.py:335-393 | The preflight passes exactly for a BOM of 1 byte to 16 MiB and a found, valid binding, and projects their identities, the size and the digest. |
| SourceBinding.InspectionReports | packaging/android-release-gate/verify_source_bom_binding.py:366-432 | The report shows a binding exactly when the archive opens, lists its members once, and the member of 1 byte to 2 MiB is parsed and validated; without one it is valid exactly when none is required. |
| SourceBinding.SafeMemberIff | packaging/android-release-gate/verify_source_bom_binding.py:132-139 | A member name is safe exactly when it is relative, without backslash and NUL, and has no `..` component. |
| SourceBinding.ValidMeansPresent | packaging/android-release-gate/verify_source_bom_binding.py:366-432 | With the binding required, a report that calls itself valid has found the member, under its fixed name. |
| SourceBinding.DryRunAlwaysValidates | tools/android_release_ota.py:2015-2056 | Every dry-run receipt passes the validator. |
| SourceBinding.HexSpelling | tools/android_release_ota.py:243-244 | A printed digest has two lower-case hexadecimal digits for each byte. |
| SourceBinding.HexReadsBack | tools/android_release_ota.py:243-244 | The printed digest reads back to its bytes. |
| ReleaseReceipt.PlanPassesIff | tools/android_release_ota.py:494-524 | Corollary of the plan's fields: the published plan passes exactly when its binding has the demanded form. |
| ReleaseReceipt.PassMeansNoError | tools/android_release_ota.py:461-467 | Corollary of the validator: a valid execution receipt passes exactly when it records no error. |

## Left out

- Subprocesses, QEMU, Cargo, adb, Landlock and prctl calls: foreign effects. Cargo is any sequence of acts confined to the target scratch directory.
- SHA-256, zstd, zip and the tar byte codec of the normalized archive, `json.loads`, `urlparse`, `urljoin` and the regular-expression engine: parameters, or records already tokenized.
- Concurrent outside changes to retained files: the tools' repeated stability checks are calls that may fail.
- Closed-schema receipt validators and pinned digests of the immutable rootfs and launcher builders: long field-equality lists.
- Secret redaction, key staging and the secret-evidence guard of the release tool.
- Device conformance, device smoke and network collection tools.
- The job registry and the R5 host in Rust: their state machines are not part of this model.
- Publication.BuildArtifacts: the artifact bytes are inputs, not read back out of the target tree.
- Publication.RemoveContents: directories are numbered in the order of creation, so a build that moves a directory below a younger one is modelled by renumbering it.
- LinkAudit.CountLinks: the tree does not change during the audit; a changed directory is a call that fails.
- RootfsTar.BuildNormalizedTar: the tree walk itself is its set of paths; symlinks inside the walk and unreadable files are not modelled.
- ApiGet.Get: parsing the body in JSON mode is the strict JSON step of `JsonScan`, not repeated here.
- ApiGet.ReadBody: header names and tokens are compared in ASCII lower case only.
- VersionNeed.ParseProviders: the lines are already matched against the two line patterns.
- ReleaseRun.Execute: the digests of quarantined partial outputs and the writing of the receipt file do not fail.
- ReleaseReceipt.ExecutionReceiptValidates: member names the validator does not know are one constructor with a name.
- SourceBinding.RequiredBindingFits: the ZIP reader, the JSON parser and the cross-checks of the binding's own fields are parameters.
