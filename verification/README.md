# Module update installer: verified model

This project models the parts of the system installer that carry its hard guarantees, and proves those guarantees for
all inputs, runs and schedules.

- **Module update packages (HMPs) across reboots.** An HMP has a fixed preinstalled package and up to three update
  directories: install (a new package waiting for a boot), active (what is mounted) and backup (what active was).
  `ModuleFile` orders versions, `Packages` and `ModuleFileRepository` say which package a directory offers,
  `Lifecycle` gives every operation on directory contents, `HmpStorage` performs the same operations on names, hard links
  and inodes, and `Device` boots all HMPs. `Rollback` says where a device settles: the package mounted by the first boot
  that does not restart.
- **The revert monitor.** A producer and a consumer thread over a ring of 100 slots. `ModuleUpdateQueue` is the ring,
  `RevertMonitor` interleaves the critical sections of both threads freely, with spurious wakeups, and `MonitorThreads`
  has the loops that turn system parameters into records and records into a decision.
- **Byte layouts.** `BlockIo` (little-endian numbers, short transfers), `HvbBlock` (the 4 KiB trailer), `ZipAlign` and
  `ModuleZipHelper` (aligned archives, by sections 4.3.7 and 4.3.12 of the PKWARE APPNOTE.TXT), `ModuleIpcHelper` (parcels)
  and `BmsParams` (the parameter file).
- **Actions.** `ActionProcesser`, `StatusManager` and `PkgVerify`.

Code that changes state is imperative here too: classes with the source's fields and loops. Each method is proved against
a specification function, and the theorems are lemmas about those functions. Failures of file operations, mounting,
short transfers, iteration orders of unordered containers and thread schedules are inputs, so every result holds for all
of them.

## Where the code does less than one would expect

Each of these is proved, with the exact condition under which the code does meet the expectation.

- A record put for the revert monitor can be lost: Pop may see an empty queue, then find Stop set, and return the stop
  marker although records arrived in between (`TailCanBeLost`, `NothingLostIffNothingPut`). So a revert can be missed,
  but is never made without a cause (`RevertHasACause`, `MonitorDecides`).
- With more than 100 records the two threads can wait for each other (`DeadlockFreeIffFewRecords`).
- Rollback does not return to a package that was installed, would have mounted, and had not been booted when the next
  install came (`RollbackSettlesAsBefore`; `RollbackCanLoseAPendingInstall` is such a run).
- An install that fails after its backup step has already replaced the older backup, so a later revert settles elsewhere
  unless that backup already offered the active package (`LateInstallFailureForgetsBackup`;
  `LateFailureCanKeepTheCrashedPackage` is such a run). It can also leave a backup of an active directory that offers
  nothing, which costs a restart (`RestartsIffDestroyed`; `LateFailureCostsARestart` is such a run).
- While another HMP's restart cuts boots short, install and active can share inodes: exactly when the last boot to
  process the HMP mounted the package that still waits in install (`RunOperations`, `StagedByLastBoot`;
  `CutShortBootSharesFiles` is such a run). Install never shares one with backup.
- The offset that aligns stored entries counts characters. It is the true offset exactly for ASCII names
  (`OffsetIsExactIffAscii`), and an entry is aligned exactly when the bytes it missed so far are a multiple of the
  alignment (`AlignedIffLagIs`; `AccentIsMisaligned` is an archive where they are not).
- Package lists are written at any size, but read back exactly when the list, every map and every list inside has at
  most 128 members (`PackageInfoReply`).
- Module names with '=' or a newline do not survive the parameter file (`RecordIsFaithfulIffClean`).

## Model

| member | source | states |
|---|---|---|
| ModuleFiles.NewerThanIsStrictOrder | services/module_update/util/src/module_file.cpp:481-520 | "Newer than" never holds both ways and is transitive, for files at pairwise different paths, whatever ids the service lists repeat. |
| ModuleFiles.InfoNewerTransitive | services/module_update/util/src/module_file.cpp:481-520 | Transitivity of the comparison of two packages, including all its service lookups, without assuming distinct ids. |
| ModuleFiles.InfoNewerIffUpgrade | services/module_update/util/src/module_file.cpp:481-520 | With no id or name listed twice, the comparison holds if and only if both version texts read as one name and four numbers of which only the last differs and rises, both packages have exactly the same modules, service ids and bundle names, and every service keeps its API level while versionCode * 2^32 + patchVersion does not fall. |
| ModuleFiles.CompareSaVersionIff | services/module_update/util/src/module_file.cpp:283-295 | The branches accept exactly an equal API level and a number versionCode * 2^32 + patchVersion that does not fall. |
| ModuleFiles.SaListShape | services/module_update/util/src/module_file.cpp:297-318 | Equal sizes and one-way lookups of a service list force equal id sets: the loop test holds if and only if the id sets agree and no service is lower. |
| ModuleFiles.BundleListShape | services/module_update/util/src/module_file.cpp:320-338 | The same for bundle lists: equal sizes and one-way inclusion hold if and only if the name sets are equal. |
| ModuleFiles.CompareSaListVersion | services/module_update/util/src/module_file.cpp:297-318 | The loop over a map that keeps the first entry of an id decides SaListNotLower, where the first entry of the list is found by recursion. |
| ModuleFiles.CompareBundleList | services/module_update/util/src/module_file.cpp:320-338 | The loop over a set of names decides that both lists are equally long and every old name is listed. |
| ModuleFiles.CompareHmpVersion | services/module_update/util/src/module_file.cpp:355-385 | The conversion loop decides: five parts, same name, all numerals convert, first three numbers equal, the last one rises. |
| ModuleFiles.CompareVersion | services/module_update/util/src/module_file.cpp:481-520 | The loop over the old modules, with its early exits, decides NewerThan: same path, or higher version with no module lower. |
| ModuleFiles.ParseVersionIff | services/module_update/util/src/module_file.cpp:419-436 | A version text parses to a name and four numbers if and only if it is that name, a blank, and the four pieces joined by dots, none of which has a dot or a blank. |
| ModuleFiles.JoinInvertsSplit | services/module_update/util/src/module_file.cpp:429 | Joining the pieces of a text gives it back, and no piece has a separator. |
| ModuleFiles.SplitInvertsJoin | services/module_update/util/src/module_file.cpp:429 | Splitting joined pieces without separators gives them back. |
| ModuleFiles.LastIndexOf | services/module_update/util/src/module_file.cpp:421 | The last occurrence of a character: found if and only if there is one, and nothing after it. |
| Packages.SourceOrderIsStrict | services/module_update/util/src/module_file.cpp:481-520 | The comparison of the source makes a device whose order is strict, which is what every boot theorem needs of it. |
| Packages.CompareFiles | services/module_update/util/src/module_file.cpp:481-520 | The loops of the comparison decide the order the boot model uses. |
| Packages.CheckFilePathIsName | services/module_update/src/module_file_repository.cpp:149-160 | Comparing paths with their directory prefixes cut off accepts a file if and only if it has the preinstalled file's name. |
| Packages.InfoNameHasSuffix | services/module_update/util/src/module_utils.cpp:89-98 | The package archive passes the suffix filter and the image beside it does not, in every directory of every HMP. |
| Packages.ReplacedPrefix | services/module_update/src/module_update.cpp:147-149 | The path computed by replacing the install prefix is the path of the same file in the active directory. |
| Packages.StagedDirectoryLoads | services/module_update/src/module_update.cpp:140-163 | Linking a loadable install directory over any active directory makes the active directory load that very package. |
| ModuleFileRepositories.ModuleFileRepository.ProcessFile | services/module_update/src/module_file_repository.cpp:98-119 | A file is kept if and only if it opens, names this HMP, has an image, lies where the preinstalled one says, and none was kept before; nothing else changes. |
| ModuleFileRepositories.ModuleFileRepository.ScanDirectory | services/module_update/src/module_file_repository.cpp:44-59 | Scanning a directory in any order leaves exactly the package Load finds there. |
| ModuleFileRepositories.ModuleFileRepository.InitRepository | services/module_update/src/module_file_repository.cpp:39-61 | The three scans leave exactly the three candidates; update directories count only beside a preinstalled package that loads. |
| Lifecycle.SelectionIsGreatest | services/module_update/src/module_update.cpp:281-303 | The choice at boot is the preinstalled package or strictly newer than it, never a half-staged one; when staging works and all found are mutually comparable, nothing found is newer than the choice. |
| Lifecycle.BootLowersDirectories | services/module_update/src/module_update.cpp:281-326 | Whatever mounts and whichever file operations fail, no boot creates an active or backup directory, and every boot that restarts lowers their number. |
| Lifecycle.MountedIsGenuine | services/module_update/src/module_update.cpp:187-326 | Whatever mounts and fails, a mounted package was parsed from its own archive, names this HMP, has a usable image, and is signed unless it is the preinstalled one. |
| Lifecycle.SuccessfulInstallIsGenuine | services/module_update/service/src/module_update_main.cpp:168-292 | After an install that succeeds every unpacked file is there, and every archive in install is signed, parses, is newer than what is preinstalled, and lies beside an image that the hash tree accepts. |
| Lifecycle.ArchiveIsRefused | services/module_update/service/src/module_update_main.cpp:207-292 | The code with which an archive is refused that is unsigned, not newer than what is preinstalled, or whose image the hash tree refuses. |
| Lifecycle.RevertKeepsBackup | services/module_update/util/src/module_utils.cpp:256-294 | Whatever removal or rename fails, a revert never loses the backup: it stays, or it becomes active; without a restart it stays. |
| Lifecycle.BootEndsSettled | services/module_update/src/module_update.cpp:281-326 | A boot that ends without restart leaves the mounted package as the one active loads, or neither active nor backup. |
| Lifecycle.ValidatedIsNewer | services/module_update/service/src/module_update_main.cpp:207-292 | Once every file of an install directory validates, what it will load is newer than the preinstalled and than the active package. |
| Lifecycle.InstallKeepsGood | services/module_update/service/src/module_update_main.cpp:168-205 | Every install, whichever of its steps fails and whatever a failed backup leaves, keeps the invariant of a running device. |
| Lifecycle.StepKeepsGood | services/module_update/src/module_update.cpp:222-326 | Every operation (install, uninstall, crash revert, power cycle, boot, boot cut short) keeps the invariant. |
| Lifecycle.EveryRunIsGood | services/module_update/src/module_update.cpp:222-326 | In every run: backup only beside active; on a running device active has mounted and is newer than preinstalled, and a pending package is newer than both and backed up for. |
| Device.RevertRebootsAreBounded | services/module_update/src/module_update.cpp:222-260 | Over any sequence of boots, with any mounts and file faults each time, n HMPs restart the device at most 2n times (at most once per existing active or backup directory). |
| Device.BootLowersTotal | services/module_update/src/module_update.cpp:222-260 | Each boot of all HMPs, in any order, lowers the number of active and backup directories by at least one if it restarts and never raises it. |
| Device.BootIsOneStepPerHmp | services/module_update/src/module_update.cpp:222-260 | A boot of the whole device is, for each HMP, one operation of that HMP's own run: so per-HMP theorems hold on the device. |
| Rollback.RollbackSettlesAsBefore | services/module_update/service/src/module_update_main.cpp:140-205 | From every reachable running state, whatever restarts come between install and failure and after it, once a new package fails to mount or is reverted by the monitor the boots settle where they would have before the install, if and only if no earlier install was still pending with a package that would have mounted. |
| Rollback.FailureRestoresActive | services/module_update/util/src/module_utils.cpp:256-294 | Both ways of failing, after any restarts including first boots that another HMP cuts short, leave exactly the files active held before the install, nothing in install or backup, and a device about to boot. |
| Rollback.FirstBootStages | services/module_update/src/module_update.cpp:140-163 | The first boot after an install mounts the staged package and keeps what a later revert restores, or reverts at once to what active held. |
| Rollback.DestroyedActiveIsRestored | services/module_update/src/module_update.cpp:262-297 | A device whose active directory offers nothing while a backup exists and nothing is pending restores the backup, restarts before mounting anything, and settles on what the backup offers. |
| Rollback.RestartsIffDestroyed | services/module_update/src/module_update.cpp:262-326 | When all packages mount and no operation fails, a boot restarts the device if and only if active and backup exist and neither install nor active offers a package. |
| Rollback.InstalledIsMounted | services/module_update/service/src/module_update_main.cpp:168-205 | After an install that succeeds, the first boot mounts the very archive and image that were installed, if they mount. |
| Rollback.UninstallSettlesOnPreinstalled | services/module_update/service/src/module_update_main.cpp:294-319 | After an uninstall the device settles on the preinstalled package, whatever it ran before. |
| Rollback.RunningDeviceSettles | services/module_update/src/module_update.cpp:281-326 | Where a running device settles: its pending package if that mounts, else its active package, else the preinstalled one. |
| Rollback.CutShortBootSettlesAlike | services/module_update/src/module_update.cpp:222-260 | A boot of one HMP that another HMP's restart cuts short does not change where the device settles, with or without install removed. |
| Rollback.RestartsSettleAlike | services/module_update/src/module_update.cpp:222-303 | Any sequence of power cycles, boots and boots cut short leaves the settled package the same. |
| Rollback.LateInstallFailureForgetsBackup | services/module_update/service/src/module_update_main.cpp:140-166 | An install that fails after its backup step has replaced the backup: a later revert settles on the package being reverted, which is where it would have settled without that install if and only if the backup already offered that package. |
| Rollback.RestartsStage | services/module_update/src/module_update.cpp:222-303 | After an install whose package mounts, every sequence of restarts leaves the directories in one of three states: as installed, staged with install still there, or staged with install gone. |
| RollbackExample.RollbackCanLoseAPendingInstall | services/module_update/service/src/module_update_main.cpp:168-205 | Concrete run with versions 1.1.1.1 to 1.1.1.3 and the source's own comparison in which rollback does not settle as before. |
| RollbackExample.LateFailureCanKeepTheCrashedPackage | services/module_update/service/src/module_update_main.cpp:140-166 | Concrete run in which an install that fails at setting the parameter changes where a later revert settles. |
| RollbackExample.LateFailureKeepsTheCrashedPackage | services/module_update/service/src/module_update_main.cpp:140-166 | The same for any order and any three packages: 2 installed and booted, 3 failed late, then a revert of 2 settles on 2. |
| RollbackExample.LateFailureCostsARestart | services/module_update/service/src/module_update_main.cpp:140-166 | A run: one install, a second that fails late, a power cycle. The boot finds a backup beside an active directory that offers nothing, restarts once more, and settles on the preinstalled package: the pending first install is lost. |
| RollbackExample.BootCutShortCanStage | services/module_update/src/module_update.cpp:222-260 | Concrete run (boot, install, power cycle, boot cut short) that leaves a staged package beside its install directory. |
| RollbackExample.CutShortBootSharesFiles | services/module_update/src/module_update.cpp:80-99 | That run performed on links: install and active then share inodes. |
| Lifecycle.StagedByLastBoot | services/module_update/src/module_update.cpp:222-303 | In every step of every run, a device is staged (booting, with active already offering the package that waits in install) exactly when the last boot to process it was cut short and mounted the pending package. |
| Lifecycle.BootKeepsOrStages | services/module_update/src/module_update.cpp:140-163 | A boot that leaves both install and active left install as it was, and active too unless it staged. |
| RollbackExample.SecondInstallLosesTheFirst | services/module_update/service/src/module_update_main.cpp:168-205 | The same for every strict order and any three packages: a second install that fails loses a first that was still pending. |
| HmpStorages.HmpStorage.StageUpdateModulePackage | services/module_update/src/module_update.cpp:63-103 | Unlinking and linking name by name shows the install files over the active ones, fails exactly when a link fails or active is missing, and changes nothing but active. |
| HmpStorages.HmpStorage.BackupActiveModules | services/module_update/service/src/module_update_main.cpp:501-535 | Backup ends as links to exactly the active files, or untouched without an active directory; when a removal, the new directory or a link fails, it ends as exactly what that failure leaves. |
| HmpStorages.HmpStorage.WriteFile | services/module_update/util/src/module_utils.cpp:242-249 | Overwriting a file in place changes the install view only, because its inode is linked nowhere else. |
| HmpStorages.HmpStorage.PrepareFileToDestDir | services/module_update/util/src/module_utils.cpp:242-249 | Unpacking lays the new files over the install directory and leaves what active and backup show unchanged. |
| HmpStorages.HmpStorage.ValidateVersion | services/module_update/service/src/module_update_main.cpp:207-238 | The checks against preinstalled and active files give the code of the validation function, in the order of the source. |
| HmpStorages.HmpStorage.InstallModuleFile | services/module_update/service/src/module_update_main.cpp:255-292 | Code of one file, and installModule is set exactly by a validated archive and never unset. |
| HmpStorages.HmpStorage.PrepareResourceForReboot | services/module_update/service/src/module_update_main.cpp:140-166 | Backup, verity, parameter and active steps in order, each able to fail: the error code of the first that does and what it leaves behind. |
| HmpStorages.HmpStorage.ReallyInstallModulePackage | services/module_update/service/src/module_update_main.cpp:168-205 | On links and inodes, with any failing step, an install does to all three directories what InstallPackage does to their contents; install shares no inode with active or backup afterwards. |
| HmpStorages.HmpStorage.UninstallModulePackage | services/module_update/service/src/module_update_main.cpp:294-319 | Each directory is gone or keeps what its failed removal left; the code tells an HMP without directories, a failed removal and success apart. |
| HmpStorages.HmpStorage.Revert | services/module_update/util/src/module_utils.cpp:256-294 | On links, with any failing removal or rename, does what the contents function does, and restarts exactly when it says. |
| HmpStorages.HmpStorage.GetLatestUpdateModulePackage | services/module_update/src/module_update.cpp:140-163 | The file found or staged is the one the contents function gives, and its bytes are those of its package, also after a failed link. |
| HmpStorages.HmpStorage.PrepareModuleFileList | services/module_update/src/module_update.cpp:281-303 | The list entry chosen, the directories left and the revert of a destroyed active directory are those of the contents function. |
| HmpStorages.HmpStorage.FallBackToSystem | services/module_update/src/module_update.cpp:262-303 | CheckRevert and the branch after it: revert when only the preinstalled package is left beside a backup, else drop both update directories. |
| HmpStorages.HmpStorage.DoModuleUpdate | services/module_update/src/module_update.cpp:187-220 | One boot of an HMP on links refines BootHmp for any mounts, failing links and failing removals. |
| HmpStorages.HmpStorage.Perform | services/module_update/src/module_update.cpp:222-326 | Each operation refines one step of the run; install stays apart from backup in every phase, and apart from active exactly unless the device is staged. |
| HmpStorages.HmpStorage.RunOperations | services/module_update/src/module_update.cpp:63-103 | In every run, with any failing backups, hard links behave as copies; install never shares an inode with backup, and shares one with active if and only if the device is staged, so never while it runs. |
| RevertMonitor.RingIsBoundedFifo | services/module_update/service/src/module_update_queue.cpp:37-80 | Under every schedule of the lock-level sections the ring is sound (size within 0 to 100, tail = head + size mod 100), holds what was put and not yet taken, and taken is a prefix of put. |
| RevertMonitor.ExecKeepsInv | services/module_update/service/src/module_update_queue.cpp:29-80 | The full invariant of both threads, the ring, the flags and the verdict, under every schedule with spurious wakeups. |
| RevertMonitor.SectionsWake | services/module_update/service/src/module_update_queue.cpp:29-68 | An insertion and a stop leave no consumer waiting, a removal and a stop leave no producer waiting. |
| RevertMonitor.DeadlockFreeIffFewRecords | services/module_update/service/src/module_update_queue.cpp:29-68 | No schedule gets both threads stuck if and only if at most 100 records are put. |
| RevertMonitor.ManyRecordsCanDeadlock | services/module_update/service/src/module_update_queue.cpp:37-61 | For any list of more than 100 records a schedule in which producer and consumer wait for each other. |
| RevertMonitor.FinishedTookPrefix | services/module_update/service/src/module_update_queue.cpp:53-68 | When both threads ended, everything was put, the taken records are a prefix missing at most 100, and what is missing came after the consumer last saw the queue empty. |
| RevertMonitor.TailCanBeLost | services/module_update/service/src/module_update_queue.cpp:53-68 | Any tail of at most 100 records can be left in the queue, because Pop tests for Stop without testing the size again. |
| RevertMonitor.FinishableIff | services/module_update/service/src/module_update_queue.cpp:53-68 | The numbers of records the consumer can end with are exactly those missing at most 100. |
| RevertMonitor.NothingLostIffNothingPut | services/module_update/service/src/module_update_queue.cpp:53-68 | Every record put is taken under every schedule if and only if there are none. |
| RevertMonitor.ConsumedExtendsVerdict | services/module_update/service/src/module_update_consumer.cpp:50-92 | Processing records one by one, with its early continues, computes the verdict that is stated without an order. |
| RevertMonitor.RevertHasACause | services/module_update/service/src/module_update_consumer.cpp:50-92 | A revert, and the SAMGR code, is always backed by a record that was put. |
| RevertMonitor.DecisionIsScheduleIndependentIff | services/module_update/service/src/module_update_consumer.cpp:50-92 | The decision is the same under every schedule if and only if the records that cannot be lost (all but the last 100) already decide it. |
| ModuleUpdateQueues.InsertAppends | services/module_update/service/src/module_update_queue.cpp:46-50 | An insertion below the bound appends to the queue's content and keeps the ring sound. |
| ModuleUpdateQueues.RemoveTakesFront | services/module_update/service/src/module_update_queue.cpp:62-67 | A removal from a non-empty ring takes the front of its content and keeps the ring sound. |
| ModuleUpdateQueues.ModuleUpdateQueue.Insert | services/module_update/service/src/module_update_queue.cpp:46-50 | The section of Put on the array: the slot at tail, tail and size change, and content grows by the record. |
| ModuleUpdateQueues.ModuleUpdateQueue.Remove | services/module_update/service/src/module_update_queue.cpp:62-67 | The section of Pop on the array: returns the front, and content loses it. |
| RevertMonitor.RunSchedule | services/module_update/service/src/module_update_queue.cpp:29-80 | Any schedule, performed section by section on the queue object (Stop, the insertion, the removal, the size tests), leaves its ring and both threads exactly as Exec says: the theorems about schedules hold of the object. |
| MonitorThreads.ModuleUpdateProducer.AddAbnormalSa | services/module_update/service/src/module_update_producer.cpp:46-77 | Puts a record for exactly the services that failed to load or crashed while the boot is incomplete, in any order of the map, and resets exactly the statuses that were handled. |
| MonitorThreads.ModuleUpdateProducer.AddAbnormalApp | services/module_update/service/src/module_update_producer.cpp:79-97 | Puts a record for exactly the modules whose readable result starts with the failure word. |
| MonitorThreads.FailedAppIff | services/module_update/service/src/module_update_producer.cpp:79-97 | A module counts as failed exactly when its readable result is "false" followed by anything. |
| MonitorThreads.SaRecordIff | services/module_update/service/src/module_update_producer.cpp:46-77 | A service gets a record exactly when the boot is known not to be complete and its readable status is "crash" or "loadfail". |
| MonitorThreads.HandledIff | services/module_update/service/src/module_update_producer.cpp:57-71 | A status is reset exactly when it reads "unload", "loadfail" or "crash" and the boot status can be read. |
| MonitorThreads.HealthyDeviceIsLeftAlone | services/module_update/service/src/module_update_producer.cpp:46-97 | With results that are unset, empty or "true" and no crashed service, no revert is called for. |
| MonitorThreads.CrashIsExpectedToRevert | services/module_update/service/src/module_update_producer.cpp:46-77 | A crashed service of a named module calls for a revert with the SAMGR code. |
| MonitorThreads.FailedAppIsExpectedToRevert | services/module_update/service/src/module_update_producer.cpp:79-97 | A failed application alone calls for a revert with the BMS code. |
| MonitorThreads.ModuleUpdateProducer.Run | services/module_update/service/src/module_update_producer.cpp:99-133 | With both start parameters readable, the records are exactly those the parameters at the start call for, both start parameters are reset, and of the others exactly the handled statuses; with an unreadable one, or when an exit was already requested, nothing changes. |
| MonitorThreads.ConsumeStopped | services/module_update/service/src/module_update_consumer.cpp:50-92 | On a stopped queue the consumer loop empties it and reaches the verdict on everything it held. |
| MonitorThreads.RecordsCarryExpected | services/module_update/service/src/module_update_producer.cpp:46-97 | Whatever the order of the records, none is the stop marker and their verdict is the one the parameters call for: SAMGR code if a named service failed, BMS code otherwise. |
| MonitorThreads.MonitorDecides | services/module_update/service/src/module_update_consumer.cpp:50-92 | End to end, for at most 100 records: no deadlock, no revert without a cause in the parameters, and the decision is the expected one under every schedule if and only if no revert is expected. |
| BlockIo.ReadFullyAtOffset | services/module_update/util/src/module_utils.cpp:158-170 | For any sizes of the single reads: on success the buffer is the device's bytes; with positive reads it succeeds exactly when the device is long enough. |
| BlockIo.WriteFullyAtOffset | services/module_update/util/src/module_utils.cpp:172-184 | The same for writes, and no byte outside the range changes, also on failure. |
| BlockIo.ReadLE16Inverts | services/module_update/util/src/module_utils.cpp:186-195 | Decoding in 16-bit arithmetic returns every number encoded in little-endian bytes. |
| BlockIo.ReadLE32Inverts | services/module_update/util/src/module_utils.cpp:197-207 | The same for 32 bits, composed of two halves. |
| HvbBlock.WriteModuleUpdateBlock | services/module_update/util/src/module_hvb_utils.cpp:82-131 | On success the partition ends with the trailer of this certificate, whose footer read back gives the device length as partition size, that minus 4096 as image size and certificate offset, and the certificate's length; it succeeds exactly when certificate and partition fit, and bytes before the last 4 KiB never change. |
| HvbBlock.HeldParts | services/module_update/util/src/module_hvb_utils.cpp:42-131 | From a partition that holds a trailer: where the footer lies, what it says, and that it points at exactly the certificate. |
| HvbBlock.DecodeInvertsEncode | services/module_update/util/src/module_hvb_utils.cpp:42-67 | Reading a footer from its bytes returns every field written. |
| HvbBlock.GetFooterFromImage | services/module_update/util/src/module_hvb_utils.cpp:55-67 | The footer is the decoding of the last bytes, found exactly when the image is longer than a footer and on the device. |
| HvbBlock.GetCertDataFromImage | services/module_update/util/src/module_hvb_utils.cpp:69-80 | The bytes at the offset, with the bound checked in wrapping 64-bit arithmetic as in the source. |
| HvbBlock.TrailerRoundTrip | services/module_update/util/src/module_hvb_utils.cpp:42-131 | Write, then read footer and certificate through independent sequences of short transfers: the certificate comes back, the footer field by field as described, and nothing else has changed. |
| HvbBlock.DealModuleUpdateHvbInfo | services/module_update/util/src/module_hvb_utils.cpp:133-181 | On success the partition holds the very certificate that the image's own footer points at; when the image has none the partition is untouched. |
| ZipAlign.CopyFiles | tools/zipalign/src/main/java/com/ohos/ZipAlign.java:55-93 | The archive holds exactly the stored entries in order, each with its header, name, padding and data, and the tracked offset is behind the bytes written by exactly the lag of the names. |
| ZipAlign.CopyEntry | tools/zipalign/src/main/java/com/ohos/ZipAlign.java:60-91 | One entry: its data are aligned by the tracked offset with padding below the alignment; it fails only if the padding does not fit an extra field. |
| ZipAlign.StoredCounts | tools/zipalign/src/main/java/com/ohos/ZipAlign.java:61-63 | The entries kept are exactly those whose method is stored, each as often as it occurs. |
| ZipAlign.StoredConcat | tools/zipalign/src/main/java/com/ohos/ZipAlign.java:59-63 | The entries kept are in the order of the list. |
| ZipAlign.LocalHeaderLayout | services/module_update/util/src/module_zip_helper.cpp:29-41 | Byte by byte the local header of section 4.3.7: signature P K 3 4, name length at 26, extra length at 28. |
| ZipAlign.EncodedIsInjective | tools/zipalign/src/main/java/com/ohos/ZipAlign.java:73 | No two names have the same encoding. |
| ZipAlign.Utf8Decodes | tools/zipalign/src/main/java/com/ohos/ZipAlign.java:73 | The character is recovered from its encoded bytes. |
| ZipAlign.AsciiEntriesAreAligned | tools/zipalign/src/main/java/com/ohos/ZipAlign.java:75-80 | With ASCII names so far, the data really start on a multiple of the alignment (4096 for .so), after less padding than that. |
| ZipAlign.OffsetIsExactIffAscii | tools/zipalign/src/main/java/com/ohos/ZipAlign.java:65-89 | The running offset is the true one for every entry if and only if all names are ASCII. |
| ZipAlign.LengthIsExactForAscii | tools/zipalign/src/main/java/com/ohos/ZipAlign.java:73 | A name's length in UTF-16 units equals its encoded length if and only if it is ASCII. |
| ZipAlign.AlignedIffLagIs | tools/zipalign/src/main/java/com/ohos/ZipAlign.java:73-80 | For any names: an entry's data start on a multiple of its alignment if and only if the lag of the names so far is one. |
| ZipAlign.AccentIsMisaligned | tools/zipalign/src/main/java/com/ohos/ZipAlign.java:55-93 | A concrete archive, of one entry with an accented name and alignment 4, whose data are not aligned. |
| ZipAlign.LibrariesArePageAligned | tools/zipalign/src/main/java/com/ohos/ZipAlign.java:95-104 | Names ending in .so get 4096, all others the default, when that is positive. |
| ModuleZipHelper.GetFileEntryOffset | services/module_update/util/src/module_zip_helper.cpp:153-190 | For any short reads, the result is that of reading both headers from the archive's bytes, with its failures and its 32-bit sum. |
| ModuleZipHelper.CentralHeaderLayout | services/module_update/util/src/module_zip_helper.cpp:43-61 | Byte by byte the central header of section 4.3.12: signature P K 1 2, name length at 28, extra length at 30, offset of the local header at 42. |
| ModuleZipHelper.CentralRecordIsThere | services/module_update/util/src/module_zip_helper.cpp:43-61 | In a finished archive the central record of each entry lies where its position says and carries the entry's header offset. |
| ModuleZipHelper.ReaderFindsData | services/module_update/util/src/module_zip_helper.cpp:153-190 | In every archive below 4 GiB written by CopyFiles, the reader returns, from the central record of any entry, exactly the data start the writer used, and the entry's data lie there. |
| ModuleIpcHelper.WriteModulePackageInfo | services/module_update/util/src/module_ipc_helper.cpp:82-96 | Appends exactly the items of the package, whatever the order in which the module map is visited. |
| ModuleIpcHelper.WriteModulePackageInfos | services/module_update/util/src/module_ipc_helper.cpp:104-108 | Appends the size and the items of each package, and nothing else. |
| ModuleIpcHelper.WriteSaList | services/module_update/util/include/module_ipc_helper.h:58-66 | Appends the size and five items per service. |
| ModuleIpcHelper.ReadSaList | services/module_update/util/include/module_ipc_helper.h:43-56 | Reads back the list that was written if and only if it has at most 128 services, and then consumes exactly its items; an oversize list yields nothing and only its size is consumed. |
| ModuleIpcHelper.ReadBundleList | services/module_update/util/include/module_ipc_helper.h:43-56 | The same for bundles. |
| ModuleIpcHelper.ReadModuleMap | services/module_update/util/src/module_ipc_helper.cpp:69-79 | Reads back a module map of small modules and consumes exactly its items; an oversize map yields nothing and only its size is consumed; what is returned never has more than 128 members anywhere. |
| ModuleIpcHelper.EmplacingRebuilds | services/module_update/util/src/module_ipc_helper.cpp:73-79 | Emplacing the modules in any visiting order rebuilds the map that was written. |
| ModuleIpcHelper.ReadModulePackageInfo | services/module_update/util/src/module_ipc_helper.cpp:62-80 | Reads back a package, except its display version, if and only if its map and all its lists have at most 128 members, and then consumes exactly what was written. |
| ModuleIpcHelper.OnlyDisplayVersionIsLost | services/module_update/util/src/module_ipc_helper.cpp:62-80 | What arrives of two packages is the same exactly when they differ in nothing but the display version. |
| ModuleIpcHelper.WireOrder | services/module_update/util/src/module_ipc_helper.cpp:36-96 | The order of the fields of a package and of a service on the wire. |
| ModuleIpcHelper.ReadModulePackageInfos | services/module_update/util/src/module_ipc_helper.cpp:98-102 | Reads back a list of packages if and only if it and everything inside has at most 128 members, for lists of every size; an oversize list yields nothing and only its size is consumed. |
| ModuleIpcHelper.PackageInfoReply | frameworks/ipc_server/src/module_update_stub.cpp:87-100 | Writing a reply and reading it yields the same packages if and only if the list and everything inside has at most 128 members; then the stub's return code is read next and nothing is left over. |
| BmsParams.ParseInvertsText | services/module_update/src/module_update.cpp:452-464 | Replaying printed settings yields the settings, also in front of more text, when no name has '=' or a newline. |
| BmsParams.RecordIsFaithfulIffClean | services/module_update/util/src/module_utils.cpp:478-495 | What NotifyBmsRevert records replays to what it meant if and only if no module name with bundles has '=' or a newline. |
| BmsParams.NotifySets | services/module_update/util/src/module_utils.cpp:467-497 | After a direct notification the scan parameter reads "revert_bms", the result of each module with bundles reads "false", as far as the service takes that, and every other parameter is as it was. |
| BmsParams.OtherLinesAreSkipped | services/module_update/src/module_update.cpp:453-458 | A line without '=' sets nothing. |
| BmsParams.ParameterSystem.NotifyBmsRevert | services/module_update/util/src/module_utils.cpp:467-497 | Parameters, file and result after a direct or recorded notification, also when the preinstalled package does not open. |
| BmsParams.ParameterSystem.SetParameterFromFile | services/module_update/src/module_update.cpp:440-468 | The line loop applies exactly the parsed settings in order and removes the file. |
| BmsParams.DeferredEqualsDirect | services/module_update/util/src/module_utils.cpp:467-497 | Several HMPs that record to one file leave, after the replay, the same parameters as direct notifications, whichever settings the service refuses. |
| ActionProcessers.ActionsRunInOrder | frameworks/action_processer/src/action_processer.cpp:31-133 | Actions added one by one to an idle processer and started: under every sequence of calls that sets up no second run (actions added while it goes on are ignored), they run one at a time in the order added, the next only after success; shown percentages never fall and stay in 0 to 100; a finished run discarded the rest on failure and ended with one terminal event, its last. |
| ActionProcessers.AddsQueueInOrder | frameworks/action_processer/src/action_processer.cpp:31-45 | Actions are queued in the order of the calls that add them. |
| ActionProcessers.FailureIsReported | frameworks/action_processer/src/action_processer.cpp:89-108 | A failing action ends the run at once: no further action runs, and the last event has its message and says whether it failed or was cancelled. |
| ActionProcessers.SuccessIffAllSucceeded | frameworks/action_processer/src/action_processer.cpp:89-133 | A finished run reports success if and only if every action ran and succeeded, a retry or a cancellation if and only if the last code says so. |
| ActionProcessers.PerformCalls | frameworks/action_processer/src/action_processer.cpp:31-133 | Any sequence of calls on the objects does what Run does on their state. |
| ActionProcessers.ActionProcesser.AddAction | frameworks/action_processer/src/action_processer.cpp:31-45 | Queues an action unless one is running or there is none. |
| ActionProcessers.ActionProcesser.Start | frameworks/action_processer/src/action_processer.cpp:47-66 | Takes the front action and reports progress 0, unless running or empty. |
| ActionProcessers.ActionProcesser.Stop | frameworks/action_processer/src/action_processer.cpp:68-87 | Clears the run exactly when a running action accepts termination. |
| ActionProcessers.ActionProcesser.CompletedAction | frameworks/action_processer/src/action_processer.cpp:89-113 | A failure ends the run and clears the queue; a success is kept for the next step; a late report is ignored. |
| ActionProcessers.ActionProcesser.StartNextAction | frameworks/action_processer/src/action_processer.cpp:115-133 | Takes the next action, or ends the run with the status the last code calls for. |
| StatusManagers.StatusManager.UpdateCallback | frameworks/status_manager/src/status_manager.cpp:51-75 | Fields and callback events after one update, in every branch; UpdateKeepsTrace says what this means for the trace. |
| ActionProcessers.UpdateKeepsTrace | frameworks/status_manager/src/status_manager.cpp:51-75 | Whatever status and percent an update brings, the percentages shown to the callback stay within 0 to 100 and never fall, and only a terminal status adds a terminal event. |
| StatusManagers.ProgressIsShown | frameworks/status_manager/src/status_manager.cpp:51-75 | A percentage that rises is shown as it is, success and failure as 100, and a lower one leaves what is shown. |
| StatusManagers.RepeatsAreDropped | frameworks/status_manager/src/status_manager.cpp:54-65 | A state just shown is not shown again, and nothing is shown without a callback. |
| StatusManagers.StatusManager.SetUpdateCallback | frameworks/status_manager/src/status_manager.cpp:32-44 | A new callback is told the present state at once. |
| StatusManagers.StatusManager.SetUpdatePercent | frameworks/status_manager/src/status_manager.cpp:97-100 | Progress keeps the present status. |
| PkgVerify.Verify | frameworks/actions/verify_action/src/pkg_verify.cpp:36-79 | Returns 0 exactly when every path given that is not empty resolves to a package whose signature verifies; a good run shows 1, then 1 plus the share after each package, then 5, and every run non-decreasing values within 1 to 5. |
| PkgVerify.PercentIsShare | frameworks/actions/verify_action/src/pkg_verify.cpp:72-74 | The share after some packages is 4 times their number over the number of all, rounded down. |
| PkgVerify.NonEmptyCounts | frameworks/actions/verify_action/src/pkg_verify.cpp:47-52 | Every path but the empty ones is checked, each as often as it is given. |
| PkgVerify.PercentGrows | frameworks/actions/verify_action/src/pkg_verify.cpp:72-74 | The share shown after each package lies between the one before and 4. |

## Left out

- Foreign calls: loop devices, dm-verity, mount, SELinux, sync and reboot are outcomes given as inputs; a restart is the end of the boot.
- Signature, image and hash-tree checks and the parsing of archives and JSON: fixed functions of the bytes, the same for all theorems.
- Utils::SplitString and Utils::ConvertToLong are not part of this model: splitting is taken to keep empty pieces, and the conversion is an arbitrary function.
- Incremental packages (IsIncrementPackage, RestorePackage): every package is a full one.
- More than one archive in a preinstalled directory, sub-directories inside an HMP, and files changed by others.
- A mount point that is already in use (CheckMountComplete), failing loop pre-allocation and the train type's shared mount point.
- Installs of HMPs that are not preinstalled, and failing removals of the install directory after a failed install. A failing CreateModuleDirs ends like a failing unpacking.
- Links between directories of different HMPs: no operation makes one. Unpacking is modelled as overwriting in place, the worst case for hard links.
- The certificate kept for revert (RevertImageCert), directory permissions after a revert, and the installer result file.
- GetCurrentHmpName picks one HMP for the monitor's revert; here the revert is an operation of the HMP it picked.
- RevertMonitor.RunSchedule: schedules start without an exit request from outside the two threads and with readable start parameters (with an unreadable one the producer never stops the queue).
- Parameter values longer than the producer's 10-byte buffers, and the text of parameter names in the monitor.
- HvbBlock.WriteModuleUpdateBlock: the header with the footer layout is not part of this model; magic and reserved sizes are parameters, with a footer of at most 4 KiB, and its numbers are taken to follow each other as the source assigns them.
- ZipAlign.CopyFiles: sorting of names, timestamps and the input archive's own extra fields; padding and data only. Data descriptors do not occur for stored entries.
- ModuleZipHelper: unzip library calls, and how a central record's position is found.
- ModuleIpcHelper: what is read after an oversize list or map has desynchronised the reader, beyond that it is not what was written. String conversion between UTF-8 and UTF-16 is the identity.
- ReadModuleUpdateStatus and WriteModuleUpdateStatus: a shorter round trip of the same kind.
- ActionProcessers.ActionsRunInOrder: actions that accept termination; Stop is proved by itself for them. SetUpdateMode and the events of SysInstallerManagerInit are not modelled.
- PkgVerify.Verify: the share is the integer floor, which the source's floating-point quotient equals for fewer than 2^50 packages.
- StatusManager: CallbackWithoutCheck, UpdateFeatureStatus and the float progress.
- StreamInstallProcesser, kits, proxies, permission checks, service loading and timers: forwarding, or built on code outside the repository.
