# VMFree: a verified model

VMFree turns a VMware virtual machine into a KVM or Proxmox one. It reads a VMX
file or an OVF envelope, converts the VMDK disks, writes a libvirt domain or a
list of `qm` commands, and repairs the guest offline. This project models that
pipeline in Dafny and proves what its rewrites keep: the guest's data, the names
of its network interfaces, the pairing of disks and slots, and the meaning of the
files it reads.

## Layout

| file | part of the program |
|---|---|
| `Substitution.dfy`, `Interference.dfy` | `sed s/old/new/g` and `str.replace`: several passes against one, and when they interfere |
| `Guest.dfy` | the guest image, the command runner, `FixupResult` and the shape of all fixup helpers |
| `NetworkFixup.dfy`, `NetworkNames.dfy`, `IfcfgMoves.dfy`, `GuestNetwork.dfy` | guest network configuration; the last file says what the whole fixup does to which guest |
| `GuestFixups.dfy` | removal of VMware Tools, bootloader fixup |
| `SnapshotChain.dfy`, `Progress.dfy` | snapshot merging and the progress scanner of the converter |
| `Text.dfy`, `Lines.dfy`, `PathNames.dfy` | the Python string and path operations in use |
| `Model.dfy` | the VM definition, the hardware mapper |
| `Proxmox.dfy`, `CommandLines.dfy`, `ProxmoxHost.dfy` | command generation, word splitting, what `qm` does on a host |
| `Migration.dfy` | conversion, execution and dry run put together |
| `Libvirt.dfy` | the devices of the libvirt domain |
| `VmxParser.dfy`, `VmxDevices.dfy` | VMX files |
| `VmdkParser.dfy`, `VmdkMeaning.dfy`, `VmdkRoundTrip.dfy`, `VmdkInspect.dfy` | VMDK descriptors |
| `OvfTree.dfy`, `OvfHardware.dfy`, `OvfUnits.dfy`, `OvfDisks.dfy`, `OvfParser.dfy` | OVF envelopes |

Loops and objects that the program updates in place are methods and classes here,
each proved equal to a function; the lemmas are about those functions. The contract of
a main operation also says what it is for in names, paths, texts and numbers that stand
in that contract itself, apart from the tables and functions its body uses.

## Modelling assumptions

- **Runner.** A tool call ends with exit code zero, with another exit code, or with
  `FileNotFoundError`. An oracle fixes the outcome of the k-th call, and every
  statement holds for every oracle. Exit code zero means the full effect; another
  code means that any part of the effect may have taken place: any of the files for an
  edit or a removal, any number of its commands, in order, for a rename script. A
  script of another program (package manager, services, kernel modules, GRUB,
  initramfs) may leave any files behind. `rm` removes the files it names, and with
  `-r` all below them; a final `*` matches no leading dot.
- **sed.** Matches are literal, taken from left to right, and inserted text is not
  searched again. Working line by line is the same as working on the whole text
  (`Substitution.LineByLine`).
- **qemu-img commit.** A sector that an image does not hold is read from its backing
  file. A commit copies the sectors of an image into its backing file; one that
  fails may have copied any of them.
- **qm.** A new volume of a VM gets the lowest disk index that is free on the
  storage. Importing needs an existing VM and image, attaching an existing volume.
- **Shell.** Continued lines are joined and the result is split at blanks.
- **Python.** Integers are unbounded in both languages. `int`, `str.split`,
  `str.strip`, `str.splitlines`, `str.partition` and `pathlib` are written out;
  floor division on values that may be negative is Dafny's `/` by a positive number,
  which rounds the same way.

## Where the program does less than it promises

These are proved with the exact condition, not patched in the model; where the
condition does not show it at once, a lemma gives a concrete input.

- The passes over the interface names do not interfere for `ens18`. For another
  new name they can: with `ens1` the text `ens16092` is rewritten twice, with `pens1`
  the text `ens16061`, and with `ens1601` every run makes the file longer
  (`NetworkNames.NewNameIff`, `NetworkNames.InterferingNewNames`,
  `NetworkNames.GrowingNewName`).
- When several ifcfg scripts are present all but the last are lost
  (`IfcfgMoves.NothingLostIff`, `IfcfgMoves.ScriptLost`), and renames that did not all
  go well may not be put right by running the fixup again: a script that was not moved
  the first time is moved over the right one, or one that was moved is not found any
  more and keeps its old lines (`IfcfgMoves.ResumeIff`, `IfcfgMoves.EarlierScriptWins`,
  `IfcfgMoves.HalfMovedStays`).
- The network fixup reports success whatever the exit codes are
  (`NetworkFixup.NetworkSuccessIff`, `NetworkFixup.FailingRunSucceeds`).
- A name given by the user may come back when a part of it and the new name make it
  up; then a second run changes the file again (`NetworkNames.OldNameIff`).
- The generated commands guess volume names. With volumes left over from an earlier
  VM of the same id every command succeeds and wrong disks are attached
  (`Migration.SlotsRightIff`, `Migration.LeftoverAttached`).
- Names and paths with blanks do not reach `qm` as one argument
  (`CommandLines.ArgvIff`, `CommandLines.BlankSplitsPath`).
- Two source disks with equal stems are written to the same output file
  (`Migration.OutputsRightIff`, `Migration.StemsCollide`).
- The dry run shows another file name for sources whose stem is empty or a single
  dot (`PathNames.PreviewIff`, `PathNames.PreviewDiffers`).
- After a merge another snapshot that hangs on the chain may read differently
  (`SnapshotChain.SiblingViewIff`, `SnapshotChain.SiblingChanges`).
- Progress lines of the documented form make the callback jump to hundred once per
  line (`Progress.ProgressMonotoneIff`, `Progress.ProgressGoesBack`).
- `byte*2^30` and its smaller siblings are read as units for memory but not for
  capacities (`OvfUnits.SizesAgreeIff`, `OvfUnits.UnspacedForms`).
- The libvirt generator has letters for sixteen disks and fails on the next one
  (`Libvirt.Devices.BuildDisks`).
- An offset behind the file name of an extent is taken for a part of the name
  (`VmdkParser.OffsetStaysInName`).
- The OVF parser looks up the parent controller of each disk, but names `scsi0`
  whatever it finds (`OvfDisks.ResolveDisks`).

## Model

| member | source | states |
|---|---|---|
| Substitution.EachIsAny | vmfree/fixup/network.py:235-247 | passes over the names one after another equal one simultaneous left-to-right substitution, on every text, when the names do not overlap each other and the later ones do not overlap the inserted text; one name on its own is unrestricted |
| Substitution.EachBySet | vmfree/fixup/network.py:235-236 | the order of the passes and repeated passes make no difference |
| Substitution.PartThenAll | vmfree/fixup/network.py:235-252 | some passes followed by all of them give what all of them give: a second run changes nothing |
| Substitution.SurvivesIff | vmfree/fixup/network.py:240-241 | a name is left after the passes exactly when it occurred and was not listed |
| Substitution.NoneLeft | vmfree/fixup/network.py:240-241 | no listed name that is clear of the inserted text is left in any text |
| Interference.InterferenceIff | vmfree/fixup/network.py:235-247 | for every inserted text: the passes agree with the simultaneous substitution on all texts if and only if no name after the first overlaps the inserted text, be it inside it, around it or across one of its ends |
| Interference.InterferenceAt | vmfree/fixup/network.py:236-241 | the text that tells the two apart whenever a later name overlaps the inserted text |
| Interference.SecondRunIff | vmfree/fixup/network.py:235-252 | for every inserted text: a second run changes no text if and only if none of the names, the first included, overlaps the inserted text |
| Interference.NoneLeftIff | vmfree/fixup/network.py:235-252 | for every inserted text: no text keeps a name if and only if, besides, the inserted text is none of them |
| Interference.OneNameIff | vmfree/fixup/network.py:235 | for every single name, of whatever shape, and every inserted text: no text keeps the name if and only if it cannot come back, and a second run changes no text if and only if, besides, it may be the inserted text; for a name that does not overlap itself coming back means overlapping the inserted text |
| Interference.AnyMoves | vmfree/fixup/network.py:240-241 | texts that hold a name move strictly in one direction under the substitution, so that no later pass brings them back |
| Interference.AnyUnchangedIff | vmfree/fixup/network.py:240-241 | a text is left alone exactly when none of the names occurs in it |
| Interference.ReplacedIff | vmfree/fixup/network.py:276-277 | one substitution leaves a text alone exactly when it finds nothing |
| Substitution.LineByLine | vmfree/fixup/network.py:241 | editing line by line equals editing the whole text |
| Guest.Perform | vmfree/fixup/vmware_tools.py:210-225 | the loop of every helper equals the plan run with its early return on a missing tool |
| Guest.PerformAll | vmfree/fixup/vmware_tools.py:127-134 | a helper that gave up does not stop the next one |
| Guest.Probe | vmfree/fixup/vmware_tools.py:180-198 | detection: the first positive answer, exactly the calls up to it, no file changed |
| Guest.ProbeIs | vmfree/fixup/vmware_tools.py:187-198 | which probe it stops at: all before it say no, and it says yes or finds its tool missing |
| Guest.StagesCarried | vmfree/fixup/vmware_tools.py:127-134 | when no tool is missing all planned calls are made, and the report says of each how it ended |
| Guest.LedgerPlan | vmfree/fixup/vmware_tools.py:39-41 | the ledger invariant: errors are exactly those of the calls made, in order, and success says there are none; kept by every plan under every oracle |
| Guest.LedgerStages | vmfree/fixup/vmware_tools.py:127-134 | the ledger is kept by helpers one after another |
| Guest.LedgerProbe | vmfree/fixup/vmware_tools.py:187-196 | the ledger is kept by probing, which never counts as an error |
| Guest.PlanCalls | vmfree/fixup/vmware_tools.py:210-225 | the calls made are the planned ones in order; a shorter log ends with a missing tool |
| Guest.NoFaultsIff | vmfree/fixup/vmware_tools.py:39-41 | no errors exactly when no single call left one |
| Guest.LeftIff | vmfree/fixup/network.py:374-386 | under every oracle: a file is left after edits and removals exactly when it was there and no call took it; removals leave every other text alone |
| GuestNetwork.FixGuestNetwork | vmfree/fixup/network.py:78-107 | without failures: of the four directories the first whose listing shows something decides; the files of `/etc/netplan` (`.yaml`), `/etc/systemd/network` (`.network`, behind `Name=`) or `/etc/NetworkManager/system-connections` (behind `interface-name=`) have the names replaced, or the ifcfg scripts are moved and rewritten; only stale files are gone, every other file is as before; with no such directory only the stale files go. When no tool is missing: exactly which calls are made and reported. For every oracle: the run equals its specification, success if and only if no errors; missing image |
| GuestNetwork.ConfigIff | vmfree/fixup/network.py:200-220 | for every oracle: the configuration detected is that of the first directory that shows something |
| NetworkFixup.FixConfig | vmfree/fixup/network.py:93-102 | the dispatch on the detected configuration |
| NetworkFixup.NetworkLedger | vmfree/fixup/network.py:84-107 | for every oracle the report lists exactly the errors of its calls |
| NetworkFixup.NetworkSuccessIff | vmfree/fixup/network.py:189-192 | success exactly when no virt-customize call found its tool missing; exit codes play no part |
| NetworkFixup.FailingRunSucceeds | vmfree/fixup/network.py:189-192 | a run in which every call fails and does nothing reports success |
| NetworkFixup.ConfigIsNotStale | vmfree/fixup/network.py:367-372 | no file of the four configuration directories is among those the fixup removes |
| NetworkFixup.NetworkLeftIff | vmfree/fixup/network.py:84-107 | under every oracle, unless ifcfg scripts are renamed: the guest has afterwards exactly the files that no removal took, and all that are not stale |
| NetworkFixup.FileAfter | vmfree/fixup/network.py:240-241 | under every oracle: a selected file goes through the passes that got to it, other files keep their text, no file comes or goes |
| NetworkNames.CleanRun | vmfree/fixup/network.py:235-252 | without failures a selected file becomes the simultaneous substitution, and no name clear of the new one is left in it |
| NetworkNames.Recovery | vmfree/fixup/network.py:235-252 | whatever went wrong before, a later run without failures gives the files of one undisturbed run |
| NetworkNames.LeftoverIff | vmfree/fixup/network.py:235-252 | after any run a name is left exactly when it was there and its pass did not get to the file |
| GuestNetwork.GuestRenamed | vmfree/fixup/network.py:84-107 | in a guest whose first directory is that of Netplan, networkd or NetworkManager, for any old and new name and no failures: each of its files becomes the simultaneous substitution, and no name clear of the new one is left |
| GuestNetwork.DefaultGuestRenamed | vmfree/fixup/network.py:53-58 | with the default names none of the six VMware names is left in any file of the configuration |
| NetworkNames.VmwareUniform | vmfree/fixup/network.py:31-41 | the six names have one length and one head letter found nowhere else in them, also behind `Name=` and `interface-name=` |
| NetworkNames.ListsAreApart | vmfree/fixup/network.py:235 | no two names of a list that the program uses overlap |
| NetworkNames.DefaultIsClear | vmfree/fixup/network.py:31-41 | ens18 overlaps none of the six names, behind each prefix |
| NetworkNames.InterferingNewNames | vmfree/fixup/network.py:57 | two new names, one that starts a later name and one whose end does, and texts on which the passes differ from the simultaneous substitution |
| NetworkNames.GrowingNewName | vmfree/fixup/network.py:57 | a new name with which a second run changes a file again |
| NetworkNames.NewNameIff | vmfree/fixup/network.py:57 | for every new name and behind each prefix: when the passes do not interfere, when a second run changes nothing, and when no VMware name is left, each if and only if |
| NetworkNames.OldNameIff | vmfree/fixup/network.py:56 | the same for every name given by the user and every new one, also for names that overlap themselves |
| NetworkNames.OverlappingOldName | vmfree/fixup/network.py:56 | a name that overlaps itself and the new one and never comes back |
| IfcfgMoves.RunIsMoveStages | vmfree/fixup/network.py:266-292 | under every oracle the calls amount to the renaming loop with each script stopped where its call stopped, and with none started once the tool is missing |
| IfcfgMoves.MovesAreRenamed | vmfree/fixup/network.py:266-278 | for every new name and however far each script got: the scripts that got somewhere are gone, the target is the text of the last of them as far as it was rewritten, other files are untouched |
| IfcfgMoves.ScriptLeftIff | vmfree/fixup/network.py:273-277 | a script is left under its old name, with its text, exactly when it was there and its call did nothing |
| IfcfgMoves.GuestMoved | vmfree/fixup/network.py:84-107 | when ifcfg is detected and no call fails, any old and new name: success, exactly the stale files removed, the scripts renamed, every other file as it was; no script is stale |
| IfcfgMoves.FileCount | vmfree/fixup/network.py:273-277 | how many files there are afterwards |
| IfcfgMoves.NothingLostIff | vmfree/fixup/network.py:273-277 | no script is lost exactly when at most one of the listed names has one, and then the target has none |
| IfcfgMoves.ScriptLost | vmfree/fixup/network.py:273-277 | a guest with two scripts loses one |
| IfcfgMoves.MoveAllTwice | vmfree/fixup/network.py:266-278 | a second run finds nothing to do |
| IfcfgMoves.OthersUntouched | vmfree/fixup/network.py:266-292 | under every oracle files outside the listed names and the target keep place and text |
| IfcfgMoves.ResumeIff | vmfree/fixup/network.py:266-292 | after any first run whatever, a run without failures gives what one undisturbed run gives if and only if: no listed script was there; or some call had done nothing, and the last such script is rewritten to the same text as the last script of all; or every call had done something, and the last script was complete or had nothing left to rewrite |
| IfcfgMoves.EarlierScriptWins | vmfree/fixup/network.py:266-292 | two scripts of which the first could not be moved at first: the second run leaves the wrong one |
| IfcfgMoves.HalfMovedStays | vmfree/fixup/network.py:274-277 | a script whose call stopped after the move is not completed by a second run |
| VmwareTools.RemoveVmwareToolsLinux | vmfree/fixup/vmware_tools.py:106-136 | when no tool is missing: the first of the five marker files that can be read decides between RPM packages, DEB packages and none; then the module list, four services and four paths, each call as it is made and reported. For every oracle: the removal equals its specification; success if and only if no errors; missing image |
| VmwareTools.RemovalLedger | vmfree/fixup/vmware_tools.py:115-136 | for every oracle the report lists exactly the errors of its calls |
| VmwareTools.PathsLeftIff | vmfree/fixup/vmware_tools.py:316-328 | under every oracle: the last stage takes exactly the files under the VMware paths that its calls got to |
| VmwareTools.PathsCleaned | vmfree/fixup/vmware_tools.py:115-136 | without failures no file under a VMware path is left, whatever the other programs left |
| Bootloader.RebuildInitramfs | vmfree/fixup/bootloader.py:69-94 | when no tool is missing: dracut where `/usr/bin/dracut` can be read, else update-initramfs where that can be read, else nothing; it fails exactly when the rebuild does. For every oracle: the step equals its specification; success if and only if no errors |
| Bootloader.UpdateGrub | vmfree/fixup/bootloader.py:114-147 | the GRUB step, likewise: the configuration is regenerated where one of the two files can be read |
| Bootloader.FixFstabDiskReferences | vmfree/fixup/bootloader.py:167-200 | the fstab step, likewise: one call |
| Bootloader.StepLedger | vmfree/fixup/bootloader.py:305-349 | every step only adds calls and reports exactly their errors |
| Bootloader.FullBootloaderFixup | vmfree/fixup/bootloader.py:220-236 | all three steps run whatever fails; the combined report; when no tool is missing, the three steps in this order, and only the rebuild can fail; success if and only if no errors |
| Bootloader.CombineLedger | vmfree/fixup/bootloader.py:228-234 | the combined errors are exactly those of all calls of all steps |
| Bootloader.CombineHonest | vmfree/fixup/bootloader.py:228-234 | combining keeps success equivalent to an empty error list, also without an image |
| Bootloader.BootSuccessIff | vmfree/fixup/bootloader.py:339-349 | success exactly when no customize call missed its tool and no rebuild returned non-zero |
| SnapshotChain.Store.MergeSnapshotChain | vmfree/converter/disk.py:149-188 | success exactly when the chain is not empty and every commit ends well, and then the file it names is the base, which has no backing file and reads at every sector as the leaf did; else no file, the error of the first commit that fails, and the commits issued up to it |
| SnapshotChain.ChainDistinct | vmfree/converter/disk.py:139-141 | the files of a chain are pairwise different |
| SnapshotChain.CommitKeepsView | vmfree/converter/disk.py:165-181 | however a commit ends the chain from there reads as before; after success so does the chain below it |
| SnapshotChain.MergeKeepsView | vmfree/converter/disk.py:165-181 | loop invariant over any run: the rest of the chain gives the original view, the files still form the chain, nothing outside it changes |
| SnapshotChain.MergedBaseReadsAsLeaf | vmfree/converter/disk.py:183-188 | after success the base alone reads at every sector as the leaf did |
| SnapshotChain.AnyMergeKeepsTheGuest | vmfree/converter/disk.py:165-181 | also a merge that failed inside a commit loses nothing |
| SnapshotChain.RetryMerges | vmfree/converter/disk.py:165-188 | a failed merge can be run again |
| SnapshotChain.FailureStopsThere | vmfree/converter/disk.py:177-181 | when commit k fails the commits before it were made and nothing after its parent is touched |
| SnapshotChain.SiblingViewIff | vmfree/converter/disk.py:162-181 | for a snapshot hanging on any file of the chain and any merge, wherever it stopped: at which sectors it reads differently afterwards |
| SnapshotChain.MergedBelow | vmfree/converter/disk.py:162-181 | how the chain from any file on reads after any merge, also one that failed inside the commit into that file |
| SnapshotChain.MergeReaches | vmfree/converter/disk.py:165-181 | once the commits before a file have succeeded the chain from that file on reads as the leaf did |
| SnapshotChain.SiblingChanges | vmfree/converter/disk.py:162-181 | two snapshots of one base: merging the first changes what the second reads |
| Progress.ParseProgress | vmfree/converter/disk.py:225-228 | the scanner reports the numbers up to hundred of all leftmost matches, in order |
| Progress.NumbersConcat | vmfree/converter/disk.py:225 | matches do not reach across a character that belongs to no number |
| Progress.EveryLineReportsHundred | vmfree/converter/disk.py:222-228 | a documented progress line makes two calls, the second with hundred |
| Progress.ProgressMonotoneIff | vmfree/converter/disk.py:222-228 | the reported progress never goes back exactly when all lines after the first say hundred |
| Progress.ProgressGoesBack | vmfree/converter/disk.py:222-228 | two lines for which the reported progress goes back |
| Progress.PlainProgress | vmfree/converter/disk.py:223-228 | plain percentages on lines of their own are reported one by one |
| PathNames.PreviewIff | vmfree/cli.py:532-535 | when the previewed file name is the one written, both directions |
| PathNames.PreviewDiffers | vmfree/cli.py:532-535 | a source for which the two differ |
| PathNames.SameOutputIff | vmfree/converter/disk.py:86-87 | two sources share an output file exactly when their stems agree |
| PathNames.OutputIsUnder | vmfree/converter/disk.py:86-87 | the output file: the stem of the source with `.qcow2` or `.raw`, under the output directory |
| PathNames.PreviewIsDiv | vmfree/cli.py:532-535 | the previewed file, with the directory itself for a source without a stem or with a single dot |
| PathNames.StemMeaning | vmfree/converter/disk.py:87 | a stem: the name up to its last dot when something stands before and behind it, else the whole name |
| PathNames.StemBehind | vmfree/converter/disk.py:87 | the stem of a path is that of the name behind its last slash |
| Model.BootDisk | vmfree/models.py:122-128 | the first disk marked as boot, else the first disk, else none |
| Hardware.StageTwoMaps | vmfree/cli.py:382-395 | what the mapper gives for a machine: controller, card model and firmware, with the safe values for a guest that names Windows |
| Proxmox.BuildDiskAttachCommands | vmfree/generators/proxmox.py:121-139 | one attach command per disk in order, then the boot order |
| Proxmox.BuildNicString | vmfree/generators/proxmox.py:147-162 | model, bridge and, when kept and known, the normalised address |
| Proxmox.BuildCreateCommand | vmfree/generators/proxmox.py:75-106 | the appended parts are the eight named options, in order; `Migration.CommandsBuildTheVm` says which value ends up under which name |
| Proxmox.GenerateProxmoxCommands | vmfree/generators/proxmox.py:53-72 | after the create command: the text of each import, attach, boot and EFI command, with placeholder paths when none are given |
| Proxmox.PinnedMatch | vmfree/cli.py:586 | a separator with one newline matches only at that newline |
| Proxmox.ReplaceInJoin | vmfree/cli.py:586 | replacing such a separator in joined parts gives the parts joined by the replacement |
| Proxmox.FlattenJoin | vmfree/cli.py:584-588 | flattening a continued command gives its parts joined by single spaces |
| Proxmox.ScriptJoin | vmfree/cli.py:464 | what bash makes of the same command in the written script |
| CommandLines.ArgvIff | vmfree/cli.py:588 | a command reaches `qm` with its intended arguments exactly when each is a word |
| CommandLines.FieldsOfJoin | vmfree/cli.py:588 | splitting joined parts splits each part, however many blanks stand between |
| CommandLines.ImportArgvIff | vmfree/generators/proxmox.py:109-111 | an import arrives as intended exactly when path and storage are words |
| CommandLines.BlankSplitsPath | vmfree/generators/proxmox.py:109-111 | a path that arrives as two arguments |
| CommandLines.AttachIsArgv | vmfree/generators/proxmox.py:131-133 | an attach command arrives as intended |
| CommandLines.BootIsArgv | vmfree/generators/proxmox.py:135-137 | the boot command arrives as intended |
| CommandLines.EfiDiskIsArgv | vmfree/generators/proxmox.py:142-144 | the EFI disk command arrives as intended |
| CommandLines.CreateArgvOfWords | vmfree/generators/proxmox.py:83-106 | executed or written to the script, the create command passes the same arguments |
| CommandLines.CreateArgvIff | vmfree/generators/proxmox.py:83-106 | it passes its intended arguments exactly when VM name and NIC string are words |
| ProxmoxHost.LowestFreeIsFree | vmfree/generators/proxmox.py:131-133 | the allocator always finds a free index and it is the lowest |
| ProxmoxHost.Node.ExecuteProxmoxCommands | vmfree/cli.py:584-595 | runs the flattened commands in order; on failure the last command run is the first that fails |
| ProxmoxHost.ImportsRun | vmfree/generators/proxmox.py:62-63 | on a host with VM and images all imports succeed |
| ProxmoxHost.ImportsKeep | vmfree/generators/proxmox.py:62-63 | imports overwrite no volume and leave the first names taken |
| ProxmoxHost.ImportsInOrder | vmfree/generators/proxmox.py:62-63 | on free names image i becomes volume i |
| ProxmoxHost.AttachesRun | vmfree/generators/proxmox.py:131-133 | attaching sets exactly the slots to the guessed volumes |
| ProxmoxHost.AttachMissing | vmfree/generators/proxmox.py:131-133 | attaching a volume that does not exist fails |
| Migration.ConfigureStores | vmfree/generators/proxmox.py:83-104 | creating the VM stores every option under its name and touches no other entry |
| Migration.CommandsBuildTheVm | vmfree/generators/proxmox.py:53-72 | the generated commands all succeed; the VM has the name, memory, cores, firmware, SCSI type and network card of the source; slot i holds existing volume i, imported from path i; boot from the first; the EFI volume aliases no disk and gets index n; any number of disks |
| Migration.MigratedMachine | vmfree/cli.py:382-469 | the same from the source machine and the mapper: memory and cores, `ovmf` exactly for EFI, `lsi`, IDE slots and an e1000 card exactly for a safe guest |
| Migration.SlotsRightIff | vmfree/generators/proxmox.py:131-133 | every slot holds the right image exactly when no volume with a guessed name was left over; the run succeeds either way |
| Migration.LeftoverAttached | vmfree/generators/proxmox.py:131-133 | a host on which everything succeeds and the new machine gets the disk of an old one |
| Migration.Workspace.ConvertDisk | vmfree/converter/disk.py:71-129 | output name, error text and written file for each way a conversion can end |
| Migration.Workspace.ConvertAll | vmfree/cli.py:425-439 | the paths handed on pair with the disks; success exactly when every source exists and converts; it stops at the first failure, with the disks before it converted and nothing behind it touched |
| Migration.OutputsRightIff | vmfree/cli.py:425-439 | every output holds its own disk exactly when disks with equal stems are the same file |
| Migration.StemsCollide | vmfree/cli.py:425-439 | two disks of the same name in different directories: the first output holds the second disk |
| Migration.MigrationRightIff | vmfree/cli.py:423-469 | end to end: convert, generate, execute; all commands succeed, the VM is configured as the source, and every slot holds its own source disk exactly when no volume with a guessed name was left over and stems tell disks apart |
| Migration.ReadyIff | vmfree/cli.py:423-469 | after the conversion the host is ready exactly when its VM id is free and names, paths and storage are words |
| Migration.PreviewsIff | vmfree/cli.py:545-548 | the previewed paths are those of a real run exactly for previewable sources |
| Migration.DryRunIff | vmfree/cli.py:544-561 | the commands of the dry run are those of a real run exactly for previewable sources |
| Libvirt.Devices.BuildDisks | vmfree/generators/libvirt.py:94-126 | one disk element per pair, in order; fails exactly beyond sixteen, with the first sixteen built |
| Libvirt.Devices.BuildDevices | vmfree/generators/libvirt.py:67-71 | each disk with its format, path, letter and bus, the controller exactly for virtio-scsi, each card with bridge, model and its colon-form address exactly when kept and known |
| Libvirt.ControllerServesDisks | vmfree/generators/libvirt.py:108-137 | the domain has a SCSI controller exactly when its disks sit on a SCSI bus |
| Libvirt.Devices.BuildNics | vmfree/generators/libvirt.py:140-157 | one interface per card with bridge, model and normalised address |
| Libvirt.TargetsDistinct | vmfree/generators/libvirt.py:119-126 | with at most sixteen disks the target names differ pairwise |
| Model.MacNormalised | vmfree/generators/libvirt.py:153-157 | dashes become colons and every other character keeps its place |
| Libvirt.WindowsIsSafe | vmfree/cli.py:382-395 | a guest recognised as Windows gets IDE disks and e1000 cards from both generators, whatever the source names |
| Libvirt.DryRunXmlIff | vmfree/cli.py:531-543 | the disk elements of the dry run are those of a real run exactly for previewable sources |
| Lines.PrintedIsRead | vmfree/parsers/vmx.py:92-100 | a printed line shows its key and its value, also with `=` and quotes inside the value |
| VmxParser.ParseVmxKeyvalues | vmfree/parsers/vmx.py:90-102 | a key is there exactly when some line that is neither blank nor a comment gives it a value, and it has the value of the last such line |
| VmxParser.LastLineWins | vmfree/parsers/vmx.py:96-101 | the later of two lines with one key wins |
| VmxParser.EntriesCanonical | vmfree/parsers/vmx.py:98-101 | every parsed dictionary is in normal form |
| VmxParser.PrintThenParse | vmfree/parsers/vmx.py:76-102 | a dictionary in normal form survives printing and parsing, in any order of keys |
| VmxParser.ParsePrintParse | vmfree/parsers/vmx.py:76-102 | for every text: parse, print, parse again gives the same dictionary |
| VmxParser.ParserRange | vmfree/parsers/vmx.py:76-102 | the dictionaries some text stands for are exactly those in normal form |
| VmxDevices.ExtractDisks | vmfree/parsers/vmx.py:124-180 | one disk, in slot order, for each slot whose entries say present, name a file that is no `.iso` and not `auto detect`, and whose device type holds neither `cdrom` nor `atapi`; no other; with the path of its own file name under the directory, its controller and unit; the first boots |
| VmxDevices.ScanMeaning | vmfree/parsers/vmx.py:124-180 | one disk per slot that holds one, nothing else, in strict order, pairwise different slots, exactly the first is boot |
| VmxDevices.NeverSeen | vmfree/parsers/vmx.py:151-154 | the guard against repeated slots never fires |
| VmxDevices.ScannedBootDisk | vmfree/models.py:122-128 | the boot disk of a scanned machine is the disk in the first slot with such entries |
| VmxDevices.ExtractNics | vmfree/parsers/vmx.py:189-216 | one card for each present number below ten, in order, with its own entries; the static address exactly when the address type says so |
| VmxDevices.NicsMeaning | vmfree/parsers/vmx.py:191-196 | exactly the present cards, in increasing order |
| VmdkParser.VmdkInfo.ParseDescriptor | vmfree/parsers/vmdk.py:149-186 | the fields after all lines; fails where `int` raises |
| VmdkParser.VmdkInfo.ParseLine | vmfree/parsers/vmdk.py:152-186 | the fields after one line |
| VmdkMeaning.ParsedMeans | vmfree/parsers/vmdk.py:149-186 | which line of a descriptor says what: each field is that of the last line that says it, the extents those of the extent lines in order, and it fails exactly when a version is no number |
| VmdkMeaning.FlatExtent | vmfree/parsers/vmdk.py:197-226 | the sectors, access mode and type of a flat extent line with an offset behind it |
| VmdkParser.VirtualSizeBytes | vmfree/parsers/vmdk.py:78-81 | 512 times the summed sectors |
| VmdkParser.QuotedNameIff | vmfree/parsers/vmdk.py:218-219 | a quoted file name comes through exactly when single-spaced and without quotes at its ends |
| VmdkParser.OffsetStaysInName | vmfree/parsers/vmdk.py:218-219 | with an offset behind it, no quoted file name is read back |
| VmdkParser.ExtentRoundTripIff | vmfree/parsers/vmdk.py:197-226 | a printed extent is read back exactly when access mode, type and name are plain; names may contain `=` |
| VmdkParser.SectorsOfPermutation | vmfree/parsers/vmdk.py:79-81 | the size does not depend on the order of extents |
| VmdkParser.LinesAreLocal | vmfree/parsers/vmdk.py:149-186 | what lines add to the extents does not depend on the fields before them |
| VmdkParser.SplitConcat | vmfree/parsers/vmdk.py:151 | the lines of two texts put together, for every kind of line break |
| VmdkParser.ParseConcat | vmfree/parsers/vmdk.py:149-186 | parsing is a homomorphism: extents concatenate and sizes add up |
| VmdkRoundTrip.PrintThenParse | vmfree/parsers/vmdk.py:149-226 | a printed descriptor is read back in every field: version, CIDs, create type, extents in order, database |
| VmdkInspect.InspectVmdk | vmfree/parsers/vmdk.py:112-146 | missing file, binary data, bad version and missing create type, else what the lines of the descriptor say, 512 bytes per sector and the type by its name |
| VmdkInspect.InspectPrinted | vmfree/parsers/vmdk.py:131-146 | a printed descriptor passes inspection exactly when it names a create type |
| VmdkInspect.ScannedSize | vmfree/parsers/vmx.py:156-166 | a scanned disk gets size and type of the descriptor it names |
| OvfTree.NamespaceOfTag | vmfree/parsers/ovf.py:112-123 | which root tag selects which namespace |
| OvfTree.LocalOfQualified | vmfree/parsers/ovf.py:551-555 | the local name of a qualified tag is the name |
| OvfTree.PreorderIsWithin | vmfree/parsers/ovf.py:146 | iterating visits exactly the elements of the tree, at any depth |
| OvfTree.FindVirtualSystem | vmfree/parsers/ovf.py:126-150 | finds something exactly when some element has the local name: the first direct child, else the first child of the first collection, else the first in document order |
| OvfHardware.ParseItems | vmfree/parsers/ovf.py:223-277 | the last item of type 3 with a quantity gives the CPUs, the last of type 4 the memory in its unit, the first of type 6 with an id and a subtype the SCSI controller, the items of type 10 and the Ethernet items the cards and those of type 17 with a host resource the drives, in order; else 1, 1024 and nothing; fails exactly when one of their numbers is none |
| OvfHardware.RasdMeaning | vmfree/parsers/ovf.py:558-573 | a field of an item: the first child with the RASD tag when it has a text, else the first with the local name and a text |
| OvfHardware.CollectMeaning | vmfree/parsers/ovf.py:223-277 | last CPU and memory items win, first non-empty SCSI subtype wins, cards and drives keep document order; succeeds exactly when every needed number is one |
| OvfHardware.ParseNicItem | vmfree/parsers/ovf.py:433-467 | the card of an item, with its loop over the settings |
| OvfHardware.LastMacMeaning | vmfree/parsers/ovf.py:449-455 | the last MAC setting wins |
| OvfUnits.MemoryRecognisesMore | vmfree/parsers/ovf.py:350-384 | a memory unit is never read as smaller than the same capacity unit |
| OvfUnits.SizesAgreeIff | vmfree/parsers/ovf.py:350-384 | both parsers give the same size for every value if and only if the text says giga, or says mega and hints at no giga once its blanks are gone |
| OvfUnits.SizesRoundIff | vmfree/parsers/ovf.py:350-384 | the memory size is the capacity rounded down to megabytes if and only if, besides, the text may say kilo and hint at nothing larger |
| OvfUnits.FormsAgree | vmfree/parsers/ovf.py:371-374 | every word form and the spaced form, in any case, is read as its unit by both parsers: equal sizes for mega and giga, rounding by less than one megabyte and never below one for kilo |
| OvfUnits.CapacityIs | vmfree/parsers/ovf.py:350-366 | a capacity in bytes, by what its unit says |
| OvfUnits.MemoryIs | vmfree/parsers/ovf.py:369-384 | a memory size in megabytes, by what its unit hints at |
| OvfUnits.UnspacedForms | vmfree/parsers/ovf.py:357-365 | the three unspaced forms are read as bytes in a capacity and as their unit in a memory size |
| OvfDisks.ExtractFileReferences | vmfree/parsers/ovf.py:299-318 | the file table |
| OvfDisks.ExtractDiskReferences | vmfree/parsers/ovf.py:321-347 | the disk table |
| OvfDisks.FileRefsMeaning | vmfree/parsers/ovf.py:311-318 | an id is in the file table exactly when some File element has it, and the last one gives the name |
| OvfDisks.DiskRefsMeaning | vmfree/parsers/ovf.py:335-346 | an id is in the disk table exactly when some Disk element has it, and the last one gives file reference and capacity |
| OvfDisks.ResolveDisks | vmfree/parsers/ovf.py:478-507 | one disk per drive, in order, with path, capacity and boot mark |
| OvfDisks.SectionMeaning | vmfree/parsers/ovf.py:302-309 | a section is the first child with the qualified name, else the first with the local name |
| OvfDisks.TailIff | vmfree/parsers/ovf.py:482 | the id of a drive is the part of its host resource behind the last slash |
| OvfDisks.DriveMeaning | vmfree/parsers/ovf.py:480-505 | a drive gets the path of the file that the last Disk element with its id leads to |
| OvfDisks.DriveDescribed | vmfree/parsers/ovf.py:480-505 | the whole disk of a drive: path, the bytes that the last Disk element with its id states, address, boot mark |
| OvfDisks.DriveUnresolvedIff | vmfree/parsers/ovf.py:485-489 | a drive has no path exactly when there is no such element |
| OvfDisks.SizeConserved | vmfree/parsers/ovf.py:335-347 | drives that use every Disk element once have the summed capacities of these elements, in any order |
| OvfParser.FindSystem | vmfree/parsers/ovf.py:161-171 | the search in the namespace of the root tag, without conditions |
| OvfParser.ParseOvfRoot | vmfree/parsers/ovf.py:153-296 | which error there is, in the order of the checks; else the machine its items describe, each disk the one its references lead to, and all capacity of the envelope in the disks when they use each Disk element once |
| OvfParser.ParseSystem | vmfree/parsers/ovf.py:209-282 | the same for a system that was found |

## Left out

- Guest.Effect: what scripts of other programs (packages, services, kernel modules, GRUB, initramfs) do to the files is left open; of the `rm` and `sed` calls, failures that `|| true` or `find -exec` hide behind exit code zero are not modelled.
- IfcfgMoves.MovesAreRenamed: assumes that no name is listed twice, as in every list the program uses (`IfcfgMoves.ListsAreDistinct`).
- Progress.ParseProgress: percentages are real numbers, so the rounding of `float` near hundred is not modelled.
- ProxmoxHost.Node.ExecuteProxmoxCommands: quotes, variables, globs and other shell syntax in names are not modelled; slot-number limits and storages that name volumes by directory are not either.
- Migration.Workspace.ConvertDisk: the output directory exists, as the pipeline creates it before; success messages are dropped.
- Migration.MigrationRightIff: names, paths and storage are words; `CommandLines.ImportArgvIff` and `CommandLines.CreateArgvIff` say when commands arrive otherwise, not what `qm` makes of them. Volumes that were there before are told from those of the run by a tag.
- VmdkRoundTrip.PrintThenParse: extents have no trailing offset; `VmdkParser.OffsetStaysInName` says what becomes of one.
- Libvirt.Devices.BuildDisks: default paths when no list is given are not modelled, since the pipeline always gives one.
- OvfDisks.ResolveDisks: both branches of the controller lookup name the same controller, so the lookup itself is dropped.
- Regular-expression metacharacters in an interface name given by the user: names are literal.
- Lower case outside ASCII, and digits outside ASCII in numbers.
- `set_dhcp_fallback`, `verify_conversion`, bridge detection and pre-flight checks: one call or one lookup each.
- VM name, guest system, firmware and hardware version of an OVF envelope, the top-level fields of a VMX file, and OVA archives.
- XML text: the OVF side starts from a parsed tree, the libvirt side stops at the device elements; graphics, guest agent and firmware elements are fixed.
- Tables, panels and summaries on the terminal.
