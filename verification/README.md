# Sample packager model

A Dafny model of `process_sample_files`, a routine that packages paired
sequencing files. It scans a source directory for `*.fastq.gz` files, groups
the names ending in `_R1_001.fastq.gz` and `_R2_001.fastq.gz` by the prefix
in front of the suffix, and handles each sample in first-seen order. A
sample with both files gets a folder in the output directory named by the
first nine characters of its prefix. Both files are copied into that folder,
and an archive `<name>.zip` is rebuilt next to it from everything then in
the folder. A sample with only one of its two files gets a warning and
nothing else.

The file system is abstract. The source directory is a sequence of base
names. The output directory is a value of `Packager.Output`, which holds:

- `dirs`: a map from top-level folder name to the set of file names in it.
  The output root itself is the folder `""`.
- `archives`: a map from archive file name to the set of entries it holds.
  Each entry is a `RelPath` (folder, file) relative to the output root.
- `log`: the notices printed, as `Processed(name)` / `Skipped(name)` events.

Modules:

- `Wrappers`: `Option`.
- `Naming`: the scan filter, the suffix classification, the nine-character
  output name and the archive name.
- `Grouping`: the scan, and the grouping loop into an insertion-ordered
  table keyed by the full prefix.
- `Packager`: one iteration of the sample loop (`ProcessSample`), the loop
  (`Run`) and the whole procedure (`Process`). Also holds closed-form
  descriptions of the run and the properties proved against them.
- `Scenarios`: worked examples from an empty output directory.

Points where the model follows the code closely:

- Grouping uses the full prefix, but output names use only its first nine
  characters. So two prefixes that agree on nine characters share one
  folder. The second pair's copies accumulate next to the first pair's, and
  the second archive rewrite lists all four files (`Scenarios.CollidingExample`).
  Such samples do not overwrite each other's folder.
- The empty prefix (a file named exactly `_R1_001.fastq.gz`) has the output
  root as its folder, because joining the output path with `""` gives the
  root. Its archive `.zip` lists every file under the root, including the
  archive itself, since the archive file is opened before the folder is
  walked (`Scenarios.RunRootFirst`).
- The `*` of the scan pattern does not match a leading dot, so hidden names
  are never picked up (`Naming.Listed`).

## Model

| member | source | states |
|---|---|---|
| Naming.Classify | file_processer.py:22-27 | A base name is tagged as the first member of a pair exactly when it ends with `_R1_001.fastq.gz`, and as the second exactly when it ends with `_R2_001.fastq.gz`. The tagged prefix followed by that suffix gives back the base name. A name with neither suffix is not tagged. |
| Naming.ClassifySuffixed | file_processer.py:22-27 | Appending either pairing suffix to any prefix gives a name that is classified back to exactly that role and prefix. So the suffix strip and the naming convention are inverse. |
| Naming.SuffixesExclusive | file_processer.py:22-25 | No name ends with both pairing suffixes, so the order of the two suffix tests does not matter. |
| Naming.SampleName | file_processer.py:35 | The output name is a prefix of the sample prefix and has at most nine characters. It is the whole prefix when that is at most nine long, and exactly nine characters otherwise. |
| Naming.SampleNamesCollide | file_processer.py:35 | Two prefixes share an output folder exactly when they are equal, or both have at least nine characters and agree on the first nine. |
| Naming.ZipNameInjective | file_processer.py:45 | Two output names give the same archive name only if they are equal. |
| Naming.ListedIsNotArchive | file_processer.py:17 | A name the scan can pick up is never an archive name. |
| Grouping.Assign | file_processer.py:24 | Storing a file in one slot of a group fills that slot and leaves the other slot as it was. |
| Grouping.SetDefaultAssign | file_processer.py:24 | The dictionary update keeps the table well formed and only extends the iteration order. The keys gain exactly the prefix. That prefix's slot holds the file, its other slot keeps its old value (or is empty for a new key), and every other key keeps its group. |
| Grouping.GroupAllSpec | file_processer.py:19-27 | After the grouping loop `GroupAll` (one `Record` step per scanned name), a prefix is a key exactly when one of its two pair names was scanned. Its group holds exactly those of its pair names that were scanned, which is the independent description `Expected`. Each key appears once in the iteration order. |
| Grouping.GroupAllExtends | file_processer.py:19-27 | Scanning more names never reorders existing keys; new prefixes are only appended to the iteration order. |
| Grouping.Glob | file_processer.py:17 | The scan keeps a name exactly when it is in the listing, ends with `.fastq.gz` and does not start with a dot. |
| Grouping.GlobKeepsListed | file_processer.py:17 | A listing made only of matching names passes the scan whole and in order. |
| Grouping.Discover | file_processer.py:17-27 | The scan `Glob` followed by the grouping loop `GroupAll`: on a directory listing, a prefix is a key exactly when one of its pair names is found by the scan. Its group holds exactly the pair names found. |
| Grouping.Items | file_processer.py:33 | The loop visits one item per key, in the table's insertion order, and every key is visited. |
| Packager.Walk | file_processer.py:52-56 | Walking a top-level folder finds exactly its files, named relative to the output root. Walking the root finds every file of the output. |
| Packager.WalkSameFolder | file_processer.py:52-56 | The walk of a folder depends only on that folder's files. |
| Packager.AddFiles | file_processer.py:36-42 | After creating a folder and copying files into it, the folders are the old ones plus that folder, and it holds its old files plus the copies. Other folders, the archives and the log are unchanged. Copying files already present changes nothing. |
| Packager.ProcessSample | file_processer.py:33-63 | A complete pair creates exactly its own folder and the root if they are missing, and no other folder. It adds its two files to its folder and the archive name to the root. The archive then lists exactly the folder's current files, and other archives and folders are unchanged. An incomplete group changes no folder and no archive. Either way one notice is logged and no file is removed. |
| Packager.ArchiveReplaced | file_processer.py:47-51 | For a folder other than the root, the archive a complete sample leaves depends only on that folder's files. It does not depend on any earlier archive of that name: the old archive is replaced, not appended to. |
| Packager.RunFolders | file_processer.py:36-51 | After the loop, the folders are exactly the earlier ones, one per output name of a complete sample (the reference set `SampleFolders`), and the root once any complete sample has run. No folder is removed. |
| Packager.RunContents | file_processer.py:33-45 | After the loop, each folder holds its previous files plus the pairs of every complete sample with that output name. The root also holds one archive per complete sample name. |
| Packager.RunLog | file_processer.py:61-63 | The loop appends one notice per item, in item order, after the earlier log: processed for a complete pair, a warning otherwise. |
| Packager.RunArchives | file_processer.py:45-51 | After the loop, the archives are the earlier ones plus one per complete sample name. Any earlier archive whose name no sample uses keeps its contents. |
| Packager.RunArchivesWithinOutput | file_processer.py:51-59 | Every entry of an archive written by the loop names a file that is in the output when the loop ends. |
| Packager.ArchiveMatchesFolder | file_processer.py:45-59 | For a complete sample whose folder is not the root, its archive ends up listing exactly the files of its folder at the end of the loop. This includes files copied there by other samples that share the nine-character name. |
| Packager.RunHolds | file_processer.py:33-45 | After the loop, every complete sample has its pair in its folder and its archive name in the root. |
| Packager.RunSettled | file_processer.py:36-42 | If every complete sample's files and archive are already in place, the loop changes no folder. |
| Packager.Rerun | file_processer.py:33-59 | Running the loop again over its own output changes neither folders nor archives, provided no complete sample has an empty prefix. |
| Packager.CopiedOnlyPairs | file_processer.py:20-42 | A file the loop copies into a folder is one half of a pair whose two names were both found by the scan and whose output name is that folder. |
| Packager.PairsCopied | file_processer.py:20-42 | Conversely, both halves of every pair found by the scan are copied into the pair's folder. |
| Packager.ProcessCopies | file_processer.py:17-42 | A `.fastq.gz` name is in an output folder after the run exactly when it was there before, or it is one half of a found pair with that output name. So names with neither suffix, hidden names and single halves are never copied. |
| Packager.ProcessArchives | file_processer.py:45-59 | Take any `.fastq.gz` entry of any archive after the run. Either its archive was left untouched, or the file was already in the output, or it belongs to a found pair with that folder. |
| Packager.ProcessFolders | file_processer.py:17-36 | After the whole procedure, a folder exists exactly when it existed before, is the output root, or is the nine-character name of a prefix both of whose files the scan found. So each complete prefix gets exactly one folder and nothing else creates one. |
| Packager.ProcessArchiveNames | file_processer.py:17-51 | After the whole procedure, an archive exists exactly when it existed before or is named after the nine-character name of a prefix both of whose files the scan found. |
| Packager.ProcessEmptyListing | file_processer.py:17-30 | When the scan finds nothing (an empty, missing or unreadable source directory), the run only creates the output root: no folder, archive or notice is added. |
| Packager.PairedSampleArchived | file_processer.py:33-59 | When both files of a non-empty prefix are found, they land in the folder of the prefix's nine-character name. That folder's archive lists exactly the folder's files, with both files as `name/file` entries. |
| Packager.CompletePairArchived | file_processer.py:33-59 | After the loop, a complete sample whose folder is not the root has both files in its folder and in that folder's archive, and the archive matches the folder. |
| Packager.UnpairedSampleWarned | file_processer.py:62-63 | When only one of a prefix's two files is found, a warning naming the prefix's nine-character name is logged. |
| Packager.ProcessRerun | file_processer.py:17-63 | Running the whole procedure a second time, on the same listing and over its own output, changes neither folders nor archives, unless both bare-suffix files are present. |
| Scenarios.SinglePair | file_processer.py:17-61 | From an empty output, the listing `S1_R1_001.fastq.gz`, `S1_R2_001.fastq.gz` yields folder `S1` with both files, root file `S1.zip`, one archive listing `S1/…` for both files, and one processed notice. |
| Scenarios.PairOnEmpty | file_processer.py:17-61 | The same for any non-hidden, non-empty prefix: exactly one folder and one archive, both holding exactly the pair. |
| Scenarios.MissingSecondFile | file_processer.py:62-63 | From an empty output, the single file `S2_R1_001.fastq.gz` leaves only the created root and logs one warning for `S2`. |
| Scenarios.LoneFile | file_processer.py:62-63 | The same for any non-hidden prefix: an unpaired first file creates nothing but the root. |
| Scenarios.CollidingExample | file_processer.py:35-59 | `ABCDEFGHIJ` and `ABCDEFGHIJXYZ` both map to folder `ABCDEFGHI`. The folder ends with all four files, and `ABCDEFGHI.zip` lists all four. |
| Scenarios.CollidingPairs | file_processer.py:35-59 | For any two distinct, non-empty, non-hidden colliding prefixes, the shared folder and its single archive end with both pairs, and two processed notices are logged. |
| Scenarios.CollidingFirstArchive | file_processer.py:47-59 | Before the second colliding sample is processed, the shared archive lists only the first pair. So the second rewrite replaces it. |
| Scenarios.RunRootFirst | file_processer.py:35-59 | A pair with the empty prefix is copied into the root. Its archive `.zip` lists both files and itself. |
| Scenarios.RunRootThenPair | file_processer.py:35-59 | The empty prefix's pair followed by another pair, from a freshly created output, gives the root with both root files and both archives, the other folder with its pair, and `.zip` listing only the root's three files. |
| Scenarios.RootArchiveMisses | file_processer.py:52-56 | In that output, `.zip` does not list the later sample's files, because it was written before their folder existed. |
| Scenarios.RootSampleRerun | file_processer.py:33-59 | With an empty-prefix pair and a second pair, a second run leaves the folders as they are but changes the archives: `.zip` now also lists the second pair. So the condition in `Packager.ProcessRerun` is needed. |
| Scenarios.DiscoverTwoPairs | file_processer.py:17-33 | Scanning the pairs of two distinct, non-hidden prefixes gives two complete items in scan order. |
| Scenarios.GroupPair | file_processer.py:20-27 | Grouping both names of one prefix gives a single complete group. |

## Left out

- Byte contents of files: copying, the ZIP container and DEFLATE compression (lines 41-42 and 51) are modelled only as which names are present where.
- The order of `os.walk` and of the directory listing: archive contents are sets of entries, and the scan result is modelled in listing order, whatever order the operating system returns.
- The debug prints of each entry (lines 57-58): they do not affect the output.
- The hard-coded date, paths and module-level call (lines 66-72): configuration only.
- I/O failures while creating folders, copying, removing an archive or writing one (permissions, a full disk): the source has no recovery logic, and such a failure aborts the run. A missing or unreadable source directory is not one of them: the scan then finds nothing, which the model covers as the empty listing (`Packager.ProcessEmptyListing`).
- Completion of the empty prefix's archive: that archive is `.zip` in the root, and it is written while the root is walked, so it lists itself. The model assumes this self-referential write finishes; whether it does depends on byte sizes and walk order, which are not modelled.
- Name clashes between a folder and a root file. For example, a sample whose nine-character name ends in `.zip` would collide with another sample's archive. The model keeps folders and root files apart; in the source such a clash raises an error.
- Subfolders inside a sample folder and files put in the output by other programs between steps: the output tree is two levels deep.
- Listing entries are taken to be plain base names; path separators inside a name and platform path rules (drive letters, case-insensitive matching on Windows) are not modelled.
- Grouping.Glob: the contract states which names are kept, not that they keep the listing order. The body keeps the order, and `Grouping.GlobKeepsListed` states it for fully matching listings.
