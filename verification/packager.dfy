/**
 Materialisation of the grouped samples (file_processer.py, lines 29-63):
 per-sample folders, copies, archives and the console report, over an
 abstract picture of the output directory.
 */
module Packager {
  import opened Wrappers
  import opened Naming
  import opened Grouping

  /**
   A file below the output root: `file` is its path relative to the
   top-level folder `folder`; the folder "" is the output root itself.
   */
  datatype RelPath = RelPath(folder: string, file: string)

  /** The output root, as the folder name `os.path.join` maps back to it. */
  const Root: string := ""

  /** The entry name of a file in an archive: its path relative to the output root. */
  function ArcName(p: RelPath): string {
    if p.folder == Root then p.file else p.folder + "/" + p.file
  }

  /** The two console notices, each naming a sample by its output name. */
  datatype Event = Processed(sample: string) | Skipped(sample: string)

  /**
   The output directory: the files of each top-level folder (the root
   included, under ""), the entries of each archive by archive name, and the
   notices printed so far.
   */
  datatype Output = Output(dirs: map<string, set<string>>, archives: map<string, set<RelPath>>, log: seq<Event>)

  /** The files of a folder; a folder that does not exist has none. */
  function Contents(o: Output, folder: string): set<string> {
    if folder in o.dirs then o.dirs[folder] else {}
  }

  /** The archive of the sample whose output name is `name`. */
  function ArchiveName(name: string): string {
    name + ZipExtension
  }

  /**
   The files `os.walk` finds below a top-level folder, as paths relative to
   the output root. Walking the root finds every file of the output.
   */
  function Walk(o: Output, folder: string): (entries: set<RelPath>)
    ensures forall e :: e in entries <==> (folder == Root || e.folder == folder) && e.file in Contents(o, e.folder)
  {
    if folder == Root then set d, f | d in o.dirs && f in o.dirs[d] :: RelPath(d, f)
    else set f | f in Contents(o, folder) :: RelPath(folder, f)
  }

  /** A walk of a top-level folder depends on that folder's files only. */
  lemma WalkSameFolder(o1: Output, o2: Output, folder: string)
    requires folder != Root && Contents(o1, folder) == Contents(o2, folder)
    ensures Walk(o1, folder) == Walk(o2, folder)
  {
    forall e ensures e in Walk(o1, folder) <==> e in Walk(o2, folder) {
    }
  }

  /**
   Creates `folder` if it is missing and copies `files` into it; a copy onto
   an existing name replaces that file, so the folder ends up with the union.
   */
  function AddFiles(o: Output, folder: string, files: set<string>): (r: Output)
    ensures r.dirs.Keys == o.dirs.Keys + {folder}
    ensures Contents(r, folder) == Contents(o, folder) + files
    ensures forall d :: d != folder ==> Contents(r, d) == Contents(o, d)
    ensures r.archives == o.archives && r.log == o.log
    ensures folder in o.dirs && files <= o.dirs[folder] ==> r == o
  {
    var dirs := o.dirs[folder := Contents(o, folder) + files];
    assert folder in o.dirs && files <= o.dirs[folder] ==> dirs == o.dirs by {
      if folder in o.dirs && files <= o.dirs[folder] {
        assert Contents(o, folder) + files == o.dirs[folder];
      }
    }
    o.(dirs := dirs)
  }

  /** The files a group contributes to its folder: both of a complete pair, none otherwise. */
  function PairFiles(g: Group): set<string> {
    if g.Complete() then {g.r1.value, g.r2.value} else {}
  }

  /** The notice printed for a sample. */
  function Report(s: Sample): Event {
    if s.files.Complete() then Processed(SampleName(s.prefix)) else Skipped(SampleName(s.prefix))
  }

  /**
   One iteration of the sample loop. A complete pair is copied into the
   folder named by the first nine characters of its prefix, next to whatever
   that folder already holds; the archive of that name is then rewritten from
   scratch with every file then in the folder. An incomplete group only
   prints a warning.
   */
  function ProcessSample(o: Output, s: Sample): (r: Output)
    ensures r.log == o.log + [Report(s)]
    ensures forall d :: Contents(o, d) <= Contents(r, d)
    ensures !s.files.Complete() ==> r.dirs == o.dirs && r.archives == o.archives
    ensures s.files.Complete() ==> r.dirs.Keys == o.dirs.Keys + {SampleName(s.prefix), Root}
    ensures s.files.Complete() ==>
              var name := SampleName(s.prefix);
              var zip := ArchiveName(name);
              && Contents(r, name) == Contents(o, name) + PairFiles(s.files) + (if name == Root then {zip} else {})
              && Contents(r, Root) == Contents(o, Root) + {zip} + (if name == Root then PairFiles(s.files) else {})
              && (forall d :: d != name && d != Root ==> Contents(r, d) == Contents(o, d))
              && r.archives.Keys == o.archives.Keys + {zip}
              && r.archives[zip] == Walk(r, name)
              && (forall a :: a in o.archives && a != zip ==> r.archives[a] == o.archives[a])
  {
    if !s.files.Complete() then
      o.(log := o.log + [Report(s)])
    else
      var name := SampleName(s.prefix);
      var copied := AddFiles(o, name, PairFiles(s.files));
      var zip := ArchiveName(name);
      // Removing a stale archive and opening the new one leaves an archive file
      // in the root while the folder is walked.
      var staged := AddFiles(copied, Root, {zip});
      Output(staged.dirs, staged.archives[zip := Walk(staged, name)], o.log + [Report(s)])
  }

  /**
   The archive a complete sample leaves behind does not depend on any
   earlier archive of the same name: it is replaced, never appended to.
   */
  lemma ArchiveReplaced(o1: Output, o2: Output, s: Sample)
    requires s.files.Complete()
    requires Contents(o1, SampleName(s.prefix)) == Contents(o2, SampleName(s.prefix))
    requires SampleName(s.prefix) != Root
    ensures ProcessSample(o1, s).archives[ArchiveName(SampleName(s.prefix))]
         == ProcessSample(o2, s).archives[ArchiveName(SampleName(s.prefix))]
  {
    var name := SampleName(s.prefix);
    WalkSameFolder(ProcessSample(o1, s), ProcessSample(o2, s), name);
  }

  /** The sample loop over the table's items, in iteration order. */
  function Run(o: Output, samples: seq<Sample>): Output
    decreases |samples|
  {
    if |samples| == 0 then o
    else ProcessSample(Run(o, samples[..|samples| - 1]), samples[|samples| - 1])
  }

  /** The sample loop takes one more step for one more item. */
  lemma RunSnoc(o: Output, samples: seq<Sample>, s: Sample)
    ensures Run(o, samples + [s]) == ProcessSample(Run(o, samples), s)
  {
    assert (samples + [s])[..|samples|] == samples;
  }

  /** `process_sample_files` on a source listing, starting from the output directory `init`. */
  function Process(listing: seq<string>, init: Output): Output {
    Run(AddFiles(init, Root, {}), Items(Discover(listing)))
  }

  // ---------------------------------------------------------------------------
  // Reference descriptions of the whole run

  /** Every file copied into `folder` by the complete samples of `samples`. */
  function Copied(samples: seq<Sample>, folder: string): set<string> {
    set s, f | s in samples && SampleName(s.prefix) == folder && f in PairFiles(s.files) :: f
  }

  /** The archive names of the complete samples of `samples`. */
  function ZipNames(samples: seq<Sample>): set<string> {
    set s | s in samples && s.files.Complete() :: ArchiveName(SampleName(s.prefix))
  }

  /** The output names of the complete samples of `samples`: the folders the run creates. */
  function SampleFolders(samples: seq<Sample>): set<string> {
    set s | s in samples && s.files.Complete() :: SampleName(s.prefix)
  }

  lemma CopiedSnoc(samples: seq<Sample>, s: Sample, folder: string)
    ensures Copied(samples + [s], folder)
         == Copied(samples, folder) + (if SampleName(s.prefix) == folder then PairFiles(s.files) else {})
  {
    var all := samples + [s];
    forall f ensures f in Copied(all, folder) ==> f in Copied(samples, folder) + (if SampleName(s.prefix) == folder then PairFiles(s.files) else {}) {
      if f in Copied(all, folder) {
        var x :| x in all && SampleName(x.prefix) == folder && f in PairFiles(x.files);
        if x != s {
          assert x in samples;
        }
      }
    }
    assert s in all;
  }

  lemma ZipNamesSnoc(samples: seq<Sample>, s: Sample)
    ensures ZipNames(samples + [s])
         == ZipNames(samples) + (if s.files.Complete() then {ArchiveName(SampleName(s.prefix))} else {})
  {
    var all := samples + [s];
    forall a | a in ZipNames(all) ensures a in ZipNames(samples) + (if s.files.Complete() then {ArchiveName(SampleName(s.prefix))} else {}) {
      var x :| x in all && x.files.Complete() && a == ArchiveName(SampleName(x.prefix));
      if x != s {
        assert x in samples;
      }
    }
    assert s in all;
  }

  lemma SampleFoldersSnoc(samples: seq<Sample>, s: Sample)
    ensures SampleFolders(samples + [s])
         == SampleFolders(samples) + (if s.files.Complete() then {SampleName(s.prefix)} else {})
  {
    var all := samples + [s];
    forall d | d in SampleFolders(all) ensures d in SampleFolders(samples) + (if s.files.Complete() then {SampleName(s.prefix)} else {}) {
      var x :| x in all && x.files.Complete() && d == SampleName(x.prefix);
      if x != s {
        assert x in samples;
      }
    }
    assert s in all;
  }

  /**
   Closed form of the folders after the run: the folders that existed before,
   one folder per complete sample name, and the output root once any complete
   sample has written its archive there. No other folder is created and none
   is removed.
   */
  lemma {:induction false} RunFolders(o: Output, samples: seq<Sample>)
    ensures Run(o, samples).dirs.Keys
         == o.dirs.Keys + SampleFolders(samples) + (if SampleFolders(samples) == {} then {} else {Root})
    decreases |samples|
  {
    if |samples| == 0 {
      assert SampleFolders(samples) == {};
    } else {
      var prev := samples[..|samples| - 1];
      var s := samples[|samples| - 1];
      assert samples == prev + [s];
      RunFolders(o, prev);
      RunFoldersSnoc(o, prev, s);
    }
  }

  /** The induction step of `RunFolders`. */
  lemma RunFoldersSnoc(o: Output, samples: seq<Sample>, s: Sample)
    requires Run(o, samples).dirs.Keys
          == o.dirs.Keys + SampleFolders(samples) + (if SampleFolders(samples) == {} then {} else {Root})
    ensures Run(o, samples + [s]).dirs.Keys
         == o.dirs.Keys + SampleFolders(samples + [s]) + (if SampleFolders(samples + [s]) == {} then {} else {Root})
  {
    RunSnoc(o, samples, s);
    SampleFoldersSnoc(samples, s);
  }

  /** The files of `folder` after one iteration of the sample loop. */
  lemma StepContents(o: Output, s: Sample, folder: string)
    ensures Contents(ProcessSample(o, s), folder)
         == Contents(o, folder) + (if SampleName(s.prefix) == folder then PairFiles(s.files) else {})
            + (if folder == Root && s.files.Complete() then {ArchiveName(SampleName(s.prefix))} else {})
  {
  }

  /**
   Closed form of the folders after the run: each folder holds what it held
   before plus the pairs of every complete sample with that output name, and
   the root also holds one archive per complete sample name.
   */
  lemma {:induction false} RunContents(o: Output, samples: seq<Sample>, folder: string)
    ensures Contents(Run(o, samples), folder)
         == Contents(o, folder) + Copied(samples, folder) + (if folder == Root then ZipNames(samples) else {})
    decreases |samples|
  {
    if |samples| > 0 {
      var prev := samples[..|samples| - 1];
      var s := samples[|samples| - 1];
      assert samples == prev + [s];
      RunContents(o, prev, folder);
      RunContentsSnoc(o, prev, s, folder);
    } else {
      assert Copied(samples, folder) == {};
      assert ZipNames(samples) == {};
    }
  }

  /** The induction step of `RunContents`. */
  lemma RunContentsSnoc(o: Output, samples: seq<Sample>, s: Sample, folder: string)
    requires Contents(Run(o, samples), folder)
          == Contents(o, folder) + Copied(samples, folder) + (if folder == Root then ZipNames(samples) else {})
    ensures Contents(Run(o, samples + [s]), folder)
         == Contents(o, folder) + Copied(samples + [s], folder) + (if folder == Root then ZipNames(samples + [s]) else {})
  {
    var pair := if SampleName(s.prefix) == folder then PairFiles(s.files) else {};
    var zip := if folder == Root && s.files.Complete() then {ArchiveName(SampleName(s.prefix))} else {};
    var zips := if folder == Root then ZipNames(samples) else {};
    assert Contents(Run(o, samples + [s]), folder) == Contents(o, folder) + Copied(samples, folder) + zips + pair + zip by {
      RunSnoc(o, samples, s);
      StepContents(Run(o, samples), s, folder);
    }
    assert Copied(samples + [s], folder) == Copied(samples, folder) + pair by {
      CopiedSnoc(samples, s, folder);
    }
    assert (if folder == Root then ZipNames(samples + [s]) else {}) == zips + zip by {
      ZipNamesSnoc(samples, s);
    }
    Regroup(Contents(o, folder), Copied(samples, folder), zips, pair, zip);
  }

  lemma Regroup<T>(a: set<T>, b: set<T>, c: set<T>, d: set<T>, e: set<T>)
    ensures a + b + c + d + e == a + (b + d) + (c + e)
  {
  }

  /**
   The run prints one notice per item, in iteration order, after what was
   printed before: "processed" for a complete pair, a warning otherwise.
   */
  lemma {:induction false} RunLog(o: Output, samples: seq<Sample>)
    ensures |Run(o, samples).log| == |o.log| + |samples|
    ensures Run(o, samples).log[..|o.log|] == o.log
    ensures forall i :: 0 <= i < |samples| ==> Run(o, samples).log[|o.log| + i] == Report(samples[i])
    decreases |samples|
  {
    if |samples| > 0 {
      var prev := samples[..|samples| - 1];
      RunLog(o, prev);
    }
  }

  /** A walk of one folder finds a subset of the walk of the root. */
  lemma WalkWithinRoot(o: Output, folder: string)
    ensures Walk(o, folder) <= Walk(o, Root)
  {
  }

  /** Walking the root finds more once no folder has lost files. */
  lemma WalkGrows(o: Output, r: Output)
    requires forall d :: Contents(o, d) <= Contents(r, d)
    ensures Walk(o, Root) <= Walk(r, Root)
  {
    forall e | e in Walk(o, Root) ensures e in Walk(r, Root) {
      assert e.file in Contents(o, e.folder);
    }
  }

  /**
   Closed form of the archive names after the run: exactly one new archive
   per complete sample name; every other archive is left as it was.
   */
  lemma {:induction false} RunArchives(o: Output, samples: seq<Sample>)
    ensures Run(o, samples).archives.Keys == o.archives.Keys + ZipNames(samples)
    ensures forall a :: a in o.archives && a !in ZipNames(samples) ==> Run(o, samples).archives[a] == o.archives[a]
    decreases |samples|
  {
    if |samples| == 0 {
      assert ZipNames(samples) == {};
    } else {
      var prev := samples[..|samples| - 1];
      var s := samples[|samples| - 1];
      assert samples == prev + [s];
      RunArchives(o, prev);
      RunArchivesSnoc(o, prev, s);
    }
  }

  /** The archives after one more iteration of the sample loop. */
  lemma StepArchives(o: Output, samples: seq<Sample>, s: Sample, zip: set<string>)
    requires zip == if s.files.Complete() then {ArchiveName(SampleName(s.prefix))} else {}
    ensures Run(o, samples + [s]).archives.Keys == Run(o, samples).archives.Keys + zip
    ensures forall a :: a in Run(o, samples).archives && a !in zip ==>
              Run(o, samples + [s]).archives[a] == Run(o, samples).archives[a]
  {
    RunSnoc(o, samples, s);
  }

  /** Two steps of updates to a map compose: keys accumulate, untouched keys keep their values. */
  lemma ComposeUpdates<K, V>(base: map<K, V>, mid: map<K, V>, next: map<K, V>, first: set<K>, second: set<K>)
    requires mid.Keys == base.Keys + first
    requires forall a :: a in base && a !in first ==> mid[a] == base[a]
    requires next.Keys == mid.Keys + second
    requires forall a :: a in mid && a !in second ==> next[a] == mid[a]
    ensures next.Keys == base.Keys + (first + second)
    ensures forall a :: a in base && a !in first + second ==> next[a] == base[a]
  {
  }

  /** The induction step of `RunArchives`. */
  lemma RunArchivesSnoc(o: Output, samples: seq<Sample>, s: Sample)
    requires Run(o, samples).archives.Keys == o.archives.Keys + ZipNames(samples)
    requires forall a :: a in o.archives && a !in ZipNames(samples) ==> Run(o, samples).archives[a] == o.archives[a]
    ensures Run(o, samples + [s]).archives.Keys == o.archives.Keys + ZipNames(samples + [s])
    ensures forall a :: a in o.archives && a !in ZipNames(samples + [s]) ==> Run(o, samples + [s]).archives[a] == o.archives[a]
  {
    var zip := if s.files.Complete() then {ArchiveName(SampleName(s.prefix))} else {};
    StepArchives(o, samples, s, zip);
    ComposeUpdates(o.archives, Run(o, samples).archives, Run(o, samples + [s]).archives, ZipNames(samples), zip);
    ZipNamesSnoc(samples, s);
  }

  /**
   Every entry of an archive written by the run names a file that is in the
   output at the end of the run.
   */
  lemma {:induction false} RunArchivesWithinOutput(o: Output, samples: seq<Sample>, a: string)
    requires a in ZipNames(samples)
    ensures a in Run(o, samples).archives
    ensures Run(o, samples).archives[a] <= Walk(Run(o, samples), Root)
    decreases |samples|
  {
    var prev := samples[..|samples| - 1];
    var s := samples[|samples| - 1];
    assert samples == prev + [s];
    ZipNamesSnoc(prev, s);
    RunArchives(o, samples);
    var before := Run(o, prev);
    var after := Run(o, samples);
    if s.files.Complete() && a == ArchiveName(SampleName(s.prefix)) {
      WalkWithinRoot(after, SampleName(s.prefix));
    } else {
      RunArchivesWithinOutput(o, prev, a);
      WalkGrows(before, after);
    }
  }

  /**
   After the run, the archive of a complete sample (one whose output name is
   not the root) lists exactly the files of its folder at the end of the run,
   including files of other samples sharing the first nine characters.
   */
  lemma {:induction false} ArchiveMatchesFolder(o: Output, samples: seq<Sample>, s: Sample)
    requires s in samples && s.files.Complete() && SampleName(s.prefix) != Root
    ensures ArchiveName(SampleName(s.prefix)) in Run(o, samples).archives
    ensures Run(o, samples).archives[ArchiveName(SampleName(s.prefix))]
         == Walk(Run(o, samples), SampleName(s.prefix))
    decreases |samples|
  {
    var name := SampleName(s.prefix);
    var prev := samples[..|samples| - 1];
    var last := samples[|samples| - 1];
    assert samples == prev + [last];
    var before := Run(o, prev);
    var after := Run(o, samples);
    if last.files.Complete() && SampleName(last.prefix) == name {
    } else {
      assert s in prev;
      ArchiveMatchesFolder(o, prev, s);
      if last.files.Complete() {
        ZipNameInjective(name, SampleName(last.prefix));
      }
      WalkSameFolder(before, after, name);
    }
  }

  /** The output files a complete sample needs to be present before the loop reaches it. */
  ghost predicate Holds(o: Output, s: Sample) {
    s.files.Complete() ==>
      && SampleName(s.prefix) in o.dirs
      && PairFiles(s.files) <= o.dirs[SampleName(s.prefix)]
      && Root in o.dirs
      && ArchiveName(SampleName(s.prefix)) in o.dirs[Root]
  }

  /** After the run, every complete sample's files and archive are in place. */
  lemma RunHolds(o: Output, samples: seq<Sample>, s: Sample)
    requires s in samples
    ensures Holds(Run(o, samples), s)
  {
    if s.files.Complete() {
      var r := Run(o, samples);
      var name := SampleName(s.prefix);
      RunContents(o, samples, name);
      RunContents(o, samples, Root);
      assert PairFiles(s.files) <= Copied(samples, name);
      assert ArchiveName(name) in ZipNames(samples);
    }
  }

  /** When every complete sample is already in place, the run copies nothing new. */
  lemma {:induction false} RunSettled(t: Output, samples: seq<Sample>)
    requires forall s :: s in samples ==> Holds(t, s)
    ensures Run(t, samples).dirs == t.dirs
    decreases |samples|
  {
    if |samples| > 0 {
      var prev := samples[..|samples| - 1];
      var s := samples[|samples| - 1];
      RunSettled(t, prev);
      assert Holds(t, s);
    }
  }

  /**
   Running the loop a second time over the same items changes neither the
   folders nor the archives, provided no complete sample has an empty prefix
   (such a sample's folder is the root, whose walk also sees later output).
   */
  lemma Rerun(o: Output, samples: seq<Sample>)
    requires forall s :: s in samples && s.files.Complete() ==> s.prefix != ""
    ensures Run(Run(o, samples), samples).dirs == Run(o, samples).dirs
    ensures Run(Run(o, samples), samples).archives == Run(o, samples).archives
  {
    var t := Run(o, samples);
    var u := Run(t, samples);
    forall s | s in samples ensures Holds(t, s) {
      RunHolds(o, samples, s);
    }
    RunSettled(t, samples);
    RunArchives(o, samples);
    RunArchives(t, samples);
    forall a | a in u.archives ensures u.archives[a] == t.archives[a] {
      if a in ZipNames(samples) {
        var s :| s in samples && s.files.Complete() && a == ArchiveName(SampleName(s.prefix));
        ArchiveMatchesFolder(o, samples, s);
        ArchiveMatchesFolder(t, samples, s);
        WalkSameFolder(t, u, SampleName(s.prefix));
      }
    }
  }

  // ---------------------------------------------------------------------------
  // Properties of the whole procedure on a source listing

  /** `name` is one of the two files of a pair whose output name is `folder`, both found by the scan. */
  predicate PairedIn(listing: seq<string>, name: string, folder: string) {
    match Classify(name)
    case None => false
    case Some(tag) =>
      && Found(listing, tag.prefix + SuffixR1)
      && Found(listing, tag.prefix + SuffixR2)
      && SampleName(tag.prefix) == folder
  }

  /** Every item of the discovered table is a prefix with its discovered group. */
  lemma ItemsOfDiscover(listing: seq<string>, s: Sample)
    requires s in Items(Discover(listing))
    ensures s.prefix in Discover(listing).groups
    ensures s.files == Discover(listing).groups[s.prefix]
  {
    var items := Items(Discover(listing));
    var i :| 0 <= i < |items| && items[i] == s;
  }

  /** Only paired names are copied by the items of a discovered table. */
  lemma CopiedOnlyPairs(listing: seq<string>, name: string, folder: string)
    requires name in Copied(Items(Discover(listing)), folder)
    ensures PairedIn(listing, name, folder)
  {
    var s :| s in Items(Discover(listing)) && SampleName(s.prefix) == folder && name in PairFiles(s.files);
    var p := s.prefix;
    assert s.files == Group(Some(p + SuffixR1), Some(p + SuffixR2))
        && Found(listing, p + SuffixR1) && Found(listing, p + SuffixR2) by {
      ItemsOfDiscover(listing, s);
    }
    var role := if name == p + SuffixR1 then R1 else R2;
    assert name == p + Suffix(role);
    PairedInSuffixed(listing, p, role, folder);
  }

  /** Either name of a pair found in the listing is paired into the pair's folder. */
  lemma PairedInSuffixed(listing: seq<string>, p: string, role: Role, folder: string)
    requires Found(listing, p + SuffixR1) && Found(listing, p + SuffixR2) && SampleName(p) == folder
    ensures PairedIn(listing, p + Suffix(role), folder)
  {
    ClassifySuffixed(p, role);
  }

  /** Every paired name is copied by the items of a discovered table. */
  lemma PairsCopied(listing: seq<string>, name: string, folder: string)
    requires PairedIn(listing, name, folder)
    ensures name in Copied(Items(Discover(listing)), folder)
  {
    var t := Discover(listing);
    var items := Items(t);
    var tag := Classify(name).value;
    var p := tag.prefix;
    assert p in t.groups;
    var s := Sample(p, t.groups[p]);
    assert s in items;
    assert s.files == Group(Some(p + SuffixR1), Some(p + SuffixR2));
    assert name == p + Suffix(tag.role);
    assert name in PairFiles(s.files);
  }

  /** `folder` is the output name of a prefix both of whose files are found by the scan. */
  ghost predicate PairFolder(listing: seq<string>, folder: string) {
    exists p :: Found(listing, p + SuffixR1) && Found(listing, p + SuffixR2) && SampleName(p) == folder
  }

  /** The complete items of a discovered table name exactly the folders of the found pairs. */
  lemma DiscoveredFolders(listing: seq<string>, folder: string)
    ensures folder in SampleFolders(Items(Discover(listing))) <==> PairFolder(listing, folder)
  {
    var t := Discover(listing);
    var items := Items(t);
    if folder in SampleFolders(items) {
      var s :| s in items && s.files.Complete() && SampleName(s.prefix) == folder;
      assert Found(listing, s.prefix + SuffixR1) && Found(listing, s.prefix + SuffixR2) by {
        ItemsOfDiscover(listing, s);
      }
    }
    if PairFolder(listing, folder) {
      var p :| Found(listing, p + SuffixR1) && Found(listing, p + SuffixR2) && SampleName(p) == folder;
      assert p in t.groups;
      var s := Sample(p, t.groups[p]);
      assert s in items;
      assert s.files.Complete();
    }
  }

  /**
   The folders after the whole procedure: the ones that existed before, the
   output root, and exactly one folder per output name of a found pair.
   */
  lemma ProcessFolders(listing: seq<string>, init: Output, folder: string)
    ensures folder in Process(listing, init).dirs
        <==> folder in init.dirs || folder == Root || PairFolder(listing, folder)
  {
    var start := AddFiles(init, Root, {});
    var items := Items(Discover(listing));
    RunFolders(start, items);
    DiscoveredFolders(listing, folder);
  }

  /**
   A sequencing file ends up in an output folder exactly when it was there
   already or it belongs to a complete pair with that output name. In
   particular a name with neither pairing suffix, a hidden name, or one half
   of an incomplete pair is never copied.
   */
  lemma ProcessCopies(listing: seq<string>, init: Output, name: string, folder: string)
    requires EndsWith(name, FastqExtension)
    ensures name in Contents(Process(listing, init), folder)
        <==> name in Contents(init, folder) || PairedIn(listing, name, folder)
  {
    var start := AddFiles(init, Root, {});
    var items := Items(Discover(listing));
    RunContents(start, items, folder);
    if name in Copied(items, folder) {
      CopiedOnlyPairs(listing, name, folder);
    }
    if PairedIn(listing, name, folder) {
      PairsCopied(listing, name, folder);
    }
    if name in ZipNames(items) {
      var s :| s in items && s.files.Complete() && name == ArchiveName(SampleName(s.prefix));
      ListedIsNotArchive(name, SampleName(s.prefix));
    }
  }

  /**
   A file a new archive lists is in the output at the end of the run; so a
   sequencing file is archived by the run only if it was already in the
   output folder or belongs to a complete pair.
   */
  lemma ProcessArchives(listing: seq<string>, init: Output, a: string, e: RelPath)
    requires a in Process(listing, init).archives && e in Process(listing, init).archives[a]
    requires EndsWith(e.file, FastqExtension)
    ensures || (a in init.archives && Process(listing, init).archives[a] == init.archives[a])
            || e.file in Contents(init, e.folder)
            || PairedIn(listing, e.file, e.folder)
  {
    var start := AddFiles(init, Root, {});
    var items := Items(Discover(listing));
    RunArchives(start, items);
    if a in ZipNames(items) {
      RunArchivesWithinOutput(start, items, a);
      ProcessCopies(listing, init, e.file, e.folder);
    }
  }

  /**
   A pair found by the scan, with a non-empty prefix, lands in the folder
   named by the first nine characters of its prefix, and the archive of that
   name lists exactly that folder's files, each entry named "folder/file".
   */
  lemma PairedSampleArchived(listing: seq<string>, init: Output, p: string)
    requires Found(listing, p + SuffixR1) && Found(listing, p + SuffixR2) && p != ""
    ensures var o := Process(listing, init);
            var name := SampleName(p);
            && {p + SuffixR1, p + SuffixR2} <= Contents(o, name)
            && ArchiveName(name) in o.archives
            && o.archives[ArchiveName(name)] == Walk(o, name)
            && RelPath(name, p + SuffixR1) in o.archives[ArchiveName(name)]
            && RelPath(name, p + SuffixR2) in o.archives[ArchiveName(name)]
            && ArcName(RelPath(name, p + SuffixR1)) == name + "/" + (p + SuffixR1)
  {
    var items := Items(Discover(listing));
    var s := Sample(p, Group(Some(p + SuffixR1), Some(p + SuffixR2)));
    assert s in items by {
      var t := Discover(listing);
      assert p in t.groups && t.groups[p] == s.files;
    }
    CompletePairArchived(AddFiles(init, Root, {}), items, s);
  }

  /** A complete sample of the loop has its pair in its folder and in its folder's archive. */
  lemma CompletePairArchived(o: Output, samples: seq<Sample>, s: Sample)
    requires s in samples && s.files.Complete() && SampleName(s.prefix) != Root
    ensures var r := Run(o, samples);
            var name := SampleName(s.prefix);
            && PairFiles(s.files) <= Contents(r, name)
            && ArchiveName(name) in r.archives
            && r.archives[ArchiveName(name)] == Walk(r, name)
            && RelPath(name, s.files.r1.value) in r.archives[ArchiveName(name)]
            && RelPath(name, s.files.r2.value) in r.archives[ArchiveName(name)]
  {
    var name := SampleName(s.prefix);
    assert PairFiles(s.files) <= Contents(Run(o, samples), name) by {
      RunContents(o, samples, name);
      assert PairFiles(s.files) <= Copied(samples, name);
    }
    ArchiveMatchesFolder(o, samples, s);
  }

  /** A prefix with only one of its two files found is reported as skipped under its output name. */
  lemma UnpairedSampleWarned(listing: seq<string>, init: Output, p: string)
    requires Found(listing, p + SuffixR1) != Found(listing, p + SuffixR2)
    ensures Skipped(SampleName(p)) in Process(listing, init).log
  {
    var start := AddFiles(init, Root, {});
    var t := Discover(listing);
    var items := Items(t);
    var s := Sample(p, t.groups[p]);
    assert s in items;
    var i :| 0 <= i < |items| && items[i] == s;
    RunLog(start, items);
    assert Process(listing, init).log[|start.log| + i] == Skipped(SampleName(p));
  }

  /** A complete sample of a listing has a non-empty prefix unless both bare suffix files are listed. */
  lemma CompleteHasPrefix(listing: seq<string>, s: Sample)
    requires !(Found(listing, SuffixR1) && Found(listing, SuffixR2))
    requires s in Items(Discover(listing)) && s.files.Complete()
    ensures s.prefix != ""
  {
    assert Found(listing, s.prefix + SuffixR1) && Found(listing, s.prefix + SuffixR2) by {
      ItemsOfDiscover(listing, s);
    }
    EmptyPrefix(SuffixR1);
    EmptyPrefix(SuffixR2);
  }

  /** `Rerun`, with the root folder created before each of the two runs. */
  lemma RerunFromStart(init: Output, samples: seq<Sample>)
    requires forall s :: s in samples && s.files.Complete() ==> s.prefix != ""
    ensures var once := Run(AddFiles(init, Root, {}), samples);
            && Run(AddFiles(once, Root, {}), samples).dirs == once.dirs
            && Run(AddFiles(once, Root, {}), samples).archives == once.archives
  {
    var start := AddFiles(init, Root, {});
    var once := Run(start, samples);
    Rerun(start, samples);
    RunFolders(start, samples);
    assert AddFiles(once, Root, {}) == once;
  }

  /**
   Running the whole procedure a second time on the same listing, over the
   output of the first run, leaves folders and archives as they were,
   unless the two bare suffix files form a pair of the empty prefix.
   */
  lemma ProcessRerun(listing: seq<string>, init: Output)
    requires !(Found(listing, SuffixR1) && Found(listing, SuffixR2))
    ensures Process(listing, Process(listing, init)).dirs == Process(listing, init).dirs
    ensures Process(listing, Process(listing, init)).archives == Process(listing, init).archives
  {
    var items := Items(Discover(listing));
    forall s | s in items && s.files.Complete() ensures s.prefix != "" {
      CompleteHasPrefix(listing, s);
    }
    RerunFromStart(init, items);
  }

  /**
   The archive names after the whole procedure: the ones that existed
   before, and exactly one per output name of a found pair.
   */
  lemma ProcessArchiveNames(listing: seq<string>, init: Output, a: string)
    ensures a in Process(listing, init).archives
        <==> a in init.archives || exists f :: PairFolder(listing, f) && a == ArchiveName(f)
  {
    var start := AddFiles(init, Root, {});
    var items := Items(Discover(listing));
    RunArchives(start, items);
    if a in ZipNames(items) {
      var s :| s in items && s.files.Complete() && a == ArchiveName(SampleName(s.prefix));
      var f := SampleName(s.prefix);
      assert f in SampleFolders(items);
      DiscoveredFolders(listing, f);
    }
    if exists f :: PairFolder(listing, f) && a == ArchiveName(f) {
      var f :| PairFolder(listing, f) && a == ArchiveName(f);
      DiscoveredFolders(listing, f);
      var s :| s in items && s.files.Complete() && SampleName(s.prefix) == f;
      assert a in ZipNames(items);
    }
  }

  /**
   A source directory with nothing to list (missing, unreadable or empty):
   the scan finds nothing, so the run only creates the output root.
   */
  lemma ProcessEmptyListing(init: Output)
    ensures Process([], init) == init.(dirs := init.dirs[Root := Contents(init, Root)])
  {
    var start := AddFiles(init, Root, {});
    assert Items(Discover([])) == [] by {
      assert Glob([]) == [];
      assert Discover([]) == EmptyTable;
    }
    assert Process([], init) == start;
    assert Contents(init, Root) + {} == Contents(init, Root);
  }
}
