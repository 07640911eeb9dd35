/**
 Worked examples of the whole procedure on small listings, starting from an
 empty output directory.
 */
module Scenarios {
  import opened Wrappers
  import opened Naming
  import opened Grouping
  import opened Packager

  /** An output directory that does not exist yet. */
  const Empty: Output := Output(map[], map[], [])

  /** The output directory once the root has been created. */
  const Created: Output := Output(map[Root := {}], map[], [])

  lemma CreateRoot()
    ensures AddFiles(Empty, Root, {}) == Created
  {
    assert Contents(Empty, Root) + {} == {};
  }

  /** Both pair names of a prefix that does not start with a dot pass the scan. */
  lemma PairListed(p: string)
    requires p == "" || p[0] != '.'
    ensures Listed(p + SuffixR1) && Listed(p + SuffixR2)
  {
    if p != "" {
      assert (p + SuffixR1)[0] == p[0];
      assert (p + SuffixR2)[0] == p[0];
    }
    assert (p + SuffixR1)[|p + SuffixR1| - |FastqExtension|..] == FastqExtension;
    assert (p + SuffixR2)[|p + SuffixR2| - |FastqExtension|..] == FastqExtension;
  }

  /** Grouping both files of one prefix, first then second, gives one complete group. */
  lemma GroupPair(p: string)
    ensures GroupAll([p + SuffixR1, p + SuffixR2])
         == SampleTable([p], map[p := Group(Some(p + SuffixR1), Some(p + SuffixR2))])
  {
    var a := p + SuffixR1;
    var b := p + SuffixR2;
    assert GroupAll([a, b]) == Record(SampleTable([p], map[p := Group(Some(a), None)]), b) by {
      GroupLone(p);
      GroupAllSnoc([a], b);
      assert [a] + [b] == [a, b];
    }
    CompleteLone(p);
  }

  /** The second file of a prefix completes the group the first one opened. */
  lemma CompleteLone(p: string)
    ensures Record(SampleTable([p], map[p := Group(Some(p + SuffixR1), None)]), p + SuffixR2)
         == SampleTable([p], map[p := Group(Some(p + SuffixR1), Some(p + SuffixR2))])
  {
    var a := p + SuffixR1;
    var b := p + SuffixR2;
    var t1 := SampleTable([p], map[p := Group(Some(a), None)]);
    RecordSuffixed(t1, p, R2);
    SetDefaultExisting(t1, p, R2, b);
    assert t1.groups[p := Group(Some(a), Some(b))] == map[p := Group(Some(a), Some(b))];
  }

  /** Scanning both files of one prefix, first then second, gives one complete item. */
  lemma DiscoverPair(p: string)
    requires p != "" && p[0] != '.'
    ensures Items(Discover([p + SuffixR1, p + SuffixR2]))
         == [Sample(p, Group(Some(p + SuffixR1), Some(p + SuffixR2)))]
  {
    var a := p + SuffixR1;
    var b := p + SuffixR2;
    assert Discover([a, b]) == GroupAll([a, b]) by {
      PairListed(p);
      DiscoverListed([a, b]);
    }
    GroupPair(p);
    ItemsOfOne(p, Group(Some(a), Some(b)));
  }

  /**
   Processing one complete pair with a non-empty output name in a freshly
   created output directory gives exactly one folder holding the two files
   and one archive listing exactly them.
   */
  lemma FreshPair(p: string, name: string, zip: string)
    requires p != "" && name == SampleName(p) && zip == ArchiveName(name)
    ensures Run(Created, [Sample(p, Group(Some(p + SuffixR1), Some(p + SuffixR2)))])
         == Output(map[Root := {zip}, name := {p + SuffixR1, p + SuffixR2}],
                   map[zip := {RelPath(name, p + SuffixR1), RelPath(name, p + SuffixR2)}],
                   [Processed(name)])
  {
    var a := p + SuffixR1;
    var b := p + SuffixR2;
    var s := Sample(p, Group(Some(a), Some(b)));
    RunOne(Created, s);
    var c := AddFiles(Created, name, {a, b});
    assert Contents(Created, name) + {a, b} == {a, b};
    var st := AddFiles(c, Root, {zip});
    assert Contents(c, Root) + {zip} == {zip};
    assert st.dirs == map[Root := {zip}, name := {a, b}];
    assert Walk(st, name) == {RelPath(name, a), RelPath(name, b)};
  }

  /**
   A listing holding exactly the two files of one prefix (not hidden, and
   not empty), processed into an output directory that does not exist yet.
   */
  lemma PairOnEmpty(p: string)
    requires p != "" && p[0] != '.'
    ensures var a := p + SuffixR1;
            var b := p + SuffixR2;
            var name := SampleName(p);
            var o := Process([a, b], Empty);
            && o.dirs == map[Root := {ArchiveName(name)}, name := {a, b}]
            && o.archives == map[ArchiveName(name) := {RelPath(name, a), RelPath(name, b)}]
            && o.log == [Processed(name)]
  {
    DiscoverPair(p);
    CreateRoot();
    FreshPair(p, SampleName(p), ArchiveName(SampleName(p)));
  }

  /** A single complete pair gives one folder with both files and one archive that reproduces it. */
  lemma SinglePair()
    ensures var o := Process(["S1_R1_001.fastq.gz", "S1_R2_001.fastq.gz"], Empty);
            && o.dirs == map[Root := {"S1.zip"}, "S1" := {"S1_R1_001.fastq.gz", "S1_R2_001.fastq.gz"}]
            && o.archives == map["S1.zip" := {RelPath("S1", "S1_R1_001.fastq.gz"), RelPath("S1", "S1_R2_001.fastq.gz")}]
            && o.log == [Processed("S1")]
  {
    var a := "S1" + SuffixR1;
    var b := "S1" + SuffixR2;
    assert a == "S1_R1_001.fastq.gz" && b == "S1_R2_001.fastq.gz";
    assert ["S1_R1_001.fastq.gz", "S1_R2_001.fastq.gz"] == [a, b];
    assert SampleName("S1") == "S1";
    assert ArchiveName("S1") == "S1.zip";
    PairOnEmpty("S1");
  }

  /** A listing the scan keeps in full is grouped as it stands. */
  lemma DiscoverListed(listing: seq<string>)
    requires forall name :: name in listing ==> Listed(name)
    ensures Discover(listing) == GroupAll(listing)
  {
    GlobKeepsListed(listing);
  }

  /** The items of a one-prefix table. */
  lemma ItemsOfOne(p: string, g: Group)
    ensures Items(SampleTable([p], map[p := g])) == [Sample(p, g)]
  {
    assert Items(SampleTable([p], map[p := g]))[0] == Sample(p, g);
  }

  /** The items of a two-prefix table, in table order. */
  lemma ItemsOfTwo(p: string, q: string, g: Group, h: Group)
    requires p != q
    ensures Items(SampleTable([p, q], map[p := g, q := h])) == [Sample(p, g), Sample(q, h)]
  {
    var items := Items(SampleTable([p, q], map[p := g, q := h]));
    assert items[0] == Sample(p, g);
    assert items[1] == Sample(q, h);
  }

  /** The sample loop over one item. */
  lemma RunOne(o: Output, s: Sample)
    ensures Run(o, [s]) == ProcessSample(o, s)
  {
    RunSnoc(o, [], s);
    assert [] + [s] == [s];
  }

  /** The sample loop over two items. */
  lemma RunTwo(o: Output, s1: Sample, s2: Sample)
    ensures Run(o, [s1, s2]) == ProcessSample(ProcessSample(o, s1), s2)
  {
    RunOne(o, s1);
    RunSnoc(o, [s1], s2);
    assert [s1] + [s2] == [s1, s2];
  }

  /** One grouping step on a prefix already in the table. */
  lemma SetDefaultExisting(t: SampleTable, prefix: string, role: Role, file: string)
    requires prefix in t.groups
    ensures SetDefaultAssign(t, prefix, role, file)
         == SampleTable(t.order, t.groups[prefix := Assign(t.groups[prefix], role, file)])
  {
  }

  /** One grouping step on a prefix not yet in the table. */
  lemma SetDefaultNew(t: SampleTable, prefix: string, role: Role, file: string)
    requires prefix !in t.groups
    ensures SetDefaultAssign(t, prefix, role, file)
         == SampleTable(t.order + [prefix], t.groups[prefix := Assign(NoFiles, role, file)])
  {
  }

  /** Grouping the first file of a prefix alone gives an incomplete group. */
  lemma GroupLone(p: string)
    ensures GroupAll([p + SuffixR1]) == SampleTable([p], map[p := Group(Some(p + SuffixR1), None)])
  {
    var a := p + SuffixR1;
    assert GroupAll([a]) == Record(EmptyTable, a) by {
      GroupAllSnoc([], a);
      assert [] + [a] == [a];
    }
    RecordSuffixed(EmptyTable, p, R1);
    SetDefaultNew(EmptyTable, p, R1, a);
  }

  lemma DiscoverLone(p: string)
    requires p == "" || p[0] != '.'
    ensures Items(Discover([p + SuffixR1])) == [Sample(p, Group(Some(p + SuffixR1), None))]
  {
    var a := p + SuffixR1;
    assert Discover([a]) == GroupAll([a]) by {
      PairListed(p);
      DiscoverListed([a]);
    }
    GroupLone(p);
    ItemsOfOne(p, Group(Some(a), None));
  }

  /** A prefix with only its first file found is warned about and leaves the output untouched. */
  lemma LoneFile(p: string)
    requires p == "" || p[0] != '.'
    ensures Process([p + SuffixR1], Empty) == Output(map[Root := {}], map[], [Skipped(SampleName(p))])
  {
    var s := Sample(p, Group(Some(p + SuffixR1), None));
    assert Process([p + SuffixR1], Empty) == Run(Created, [s]) by {
      DiscoverLone(p);
      CreateRoot();
    }
    RunOne(Created, s);
  }

  /** The single-file example: only "S2_R1_001.fastq.gz" is present. */
  lemma MissingSecondFile()
    ensures Process(["S2_R1_001.fastq.gz"], Empty) == Output(map[Root := {}], map[], [Skipped("S2")])
  {
    assert "S2" + SuffixR1 == "S2_R1_001.fastq.gz";
    assert ["S2_R1_001.fastq.gz"] == ["S2" + SuffixR1];
    assert SampleName("S2") == "S2";
    LoneFile("S2");
  }

  /** Grouping a pair and then the first file of a second prefix. */
  lemma GroupPairThenFirst(p: string, q: string)
    requires p != q
    ensures GroupAll([p + SuffixR1, p + SuffixR2, q + SuffixR1])
         == SampleTable([p, q], map[p := Group(Some(p + SuffixR1), Some(p + SuffixR2)),
                                    q := Group(Some(q + SuffixR1), None)])
  {
    var a, b, c := p + SuffixR1, p + SuffixR2, q + SuffixR1;
    assert GroupAll([a, b, c]) == Record(SampleTable([p], map[p := Group(Some(a), Some(b))]), c) by {
      GroupPair(p);
      GroupAllSnoc([a, b], c);
      assert [a, b] + [c] == [a, b, c];
    }
    OpenSecond(p, q);
  }

  /** The first file of a second prefix opens a second group after the first. */
  lemma OpenSecond(p: string, q: string)
    requires p != q
    ensures Record(SampleTable([p], map[p := Group(Some(p + SuffixR1), Some(p + SuffixR2))]), q + SuffixR1)
         == SampleTable([p, q], map[p := Group(Some(p + SuffixR1), Some(p + SuffixR2)),
                                    q := Group(Some(q + SuffixR1), None)])
  {
    var t2 := SampleTable([p], map[p := Group(Some(p + SuffixR1), Some(p + SuffixR2))]);
    RecordSuffixed(t2, q, R1);
    SetDefaultNew(t2, q, R1, q + SuffixR1);
  }

  /** Grouping the pairs of two prefixes, one after the other. */
  lemma GroupTwoPairs(p: string, q: string)
    requires p != q
    ensures GroupAll([p + SuffixR1, p + SuffixR2, q + SuffixR1, q + SuffixR2])
         == SampleTable([p, q], map[p := Group(Some(p + SuffixR1), Some(p + SuffixR2)),
                                    q := Group(Some(q + SuffixR1), Some(q + SuffixR2))])
  {
    var a, b, c, d := p + SuffixR1, p + SuffixR2, q + SuffixR1, q + SuffixR2;
    var t3 := SampleTable([p, q], map[p := Group(Some(a), Some(b)), q := Group(Some(c), None)]);
    assert GroupAll([a, b, c, d]) == Record(t3, d) by {
      GroupPairThenFirst(p, q);
      GroupAllSnoc([a, b, c], d);
      assert [a, b, c] + [d] == [a, b, c, d];
    }
    CompleteSecond(p, q);
  }

  /** The second file of the second prefix completes its group; the first group is left alone. */
  lemma CompleteSecond(p: string, q: string)
    requires p != q
    ensures Record(SampleTable([p, q], map[p := Group(Some(p + SuffixR1), Some(p + SuffixR2)),
                                           q := Group(Some(q + SuffixR1), None)]), q + SuffixR2)
         == SampleTable([p, q], map[p := Group(Some(p + SuffixR1), Some(p + SuffixR2)),
                                    q := Group(Some(q + SuffixR1), Some(q + SuffixR2))])
  {
    var t3 := SampleTable([p, q], map[p := Group(Some(p + SuffixR1), Some(p + SuffixR2)),
                                      q := Group(Some(q + SuffixR1), None)]);
    RecordSuffixed(t3, q, R2);
    SetDefaultExisting(t3, q, R2, q + SuffixR2);
  }

  /** Scanning the pairs of two prefixes gives two complete items in scan order. */
  lemma DiscoverTwoPairs(p: string, q: string)
    requires p != q
    requires p == "" || p[0] != '.'
    requires q == "" || q[0] != '.'
    ensures Items(Discover([p + SuffixR1, p + SuffixR2, q + SuffixR1, q + SuffixR2]))
         == [Sample(p, Group(Some(p + SuffixR1), Some(p + SuffixR2))),
             Sample(q, Group(Some(q + SuffixR1), Some(q + SuffixR2)))]
  {
    var a, b, c, d := p + SuffixR1, p + SuffixR2, q + SuffixR1, q + SuffixR2;
    assert Discover([a, b, c, d]) == GroupAll([a, b, c, d]) by {
      PairListed(p);
      PairListed(q);
      DiscoverListed([a, b, c, d]);
    }
    GroupTwoPairs(p, q);
    ItemsOfTwo(p, q, Group(Some(a), Some(b)), Group(Some(c), Some(d)));
  }

  /**
   The sample loop over two complete pairs that share output name `name`:
   the second pair is copied next to the first and the archive is rewritten
   with all four files.
   */
  lemma RunColliding(p: string, q: string, name: string, zip: string)
    requires p != "" && name == SampleName(p) == SampleName(q) && zip == ArchiveName(name)
    ensures var sp := Sample(p, Group(Some(p + SuffixR1), Some(p + SuffixR2)));
            var sq := Sample(q, Group(Some(q + SuffixR1), Some(q + SuffixR2)));
            var o := Run(Created, [sp, sq]);
            && o.dirs == map[Root := {zip}, name := {p + SuffixR1, p + SuffixR2, q + SuffixR1, q + SuffixR2}]
            && o.archives == map[zip := {RelPath(name, p + SuffixR1), RelPath(name, p + SuffixR2),
                                         RelPath(name, q + SuffixR1), RelPath(name, q + SuffixR2)}]
            && o.log == [Processed(name), Processed(name)]
  {
    var sp := Sample(p, Group(Some(p + SuffixR1), Some(p + SuffixR2)));
    var sq := Sample(q, Group(Some(q + SuffixR1), Some(q + SuffixR2)));
    var first := Output(map[Root := {zip}, name := {p + SuffixR1, p + SuffixR2}],
                        map[zip := {RelPath(name, p + SuffixR1), RelPath(name, p + SuffixR2)}],
                        [Processed(name)]);
    assert Run(Created, [sp, sq]) == ProcessSample(first, sq) by {
      FreshPair(p, name, zip);
      RunOne(Created, sp);
      RunTwo(Created, sp, sq);
    }
    CollidingStep(p, q, name, zip);
  }

  /** The second step of `RunColliding`: the pair of `q` lands in the folder of `p`'s pair. */
  lemma CollidingStep(p: string, q: string, name: string, zip: string)
    requires name == SampleName(q) && zip == ArchiveName(name) && name != Root
    ensures var first := Output(map[Root := {zip}, name := {p + SuffixR1, p + SuffixR2}],
                                map[zip := {RelPath(name, p + SuffixR1), RelPath(name, p + SuffixR2)}],
                                [Processed(name)]);
            var o := ProcessSample(first, Sample(q, Group(Some(q + SuffixR1), Some(q + SuffixR2))));
            && o.dirs == map[Root := {zip}, name := {p + SuffixR1, p + SuffixR2, q + SuffixR1, q + SuffixR2}]
            && o.archives == map[zip := {RelPath(name, p + SuffixR1), RelPath(name, p + SuffixR2),
                                         RelPath(name, q + SuffixR1), RelPath(name, q + SuffixR2)}]
            && o.log == [Processed(name), Processed(name)]
  {
    var a, b, c, d := p + SuffixR1, p + SuffixR2, q + SuffixR1, q + SuffixR2;
    var first := Output(map[Root := {zip}, name := {a, b}], map[zip := {RelPath(name, a), RelPath(name, b)}], [Processed(name)]);
    var copied := AddFiles(first, name, {c, d});
    assert Contents(first, name) + {c, d} == {a, b, c, d};
    var st := AddFiles(copied, Root, {zip});
    assert Contents(copied, Root) + {zip} == {zip};
    assert st.dirs == map[Root := {zip}, name := {a, b, c, d}];
    assert Walk(st, name) == {RelPath(name, a), RelPath(name, b), RelPath(name, c), RelPath(name, d)};
  }

  /**
   Two distinct prefixes that agree on their first nine characters share one
   folder: the second pair is copied next to the first, and the archive is
   rewritten so that it ends up listing all four files.
   */
  lemma CollidingPairs(p: string, q: string)
    requires p != q && SampleName(p) == SampleName(q) && p != ""
    requires p[0] != '.'
    ensures var name := SampleName(p);
            var zip := ArchiveName(name);
            var o := Process([p + SuffixR1, p + SuffixR2, q + SuffixR1, q + SuffixR2], Empty);
            && o.dirs == map[Root := {zip}, name := {p + SuffixR1, p + SuffixR2, q + SuffixR1, q + SuffixR2}]
            && o.archives == map[zip := {RelPath(name, p + SuffixR1), RelPath(name, p + SuffixR2),
                                         RelPath(name, q + SuffixR1), RelPath(name, q + SuffixR2)}]
            && o.log == [Processed(name), Processed(name)]
  {
    var name := SampleName(p);
    assert q != "" && q[0] == name[0] == p[0];
    DiscoverTwoPairs(p, q);
    CreateRoot();
    RunColliding(p, q, name, ArchiveName(name));
  }

  /** Before the second of two colliding samples is processed, their archive lists the first pair only. */
  lemma CollidingFirstArchive(p: string, q: string)
    requires p != q && SampleName(p) == SampleName(q) && p != ""
    requires p[0] != '.'
    ensures var name := SampleName(p);
            var items := Items(Discover([p + SuffixR1, p + SuffixR2, q + SuffixR1, q + SuffixR2]));
            && |items| == 2
            && Run(Created, items[..1]).archives
            == map[ArchiveName(name) := {RelPath(name, p + SuffixR1), RelPath(name, p + SuffixR2)}]
  {
    var name := SampleName(p);
    assert q != "" && q[0] == name[0] == p[0];
    DiscoverTwoPairs(p, q);
    var sp := Sample(p, Group(Some(p + SuffixR1), Some(p + SuffixR2)));
    var sq := Sample(q, Group(Some(q + SuffixR1), Some(q + SuffixR2)));
    assert [sp, sq][..1] == [sp];
    FreshPair(p, name, ArchiveName(name));
  }

  /** Proof helper for `CollidingExample`: its output and archive names, evaluated. */
  lemma CollidingExampleNames()
    ensures SampleName("ABCDEFGHIJ") == "ABCDEFGHI" == SampleName("ABCDEFGHIJXYZ")
    ensures ArchiveName("ABCDEFGHI") == "ABCDEFGHI.zip"
  {
  }

  /** Proof helper for `CollidingExample`: the pair names of its first prefix, evaluated. */
  lemma FirstPrefixSpelled()
    ensures "ABCDEFGHIJ" + SuffixR1 == "ABCDEFGHIJ_R1_001.fastq.gz"
    ensures "ABCDEFGHIJ" + SuffixR2 == "ABCDEFGHIJ_R2_001.fastq.gz"
  {
  }

  /** Proof helper for `CollidingExample`: the pair names of its second prefix, evaluated. */
  lemma SecondPrefixSpelled()
    ensures "ABCDEFGHIJXYZ" + SuffixR1 == "ABCDEFGHIJXYZ_R1_001.fastq.gz"
    ensures "ABCDEFGHIJXYZ" + SuffixR2 == "ABCDEFGHIJXYZ_R2_001.fastq.gz"
  {
  }

  /** Proof helper for `CollidingExample`: its listing, written as the pair names of its two prefixes. */
  lemma CollidingExampleListing()
    ensures ["ABCDEFGHIJ_R1_001.fastq.gz", "ABCDEFGHIJ_R2_001.fastq.gz",
             "ABCDEFGHIJXYZ_R1_001.fastq.gz", "ABCDEFGHIJXYZ_R2_001.fastq.gz"]
         == ["ABCDEFGHIJ" + SuffixR1, "ABCDEFGHIJ" + SuffixR2, "ABCDEFGHIJXYZ" + SuffixR1, "ABCDEFGHIJXYZ" + SuffixR2]
  {
    FirstPrefixSpelled();
    SecondPrefixSpelled();
  }

  /** Proof helper for `CollidingExample`: its files and archive entries, evaluated. */
  lemma CollidingExampleSets()
    ensures {"ABCDEFGHIJ" + SuffixR1, "ABCDEFGHIJ" + SuffixR2, "ABCDEFGHIJXYZ" + SuffixR1, "ABCDEFGHIJXYZ" + SuffixR2}
         == {"ABCDEFGHIJ_R1_001.fastq.gz", "ABCDEFGHIJ_R2_001.fastq.gz",
             "ABCDEFGHIJXYZ_R1_001.fastq.gz", "ABCDEFGHIJXYZ_R2_001.fastq.gz"}
    ensures {RelPath("ABCDEFGHI", "ABCDEFGHIJ" + SuffixR1), RelPath("ABCDEFGHI", "ABCDEFGHIJ" + SuffixR2),
             RelPath("ABCDEFGHI", "ABCDEFGHIJXYZ" + SuffixR1), RelPath("ABCDEFGHI", "ABCDEFGHIJXYZ" + SuffixR2)}
         == {RelPath("ABCDEFGHI", "ABCDEFGHIJ_R1_001.fastq.gz"), RelPath("ABCDEFGHI", "ABCDEFGHIJ_R2_001.fastq.gz"),
             RelPath("ABCDEFGHI", "ABCDEFGHIJXYZ_R1_001.fastq.gz"), RelPath("ABCDEFGHI", "ABCDEFGHIJXYZ_R2_001.fastq.gz")}
  {
    CollidingExampleListing();
  }

  /** The colliding example: "ABCDEFGHIJ" and "ABCDEFGHIJXYZ" both become "ABCDEFGHI". */
  lemma CollidingExample()
    ensures var o := Process(["ABCDEFGHIJ_R1_001.fastq.gz", "ABCDEFGHIJ_R2_001.fastq.gz",
                              "ABCDEFGHIJXYZ_R1_001.fastq.gz", "ABCDEFGHIJXYZ_R2_001.fastq.gz"], Empty);
            && o.dirs == map[Root := {"ABCDEFGHI.zip"},
                             "ABCDEFGHI" := {"ABCDEFGHIJ_R1_001.fastq.gz", "ABCDEFGHIJ_R2_001.fastq.gz",
                                             "ABCDEFGHIJXYZ_R1_001.fastq.gz", "ABCDEFGHIJXYZ_R2_001.fastq.gz"}]
            && o.archives == map["ABCDEFGHI.zip" := {
                 RelPath("ABCDEFGHI", "ABCDEFGHIJ_R1_001.fastq.gz"), RelPath("ABCDEFGHI", "ABCDEFGHIJ_R2_001.fastq.gz"),
                 RelPath("ABCDEFGHI", "ABCDEFGHIJXYZ_R1_001.fastq.gz"), RelPath("ABCDEFGHI", "ABCDEFGHIJXYZ_R2_001.fastq.gz")}]
  {
    CollidingExampleNames();
    CollidingExampleListing();
    CollidingExampleSets();
    CollidingPairs("ABCDEFGHIJ", "ABCDEFGHIJXYZ");
  }

  /**
   Short names for the files of the empty prefix, used by the scenarios
   below: its pair names are the bare suffixes, and its archive is
   `ArchiveName(Root)`, the file ".zip" in the output root.
   */
  const RootR1: string := SuffixR1
  const RootR2: string := SuffixR2
  const RootZip: string := ArchiveName(Root)

  /** Proof helper: the empty prefix's pair, output and archive names, evaluated. */
  lemma RootNames()
    ensures "" + SuffixR1 == RootR1 && "" + SuffixR2 == RootR2
    ensures SampleName("") == Root && ArchiveName(Root) == RootZip
  {
    EmptyPrefix(SuffixR1);
    EmptyPrefix(SuffixR2);
  }

  /** The output after the empty prefix's pair and then the pair of `q`. */
  function AfterRootThenPair(q: string): Output {
    var n := SampleName(q);
    Output(map[Root := {RootR1, RootR2, RootZip, ArchiveName(n)}, n := {q + SuffixR1, q + SuffixR2}],
           map[RootZip := {RelPath(Root, RootR1), RelPath(Root, RootR2), RelPath(Root, RootZip)},
               ArchiveName(n) := {RelPath(n, q + SuffixR1), RelPath(n, q + SuffixR2)}],
           [Processed(Root), Processed(n)])
  }

  /** The entries of ".zip" when the empty prefix is processed first. */
  const RootEntries: set<RelPath> := {RelPath(Root, RootR1), RelPath(Root, RootR2), RelPath(Root, RootZip)}

  /**
   The empty prefix's folder is the output root itself: its pair is copied
   into the root and its archive ".zip" lists every file then in the root,
   the archive itself included.
   */
  lemma RunRootFirst()
    ensures Run(Created, [Sample("", Group(Some(RootR1), Some(RootR2)))])
         == Output(map[Root := {RootR1, RootR2, RootZip}], map[RootZip := RootEntries], [Processed(Root)])
  {
    RootNames();
    var se := Sample("", Group(Some(RootR1), Some(RootR2)));
    RunOne(Created, se);
    var c := AddFiles(Created, Root, {RootR1, RootR2});
    assert Contents(Created, Root) + {RootR1, RootR2} == {RootR1, RootR2};
    var st := AddFiles(c, Root, {RootZip});
    assert Contents(c, Root) + {RootZip} == {RootR1, RootR2, RootZip};
    assert st.dirs == map[Root := {RootR1, RootR2, RootZip}];
    assert Walk(st, Root) == RootEntries by {
      forall e ensures e in Walk(st, Root) <==> e in RootEntries {
        assert e.file in Contents(st, e.folder) <==> (e.folder == Root && e.file in {RootR1, RootR2, RootZip});
      }
    }
  }

  /** A later sample's folder is not in the root's archive: ".zip" was written before it existed. */
  lemma RunRootThenPair(q: string)
    requires q != ""
    ensures Run(Created, [Sample("", Group(Some(RootR1), Some(RootR2))),
                          Sample(q, Group(Some(q + SuffixR1), Some(q + SuffixR2)))])
         == AfterRootThenPair(q)
  {
    var se := Sample("", Group(Some(RootR1), Some(RootR2)));
    var sq := Sample(q, Group(Some(q + SuffixR1), Some(q + SuffixR2)));
    RunTwo(Created, se, sq);
    RunOne(Created, se);
    RunRootFirst();
    PairAfterRoot(q);
  }

  /** The second step of `RunRootThenPair`: the pair of `q` after the empty prefix's pair. */
  lemma PairAfterRoot(q: string)
    requires q != ""
    ensures ProcessSample(Output(map[Root := {RootR1, RootR2, RootZip}], map[RootZip := RootEntries], [Processed(Root)]),
                          Sample(q, Group(Some(q + SuffixR1), Some(q + SuffixR2))))
         == AfterRootThenPair(q)
  {
    RootNames();
    var n := SampleName(q);
    var z := ArchiveName(n);
    var first := Output(map[Root := {RootR1, RootR2, RootZip}], map[RootZip := RootEntries], [Processed(Root)]);
    var c := AddFiles(first, n, {q + SuffixR1, q + SuffixR2});
    assert Contents(first, n) + {q + SuffixR1, q + SuffixR2} == {q + SuffixR1, q + SuffixR2};
    var st := AddFiles(c, Root, {z});
    assert Contents(c, Root) + {z} == {RootR1, RootR2, RootZip, z};
    assert st.dirs == map[Root := {RootR1, RootR2, RootZip, z}, n := {q + SuffixR1, q + SuffixR2}];
    assert Walk(st, n) == {RelPath(n, q + SuffixR1), RelPath(n, q + SuffixR2)};
  }

  /**
   Running the loop again over the same items leaves the folders as they
   are, but rewrites ".zip" from the walk of the whole root, which now also
   finds the other sample's archive and folder.
   */
  lemma RerunRootThenPair(q: string)
    requires q != ""
    ensures var n := SampleName(q);
            var once := AfterRootThenPair(q);
            var twice := Run(once, [Sample("", Group(Some(RootR1), Some(RootR2))),
                                    Sample(q, Group(Some(q + SuffixR1), Some(q + SuffixR2)))]);
            && twice.dirs == once.dirs
            && twice.archives == once.archives[RootZip := {
                 RelPath(Root, RootR1), RelPath(Root, RootR2), RelPath(Root, RootZip), RelPath(Root, ArchiveName(n)),
                 RelPath(n, q + SuffixR1), RelPath(n, q + SuffixR2)}]
  {
    var once := AfterRootThenPair(q);
    var se := Sample("", Group(Some(RootR1), Some(RootR2)));
    var sq := Sample(q, Group(Some(q + SuffixR1), Some(q + SuffixR2)));
    RunTwo(once, se, sq);
    RerunRootStep(q);
    RerunPairStep(q);
  }

  /** Every file of the output after `AfterRootThenPair(q)`, as seen from the root. */
  function AllEntries(q: string): set<RelPath> {
    var n := SampleName(q);
    {RelPath(Root, RootR1), RelPath(Root, RootR2), RelPath(Root, RootZip), RelPath(Root, ArchiveName(n)),
     RelPath(n, q + SuffixR1), RelPath(n, q + SuffixR2)}
  }

  /** Re-running the empty prefix's pair rewrites ".zip" with every file of the output. */
  lemma RerunRootStep(q: string)
    requires q != ""
    ensures var once := AfterRootThenPair(q);
            (ProcessSample(once, Sample("", Group(Some(RootR1), Some(RootR2))))
             == once.(archives := once.archives[RootZip := AllEntries(q)], log := once.log + [Processed(Root)]))
  {
    RootNames();
    var n := SampleName(q);
    var z := ArchiveName(n);
    var once := AfterRootThenPair(q);
    assert AddFiles(once, Root, {RootR1, RootR2}) == once;
    assert AddFiles(once, Root, {RootZip}) == once;
    assert Walk(once, Root) == AllEntries(q) by {
      forall e ensures e in Walk(once, Root) <==> e in AllEntries(q) {
        assert e.file in Contents(once, e.folder) <==>
          ((e.folder == Root && e.file in {RootR1, RootR2, RootZip, z}) ||
           (e.folder == n && e.file in {q + SuffixR1, q + SuffixR2}));
      }
    }
  }

  /** Re-running the pair of `q` after that leaves folders and archives as they are. */
  lemma RerunPairStep(q: string)
    requires q != ""
    ensures var once := AfterRootThenPair(q);
            var mid := once.(archives := once.archives[RootZip := AllEntries(q)], log := once.log + [Processed(Root)]);
            var r := ProcessSample(mid, Sample(q, Group(Some(q + SuffixR1), Some(q + SuffixR2))));
            && r.dirs == mid.dirs
            && r.archives == mid.archives
  {
    RootNames();
    var n := SampleName(q);
    var once := AfterRootThenPair(q);
    var mid := once.(archives := once.archives[RootZip := AllEntries(q)], log := once.log + [Processed(Root)]);
    assert AddFiles(mid, n, {q + SuffixR1, q + SuffixR2}) == mid;
    assert AddFiles(mid, Root, {ArchiveName(n)}) == mid;
    assert Walk(mid, n) == {RelPath(n, q + SuffixR1), RelPath(n, q + SuffixR2)};
  }

  /**
   A listing with the two bare suffix files and a pair of `q`: the first run
   gives the output above, and a second run over it rewrites ".zip" with
   more entries. So a re-run is not a no-op once a complete pair has the
   empty prefix.
   */
  lemma RootSampleRerun(q: string)
    requires q != "" && q[0] != '.'
    ensures var listing := [RootR1, RootR2, q + SuffixR1, q + SuffixR2];
            var once := Process(listing, Empty);
            && once == AfterRootThenPair(q)
            && Process(listing, once).dirs == once.dirs
            && Process(listing, once).archives != once.archives
  {
    var listing := [RootR1, RootR2, q + SuffixR1, q + SuffixR2];
    var items := [Sample("", Group(Some(RootR1), Some(RootR2))), Sample(q, Group(Some(q + SuffixR1), Some(q + SuffixR2)))];
    assert Items(Discover(listing)) == items by {
      RootNames();
      assert listing == ["" + SuffixR1, "" + SuffixR2, q + SuffixR1, q + SuffixR2];
      DiscoverTwoPairs("", q);
    }
    var once := AfterRootThenPair(q);
    assert Process(listing, Empty) == once by {
      CreateRoot();
      RunRootThenPair(q);
    }
    assert Process(listing, once) == Run(once, items) by {
      assert AddFiles(once, Root, {}) == once;
    }
    RerunRootThenPair(q);
    RootArchiveMisses(q);
    assert RelPath(SampleName(q), q + SuffixR1) in Run(once, items).archives[RootZip];
  }

  /** After the first run, ".zip" does not list the files of the later sample's folder. */
  lemma RootArchiveMisses(q: string)
    requires q != ""
    ensures RootZip in AfterRootThenPair(q).archives
    ensures RelPath(SampleName(q), q + SuffixR1) !in AfterRootThenPair(q).archives[RootZip]
  {
    var n := SampleName(q);
    assert n != Root;
    assert ArchiveName(n) != RootZip by {
      assert |ArchiveName(n)| > |RootZip|;
    }
  }

}
