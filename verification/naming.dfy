/**
 Naming rules of the sample packager: which file names the source directory
 listing picks up, how a file name is split into a sample prefix and a read
 role, and how a sample prefix becomes a folder and archive name.
 */
module Naming {
  import opened Wrappers

  /** The two members of a read pair. */
  datatype Role = R1 | R2

  /** Extension matched by the directory scan ("*.fastq.gz"). */
  const FastqExtension: string := ".fastq.gz"
  /** Suffix marking the first file of a pair. */
  const SuffixR1: string := "_R1_001.fastq.gz"
  /** Suffix marking the second file of a pair. */
  const SuffixR2: string := "_R2_001.fastq.gz"
  /** Extension of the per-sample archive. */
  const ZipExtension: string := ".zip"
  /** Output names keep at most this many leading characters of the sample prefix. */
  const SampleNameLength: nat := 9

  function Suffix(role: Role): string {
    match role
    case R1 => SuffixR1
    case R2 => SuffixR2
  }

  predicate EndsWith(s: string, suffix: string) {
    |suffix| <= |s| && s[|s| - |suffix|..] == suffix
  }

  /**
   A name matched by the pattern "*.fastq.gz" of the directory scan. The
   leading wildcard does not match names that start with a dot (hidden files).
   */
  predicate Listed(name: string) {
    EndsWith(name, FastqExtension) && name[0] != '.'
  }

  /** A file name recognised as one member of a pair of a sample. */
  datatype Tagged = Tagged(role: Role, prefix: string)

  /**
   Classifies a base name by its pairing suffix: the first suffix is tried
   first, then the second; the prefix is what is left once the suffix is cut
   off. A name with neither suffix is not part of any sample.
   */
  function Classify(basename: string): (r: Option<Tagged>)
    ensures r.Some? ==> r.value.prefix + Suffix(r.value.role) == basename
    ensures (r.Some? && r.value.role == R1) <==> EndsWith(basename, SuffixR1)
    ensures (r.Some? && r.value.role == R2) <==> EndsWith(basename, SuffixR2)
  {
    if EndsWith(basename, SuffixR1) then
      var prefix := basename[..|basename| - |SuffixR1|];
      assert prefix + SuffixR1 == basename;
      Some(Tagged(R1, prefix))
    else if EndsWith(basename, SuffixR2) then
      var prefix := basename[..|basename| - |SuffixR2|];
      assert prefix + SuffixR2 == basename;
      Some(Tagged(R2, prefix))
    else
      None
  }

  /** No name carries both pairing suffixes. */
  lemma SuffixesExclusive(s: string)
    ensures !(EndsWith(s, SuffixR1) && EndsWith(s, SuffixR2))
  {
  }

  /** The empty prefix adds nothing to a name. */
  lemma EmptyPrefix(suffix: string)
    ensures "" + suffix == suffix
  {
  }

  /**
   Appending a pairing suffix to any prefix gives a name that is classified
   back to exactly that role and prefix.
   */
  lemma ClassifySuffixed(prefix: string, role: Role)
    ensures Classify(prefix + Suffix(role)) == Some(Tagged(role, prefix))
  {
    var name := prefix + Suffix(role);
    assert name[|name| - |Suffix(role)|..] == Suffix(role);
    assert name[..|name| - |Suffix(role)|] == prefix;
    SuffixesExclusive(name);
  }

  /**
   The output name of a sample: the prefix cut to its first nine characters,
   or the whole prefix when it is shorter.
   */
  function SampleName(prefix: string): (r: string)
    ensures |r| <= SampleNameLength
    ensures r <= prefix
    ensures |prefix| <= SampleNameLength ==> r == prefix
    ensures |prefix| >= SampleNameLength ==> |r| == SampleNameLength
  {
    if |prefix| <= SampleNameLength then prefix else prefix[..SampleNameLength]
  }

  /**
   Two prefixes share an output name exactly when they are equal or both
   have at least nine characters and agree on the first nine.
   */
  lemma SampleNamesCollide(p: string, q: string)
    ensures SampleName(p) == SampleName(q)
        <==> p == q || (|p| >= SampleNameLength && |q| >= SampleNameLength && p[..SampleNameLength] == q[..SampleNameLength])
  {
  }

  /** Folder and archive stem `n` and archive name `n + ".zip"` determine each other. */
  lemma ZipNameInjective(a: string, b: string)
    ensures a + ZipExtension == b + ZipExtension <==> a == b
  {
    if a + ZipExtension == b + ZipExtension {
      assert a == (a + ZipExtension)[..|a|];
      assert b == (b + ZipExtension)[..|b|];
    }
  }

  /** An archive name never passes the directory scan. */
  lemma ListedIsNotArchive(name: string, stem: string)
    requires EndsWith(name, FastqExtension)
    ensures name != stem + ZipExtension
  {
    assert name[|name| - 1] == FastqExtension[|FastqExtension| - 1] == 'z';
    var zip := stem + ZipExtension;
    assert zip[|zip| - 1] == ZipExtension[|ZipExtension| - 1] == 'p';
  }
}
