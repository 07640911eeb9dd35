/**
 Discovery and grouping: the scan of the source directory and the loop that
 files every recognised name under its sample prefix (file_processer.py,
 lines 17-27).
 */
module Grouping {
  import opened Wrappers
  import opened Naming

  /** The files recorded for one sample prefix, at most one per role. */
  datatype Group = Group(r1: Option<string>, r2: Option<string>) {

    /** Both members of the pair were found. */
    predicate Complete() {
      r1.Some? && r2.Some?
    }

    function Get(role: Role): Option<string> {
      match role
      case R1 => r1
      case R2 => r2
    }
  }

  /** The group a prefix starts with before any file is recorded for it. */
  const NoFiles: Group := Group(None, None)

  /** One item of the table, in iteration order. */
  datatype Sample = Sample(prefix: string, files: Group)

  /**
   The table of samples: a dictionary keyed by the untruncated prefix that
   iterates in first-insertion order.
   */
  datatype SampleTable = SampleTable(order: seq<string>, groups: map<string, Group>)

  /** Every key is listed exactly once in the iteration order. */
  ghost predicate Valid(t: SampleTable) {
    && (forall i, j :: 0 <= i < j < |t.order| ==> t.order[i] != t.order[j])
    && (forall p :: p in t.groups <==> p in t.order)
  }

  const EmptyTable: SampleTable := SampleTable([], map[])

  /** Stores `file` in the slot `role` of `g`, replacing what was there. */
  function Assign(g: Group, role: Role, file: string): (r: Group)
    ensures r.Get(role) == Some(file)
    ensures forall other: Role :: other != role ==> r.Get(other) == g.Get(other)
  {
    match role
    case R1 => g.(r1 := Some(file))
    case R2 => g.(r2 := Some(file))
  }

  /**
   `samples.setdefault(prefix, {})[role] = file`: a new prefix is appended
   to the iteration order with an empty group; an existing one keeps its
   place and only the one slot changes.
   */
  function SetDefaultAssign(t: SampleTable, prefix: string, role: Role, file: string): (r: SampleTable)
    ensures Valid(t) ==> Valid(r)
    ensures t.order <= r.order
    ensures r.groups.Keys == t.groups.Keys + {prefix}
    ensures r.groups[prefix].Get(role) == Some(file)
    ensures forall other: Role :: other != role ==>
              r.groups[prefix].Get(other) == (if prefix in t.groups then t.groups[prefix].Get(other) else None)
    ensures forall q :: q in t.groups && q != prefix ==> r.groups[q] == t.groups[q]
  {
    var g := if prefix in t.groups then t.groups[prefix] else NoFiles;
    var order := if prefix in t.groups then t.order else t.order + [prefix];
    SampleTable(order, t.groups[prefix := Assign(g, role, file)])
  }

  /** One iteration of the grouping loop: names without a pairing suffix are dropped. */
  function Record(t: SampleTable, name: string): SampleTable {
    match Classify(name)
    case None => t
    case Some(tag) => SetDefaultAssign(t, tag.prefix, tag.role, name)
  }

  /** The grouping loop over the scanned names, in scan order. */
  function GroupAll(names: seq<string>): SampleTable
    decreases |names|
  {
    if |names| == 0 then EmptyTable
    else Record(GroupAll(names[..|names| - 1]), names[|names| - 1])
  }

  /** The slot for `name`: filled exactly when `name` was scanned. */
  function SlotFor(names: seq<string>, name: string): Option<string> {
    if name in names then Some(name) else None
  }

  /**
   Reference description of the grouping result: the group of prefix `p`
   holds `p + "_R1_001.fastq.gz"` and `p + "_R2_001.fastq.gz"` when, and only
   when, those names were scanned.
   */
  function Expected(names: seq<string>, p: string): Group {
    Group(SlotFor(names, p + SuffixR1), SlotFor(names, p + SuffixR2))
  }

  /**
   The grouping loop computes the reference description: a prefix is a key
   exactly when one of its two names was scanned, and its group holds exactly
   the scanned names of that prefix.
   */
  lemma {:induction false} GroupAllSpec(names: seq<string>)
    ensures Valid(GroupAll(names))
    ensures forall p :: p in GroupAll(names).groups <==> (p + SuffixR1 in names || p + SuffixR2 in names)
    ensures forall p :: p in GroupAll(names).groups ==> GroupAll(names).groups[p] == Expected(names, p)
  {
    if |names| > 0 {
      var init := names[..|names| - 1];
      var last := names[|names| - 1];
      assert names == init + [last];
      GroupAllSpec(init);
      var t := GroupAll(init);
      var r := GroupAll(names);
      assert r == Record(t, last);
      forall p
        ensures p in r.groups <==> (p + SuffixR1 in names || p + SuffixR2 in names)
        ensures p in r.groups ==> r.groups[p] == Expected(names, p)
      {
        ClassifySuffixed(p, R1);
        ClassifySuffixed(p, R2);
        match Classify(last)
        case None =>
          assert p + SuffixR1 != last && p + SuffixR2 != last;
        case Some(tag) =>
          if tag.prefix == p {
            assert last == p + Suffix(tag.role);
            var g := r.groups[p];
            assert g.Get(R1) == Expected(names, p).Get(R1);
            assert g.Get(R2) == Expected(names, p).Get(R2);
          } else {
            ClassifySuffixed(tag.prefix, tag.role);
            assert p + SuffixR1 != last && p + SuffixR2 != last;
          }
      }
    }
  }

  /**
   Keys keep their place: scanning more names only appends new prefixes to
   the iteration order.
   */
  lemma {:induction false} GroupAllExtends(names: seq<string>, more: seq<string>)
    ensures GroupAll(names).order <= GroupAll(names + more).order
    decreases |more|
  {
    if |more| == 0 {
      assert names + more == names;
    } else {
      var all := names + more;
      GroupAllExtends(names, more[..|more| - 1]);
      assert all[..|all| - 1] == names + more[..|more| - 1];
    }
  }

  /** The scan of the source directory: the names matching "*.fastq.gz", in listing order. */
  function Glob(listing: seq<string>): (r: seq<string>)
    ensures forall name :: name in r <==> name in listing && Listed(name)
    decreases |listing|
  {
    if |listing| == 0 then []
    else
      var last := listing[|listing| - 1];
      assert listing == listing[..|listing| - 1] + [last];
      Glob(listing[..|listing| - 1]) + (if Listed(last) then [last] else [])
  }

  /** A listing whose every name matches the pattern passes the scan whole. */
  lemma {:induction false} GlobKeepsListed(listing: seq<string>)
    requires forall name :: name in listing ==> Listed(name)
    ensures Glob(listing) == listing
    decreases |listing|
  {
    if |listing| > 0 {
      var prev := listing[..|listing| - 1];
      assert listing == prev + [listing[|listing| - 1]];
      GlobKeepsListed(prev);
    }
  }

  /** The grouping loop takes one more step for one more name. */
  lemma GroupAllSnoc(names: seq<string>, name: string)
    ensures GroupAll(names + [name]) == Record(GroupAll(names), name)
  {
    assert (names + [name])[..|names|] == names;
  }

  /** A name made of a prefix and a pairing suffix is filed under that prefix and role. */
  lemma RecordSuffixed(t: SampleTable, prefix: string, role: Role)
    ensures Record(t, prefix + Suffix(role)) == SetDefaultAssign(t, prefix, role, prefix + Suffix(role))
  {
    ClassifySuffixed(prefix, role);
  }

  /** A name of the listing that the scan picks up. */
  predicate Found(listing: seq<string>, name: string) {
    name in listing && Listed(name)
  }

  /**
   Discovery and grouping of a directory listing: every key has one of its
   two pair names in the listing, and its group holds exactly those of its
   pair names that the scan picked up. Names without a pairing suffix, and
   hidden names, appear in no group.
   */
  function Discover(listing: seq<string>): (t: SampleTable)
    ensures Valid(t)
    ensures forall p :: p in t.groups <==> Found(listing, p + SuffixR1) || Found(listing, p + SuffixR2)
    ensures forall p :: p in t.groups ==>
              t.groups[p] == Group(if Found(listing, p + SuffixR1) then Some(p + SuffixR1) else None,
                                   if Found(listing, p + SuffixR2) then Some(p + SuffixR2) else None)
  {
    GroupAllSpec(Glob(listing));
    GroupAll(Glob(listing))
  }

  /** `samples.items()`: the groups in iteration order. */
  function Items(t: SampleTable): (r: seq<Sample>)
    requires Valid(t)
    ensures |r| == |t.order|
    ensures forall i :: 0 <= i < |r| ==> r[i] == Sample(t.order[i], t.groups[t.order[i]])
    ensures forall p :: p in t.groups ==> Sample(p, t.groups[p]) in r
  {
    var r := seq(|t.order|, i requires 0 <= i < |t.order| => Sample(t.order[i], t.groups[t.order[i]]));
    assert forall p :: p in t.groups ==> Sample(p, t.groups[p]) in r by {
      forall p | p in t.groups ensures Sample(p, t.groups[p]) in r {
        var i :| 0 <= i < |t.order| && t.order[i] == p;
        assert r[i] == Sample(p, t.groups[p]);
      }
    }
    r
  }
}
