/**
  The cleanup script `scripts/remove_bad_folders.py`: scan every entry of a
  directory, collect the entries that hold at least one `.out` file but no
  `.pdb` and no `.fasta` file, and only then delete the collected entries.
 */
module Cleanup {
  import Polaris
  import Fasta

  /** An entry of the scanned directory: a plain file, or a directory with
      the names inside it. */
  datatype Entry = File(name: string) | Dir(name: string, children: set<string>)

  function HasSuffix(s: string, suffix: string): bool
  {
    |suffix| <= |s| && s[|s| - |suffix|..] == suffix
  }

  /** The names inside an entry; a plain file has none. */
  function Children(e: Entry): set<string>
  {
    match e
    case File(_) => {}
    case Dir(_, children) => children
  }

  /** `len(list(entry.glob("*" + suffix)))`. */
  function CountMatching(e: Entry, suffix: string): nat
  {
    |set c | c in Children(e) && HasSuffix(c, suffix)|
  }

  /** The selection test of the script. */
  predicate IsBad(e: Entry)
  {
    CountMatching(e, ".out") > 0 && CountMatching(e, ".pdb") == 0 && CountMatching(e, ".fasta") == 0
  }

  lemma CountPositive(e: Entry, suffix: string)
    ensures CountMatching(e, suffix) > 0 <==> exists c :: c in Children(e) && HasSuffix(c, suffix)
  {
    var s := set c | c in Children(e) && HasSuffix(c, suffix);
    if c :| c in Children(e) && HasSuffix(c, suffix) {
      assert c in s;
    }
  }

  /** An entry is selected if and only if it is a directory holding some
      `.out` file and no `.pdb` or `.fasta` file. */
  lemma IsBadIff(e: Entry)
    ensures IsBad(e) <==>
      && e.Dir?
      && (exists c :: c in e.children && HasSuffix(c, ".out"))
      && (forall c :: c in e.children ==> !HasSuffix(c, ".pdb") && !HasSuffix(c, ".fasta"))
  {
    CountPositive(e, ".out");
    CountPositive(e, ".pdb");
    CountPositive(e, ".fasta");
  }

  /** An entry holding a `.pdb` file, or holding no `.out` file, is never
      selected; neither is a plain file. */
  lemma NeverSelected(e: Entry)
    requires e.File? || (exists c :: c in Children(e) && HasSuffix(c, ".pdb"))
                     || (forall c :: c in Children(e) ==> !HasSuffix(c, ".out"))
    ensures !IsBad(e)
  {
    CountPositive(e, ".out");
    CountPositive(e, ".pdb");
  }

  /** The selected entries, in scan order. */
  function Select(entries: seq<Entry>): (r: seq<Entry>)
    ensures forall e :: e in r <==> e in entries && IsBad(e)
  {
    if |entries| == 0 then []
    else
      var n := |entries| - 1;
      var before := Select(entries[..n]);
      assert forall e :: e in entries <==> e in entries[..n] || e == entries[n] by {
        assert entries == entries[..n] + [entries[n]];
      }
      if IsBad(entries[n]) then before + [entries[n]] else before
  }

  /** Selection keeps scan order: it distributes over concatenation, so the
      collected list is a subsequence of the listing. */
  lemma {:induction false} SelectAppend(a: seq<Entry>, b: seq<Entry>)
    ensures Select(a + b) == Select(a) + Select(b)
    decreases |b|
  {
    if |b| == 0 {
      assert a + b == a;
    } else {
      var n := |b| - 1;
      assert (a + b)[..|a| + n] == a + b[..n];
      assert (a + b)[|a| + n] == b[n];
      SelectAppend(a, b[..n]);
    }
  }

  /** The entries, in scan order, whose names are not in `names`. */
  function Without(entries: seq<Entry>, names: set<string>): (r: seq<Entry>)
    ensures forall e :: e in r <==> e in entries && e.name !in names
  {
    if |entries| == 0 then []
    else
      var rest := Without(entries[1..], names);
      assert forall e :: e in entries <==> e == entries[0] || e in entries[1..] by {
        assert entries == [entries[0]] + entries[1..];
      }
      if entries[0].name in names then rest else [entries[0]] + rest
  }

  function Names(entries: seq<Entry>): set<string>
  {
    set e | e in entries :: e.name
  }

  /** No two entries of a directory listing share a name. */
  predicate DistinctNames(entries: seq<Entry>)
  {
    forall i, j :: 0 <= i < j < |entries| ==> entries[i].name != entries[j].name
  }

  /** The scan: every entry is visited once, in order, and the selected
      ones are collected; nothing is deleted yet. */
  method CollectBad(entries: seq<Entry>) returns (toDelete: seq<Entry>)
    ensures toDelete == Select(entries)
  {
    toDelete := [];
    var i := 0;
    while i < |entries|
      invariant 0 <= i <= |entries|
      invariant toDelete == Select(entries[..i])
    {
      assert entries[..i + 1][..i] == entries[..i];
      if IsBad(entries[i]) {
        toDelete := toDelete + [entries[i]];
      }
      i := i + 1;
    }
    assert entries[..i] == entries;
  }

  lemma {:induction false} WithoutMore(entries: seq<Entry>, names: set<string>, name: string)
    ensures Without(Without(entries, names), {name}) == Without(entries, names + {name})
    decreases |entries|
  {
    if |entries| > 0 {
      WithoutMore(entries[1..], names, name);
      var rest := Without(entries[1..], names);
      if entries[0].name !in names {
        assert ([entries[0]] + rest)[0] == entries[0];
        assert ([entries[0]] + rest)[1..] == rest;
      }
    }
  }

  /** In a listing with distinct names, removing the names of the selected
      entries leaves exactly the entries that are not selected. */
  lemma {:induction false} WithoutSelected(entries: seq<Entry>, all: seq<Entry>)
    requires DistinctNames(all)
    requires forall e :: e in entries ==> e in all
    ensures Without(entries, Names(Select(all))) == Kept(entries)
    decreases |entries|
  {
    if |entries| > 0 {
      var e := entries[0];
      assert forall x :: x in entries[1..] ==> x in entries;
      WithoutSelected(entries[1..], all);
      assert e in all;
      if e.name in Names(Select(all)) {
        var d :| d in Select(all) && d.name == e.name;
        NameDetermines(all, d, e);
      }
    }
  }

  lemma NameDetermines(all: seq<Entry>, d: Entry, e: Entry)
    requires DistinctNames(all) && d in all && e in all && d.name == e.name
    ensures d == e
  {
    var i :| 0 <= i < |all| && all[i] == d;
    var j :| 0 <= j < |all| && all[j] == e;
  }

  /** The entries that are not selected, in scan order. */
  function Kept(entries: seq<Entry>): (r: seq<Entry>)
    ensures forall e :: e in r <==> e in entries && !IsBad(e)
  {
    if |entries| == 0 then []
    else
      var rest := Kept(entries[1..]);
      assert forall e :: e in entries <==> e == entries[0] || e in entries[1..] by {
        assert entries == [entries[0]] + entries[1..];
      }
      if IsBad(entries[0]) then rest else [entries[0]] + rest
  }

  /** `main` of the script: the full scan first, then `rm -rf` of each
      collected entry, in collection order. Only collected entries are
      deleted, and every collected entry is. */
  method RemoveBadFolders(entries: seq<Entry>) returns (toDelete: seq<Entry>, remaining: seq<Entry>)
    requires DistinctNames(entries)
    ensures toDelete == Select(entries)
    ensures remaining == Kept(entries)
  {
    toDelete := CollectBad(entries);
    remaining := entries;
    var i := 0;
    NothingDeletedYet(entries, toDelete);
    while i < |toDelete|
      invariant 0 <= i <= |toDelete|
      invariant remaining == Without(entries, Names(toDelete[..i]))
    {
      DeleteOne(entries, toDelete, i);
      remaining := Without(remaining, {toDelete[i].name});
      i := i + 1;
    }
    assert toDelete[..i] == toDelete;
    WithoutSelected(entries, entries);
  }

  lemma NothingDeletedYet(entries: seq<Entry>, toDelete: seq<Entry>)
    ensures Without(entries, Names(toDelete[..0])) == entries
  {
    assert Names(toDelete[..0]) == {};
    WithoutNothing(entries);
  }

  lemma DeleteOne(entries: seq<Entry>, toDelete: seq<Entry>, i: int)
    requires 0 <= i < |toDelete|
    ensures Without(Without(entries, Names(toDelete[..i])), {toDelete[i].name})
         == Without(entries, Names(toDelete[..i + 1]))
  {
    WithoutMore(entries, Names(toDelete[..i]), toDelete[i].name);
    assert toDelete[..i + 1] == toDelete[..i] + [toDelete[i]];
    assert Names(toDelete[..i + 1]) == Names(toDelete[..i]) + {toDelete[i].name};
  }

  lemma {:induction false} WithoutNothing(entries: seq<Entry>)
    ensures Without(entries, {}) == entries
    decreases |entries|
  {
    if |entries| > 0 {
      WithoutNothing(entries[1..]);
      assert [entries[0]] + entries[1..] == entries;
    }
  }

  // ---------------------------------------------------------------------
  // What the script makes of the driver's output

  /** The directory a test-mode run leaves, holding only the marker file,
      is always selected. */
  lemma TestOutputSelected(name: string)
    ensures IsBad(Dir(name, {Polaris.TestMarker}))
  {
    var e := Dir(name, {Polaris.TestMarker});
    assert HasSuffix(Polaris.TestMarker, ".out");
    assert !HasSuffix(Polaris.TestMarker, ".pdb");
    assert !HasSuffix(Polaris.TestMarker, ".fasta");
    IsBadIff(e);
  }

  /** The staging directory, which holds only `.fasta` files, is never
      selected. */
  lemma StagingDirNotSelected(children: set<string>)
    requires forall c :: c in children ==> HasSuffix(c, ".fasta")
    ensures !IsBad(Dir(Polaris.TempDir, children))
  {
    var e := Dir(Polaris.TempDir, children);
    IsBadIff(e);
    if c :| c in children {
      assert HasSuffix(c, ".fasta");
    } else {
      assert children == {};
    }
  }

  /** After a test-mode pass, the entry of every unit that had no output
      directory before is selected by the cleanup script. */
  lemma TestPassOutputsSelected(shard: seq<Fasta.Sequence>, launcher: Polaris.Launcher,
                                root: Polaris.OutputRoot, tag: string)
    requires tag in Polaris.TagsOf(shard) && tag !in root
    ensures var after := Polaris.OutputsAfter(shard, true, launcher, root);
      tag in after && IsBad(Dir(tag, after[tag]))
  {
    Polaris.TestLoopKeys(shard, launcher, root);
    Polaris.TestLoopMarkers(shard, launcher, root);
    TestOutputSelected(tag);
  }
}
