/**
 * Fragment assembly (app.py:35-43): when `full_conversations.json` is absent
 * and the working directory holds fragments matching
 * `*ConversationTable*.part*`, the fragments are written, in sorted name
 * order, byte for byte into that file. The working directory is a map from
 * file names to their bytes.
 */
module Assembly {
  import opened Strings

  newtype Byte = b: int | 0 <= b < 0x100
  type Bytes = seq<Byte>
  /** The files of the working directory, by name. */
  type Files = map<string, Bytes>

  /** The consolidated file the fragments are assembled into. */
  const OutputFile: string := "full_conversations.json"
  /** The two literal pieces of the glob pattern `*ConversationTable*.part*`. */
  const TableMarker: string := "ConversationTable"
  const PartMarker: string := ".part"

  /** Some suffix of `name` starts with `ConversationTable` and has `.part` after that occurrence. */
  predicate MatchesFrom(name: string)
    decreases |name|
  {
    (StartsWith(name, TableMarker) && Contains(name[|TableMarker|..], PartMarker))
    || (|name| > 0 && MatchesFrom(name[1..]))
  }

  /** The shell-pattern reading of `*A*B*`: `A` occurs, and `B` occurs at or after its end. */
  ghost predicate GlobMatch(name: string) {
    exists i, j :: OccursAt(name, TableMarker, i) && i + |TableMarker| <= j && OccursAt(name, PartMarker, j)
  }

  /**
   * `glob` selects `name` for `*ConversationTable*.part*`: the pattern matches,
   * and the name is not hidden (a leading `*` never matches a leading dot).
   */
  predicate IsFragmentName(name: string)
    ensures IsFragmentName(name) <==> GlobMatch(name) && !(|name| > 0 && name[0] == '.')
  {
    MatchesFromIff(name);
    MatchesFrom(name) && !(|name| > 0 && name[0] == '.')
  }

  /** The recursive matcher agrees with the shell-pattern reading. */
  lemma {:induction false} MatchesFromIff(name: string)
    ensures MatchesFrom(name) <==> GlobMatch(name)
    decreases |name|
  {
    var n := |TableMarker|;
    if StartsWith(name, TableMarker) && Contains(name[n..], PartMarker) {
      ContainsIff(name[n..], PartMarker);
      var j :| OccursAt(name[n..], PartMarker, j);
      OccursAtDrop(name, PartMarker, n, j);
      OccursAtDrop(name, TableMarker, 0, 0);
      assert OccursAt(name, TableMarker, 0);
    } else if |name| > 0 && MatchesFrom(name[1..]) {
      MatchesFromIff(name[1..]);
      var i, j :| OccursAt(name[1..], TableMarker, i) && i + n <= j && OccursAt(name[1..], PartMarker, j);
      OccursAtDrop(name, TableMarker, 1, i);
      OccursAtDrop(name, PartMarker, 1, j);
    } else if GlobMatch(name) {
      var i, j :| OccursAt(name, TableMarker, i) && i + n <= j && OccursAt(name, PartMarker, j);
      if i == 0 {
        OccursAtDrop(name, PartMarker, n, j - n);
        ContainsIff(name[n..], PartMarker);
        assert false;
      } else {
        OccursAtDrop(name, TableMarker, 1, i - 1);
        OccursAtDrop(name, PartMarker, 1, j - 1);
        MatchesFromIff(name[1..]);
        assert false;
      }
    }
  }

  /** A name without the letter `C` never matches the pattern. */
  lemma {:induction false} NoMarkerNoMatch(name: string)
    requires TableMarker[0] !in name
    ensures !MatchesFrom(name)
    decreases |name|
  {
    assert !StartsWith(name, TableMarker) by {
      if |TableMarker| <= |name| {
        assert name[..|TableMarker|][0] == name[0];
      }
    }
    if |name| > 0 {
      NoMarkerNoMatch(name[1..]);
    }
  }

  /** The consolidated file is never itself taken for a fragment. */
  lemma OutputIsNotAFragment()
    ensures !IsFragmentName(OutputFile)
  {
    NoMarkerNoMatch(OutputFile);
  }

  /** `glob("*ConversationTable*.part*")` over a directory holding `names`, as a set. */
  function FragmentsOf(names: set<string>): set<string> {
    set n | n in names && IsFragmentName(n)
  }

  function Fragments(fs: Files): set<string> {
    FragmentsOf(fs.Keys)
  }

  /** `sorted(glob.glob(...))`: the fragment names, in ascending order. */
  ghost function SortedFragments(fs: Files): seq<string> {
    SortedOf(Fragments(fs))
  }

  /** The bytes of the files `parts`, read in turn and written one after the other. */
  function ConcatParts(fs: Files, parts: seq<string>): (r: Bytes)
    requires forall p :: p in parts ==> p in fs
    ensures |parts| == 1 ==> r == fs[parts[0]]
  {
    if parts == [] then []
    else ConcatParts(fs, parts[..|parts| - 1]) + fs[parts[|parts| - 1]]
  }

  /** The output starts with the first part's bytes, followed by the rest in order. */
  lemma {:induction false} ConcatPartsFront(fs: Files, parts: seq<string>)
    requires forall p :: p in parts ==> p in fs
    requires parts != []
    ensures ConcatParts(fs, parts) == fs[parts[0]] + ConcatParts(fs, parts[1..])
    decreases |parts|
  {
    var init := parts[..|parts| - 1];
    if |parts| > 1 {
      ConcatPartsFront(fs, init);
      assert parts[1..][..|parts| - 2] == init[1..];
    }
  }

  /** The working directory after the assembly step. */
  ghost function Assembled(fs: Files): (r: Files)
    ensures OutputFile in r <==> OutputFile in fs || Fragments(fs) != {}
    ensures forall n :: n in r ==> n in fs || n == OutputFile
    ensures forall n :: n in fs ==> n in r && r[n] == fs[n]
  {
    if OutputFile !in fs && Fragments(fs) != {} then
      fs[OutputFile := ConcatParts(fs, SortedFragments(fs))]
    else
      fs
  }

  /**
   * Line 36: `sorted(glob.glob("*ConversationTable*.part*"))` over the names
   * in the directory, by picking the least remaining name each time.
   */
  method SortedFragmentNames(names: set<string>) returns (parts: seq<string>)
    ensures parts == SortedOf(FragmentsOf(names))
  {
    var remaining := FragmentsOf(names);
    parts := [];
    while remaining != {}
      invariant StrictlySorted(parts)
      invariant forall x :: x in parts || x in remaining <==> x in FragmentsOf(names)
      invariant forall a, b :: a in parts && b in remaining ==> LexLess(a, b)
      decreases remaining
    {
      LeastExists(remaining);
      var m :| IsLeast(m, remaining);
      forall x | x in parts
        ensures x != m
      {
        LexLessIrreflexive(m);
      }
      parts := parts + [m];
      remaining := remaining - {m};
    }
    SortedUnique(parts, SortedOf(FragmentsOf(names)));
  }

  /** The working directory of the running process. */
  class WorkingDirectory {
    var files: Files

    constructor (files: Files)
      ensures this.files == files
    {
      this.files := files;
    }

    /**
     * Lines 36-43: if the consolidated file is absent and fragments exist,
     * open it for writing (empty) and append the bytes of each fragment in
     * sorted order.
     */
    method AssembleFragments()
      modifies this
      ensures files == Assembled(old(files))
    {
      var parts := SortedFragmentNames(files.Keys);
      AssembledByParts(files, parts);
      if OutputFile !in files && |parts| > 0 {
        ghost var before := files;
        files := files[OutputFile := []];
        ghost var emptied := files;
        ConcatPartsFrame(before, emptied, parts);
        AppendParts(parts);
        assert [] + ConcatParts(before, parts) == ConcatParts(before, parts);
      }
    }

    /** Lines 41-43: append the bytes of each of `parts`, in turn, to the consolidated file. */
    method AppendParts(parts: seq<string>)
      requires OutputFile in files
      requires forall p :: p in parts ==> p in files && p != OutputFile
      modifies this
      ensures files == old(files)[OutputFile := old(files)[OutputFile] + ConcatParts(old(files), parts)]
    {
      ghost var before := files;
      assert before[OutputFile] + ConcatParts(before, parts[..0]) == before[OutputFile];
      var i := 0;
      while i < |parts|
        invariant 0 <= i <= |parts|
        invariant files == before[OutputFile := before[OutputFile] + ConcatParts(before, parts[..i])]
      {
        assert parts[..i + 1][..i] == parts[..i];
        assert files[parts[i]] == before[parts[i]];
        files := files[OutputFile := files[OutputFile] + files[parts[i]]];
        assert files[OutputFile] == before[OutputFile] + ConcatParts(before, parts[..i + 1]);
        i := i + 1;
      }
      assert parts[..i] == parts;
    }
  }

  /** The concatenation reads only the parts it names. */
  lemma {:induction false} ConcatPartsFrame(fs: Files, gs: Files, parts: seq<string>)
    requires forall p :: p in parts ==> p in fs && p in gs && fs[p] == gs[p]
    ensures ConcatParts(fs, parts) == ConcatParts(gs, parts)
    decreases |parts|
  {
    if parts != [] {
      ConcatPartsFrame(fs, gs, parts[..|parts| - 1]);
    }
  }

  /** The assembly step in terms of the sorted fragment listing. */
  lemma AssembledByParts(fs: Files, parts: seq<string>)
    requires parts == SortedFragments(fs)
    ensures forall p :: p in parts ==> p in fs && p != OutputFile
    ensures OutputFile !in fs && parts != [] ==> Assembled(fs) == fs[OutputFile := ConcatParts(fs, parts)]
    ensures !(OutputFile !in fs && parts != []) ==> Assembled(fs) == fs
  {
    OutputIsNotAFragment();
  }

  /** An existing consolidated file is left exactly as it is. */
  lemma ExistingOutputUntouched(fs: Files)
    requires OutputFile in fs
    ensures Assembled(fs) == fs
  {
  }

  /** Without fragments nothing is written, so the consolidated file stays absent. */
  lemma NoFragmentsNoOutput(fs: Files)
    requires OutputFile !in fs && Fragments(fs) == {}
    ensures Assembled(fs) == fs && OutputFile !in Assembled(fs)
  {
  }

  /**
   * When the consolidated file is absent and fragments exist, it is created
   * with the bytes of the fragments in any ascending, repeat-free listing of
   * them, and no other file changes.
   */
  lemma AssembledContent(fs: Files, parts: seq<string>)
    requires OutputFile !in fs && Fragments(fs) != {}
    requires StrictlySorted(parts) && forall x :: x in parts <==> x in Fragments(fs)
    ensures OutputFile in Assembled(fs)
    ensures Assembled(fs)[OutputFile] == ConcatParts(fs, parts)
    ensures forall n :: n != OutputFile ==> (n in Assembled(fs) <==> n in fs)
    ensures forall n :: n in fs ==> Assembled(fs)[n] == fs[n]
  {
    SortedUnique(parts, SortedFragments(fs));
  }

  /** The fragments are the same after assembly: the consolidated file is not one of them. */
  lemma AssemblyKeepsFragments(fs: Files)
    ensures Fragments(Assembled(fs)) == Fragments(fs)
  {
    OutputIsNotAFragment();
  }

  /** A second run of the assembly step changes nothing. */
  lemma AssemblyIdempotent(fs: Files)
    ensures Assembled(Assembled(fs)) == Assembled(fs)
  {
  }
}
