/** Concrete runs of the filters and of the picker: a folder exclusion, a
    tag filter, and the two-note cycle. */
module Scenarios {
  import opened Seqs
  import opened Strings
  import opened Vault
  import opened NoteFilters
  import opened RandomWalk

  const Archived := File("Archive/old.md", "old.md", "old", "md")
  const Current := File("Notes/new.md", "new.md", "new", "md")

  lemma ParseSingleFolder()
    ensures ParseExcludedFolders("Archive") == ["Archive"]
  {
    ArchiveIsClean();
    assert forall i :: 0 <= i < |["Archive"]| ==> CleanEntry(["Archive"][i]);
    ParseJoin(["Archive"]);
  }

  lemma ArchiveIsClean()
    ensures CleanEntry("Archive")
  {
    NoCommaInPieces();
    TrimArchive();
  }

  /** A string lacking the first character of `sub` does not contain it. */
  lemma {:induction false} FirstCharAbsent(s: string, sub: string)
    requires sub != [] && sub[0] !in s
    ensures !Contains(s, sub)
    decreases |s|
  {
    if s != [] {
      assert s[0] in s;
      FirstCharAbsent(s[1..], sub);
    }
  }

  lemma ArchivedIsExcluded()
    ensures !NotExcluded(["Archive"])(Archived)
  {
    assert IsPrefix("Archive", Archived.path);
    assert Contains(Archived.path, ["Archive"][0]);
  }

  lemma CurrentIsKept()
    ensures NotExcluded(["Archive"])(Current)
  {
    FirstCharAbsent(Current.path, "Archive");
  }

  lemma KeepOnlyCurrent()
    ensures Filter([Archived, Current], NotExcluded(["Archive"])) == [Current]
  {
    ArchivedIsExcluded();
    CurrentIsKept();
    assert [Archived, Current][1..] == [Current];
    assert Filter([Current], NotExcluded(["Archive"])) == [Current];
  }

  lemma ExcludeArchive()
    ensures FilterExcludedFolders([Archived, Current], "Archive") == [Current]
  {
    ParseSingleFolder();
    KeepOnlyCurrent();
  }

  /** With the setting `Archive`, only `Notes/new.md` can be picked. */
  lemma ExcludedFolderScenario()
    ensures Candidates([Archived, Current], Settings(true, true, "Archive", ""), map[]) == [Current]
  {
    FilterKeepsAll([Archived, Current], IsMarkdown);
    ExcludeArchive();
  }

  /** With the tag `#review` indexing only `Notes/new.md`, `Archive/old.md`
      is dropped even though no folder is excluded. */
  lemma TagScenario()
    ensures Candidates([Archived, Current], Settings(true, true, "", "#review"),
                       map["#review" := [Current]]) == [Current]
  {
    var both := [Archived, Current];
    FilterKeepsAll(both, IsMarkdown);
    ExclusionIdentity(both, "");
    KeepOnlyTagged();
  }

  lemma KeepOnlyTagged()
    ensures Filter([Archived, Current], TaggedIn([Current])) == [Current]
  {
    assert !Tagged([Current], Archived);
    assert Tagged([Current], Current);
    assert [Archived, Current][1..] == [Current];
    assert Filter([Current], TaggedIn([Current])) == [Current];
  }

  const NoteA := File("a.md", "a.md", "a", "md")
  const NoteB := File("b.md", "b.md", "b", "md")

  /** Two notes and nothing shown: either pick is recorded, and the list
      holds one name. */
  lemma FirstOfTwoRecorded(first: nat, second: nat)
    requires first < 2 && second < 2
    ensures |NextShown([], [NoteA, NoteB], first)| == 1
    ensures Chosen([NoteA, NoteB], [], first, second) == [NoteA, NoteB][first]
  {
  }

  /** Two notes with `a.md` shown: a first pick of `a.md` is a repeat and
      whatever the re-pick opens, the list stays `[a.md]`; a first pick of
      `b.md` completes the cycle and empties the list. */
  lemma SecondOfTwo(second: nat)
    requires second < 2
    ensures NextShown(["a.md"], [NoteA, NoteB], 0) == ["a.md"]
    ensures Chosen([NoteA, NoteB], ["a.md"], 0, second) == [NoteA, NoteB][second]
    ensures NextShown(["a.md"], [NoteA, NoteB], 1) == []
    ensures Chosen([NoteA, NoteB], ["a.md"], 1, second) == NoteB
  {
  }

  /** `a.md` was shown, then the vault shrank to the single note `b.md`:
      the pick of `b.md` is appended instead of completing the cycle, and
      no later run empties the list. */
  lemma ShrunkVaultNeverClears(picks: seq<nat>)
    requires forall k :: 0 <= k < |picks| ==> picks[k] < 1
    ensures NextShown(["a.md"], [NoteB], 0) == ["a.md", "b.md"]
    ensures Run(["a.md", "b.md"], [NoteB], picks) != []
  {
    StaleRunNeverClears(["a.md", "b.md"], [NoteB], picks);
  }

  /** A name left over from a deleted note still counts towards the
      length: with `gone.md` shown and two candidates, the first new pick
      brings the list to the count and empties it. */
  lemma LeftoverNameClears()
    ensures NextShown(["gone.md"], [NoteA, NoteB], 0) == []
  {
  }

  lemma TrimArchive()
    ensures Trim("Archive") == "Archive"
  {
    TrimOfTrimmed("Archive");
  }

  lemma OldIsTrimmed()
    ensures Trim("Old") == "Old"
  {
    TrimOfTrimmed("Old");
  }

  lemma DropLeadingSpace()
    ensures " Old"[1..] == "Old"
  {
  }

  lemma TrimOld()
    ensures Trim(" Old") == "Old"
  {
    TrimLeadingWhitespace(" Old");
    DropLeadingSpace();
    OldIsTrimmed();
  }

  lemma JoinTwo(a: string, b: string)
    ensures Join([a, b], ',') == a + [','] + b
  {
    assert [a, b][1..] == [b];
  }

  lemma TrimAllTwo(a: string, b: string)
    ensures TrimAll([a, b]) == [Trim(a), Trim(b)]
  {
    MapPair(a, b, Trim);
  }

  lemma PaddedPair(a: string, b: string)
    requires PaddedEntry(a) && PaddedEntry(b)
    ensures forall i :: 0 <= i < |[a, b]| ==> PaddedEntry([a, b][i])
  {
  }

  /** Two padded entries around a comma parse to their two trims. */
  lemma ParseTwoPadded(a: string, b: string)
    requires PaddedEntry(a) && PaddedEntry(b)
    ensures ParseExcludedFolders(a + [','] + b) == [Trim(a), Trim(b)]
  {
    PaddedPair(a, b);
    ParseJoinPadded([a, b]);
    JoinTwo(a, b);
    TrimAllTwo(a, b);
  }

  lemma NoCommaInPieces()
    ensures ',' !in "Archive" && ',' !in " Old"
  {
  }

  lemma BothPiecesPadded()
    ensures PaddedEntry("Archive") && PaddedEntry(" Old")
  {
    NoCommaInPieces();
    TrimArchive();
    TrimOld();
  }

  /** Two entries separated by a comma and a space: both are kept,
      trimmed, in order. */
  lemma ParseTwoFolders()
    ensures ParseExcludedFolders("Archive, Old") == ["Archive", "Old"]
  {
    BothPiecesPadded();
    ParseTwoPadded("Archive", " Old");
    TrimArchive();
    TrimOld();
    JoinedSetting();
  }

  lemma JoinedSetting()
    ensures "Archive" + [','] + " Old" == "Archive, Old"
  {
  }
}
