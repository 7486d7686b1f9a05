/** The note picker of `openRandomNote`: the process-wide list of names
    already shown (`alreadyOpen`) and how one invocation updates it.

    The random choices are parameters: `first` is the index the first
    `randomElement` returns and `second` the index of the re-pick. The
    update is stated by two functions, `Chosen` (the note opened) and
    `NextShown` (the new list), which the `Picker` methods are proved
    against; the lemmas say what those functions guarantee. */
module RandomWalk {
  import opened Vault
  import opened NoteFilters

  datatype Option<T> = None | Some(value: T)

  /** The host request an invocation ends with: open the link text in a
      new pane or the current one. */
  datatype OpenRequest = OpenRequest(linkText: string, newLeaf: bool)

  predicate NoDuplicates(s: seq<string>)
  {
    forall i, j :: 0 <= i < j < |s| ==> s[i] != s[j]
  }

  function Elements(s: seq<string>): set<string>
  {
    set x | x in s
  }

  /** The names the candidates carry; two candidates in different folders
      may share one. */
  function NameSet(cands: seq<File>): set<string>
  {
    set f | f in cands :: f.name
  }

  /** The note opened: the first pick, unless its name was already shown,
      in which case the single re-pick, whatever it is. Always a candidate. */
  function Chosen(cands: seq<File>, shown: seq<string>, first: nat, second: nat): (f: File)
    requires first < |cands| && second < |cands|
    ensures f in cands
    ensures cands[first].name !in shown ==> f == cands[first]
  {
    if cands[first].name in shown then cands[second] else cands[first]
  }

  /** The list after one invocation: the first pick's name is appended
      when it is new (a re-pick is never recorded), and the list is
      emptied exactly when its length then equals the candidate count,
      whatever names it holds. Its length is therefore never the
      candidate count, and it only ever gains the first pick's name or is
      emptied. */
  function NextShown(shown: seq<string>, cands: seq<File>, first: nat): (r: seq<string>)
    requires first < |cands|
    ensures |r| != |cands|
    ensures r == [] || r == shown || r == shown + [cands[first].name]
    ensures r == [] <==> |shown| + (if cands[first].name in shown then 0 else 1) == |cands|
  {
    var name := cands[first].name;
    var grown := if name in shown then shown else shown + [name];
    if |grown| == |cands| then [] else grown
  }

  /** A first pick not yet shown is appended, unless that completes the
      cycle. */
  lemma FreshPickRecorded(shown: seq<string>, cands: seq<File>, first: nat)
    requires first < |cands|
    requires cands[first].name !in shown && |shown| + 1 != |cands|
    ensures NextShown(shown, cands, first) == shown + [cands[first].name]
  {
  }

  /** A first pick already shown leaves the list as it was, unless the
      list is already at the candidate count. */
  lemma RepeatedPickNotRecorded(shown: seq<string>, cands: seq<File>, first: nat)
    requires first < |cands|
    requires cands[first].name in shown && |shown| != |cands|
    ensures NextShown(shown, cands, first) == shown
  {
  }

  /** A first pick already shown is replaced by the re-pick, whatever it
      returns. */
  lemma RepickOpened(shown: seq<string>, cands: seq<File>, first: nat, second: nat)
    requires first < |cands| && second < |cands|
    requires cands[first].name in shown
    ensures Chosen(cands, shown, first, second) == cands[second]
  {
  }

  /** The list never gains a duplicate. */
  lemma NoDuplicatesPreserved(shown: seq<string>, cands: seq<File>, first: nat)
    requires first < |cands| && NoDuplicates(shown)
    ensures NoDuplicates(NextShown(shown, cands, first))
  {
  }

  /** The state the list stays in while the candidates do not change:
      distinct names of candidates, fewer than there are candidates. */
  predicate ShownInv(shown: seq<string>, cands: seq<File>)
  {
    && NoDuplicates(shown)
    && (forall k :: 0 <= k < |shown| ==> shown[k] in NameSet(cands))
    && |shown| < |cands|
  }

  lemma InitialShownInv(cands: seq<File>)
    requires cands != []
    ensures ShownInv([], cands)
  {
  }

  /** Every invocation over the same candidates keeps the invariant. */
  lemma ShownInvPreserved(shown: seq<string>, cands: seq<File>, first: nat)
    requires first < |cands| && ShownInv(shown, cands)
    ensures ShownInv(NextShown(shown, cands, first), cands)
  {
  }

  /** A fresh first pick advances the cycle by one, modulo the number of
      candidates. */
  lemma FreshPickAdvancesCycle(shown: seq<string>, cands: seq<File>, first: nat)
    requires first < |cands| && ShownInv(shown, cands)
    requires cands[first].name !in shown
    ensures |NextShown(shown, cands, first)| == (|shown| + 1) % |cands|
  {
    var n, x := |cands|, |shown| + 1;
    if x < n {
      assert x % n == x;
    } else {
      assert x == n && x % n == 0;
    }
  }

  /** With a single candidate and the candidates unchanged, the list is
      empty after every invocation (`ShownInv` only allows the empty list
      here; see `StaleNeverClears` for a list left over from a larger
      vault). */
  lemma SingleCandidateAlwaysClears(shown: seq<string>, cands: seq<File>)
    requires |cands| == 1 && ShownInv(shown, cands)
    ensures NextShown(shown, cands, 0) == []
  {
  }

  /** The list lives for the whole session while the candidates are
      recomputed on every invocation, so a change to the vault or to the
      settings can leave the list longer than the candidate list. Such a
      stale list is never emptied: it keeps every name and at most gains
      the first pick's. */
  lemma StaleNeverClears(shown: seq<string>, cands: seq<File>, first: nat)
    requires first < |cands| && |shown| > |cands|
    ensures var name := cands[first].name;
      NextShown(shown, cands, first) == if name in shown then shown else shown + [name]
  {
  }

  /** The list after a sequence of invocations with the given first picks
      (the re-picks do not affect it). */
  function Run(shown: seq<string>, cands: seq<File>, picks: seq<nat>): seq<string>
    requires forall k :: 0 <= k < |picks| ==> picks[k] < |cands|
    decreases |picks|
  {
    if picks == [] then shown
    else Run(NextShown(shown, cands, picks[0]), cands, picks[1..])
  }

  /** Every first pick of the run finds its name not yet shown. */
  predicate AllFresh(shown: seq<string>, cands: seq<File>, picks: seq<nat>)
    requires forall k :: 0 <= k < |picks| ==> picks[k] < |cands|
    decreases |picks|
  {
    picks == [] ||
    (cands[picks[0]].name !in shown && AllFresh(NextShown(shown, cands, picks[0]), cands, picks[1..]))
  }

  /** Within one cycle, a run of fresh first picks adds one name per
      invocation, and the list is emptied exactly when the picks bring it
      to the candidate count. */
  lemma {:induction false} FreshRunLength(shown: seq<string>, cands: seq<File>, picks: seq<nat>)
    requires forall k :: 0 <= k < |picks| ==> picks[k] < |cands|
    requires ShownInv(shown, cands) && AllFresh(shown, cands, picks)
    requires |shown| + |picks| <= |cands|
    ensures |Run(shown, cands, picks)| ==
      if |shown| + |picks| == |cands| then 0 else |shown| + |picks|
    decreases |picks|
  {
    if picks != [] {
      var next := NextShown(shown, cands, picks[0]);
      ShownInvPreserved(shown, cands, picks[0]);
      if |shown| + 1 < |cands| {
        FreshRunLength(next, cands, picks[1..]);
      }
    }
  }

  /** Starting from an empty list, as many fresh first picks as there are
      candidates complete a cycle and empty the list again. */
  lemma FreshCycleCompletes(cands: seq<File>, picks: seq<nat>)
    requires forall k :: 0 <= k < |picks| ==> picks[k] < |cands|
    requires |picks| == |cands| && cands != [] && AllFresh([], cands, picks)
    ensures Run([], cands, picks) == []
  {
    FreshRunLength([], cands, picks);
  }

  /** Once the list is longer than the candidate list, no run over those
      candidates empties it again: every shown name stays, in place, and
      the cycle never completes. */
  lemma {:induction false} StaleRunNeverClears(shown: seq<string>, cands: seq<File>, picks: seq<nat>)
    requires forall k :: 0 <= k < |picks| ==> picks[k] < |cands|
    requires |shown| > |cands|
    ensures |Run(shown, cands, picks)| >= |shown|
    ensures Run(shown, cands, picks)[..|shown|] == shown
    decreases |picks|
  {
    if picks != [] {
      var next := NextShown(shown, cands, picks[0]);
      StaleNeverClears(shown, cands, picks[0]);
      assert next[..|shown|] == shown;
      StaleRunNeverClears(next, cands, picks[1..]);
      var r := Run(next, cands, picks[1..]);
      assert r[..|shown|] == r[..|next|][..|shown|];
    }
  }

  lemma {:induction false} DistinctElements(s: seq<string>)
    requires NoDuplicates(s)
    ensures |Elements(s)| == |s|
    decreases |s|
  {
    if s != [] {
      var t := s[..|s| - 1];
      DistinctElements(t);
      assert Elements(s) == Elements(t) + {s[|s| - 1]};
      assert s[|s| - 1] !in Elements(t);
    }
  }

  /** Names are compared, paths filtered: when two candidates share a
      name there are fewer names than candidates, the list can never
      reach the candidate count, and once a note has been shown the list
      is never emptied again; the cycle never completes. */
  lemma SharedNameNeverClears(shown: seq<string>, cands: seq<File>, first: nat)
    requires first < |cands| && ShownInv(shown, cands)
    requires |NameSet(cands)| < |cands|
    ensures NextShown(shown, cands, first) != []
    ensures |NextShown(shown, cands, first)| >= |shown|
  {
    var name := cands[first].name;
    if name !in shown {
      var grown := shown + [name];
      assert NoDuplicates(grown) by {
        forall i, j | 0 <= i < j < |grown| ensures grown[i] != grown[j] {
          if j == |shown| {
            assert grown[i] == shown[i];
          }
        }
      }
      DistinctElements(grown);
      assert Elements(grown) <= NameSet(cands) by {
        forall x | x in Elements(grown) ensures x in NameSet(cands) {
          var k :| 0 <= k < |grown| && grown[k] == x;
          if k == |shown| {
            assert cands[first] in cands;
          }
        }
      }
      SubsetSize(Elements(grown), NameSet(cands));
    }
  }

  lemma SubsetSize(a: set<string>, b: set<string>)
    requires a <= b
    ensures |a| <= |b|
  {
    assert b == a + (b - a);
  }

  /** Two notes named `x.md` in different folders: the first invocation
      records `x.md`, and every later one finds it shown and leaves the
      list at that one name. */
  lemma SharedNameExample()
    ensures var cands := [File("A/x.md", "x.md", "x", "md"), File("B/x.md", "x.md", "x", "md")];
      && NextShown([], cands, 0) == ["x.md"]
      && NextShown(["x.md"], cands, 0) == ["x.md"]
      && NextShown(["x.md"], cands, 1) == ["x.md"]
  {
  }

  /** The holder of the module-level `alreadyOpen` list. */
  class Picker {
    var alreadyOpen: seq<string>

    constructor ()
      ensures alreadyOpen == []
    {
      alreadyOpen := [];
    }

    /** `openRandomNote`: filter the files to the candidates; with none,
        open nothing and leave the list alone; otherwise open the chosen
        note by its basename and update the list. */
    method OpenRandomNote(files: seq<File>, settings: Settings, tagMap: TagFilesMap, first: nat, second: nat)
      returns (request: Option<OpenRequest>)
      requires CanFilter(files, settings, tagMap)
      requires var cands := Candidates(files, settings, tagMap);
        cands != [] ==> first < |cands| && second < |cands|
      modifies this
      ensures var cands := Candidates(files, settings, tagMap);
        if cands == [] then
          request == None && alreadyOpen == old(alreadyOpen)
        else
          && request == Some(OpenRequest(Chosen(cands, old(alreadyOpen), first, second).basename,
                                         settings.openInNewLeaf))
          && alreadyOpen == NextShown(old(alreadyOpen), cands, first)
      ensures var cands := Candidates(files, settings, tagMap);
        old(ShownInv(alreadyOpen, cands)) ==> ShownInv(alreadyOpen, cands)
    {
      var markdownFiles := KeepMarkdown(files);
      var filteredFolders := FilterExcludedFolders(markdownFiles, settings.excludedFolders);
      var filteredTags := FilterTag(filteredFolders, settings.selectedTag, tagMap);

      if |filteredTags| == 0 {
        return None;
      }

      if ShownInv(alreadyOpen, filteredTags) {
        ShownInvPreserved(alreadyOpen, filteredTags, first);
      }

      var fileToOpen := filteredTags[first];
      if fileToOpen.name in alreadyOpen {
        fileToOpen := filteredTags[second];
      } else {
        alreadyOpen := alreadyOpen + [fileToOpen.name];
      }

      if |alreadyOpen| == |filteredTags| {
        alreadyOpen := [];
      }
      request := Some(OpenRequest(fileToOpen.basename, settings.openInNewLeaf));
    }

    /** `handleOpenRandomNote`: drop the excluded folders from the vault
        listing, then run `openRandomNote` on the rest. Because that
        exclusion is repeated inside, the outcome is that of
        `openRandomNote` on the whole listing. */
    method HandleOpenRandomNote(vault: seq<File>, settings: Settings, tagMap: TagFilesMap, first: nat, second: nat)
      returns (request: Option<OpenRequest>)
      requires CanFilter(vault, settings, tagMap)
      requires var cands := Candidates(vault, settings, tagMap);
        cands != [] ==> first < |cands| && second < |cands|
      modifies this
      ensures var cands := Candidates(vault, settings, tagMap);
        if cands == [] then
          request == None && alreadyOpen == old(alreadyOpen)
        else
          && request == Some(OpenRequest(Chosen(cands, old(alreadyOpen), first, second).basename,
                                         settings.openInNewLeaf))
          && alreadyOpen == NextShown(old(alreadyOpen), cands, first)
    {
      var markdownFiles := FilterExcludedFolders(vault, settings.excludedFolders);
      PrefilterRedundant(vault, settings.excludedFolders);
      request := OpenRandomNote(markdownFiles, settings, tagMap, first, second);
    }
  }
}
