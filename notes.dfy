/** The values the plugin reads: a vault file as the host describes it,
    the plugin's settings record and the tag index. */
module Vault {

  /** A vault file. `path` is vault-relative and identifies the file;
      `name` is the file name with its extension, `basename` the name
      without it, and `extension` the part after the last dot. */
  datatype File = File(path: string, name: string, basename: string, extension: string)

  /** The plugin's settings. `excludedFolders` is a comma-separated list of
      path substrings; an empty `selectedTag` means "no tag filter". */
  datatype Settings = Settings(
    openInNewLeaf: bool,
    enableRibbonIcon: bool,
    excludedFolders: string,
    selectedTag: string)

  /** The tag index: for each tag, the files that carry it. */
  type TagFilesMap = map<string, seq<File>>
}

/** The candidate filters: the excluded-folder setting parsed into a list,
    the markdown-extension filter, the excluded-folder filter and the tag
    filter, and the candidate list they produce together. */
module NoteFilters {
  import opened Seqs
  import opened Strings
  import opened Vault

  predicate NonEmpty(s: string)
  {
    s != []
  }

  /** `pieces.map(x => x.trim())` */
  function TrimAll(pieces: seq<string>): seq<string>
  {
    Map(pieces, Trim)
  }

  /** A usable excluded-folder entry: non-empty, equal to its own trim,
      and free of commas. */
  predicate CleanEntry(e: string)
  {
    e != [] && Trim(e) == e && ',' !in e
  }

  /** Trimming a comma-free piece gives a trimmed, comma-free entry. */
  lemma TrimmedPieceClean(piece: string)
    requires ',' !in piece && Trim(piece) != []
    ensures CleanEntry(Trim(piece))
  {
    TrimIdempotent(piece);
    TrimKeepsAbsent(piece, ',');
  }

  /** Trimming comma-free pieces and dropping the empty ones leaves only
      clean entries. */
  lemma TrimmedPiecesClean(pieces: seq<string>)
    requires forall j :: 0 <= j < |pieces| ==> ',' !in pieces[j]
    ensures forall i :: 0 <= i < |Filter(TrimAll(pieces), NonEmpty)| ==>
      CleanEntry(Filter(TrimAll(pieces), NonEmpty)[i])
  {
    var trimmed := TrimAll(pieces);
    forall j | 0 <= j < |trimmed| && trimmed[j] != [] ensures CleanEntry(trimmed[j]) {
      TrimmedPieceClean(pieces[j]);
    }
  }

  /** `excludedFolders.split(',').map(x => x.trim()).filter(x => x !== '')`:
      every parsed entry is non-empty, equal to its own trim, and free of
      commas. */
  function ParseExcludedFolders(setting: string): (folders: seq<string>)
    ensures forall i :: 0 <= i < |folders| ==> CleanEntry(folders[i])
  {
    var pieces := Split(setting, ',');
    TrimmedPiecesClean(pieces);
    Filter(TrimAll(pieces), NonEmpty)
  }

  /** An entry as a user may type it: no comma, and not all whitespace. */
  predicate PaddedEntry(piece: string)
  {
    ',' !in piece && Trim(piece) != []
  }

  /** Padded entries joined with commas parse back to their trims, in
      order: every entry of the setting is kept, none is merged or
      reordered. */
  lemma ParseJoinPadded(pieces: seq<string>)
    requires |pieces| >= 1
    requires forall i :: 0 <= i < |pieces| ==> PaddedEntry(pieces[i])
    ensures ParseExcludedFolders(Join(pieces, ',')) == TrimAll(pieces)
  {
    SplitJoin(pieces, ',');
    FilterKeepsAll(TrimAll(pieces), NonEmpty);
  }

  /** Clean entries joined with commas parse back to exactly those
      entries. */
  lemma ParseJoin(entries: seq<string>)
    requires |entries| >= 1
    requires forall i :: 0 <= i < |entries| ==> CleanEntry(entries[i])
    ensures ParseExcludedFolders(Join(entries, ',')) == entries
  {
    forall i | 0 <= i < |entries| ensures PaddedEntry(entries[i]) {
      CleanEntryTrimsToItself(entries[i]);
    }
    ParseJoinPadded(entries);
    TrimAllClean(entries);
  }

  lemma CleanEntryTrimsToItself(e: string)
    requires CleanEntry(e)
    ensures ',' !in e && Trim(e) == e && Trim(e) != []
  {
  }

  lemma TrimAllClean(entries: seq<string>)
    requires forall i :: 0 <= i < |entries| ==> CleanEntry(entries[i])
    ensures TrimAll(entries) == entries
  {
    var t := TrimAll(entries);
    forall i | 0 <= i < |t| ensures t[i] == entries[i] {
      CleanEntryTrimsToItself(entries[i]);
    }
  }

  /** A setting with a comma in it parses to the entries of the part
      before the comma followed by those of the part after it: blank
      pieces, from doubled or trailing commas, contribute nothing and
      every other piece its own entry. */
  lemma ParseConcat(a: string, b: string)
    ensures ParseExcludedFolders(a + [','] + b) == ParseExcludedFolders(a) + ParseExcludedFolders(b)
  {
    var pa, pb := Split(a, ','), Split(b, ',');
    SplitConcat(a, b, ',');
    MapConcat(pa, pb, Trim);
    FilterConcat(TrimAll(pa), TrimAll(pb), NonEmpty);
  }

  /** A comma-free piece parses to its trim, or to nothing when it is
      blank. With `ParseConcat` this fixes the parse of every setting. */
  lemma ParsePiece(piece: string)
    requires ',' !in piece
    ensures ParseExcludedFolders(piece) == if Trim(piece) == [] then [] else [Trim(piece)]
  {
    SplitWithoutSeparator(piece, ',');
    var t := TrimAll([piece]);
    assert |t| == 1 && t[0] == Trim(piece);
    assert t[1..] == [];
  }

  /** A trailing comma adds no entry. */
  lemma ParseTrailingComma(setting: string)
    ensures ParseExcludedFolders(setting + [',']) == ParseExcludedFolders(setting)
  {
    ParseConcat(setting, []);
    ParsePiece([]);
    assert setting + [','] + [] == setting + [','];
  }

  /** A doubled comma adds no entry between its neighbours. */
  lemma ParseDoubledComma(a: string, b: string)
    ensures ParseExcludedFolders(a + [',', ','] + b) == ParseExcludedFolders(a) + ParseExcludedFolders(b)
  {
    var rest := [','] + b;
    assert [] + [','] + b == rest;
    assert a + [','] + rest == a + [',', ','] + b;
    ParseConcat([], b);
    ParsePiece([]);
    ParseConcat(a, rest);
  }

  /** The parsed list is empty exactly when the setting holds nothing but
      commas and whitespace. */
  lemma ParseEmptyIff(setting: string)
    ensures ParseExcludedFolders(setting) == [] <==> OnlySeparatorsOrWhitespace(setting, ',')
  {
    var pieces := Split(setting, ',');
    SplitAllWhitespace(setting, ',');
    FilterEmptyIff(TrimAll(pieces), NonEmpty);
    TrimAllEmptyIff(pieces);
  }

  lemma TrimAllEmptyIff(pieces: seq<string>)
    ensures (forall i :: 0 <= i < |pieces| ==> !NonEmpty(TrimAll(pieces)[i]))
        <==> AllPiecesWhitespace(pieces)
  {
    var trimmed := TrimAll(pieces);
    forall i | 0 <= i < |pieces| ensures !NonEmpty(trimmed[i]) <==> AllWhitespace(pieces[i]) {
      assert trimmed[i] == Trim(pieces[i]);
    }
  }

  /** A file survives the exclusion when its path contains none of the
      excluded substrings (a substring test, not a path-segment test). */
  predicate OutsideAll(folders: seq<string>, path: string)
  {
    forall k :: 0 <= k < |folders| ==> !Contains(path, folders[k])
  }

  function NotExcluded(folders: seq<string>): File -> bool
  {
    (f: File) => OutsideAll(folders, f.path)
  }

  /** `filterExcludedFolders`: the files, in order, whose path contains none
      of the entries of the parsed setting. */
  function FilterExcludedFolders(files: seq<File>, excludedFolders: string): (r: seq<File>)
    ensures IsSubsequence(r, files)
    ensures forall f :: f in r <==> f in files && OutsideAll(ParseExcludedFolders(excludedFolders), f.path)
    ensures forall f :: multiset(r)[f]
                    == if OutsideAll(ParseExcludedFolders(excludedFolders), f.path) then multiset(files)[f] else 0
  {
    var keep := NotExcluded(ParseExcludedFolders(excludedFolders));
    FilterIsSubsequence(files, keep);
    FilterMultiplicities(files, keep);
    Filter(files, keep)
  }

  /** A setting made only of commas and whitespace excludes nothing. */
  lemma ExclusionIdentity(files: seq<File>, excludedFolders: string)
    requires OnlySeparatorsOrWhitespace(excludedFolders, ',')
    ensures FilterExcludedFolders(files, excludedFolders) == files
  {
    var folders := ParseExcludedFolders(excludedFolders);
    ParseEmptyIff(excludedFolders);
    assert folders == [];
    forall i | 0 <= i < |files| ensures NotExcluded(folders)(files[i]) {
      assert OutsideAll([], files[i].path);
    }
    FilterKeepsAll(files, NotExcluded(folders));
  }

  /** Excluding a second time with the same setting changes nothing. */
  lemma ExclusionIdempotent(files: seq<File>, excludedFolders: string)
    ensures FilterExcludedFolders(FilterExcludedFolders(files, excludedFolders), excludedFolders)
         == FilterExcludedFolders(files, excludedFolders)
  {
    FilterIdempotent(files, NotExcluded(ParseExcludedFolders(excludedFolders)));
  }

  predicate IsMarkdown(f: File)
  {
    f.extension == "md"
  }

  /** `files.filter((file) => file.extension === 'md')`: exactly the
      markdown files, in order, each with all its occurrences. */
  function KeepMarkdown(files: seq<File>): (r: seq<File>)
    ensures IsSubsequence(r, files)
    ensures forall f :: f in r <==> f in files && f.extension == "md"
    ensures forall f :: multiset(r)[f] == if f.extension == "md" then multiset(files)[f] else 0
  {
    FilterIsSubsequence(files, IsMarkdown);
    FilterMultiplicities(files, IsMarkdown);
    Filter(files, IsMarkdown)
  }

  /** Keeping the markdown files twice is keeping them once. */
  lemma MarkdownIdempotent(files: seq<File>)
    ensures KeepMarkdown(KeepMarkdown(files)) == KeepMarkdown(files)
  {
    FilterIdempotent(files, IsMarkdown);
  }

  /** `taggedFiles.some(f => f.path == x.path)`: membership by path. */
  predicate Tagged(taggedFiles: seq<File>, f: File)
  {
    exists g :: g in taggedFiles && g.path == f.path
  }

  function TaggedIn(taggedFiles: seq<File>): File -> bool
  {
    (f: File) => Tagged(taggedFiles, f)
  }

  /** `tagFilesMap[tag].some(...)` fails on a missing key, but only once
      there is a file to test: the lookup is defined when no tag is
      selected, when there are no files, or when the tag is in the map. */
  predicate TagLookupDefined(files: seq<File>, tag: string, tagMap: TagFilesMap)
  {
    tag == "" || files == [] || tag in tagMap
  }

  /** `filterTag`: with no tag the files are returned unchanged; otherwise
      the files, in order, whose path is the path of some file the tag
      index lists for the tag. */
  function FilterTag(files: seq<File>, tag: string, tagMap: TagFilesMap): (r: seq<File>)
    requires TagLookupDefined(files, tag, tagMap)
    ensures tag == "" ==> r == files
    ensures IsSubsequence(r, files)
    ensures tag != "" && tag in tagMap ==>
      forall f :: f in r <==> f in files && Tagged(tagMap[tag], f)
    ensures tag != "" && tag in tagMap ==>
      forall f :: multiset(r)[f] == if Tagged(tagMap[tag], f) then multiset(files)[f] else 0
  {
    if tag == "" then
      SubsequenceOfSelf(files);
      files
    else if tag !in tagMap then
      // only reachable with no files: the TypeScript `filter` callback never runs
      []
    else
      FilterIsSubsequence(files, TaggedIn(tagMap[tag]));
      FilterMultiplicities(files, TaggedIn(tagMap[tag]));
      Filter(files, TaggedIn(tagMap[tag]))
  }

  /** The markdown files that survive the excluded-folder filter. */
  function FolderStage(files: seq<File>, excludedFolders: string): seq<File>
  {
    FilterExcludedFolders(KeepMarkdown(files), excludedFolders)
  }

  predicate CanFilter(files: seq<File>, settings: Settings, tagMap: TagFilesMap)
  {
    TagLookupDefined(FolderStage(files, settings.excludedFolders), settings.selectedTag, tagMap)
  }

  /** A file `openRandomNote` may pick: markdown, outside every excluded
      entry and, when a tag is selected, listed under it by path. */
  predicate Eligible(f: File, settings: Settings, tagMap: TagFilesMap)
  {
    && f.extension == "md"
    && OutsideAll(ParseExcludedFolders(settings.excludedFolders), f.path)
    && (settings.selectedTag == "" ||
        (settings.selectedTag in tagMap && Tagged(tagMap[settings.selectedTag], f)))
  }

  /** The candidate list `openRandomNote` picks from: the eligible files,
      in order, each with all its occurrences. */
  function Candidates(files: seq<File>, settings: Settings, tagMap: TagFilesMap): (r: seq<File>)
    requires CanFilter(files, settings, tagMap)
    ensures IsSubsequence(r, files)
    ensures forall f :: f in r <==> f in files && Eligible(f, settings, tagMap)
    ensures forall f :: multiset(r)[f] == if Eligible(f, settings, tagMap) then multiset(files)[f] else 0
  {
    var markdown := KeepMarkdown(files);
    var stage := FilterExcludedFolders(markdown, settings.excludedFolders);
    var r := FilterTag(stage, settings.selectedTag, tagMap);
    SubsequenceTransitive(stage, markdown, files);
    SubsequenceTransitive(r, stage, files);
    r
  }

  /** `handleOpenRandomNote` already removes the excluded folders before
      `openRandomNote` filters again: the second exclusion adds nothing, so
      the candidates are those of the unfiltered vault. */
  lemma PrefilterRedundant(vault: seq<File>, excludedFolders: string)
    ensures FolderStage(FilterExcludedFolders(vault, excludedFolders), excludedFolders)
         == FolderStage(vault, excludedFolders)
  {
    var keep := NotExcluded(ParseExcludedFolders(excludedFolders));
    FilterCommutes(vault, keep, IsMarkdown);
    FilterIdempotent(Filter(vault, IsMarkdown), keep);
  }
}
