/** `merge_mods` without its file and console I/O: given the index document
    and the URLs of the mod list, append a block for every URL whose
    filename the index does not hold yet, and relabel the document. */
module IndexMerge {
  import opened Common
  import opened PosixPath
  import opened Url
  import opened Lines
  import opened Blocks

  /** The index document: the two labels a run overwrites, the file list,
      and every other top-level field, passed through untouched. */
  datatype Index = Index(
    name: string,
    versionId: string,
    files: seq<FileBlock>,
    others: map<string, Json>)

  /** The filenames the index already holds: the basename of each path. */
  function Basenames(files: seq<FileBlock>): set<string>
  {
    set i | 0 <= i < |files| :: Basename(files[i].path)
  }

  /** A filename is known exactly when it is the basename of the path of
      some existing entry. */
  lemma BasenamesMember(files: seq<FileBlock>, x: string)
    ensures x in Basenames(files) <==> exists i :: 0 <= i < |files| && Basename(files[i].path) == x
  {
  }

  /** One more entry adds its own filename to the known set, and nothing else. */
  lemma BasenamesSnoc(files: seq<FileBlock>, b: FileBlock)
    ensures Basenames(files + [b]) == Basenames(files) + {Basename(b.path)}
  {
    var files' := files + [b];
    forall x | x in Basenames(files') ensures x in Basenames(files) || x == Basename(b.path) {
      var j :| 0 <= j < |files'| && Basename(files'[j].path) == x;
      if j < |files| {
        assert files'[j] == files[j];
      }
    }
    forall x | x in Basenames(files) ensures x in Basenames(files') {
      var j :| 0 <= j < |files| && Basename(files[j].path) == x;
      assert files'[j] == files[j];
    }
    assert files'[|files|] == b;
  }

  /** Positions, in list order, of the URLs the loop appends a block for. */
  function Appended(seen: set<string>, urls: seq<string>, filename: string -> string): (ps: seq<nat>)
    ensures forall k :: 0 <= k < |ps| ==> ps[k] < |urls|
    decreases |urls|
  {
    if urls == [] then []
    else
      var ps := Appended(seen, urls[..|urls| - 1], filename);
      if filename(urls[|urls| - 1]) in seen then ps else ps + [|urls| - 1]
  }

  /** A URL is appended exactly when its filename is not in `seen`, the set
      taken before the loop; appended URLs keep their list order. */
  lemma {:induction false} AppendedSpec(seen: set<string>, urls: seq<string>, filename: string -> string)
    ensures var ps := Appended(seen, urls, filename);
      forall k, l :: 0 <= k < l < |ps| ==> ps[k] < ps[l]
    ensures var ps := Appended(seen, urls, filename);
      forall i :: 0 <= i < |urls| ==> (i in ps <==> filename(urls[i]) !in seen)
    decreases |urls|
  {
    if urls != [] {
      var n := |urls|;
      var init := urls[..n - 1];
      var ps := Appended(seen, urls, filename);
      var ps' := Appended(seen, init, filename);
      AppendedSpec(seen, init, filename);
      AppendedStep(seen, urls, filename);
      forall i | 0 <= i < n ensures i in ps <==> filename(urls[i]) !in seen {
        if i < n - 1 {
          assert init[i] == urls[i];
          assert i in ps <==> i in ps';
        }
      }
    }
  }

  /** Appending a URL to the list: its position joins the appended ones
      exactly when its filename is not in `seen`. */
  lemma AppendedStep(seen: set<string>, urls: seq<string>, filename: string -> string)
    requires urls != []
    ensures var ps', u := Appended(seen, urls[..|urls| - 1], filename), urls[|urls| - 1];
      Appended(seen, urls, filename) == if filename(u) in seen then ps' else ps' + [|urls| - 1]
  {
  }

  /** The loop of the merge, for any filename extractor and block generator:
      the blocks it appends, one per appended position and in that order, or
      the error that aborts it. `seen` stays fixed for the whole loop. */
  function NewBlocks(seen: set<string>, urls: seq<string>, filename: string -> string,
                     generate: string -> Result<FileBlock>): (r: Result<seq<FileBlock>>)
    ensures var ps := Appended(seen, urls, filename);
      r.Success? ==>
        && |r.value| == |ps|
        && forall k :: 0 <= k < |ps| ==> generate(urls[ps[k]]) == Success(r.value[k])
    decreases |urls|
  {
    if urls == [] then Success([])
    else
      var init := urls[..|urls| - 1];
      var u := urls[|urls| - 1];
      AppendedStep(seen, urls, filename);
      var ps' := Appended(seen, init, filename);
      assert forall k :: 0 <= k < |ps'| ==> urls[ps'[k]] == init[ps'[k]];
      match NewBlocks(seen, init, filename, generate)
      case Failure(e) => Failure(e)
      case Success(added) =>
        if filename(u) in seen then Success(added)
        else match generate(u)
          case Failure(e) => Failure(e)
          case Success(b) => Success(added + [b])
  }

  /** The loop runs to its end exactly when every appended URL yields a
      block. */
  lemma {:induction false} NewBlocksSucceeds(seen: set<string>, urls: seq<string>, filename: string -> string,
                                             generate: string -> Result<FileBlock>)
    ensures var ps := Appended(seen, urls, filename);
      NewBlocks(seen, urls, filename, generate).Success? <==>
        forall k :: 0 <= k < |ps| ==> generate(urls[ps[k]]).Success?
    decreases |urls|
  {
    if urls != [] {
      var init := urls[..|urls| - 1];
      var u := urls[|urls| - 1];
      var ps := Appended(seen, urls, filename);
      var ps' := Appended(seen, init, filename);
      AppendedStep(seen, urls, filename);
      NewBlocksSucceeds(seen, init, filename, generate);
      assert forall k :: 0 <= k < |ps'| ==> ps[k] == ps'[k] && urls[ps[k]] == init[ps'[k]];
      if filename(u) !in seen {
        assert urls[ps[|ps'|]] == u;
      }
    }
  }

  /** Positions picked from a prefix of the list pick the same URLs from
      the whole list. */
  lemma PrefixPicks(urls: seq<string>, init: seq<string>, ps: seq<nat>, ps': seq<nat>,
                    generate: string -> Result<FileBlock>, k: nat)
    requires init <= urls && ps' <= ps && k <= |ps'|
    requires forall m :: 0 <= m < |ps'| ==> ps'[m] < |init|
    requires forall j :: 0 <= j < k ==> generate(init[ps'[j]]).Success?
    ensures forall j :: 0 <= j < k ==> generate(urls[ps[j]]).Success?
    ensures k < |ps'| ==> urls[ps[k]] == init[ps'[k]]
  {
    forall j | 0 <= j < k ensures generate(urls[ps[j]]).Success? {
      assert ps[j] == ps'[j] && urls[ps[j]] == init[ps'[j]];
    }
    if k < |ps'| {
      assert ps[k] == ps'[k];
    }
  }

  /** When the loop stops early, it stops with the error of the first
      appended URL whose block fails, after all the earlier ones succeeded. */
  lemma {:induction false} NewBlocksFirstFailure(seen: set<string>, urls: seq<string>, filename: string -> string,
                                                 generate: string -> Result<FileBlock>)
    requires NewBlocks(seen, urls, filename, generate).Failure?
    ensures var e, ps := NewBlocks(seen, urls, filename, generate).error, Appended(seen, urls, filename);
      exists k :: (0 <= k < |ps| && generate(urls[ps[k]]) == Failure(e)
        && forall j :: 0 <= j < k ==> generate(urls[ps[j]]).Success?)
    decreases |urls|
  {
    var e := NewBlocks(seen, urls, filename, generate).error;
    var init := urls[..|urls| - 1];
    var u := urls[|urls| - 1];
    var ps := Appended(seen, urls, filename);
    var ps' := Appended(seen, init, filename);
    AppendedStep(seen, urls, filename);
    assert ps' <= ps;
    var r' := NewBlocks(seen, init, filename, generate);
    if r'.Failure? {
      NewBlocksFirstFailure(seen, init, filename, generate);
      var k :| (0 <= k < |ps'| && generate(init[ps'[k]]) == Failure(r'.error)
        && forall j :: 0 <= j < k ==> generate(init[ps'[j]]).Success?);
      PrefixPicks(urls, init, ps, ps', generate, k);
      assert e == r'.error;
      assert 0 <= k < |ps| && generate(urls[ps[k]]) == Failure(e);
    } else {
      var k := |ps'|;
      assert forall j :: 0 <= j < k ==> generate(init[ps'[j]]) == Success(r'.value[j]);
      PrefixPicks(urls, init, ps, ps', generate, k);
      assert ps == ps' + [|urls| - 1];
      assert urls[ps[k]] == u;
      assert generate(u) == Failure(e);
    }
  }

  /** Cutting the list after a URL whose block fails leaves the outcome as it
      is: the loop never gets past that URL. */
  lemma {:induction false} FailureSticks(seen: set<string>, urls: seq<string>, filename: string -> string,
                                         generate: string -> Result<FileBlock>, j: nat)
    requires j <= |urls|
    requires NewBlocks(seen, urls[..j], filename, generate).Failure?
    ensures NewBlocks(seen, urls, filename, generate) == NewBlocks(seen, urls[..j], filename, generate)
    decreases |urls| - j
  {
    if j < |urls| {
      var init := urls[..|urls| - 1];
      assert init[..j] == urls[..j];
      FailureSticks(seen, init, filename, generate, j);
    } else {
      assert urls[..j] == urls;
    }
  }

  /** Positions of the list whose filename is not in `seen`. */
  function Missing(seen: set<string>, urls: seq<string>, filename: string -> string): set<int>
  {
    set i | 0 <= i < |urls| && filename(urls[i]) !in seen
  }

  lemma MissingStep(seen: set<string>, urls: seq<string>, filename: string -> string)
    requires urls != []
    ensures var n := |urls|;
      |Missing(seen, urls, filename)| ==
        |Missing(seen, urls[..n - 1], filename)| + if filename(urls[n - 1]) in seen then 0 else 1
  {
    var n := |urls|;
    var init := urls[..n - 1];
    var missing, missing' := Missing(seen, urls, filename), Missing(seen, init, filename);
    forall i ensures i in missing <==> i in missing' || (i == n - 1 && filename(urls[n - 1]) !in seen) {
      if 0 <= i < n - 1 {
        assert init[i] == urls[i];
      }
    }
    if filename(urls[n - 1]) in seen {
      assert missing == missing';
    } else {
      assert missing == missing' + {n - 1};
    }
  }

  /** As many blocks are appended as the list has entries whose filename is
      not among the initial ones: a name repeated in the list counts once per
      occurrence. */
  lemma {:induction false} AppendedCount(seen: set<string>, urls: seq<string>, filename: string -> string)
    ensures |Appended(seen, urls, filename)| == |set i | 0 <= i < |urls| && filename(urls[i]) !in seen|
    decreases |urls|
  {
    assert Missing(seen, urls, filename) == set i | 0 <= i < |urls| && filename(urls[i]) !in seen;
    if urls == [] {
      assert Missing(seen, urls, filename) == {};
    } else {
      AppendedStep(seen, urls, filename);
      AppendedCount(seen, urls[..|urls| - 1], filename);
      MissingStep(seen, urls, filename);
    }
  }

  /** When every URL's filename is already known, the loop appends nothing,
      whatever the generator would do. */
  lemma NothingMissing(seen: set<string>, urls: seq<string>, filename: string -> string,
                       generate: string -> Result<FileBlock>)
    requires forall i :: 0 <= i < |urls| ==> filename(urls[i]) in seen
    ensures NewBlocks(seen, urls, filename, generate) == Success([])
  {
    var ps := Appended(seen, urls, filename);
    AppendedSpec(seen, urls, filename);
    NewBlocksSucceeds(seen, urls, filename, generate);
  }

  /** No two files share a filename. */
  predicate UniqueBasenames(files: seq<FileBlock>)
  {
    forall i, j :: 0 <= i < j < |files| ==> Basename(files[i].path) != Basename(files[j].path)
  }

  /** Every block the generator produces sits under the URL's filename. */
  ghost predicate Faithful(filename: string -> string, generate: string -> Result<FileBlock>)
  {
    forall link :: generate(link).Success? ==> Basename(generate(link).value.path) == filename(link)
  }

  /** The merge for a given filename extractor and block generator: relabel
      the index and append, after the existing files and in list order, the
      block of every URL whose filename none of the existing files has. */
  function MergeWith(idx: Index, versionId: string, name: string, urls: seq<string>,
                     filename: string -> string, generate: string -> Result<FileBlock>): (r: Result<Index>)
    ensures r.Success? ==> r.value.name == name && r.value.versionId == versionId && r.value.others == idx.others
    ensures r.Success? ==> idx.files <= r.value.files
    ensures var ps := Appended(Basenames(idx.files), urls, filename);
      r.Success? ==>
        && |r.value.files| == |idx.files| + |ps|
        && forall k :: 0 <= k < |ps| ==> generate(urls[ps[k]]) == Success(r.value.files[|idx.files| + k])
  {
    match NewBlocks(Basenames(idx.files), urls, filename, generate)
    case Failure(e) => Failure(e)
    case Success(added) => Success(idx.(name := name, versionId := versionId, files := idx.files + added))
  }

  /** Files only ever being added, every filename known before is known after. */
  lemma BasenamesGrow(files: seq<FileBlock>, files': seq<FileBlock>)
    requires files <= files'
    ensures Basenames(files) <= Basenames(files')
  {
    forall name | name in Basenames(files) ensures name in Basenames(files') {
      var j :| 0 <= j < |files| && Basename(files[j].path) == name;
      assert files'[j] == files[j];
    }
  }

  /** After a merge, the filename of every URL of the list is the basename of
      some file: it was there before, or its block was just appended. */
  lemma MergedNamesKnown(idx: Index, versionId: string, name: string, urls: seq<string>,
                         filename: string -> string, generate: string -> Result<FileBlock>)
    requires Faithful(filename, generate)
    requires MergeWith(idx, versionId, name, urls, filename, generate).Success?
    ensures var once := MergeWith(idx, versionId, name, urls, filename, generate).value;
      forall i :: 0 <= i < |urls| ==> filename(urls[i]) in Basenames(once.files)
  {
    var once := MergeWith(idx, versionId, name, urls, filename, generate).value;
    var seen := Basenames(idx.files);
    var ps := Appended(seen, urls, filename);
    AppendedSpec(seen, urls, filename);
    BasenamesGrow(idx.files, once.files);
    forall i | 0 <= i < |urls| && filename(urls[i]) !in seen
      ensures filename(urls[i]) in Basenames(once.files)
    {
      assert i in ps;
      var k :| 0 <= k < |ps| && ps[k] == i;
      var b := once.files[|idx.files| + k];
      assert generate(urls[i]) == Success(b);
      assert Basename(b.path) == filename(urls[i]);
    }
  }

  /** A second run with the same list appends nothing and generates nothing:
      every URL's filename is now the basename of some file's path. Only the
      labels change. */
  lemma IdempotentWith(idx: Index, versionId: string, name: string, urls: seq<string>,
                       filename: string -> string, generate: string -> Result<FileBlock>,
                       versionId': string, name': string, generate': string -> Result<FileBlock>)
    requires Faithful(filename, generate)
    requires MergeWith(idx, versionId, name, urls, filename, generate).Success?
    ensures var once := MergeWith(idx, versionId, name, urls, filename, generate).value;
      MergeWith(once, versionId', name', urls, filename, generate') == Success(once.(name := name', versionId := versionId'))
  {
    var once := MergeWith(idx, versionId, name, urls, filename, generate).value;
    MergedNamesKnown(idx, versionId, name, urls, filename, generate);
    NothingMissing(Basenames(once.files), urls, filename, generate');
    assert once.files + [] == once.files;
  }

  /** A URL listed twice whose filename is new gets two blocks under the same
      filename: the basename set is not updated inside the loop. */
  lemma DuplicateWith(idx: Index, versionId: string, name: string, url: string,
                      filename: string -> string, generate: string -> Result<FileBlock>)
    requires filename(url) !in Basenames(idx.files)
    requires generate(url).Success?
    ensures var b := generate(url).value;
      MergeWith(idx, versionId, name, [url, url], filename, generate)
        == Success(idx.(name := name, versionId := versionId, files := idx.files + [b, b]))
    ensures !UniqueBasenames(MergeWith(idx, versionId, name, [url, url], filename, generate).value.files)
  {
    var seen := Basenames(idx.files);
    var b := generate(url).value;
    TwiceAppended(seen, url, filename);
    NewBlocksSucceeds(seen, [url, url], filename, generate);
    var added := NewBlocks(seen, [url, url], filename, generate).value;
    assert added == [b, b];
    var files := idx.files + [b, b];
    assert Basename(files[|idx.files|].path) == Basename(files[|idx.files| + 1].path);
  }

  lemma TwiceAppended(seen: set<string>, url: string, filename: string -> string)
    requires filename(url) !in seen
    ensures Appended(seen, [url, url], filename) == [0, 1]
  {
    AppendedStep(seen, [url, url], filename);
    AppendedStep(seen, [url], filename);
    assert [url, url][..1] == [url];
    assert [url][..0] == [];
  }

  /** The generator the script uses: download the URL and describe the file. */
  function Generate(w: World): string -> Result<FileBlock>
  {
    link => GenerateFileBlock(link, w)
  }

  lemma GenerateIsFaithful(w: World)
    ensures Faithful(Filename, Generate(w))
  {
    forall link | Generate(w)(link).Success?
      ensures Basename(Generate(w)(link).value.path) == Filename(link)
    {
      BlockBasename(link, w);
    }
  }

  /** `merge_mods` on the loaded index and the URL list, with the script's
      own filename extractor and block generator. */
  function Merge(idx: Index, versionId: string, name: string, urls: seq<string>, w: World): (r: Result<Index>)
    ensures r.Success? ==> r.value.name == name && r.value.versionId == versionId && r.value.others == idx.others
    ensures r.Success? ==> idx.files <= r.value.files
  {
    MergeWith(idx, versionId, name, urls, Filename, Generate(w))
  }

  /** Re-running the merge with the same list appends nothing and downloads
      nothing; only `name` and `versionId` take the new values. */
  lemma MergeIdempotent(idx: Index, versionId: string, name: string, urls: seq<string>, w: World,
                        versionId': string, name': string, w': World)
    requires Merge(idx, versionId, name, urls, w).Success?
    ensures var once := Merge(idx, versionId, name, urls, w).value;
      Merge(once, versionId', name', urls, w') == Success(once.(name := name', versionId := versionId'))
  {
    GenerateIsFaithful(w);
    IdempotentWith(idx, versionId, name, urls, Filename, Generate(w), versionId', name', Generate(w'));
  }

  /** The script as written: a URL listed twice whose filename is new gets
      two blocks, and the index then holds that filename twice. */
  lemma DuplicateUrlAppendedTwice(idx: Index, versionId: string, name: string, url: string, w: World)
    requires Filename(url) !in Basenames(idx.files)
    requires GenerateFileBlock(url, w).Success?
    ensures var b := GenerateFileBlock(url, w).value;
      Merge(idx, versionId, name, [url, url], w)
        == Success(idx.(name := name, versionId := versionId, files := idx.files + [b, b]))
    ensures !UniqueBasenames(Merge(idx, versionId, name, [url, url], w).value.files)
  {
    GenerateIsFaithful(w);
    assert Generate(w)(url) == GenerateFileBlock(url, w);
    DuplicateWith(idx, versionId, name, url, Filename, Generate(w));
  }

  /** One more turn of the loop, from the blocks of the first `i` URLs to
      those of the first `i + 1`. */
  lemma NewBlocksSnoc(seen: set<string>, urls: seq<string>, filename: string -> string,
                      generate: string -> Result<FileBlock>, i: nat, added: seq<FileBlock>)
    requires i < |urls|
    requires NewBlocks(seen, urls[..i], filename, generate) == Success(added)
    ensures NewBlocks(seen, urls[..i + 1], filename, generate) ==
      if filename(urls[i]) in seen then Success(added)
      else match generate(urls[i])
        case Failure(e) => Failure(e)
        case Success(b) => Success(added + [b])
  {
    assert urls[..i + 1][..i] == urls[..i];
  }

  /** The loop of the merge written as the script runs it, for any filename
      extractor and block generator. */
  method MergeLoop(idx: Index, versionId: string, name: string, urls: seq<string>,
                   filename: string -> string, generate: string -> Result<FileBlock>)
    returns (r: Result<Index>)
    ensures r == MergeWith(idx, versionId, name, urls, filename, generate)
  {
    var filenames := Basenames(idx.files);
    var added: seq<FileBlock> := [];
    for i := 0 to |urls|
      invariant NewBlocks(filenames, urls[..i], filename, generate) == Success(added)
    {
      var url := urls[i];
      NewBlocksSnoc(filenames, urls, filename, generate, i, added);
      if filename(url) !in filenames {
        var block := generate(url);
        if block.Failure? {
          FailureSticks(filenames, urls, filename, generate, i + 1);
          return Failure(block.error);
        }
        added := added + [block.value];
      }
    }
    assert urls[..|urls|] == urls;
    return Success(idx.(name := name, versionId := versionId, files := idx.files + added));
  }

  /** The script's run on the text of the mod list: read the URLs, take the
      known filenames once, relabel, then walk the list appending a block
      for each URL whose filename is not known. Aborting leaves nothing
      written, which is what `Failure` stands for. */
  method MergeMods(idx: Index, versionId: string, name: string, listText: string, w: World)
    returns (r: Result<Index>)
    ensures r == Merge(idx, versionId, name, UrlLines(listText), w)
  {
    var urls := UrlLines(listText);
    r := MergeLoop(idx, versionId, name, urls, Filename, Generate(w));
  }
}
