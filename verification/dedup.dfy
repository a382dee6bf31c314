/** The merge with the duplicate-filename hole closed: a URL is also
    skipped when an earlier URL of the same list carries its filename, as if
    each filename joined the known set once its block is appended. For a
    list whose filenames are distinct this is the merge as written. */
module DedupMerge {
  import opened Common
  import opened PosixPath
  import opened Url
  import opened Blocks
  import opened Lines
  import opened IndexMerge

  /** The filenames known after the loop has seen `urls`: the initial ones
      and the filename of every URL met so far. */
  function Known(seen: set<string>, urls: seq<string>, filename: string -> string): set<string>
  {
    seen + set j | 0 <= j < |urls| :: filename(urls[j])
  }

  lemma KnownSnoc(seen: set<string>, urls: seq<string>, filename: string -> string)
    requires urls != []
    ensures Known(seen, urls, filename) ==
      Known(seen, urls[..|urls| - 1], filename) + {filename(urls[|urls| - 1])}
  {
    var init := urls[..|urls| - 1];
    forall j | 0 <= j < |init| ensures init[j] == urls[j] { }
  }

  /** The corrected loop: the blocks appended, in list order, or the error
      that aborts the run. */
  function NewBlocksDedup(seen: set<string>, urls: seq<string>, filename: string -> string,
                          generate: string -> Result<FileBlock>): (r: Result<seq<FileBlock>>)
    ensures r.Success? ==> |r.value| <= |urls|
    decreases |urls|
  {
    if urls == [] then Success([])
    else
      var init := urls[..|urls| - 1];
      var u := urls[|urls| - 1];
      match NewBlocksDedup(seen, init, filename, generate)
      case Failure(e) => Failure(e)
      case Success(added) =>
        if filename(u) in Known(seen, init, filename) then Success(added)
        else match generate(u)
          case Failure(e) => Failure(e)
          case Success(b) => Success(added + [b])
  }

  lemma BasenamesJoin(files: seq<FileBlock>, added: seq<FileBlock>)
    ensures Basenames(files + added) == Basenames(files) + Basenames(added)
  {
    var all := files + added;
    forall x | x in Basenames(all) ensures x in Basenames(files) || x in Basenames(added) {
      var j :| 0 <= j < |all| && Basename(all[j].path) == x;
      if j < |files| {
        assert all[j] == files[j];
      } else {
        assert all[j] == added[j - |files|];
      }
    }
    forall x | x in Basenames(files) ensures x in Basenames(all) {
      var j :| 0 <= j < |files| && Basename(files[j].path) == x;
      assert all[j] == files[j];
    }
    forall x | x in Basenames(added) ensures x in Basenames(all) {
      var j :| 0 <= j < |added| && Basename(added[j].path) == x;
      assert all[|files| + j] == added[j];
    }
  }

  /** Blocks whose filenames are all outside `seen` and pairwise distinct. */
  predicate FreshOver(seen: set<string>, added: seq<FileBlock>)
  {
    && (forall k :: 0 <= k < |added| ==> Basename(added[k].path) !in seen)
    && UniqueBasenames(added)
  }

  lemma FreshSnoc(seen: set<string>, added: seq<FileBlock>, b: FileBlock)
    requires FreshOver(seen, added)
    requires Basename(b.path) !in seen + Basenames(added)
    ensures FreshOver(seen, added + [b])
  {
    OutsideSnoc(seen, added, b);
    forall i | 0 <= i < |added| ensures Basename(added[i].path) != Basename(b.path) {
      InBasenames(added, i);
    }
    UniqueSnoc(added, b);
  }

  lemma OutsideSnoc(seen: set<string>, added: seq<FileBlock>, b: FileBlock)
    requires forall k :: 0 <= k < |added| ==> Basename(added[k].path) !in seen
    requires Basename(b.path) !in seen
    ensures forall k :: 0 <= k < |added| + 1 ==> Basename((added + [b])[k].path) !in seen
  {
    var added' := added + [b];
    forall k | 0 <= k < |added'| ensures Basename(added'[k].path) !in seen {
      if k < |added| {
        assert added'[k] == added[k];
      } else {
        assert added'[k] == b;
      }
    }
  }

  lemma InBasenames(files: seq<FileBlock>, i: nat)
    requires i < |files|
    ensures Basename(files[i].path) in Basenames(files)
  {
  }

  lemma UniqueSnoc(added: seq<FileBlock>, b: FileBlock)
    requires UniqueBasenames(added)
    requires forall i :: 0 <= i < |added| ==> Basename(added[i].path) != Basename(b.path)
    ensures UniqueBasenames(added + [b])
  {
    var added' := added + [b];
    forall i, j | 0 <= i < j < |added'| ensures Basename(added'[i].path) != Basename(added'[j].path) {
      assert added'[i] == added[i];
      if j < |added| {
        assert added'[j] == added[j];
      } else {
        assert added'[j] == b;
      }
    }
  }

  lemma KnownAfterAppend(seen: set<string>, known: set<string>, added: seq<FileBlock>, b: FileBlock, name: string)
    requires known == seen + Basenames(added)
    requires Basename(b.path) == name
    ensures known + {name} == seen + Basenames(added + [b])
  {
    BasenamesSnoc(added, b);
  }

  /** With a generator that files each block under its URL's filename, the
      filenames known after the corrected loop are the initial ones and
      those of the appended blocks. */
  lemma {:induction false} DedupKnown(seen: set<string>, urls: seq<string>, filename: string -> string,
                                      generate: string -> Result<FileBlock>)
    requires Faithful(filename, generate)
    requires NewBlocksDedup(seen, urls, filename, generate).Success?
    ensures Known(seen, urls, filename) == seen + Basenames(NewBlocksDedup(seen, urls, filename, generate).value)
    decreases |urls|
  {
    var added := NewBlocksDedup(seen, urls, filename, generate).value;
    if urls == [] {
      assert Basenames(added) == {};
    } else {
      var init := urls[..|urls| - 1];
      var u := urls[|urls| - 1];
      DedupKnown(seen, init, filename, generate);
      KnownSnoc(seen, urls, filename);
      var added' := NewBlocksDedup(seen, init, filename, generate).value;
      var known' := Known(seen, init, filename);
      if filename(u) in known' {
        assert added == added';
      } else {
        var b := generate(u).value;
        assert added == added' + [b];
        assert Basename(b.path) == filename(u);
        KnownAfterAppend(seen, known', added', b, filename(u));
      }
    }
  }

  /** With such a generator the corrected loop appends only new filenames
      and never one twice. */
  lemma {:induction false} DedupFresh(seen: set<string>, urls: seq<string>, filename: string -> string,
                                      generate: string -> Result<FileBlock>)
    requires Faithful(filename, generate)
    requires NewBlocksDedup(seen, urls, filename, generate).Success?
    ensures FreshOver(seen, NewBlocksDedup(seen, urls, filename, generate).value)
    decreases |urls|
  {
    if urls != [] {
      var init := urls[..|urls| - 1];
      var u := urls[|urls| - 1];
      DedupFresh(seen, init, filename, generate);
      DedupKnown(seen, init, filename, generate);
      var added' := NewBlocksDedup(seen, init, filename, generate).value;
      if filename(u) !in Known(seen, init, filename) {
        var b := generate(u).value;
        assert Basename(b.path) == filename(u);
        FreshSnoc(seen, added', b);
      }
    }
  }

  /** When the list's filenames are distinct, the corrected loop and the loop
      as written agree, error for error and block for block. */
  lemma {:induction false} DedupAgrees(seen: set<string>, urls: seq<string>, filename: string -> string,
                                       generate: string -> Result<FileBlock>)
    requires forall i, j :: 0 <= i < j < |urls| ==> filename(urls[i]) != filename(urls[j])
    ensures NewBlocksDedup(seen, urls, filename, generate) == NewBlocks(seen, urls, filename, generate)
    decreases |urls|
  {
    if urls != [] {
      var init := urls[..|urls| - 1];
      var u := urls[|urls| - 1];
      forall i, j | 0 <= i < j < |init| ensures filename(init[i]) != filename(init[j]) {
        assert init[i] == urls[i] && init[j] == urls[j];
      }
      DedupAgrees(seen, init, filename, generate);
      forall j | 0 <= j < |init| ensures filename(init[j]) != filename(u) {
        assert init[j] == urls[j];
      }
      assert filename(u) in Known(seen, init, filename) <==> filename(u) in seen;
    }
  }

  /** Nothing is appended when every filename of the list is already known. */
  lemma {:induction false} DedupNothingMissing(seen: set<string>, urls: seq<string>, filename: string -> string,
                                               generate: string -> Result<FileBlock>)
    requires forall i :: 0 <= i < |urls| ==> filename(urls[i]) in seen
    ensures NewBlocksDedup(seen, urls, filename, generate) == Success([])
    decreases |urls|
  {
    if urls != [] {
      var init := urls[..|urls| - 1];
      forall i | 0 <= i < |init| ensures filename(init[i]) in seen {
        assert init[i] == urls[i];
      }
      DedupNothingMissing(seen, init, filename, generate);
    }
  }

  /** The corrected merge for a given filename extractor and block generator. */
  function MergeDedupWith(idx: Index, versionId: string, name: string, urls: seq<string>,
                          filename: string -> string, generate: string -> Result<FileBlock>): (r: Result<Index>)
    ensures r.Success? ==> r.value.name == name && r.value.versionId == versionId && r.value.others == idx.others
    ensures r.Success? ==> idx.files <= r.value.files && |r.value.files| <= |idx.files| + |urls|
  {
    match NewBlocksDedup(Basenames(idx.files), urls, filename, generate)
    case Failure(e) => Failure(e)
    case Success(added) => Success(idx.(name := name, versionId := versionId, files := idx.files + added))
  }

  /** Two file lists without a shared filename, each duplicate-free, join
      into a duplicate-free list. */
  lemma UniqueJoin(files: seq<FileBlock>, added: seq<FileBlock>)
    requires UniqueBasenames(files) && UniqueBasenames(added)
    requires forall k :: 0 <= k < |added| ==> Basename(added[k].path) !in Basenames(files)
    ensures UniqueBasenames(files + added)
  {
    var all := files + added;
    forall i, j | 0 <= i < j < |all| ensures Basename(all[i].path) != Basename(all[j].path) {
      if j >= |files| {
        assert all[j] == added[j - |files|];
        if i < |files| {
          assert all[i] == files[i];
          assert Basename(files[i].path) in Basenames(files);
        } else {
          assert all[i] == added[i - |files|];
        }
      } else {
        assert all[i] == files[i] && all[j] == files[j];
      }
    }
  }

  /** The corrected merge keeps an index free of duplicate filenames. */
  lemma DedupWithUnique(idx: Index, versionId: string, name: string, urls: seq<string>,
                        filename: string -> string, generate: string -> Result<FileBlock>)
    requires Faithful(filename, generate)
    requires UniqueBasenames(idx.files)
    requires MergeDedupWith(idx, versionId, name, urls, filename, generate).Success?
    ensures UniqueBasenames(MergeDedupWith(idx, versionId, name, urls, filename, generate).value.files)
  {
    var seen := Basenames(idx.files);
    var added := NewBlocksDedup(seen, urls, filename, generate).value;
    DedupFresh(seen, urls, filename, generate);
    UniqueJoin(idx.files, added);
  }

  /** After the corrected merge every filename of the list names some file. */
  lemma DedupWithKnown(idx: Index, versionId: string, name: string, urls: seq<string>,
                       filename: string -> string, generate: string -> Result<FileBlock>)
    requires Faithful(filename, generate)
    requires MergeDedupWith(idx, versionId, name, urls, filename, generate).Success?
    ensures var once := MergeDedupWith(idx, versionId, name, urls, filename, generate).value;
      forall i :: 0 <= i < |urls| ==> filename(urls[i]) in Basenames(once.files)
  {
    var seen := Basenames(idx.files);
    var added := NewBlocksDedup(seen, urls, filename, generate).value;
    DedupKnown(seen, urls, filename, generate);
    BasenamesJoin(idx.files, added);
    forall i | 0 <= i < |urls| ensures filename(urls[i]) in seen + Basenames(added) {
      assert filename(urls[i]) in Known(seen, urls, filename);
    }
  }

  /** Re-running the corrected merge with the same list appends nothing. */
  lemma DedupIdempotentWith(idx: Index, versionId: string, name: string, urls: seq<string>,
                            filename: string -> string, generate: string -> Result<FileBlock>,
                            versionId': string, name': string, generate': string -> Result<FileBlock>)
    requires Faithful(filename, generate)
    requires MergeDedupWith(idx, versionId, name, urls, filename, generate).Success?
    ensures var once := MergeDedupWith(idx, versionId, name, urls, filename, generate).value;
      MergeDedupWith(once, versionId', name', urls, filename, generate') == Success(once.(name := name', versionId := versionId'))
  {
    var once := MergeDedupWith(idx, versionId, name, urls, filename, generate).value;
    DedupWithKnown(idx, versionId, name, urls, filename, generate);
    DedupNothingMissing(Basenames(once.files), urls, filename, generate');
    assert once.files + [] == once.files;
  }

  /** The corrected merge of the script: filenames from URLs, blocks from the
      world. */
  function MergeDedup(idx: Index, versionId: string, name: string, urls: seq<string>, w: World): (r: Result<Index>)
    ensures r.Success? ==> r.value.name == name && r.value.versionId == versionId && r.value.others == idx.others
    ensures r.Success? ==> idx.files <= r.value.files
  {
    MergeDedupWith(idx, versionId, name, urls, Filename, Generate(w))
  }

  /** An index free of duplicate filenames stays so under the corrected
      merge, and a second run with the same list appends nothing. */
  lemma MergeDedupUnique(idx: Index, versionId: string, name: string, urls: seq<string>, w: World,
                         versionId': string, name': string, w': World)
    requires UniqueBasenames(idx.files)
    requires MergeDedup(idx, versionId, name, urls, w).Success?
    ensures var once := MergeDedup(idx, versionId, name, urls, w).value;
      && UniqueBasenames(once.files)
      && MergeDedup(once, versionId', name', urls, w') == Success(once.(name := name', versionId := versionId'))
  {
    GenerateIsFaithful(w);
    DedupWithUnique(idx, versionId, name, urls, Filename, Generate(w));
    DedupIdempotentWith(idx, versionId, name, urls, Filename, Generate(w), versionId', name', Generate(w'));
  }

  /** On a list without repeated filenames the correction changes nothing. */
  lemma MergeDedupAgrees(idx: Index, versionId: string, name: string, urls: seq<string>, w: World)
    requires forall i, j :: 0 <= i < j < |urls| ==> Filename(urls[i]) != Filename(urls[j])
    ensures MergeDedup(idx, versionId, name, urls, w) == Merge(idx, versionId, name, urls, w)
  {
    DedupAgrees(Basenames(idx.files), urls, Filename, Generate(w));
  }

  lemma DedupTwiceWith(idx: Index, versionId: string, name: string, url: string,
                       filename: string -> string, generate: string -> Result<FileBlock>)
    requires filename(url) !in Basenames(idx.files)
    requires generate(url).Success?
    ensures MergeDedupWith(idx, versionId, name, [url, url], filename, generate)
      == Success(idx.(name := name, versionId := versionId, files := idx.files + [generate(url).value]))
  {
    var seen := Basenames(idx.files);
    assert [url, url][..1] == [url];
    assert [url][..0] == [];
    assert Known(seen, [], filename) == seen;
    assert [] + [generate(url).value] == [generate(url).value];
    assert NewBlocksDedup(seen, [url], filename, generate) == Success([generate(url).value]);
    assert filename(url) in Known(seen, [url], filename);
  }

  /** The corrected merge on a URL listed twice whose filename is new: one
      block, and the filename once. */
  lemma DuplicateUrlAppendedOnce(idx: Index, versionId: string, name: string, url: string, w: World)
    requires Filename(url) !in Basenames(idx.files)
    requires GenerateFileBlock(url, w).Success?
    ensures MergeDedup(idx, versionId, name, [url, url], w)
      == Success(idx.(name := name, versionId := versionId, files := idx.files + [GenerateFileBlock(url, w).value]))
  {
    assert Generate(w)(url) == GenerateFileBlock(url, w);
    DedupTwiceWith(idx, versionId, name, url, Filename, Generate(w));
  }

  /** One more turn of the corrected loop. */
  lemma DedupSnoc(seen: set<string>, urls: seq<string>, filename: string -> string,
                  generate: string -> Result<FileBlock>, i: nat, added: seq<FileBlock>)
    requires i < |urls|
    requires NewBlocksDedup(seen, urls[..i], filename, generate) == Success(added)
    ensures Known(seen, urls[..i + 1], filename) == Known(seen, urls[..i], filename) + {filename(urls[i])}
    ensures NewBlocksDedup(seen, urls[..i + 1], filename, generate) ==
      if filename(urls[i]) in Known(seen, urls[..i], filename) then Success(added)
      else match generate(urls[i])
        case Failure(e) => Failure(e)
        case Success(b) => Success(added + [b])
  {
    assert urls[..i + 1][..i] == urls[..i];
    KnownSnoc(seen, urls[..i + 1], filename);
  }

  /** Cutting the list after a URL whose block fails leaves the outcome of
      the corrected loop as it is. */
  lemma {:induction false} DedupFailureSticks(seen: set<string>, urls: seq<string>, filename: string -> string,
                                              generate: string -> Result<FileBlock>, j: nat)
    requires j <= |urls|
    requires NewBlocksDedup(seen, urls[..j], filename, generate).Failure?
    ensures NewBlocksDedup(seen, urls, filename, generate) == NewBlocksDedup(seen, urls[..j], filename, generate)
    decreases |urls| - j
  {
    if j < |urls| {
      var init := urls[..|urls| - 1];
      assert init[..j] == urls[..j];
      DedupFailureSticks(seen, init, filename, generate, j);
    } else {
      assert urls[..j] == urls;
    }
  }

  /** The corrected loop as a script would run it: the known filenames are a
      set that grows by each URL's filename as the loop goes. */
  method MergeLoopDedup(idx: Index, versionId: string, name: string, urls: seq<string>,
                        filename: string -> string, generate: string -> Result<FileBlock>)
    returns (r: Result<Index>)
    ensures r == MergeDedupWith(idx, versionId, name, urls, filename, generate)
  {
    var seen := Basenames(idx.files);
    var known := seen;
    var added: seq<FileBlock> := [];
    assert urls[..0] == [];
    for i := 0 to |urls|
      invariant NewBlocksDedup(seen, urls[..i], filename, generate) == Success(added)
      invariant known == Known(seen, urls[..i], filename)
    {
      var url := urls[i];
      DedupSnoc(seen, urls, filename, generate, i, added);
      var fname := filename(url);
      if fname !in known {
        var block := generate(url);
        if block.Failure? {
          DedupFailureSticks(seen, urls, filename, generate, i + 1);
          return Failure(block.error);
        }
        added := added + [block.value];
      }
      known := known + {fname};
    }
    assert urls[..|urls|] == urls;
    return Success(idx.(name := name, versionId := versionId, files := idx.files + added));
  }

  /** The script with the correction, on the text of the mod list. */
  method MergeModsDedup(idx: Index, versionId: string, name: string, listText: string, w: World)
    returns (r: Result<Index>)
    ensures r == MergeDedup(idx, versionId, name, UrlLines(listText), w)
  {
    r := MergeLoopDedup(idx, versionId, name, UrlLines(listText), Filename, Generate(w));
  }
}
