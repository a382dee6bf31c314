# file_block_generate: a Dafny model

`file_block_generate.py` keeps the `files` list of a Modrinth modpack index
(`modrinth.index.json`) in step with a plain-text mod list (`modlist.txt`,
one download URL per line). For every URL whose filename the index does not
hold yet, it downloads the mod jar and appends a *file block*:

- the pack path `mods/<filename>`;
- the SHA-1 and SHA-512 digests of the download;
- the client/server support read from the jar's `fabric.mod.json`;
- the URL itself;
- the byte size.

It also overwrites the index's `name` and `versionId`.

This project models that logic and proves its properties:

- `read_env`'s mapping;
- `extract_filename_from_url` (`urlparse` followed by `os.path.basename`);
- the block `generate_file_block` builds;
- the filter-and-append loop of `merge_mods`, including reading the list
  with `readlines` and `strip('\n')`.

The modules follow the script:

| module | file | what it holds |
|---|---|---|
| `Common` | common.dfy | `Option`, `Result` (an exception becomes a `Failure`), errors, JSON values |
| `Text`, `PosixPath` | text.dfy | prefix/trim helpers; `os.path.basename` |
| `Url` | url.dfy | `urlsplit`/`urlparse` as far as the path goes, and the filename of a URL |
| `Lines` | lines.dfy | universal-newline translation, `readlines`, `strip('\n')` |
| `Environment` | environment.dfy | the `environment` → `env` mapping and the key lookup of `read_env` |
| `Blocks` | blocks.dfy | the file block, digests, and `generate_file_block` |
| `IndexMerge` | merge.dfy | the merge as written, as a function and as the script's loop |
| `DedupMerge` | dedup.dfy | the merge with the duplicate-filename gap closed (see Findings) |

The download, the two digest functions and the zip-and-JSON reading of the
jar are calls into libraries. They enter as the fields of a `World` value,
so every property holds whatever those functions return. An exception
anywhere aborts the whole run before the index is written back. The model
expresses this as a `Failure` result, and then no index is produced.

On these points the model follows the code:

- `requests.get` is never followed by a status check. A response with an
  error status is therefore not a failure: its body goes on to the zip
  reader, which is where such a run fails. `World.fetch` fails only where
  `requests.get` itself raises.
- `strip('\n')` strips both ends of each line. A line from `readlines` can
  hold a `\n` only at its end, so this is the same as stripping the end.
  `Lines.StripLine` proves it.
- A blank line in the list becomes the URL `""`, whose filename is `""`.
  Unless some existing path is empty or ends in `/`, that URL is fetched, and
  a failing fetch aborts the run.

## Model

| member | source | states |
|---|---|---|
| Environment.EnvFor | file_block_generate.py:23-39 | the `env` map has no keys or exactly `server` and `client`; it is empty exactly when `environment` is none of `"*"`, `"client"`, `"server"`; a side is `required` exactly when the value is `"*"` or names that side, and `unsupported` otherwise |
| Environment.EnvRoundTrip | file_block_generate.py:23-39 | the mapping is injective on the three recognised values: the value is recovered from its map, and any other value gives a map that recovers nothing |
| Environment.EnvInverse | file_block_generate.py:23-39 | a map that reads back as an `environment` value is exactly the map of that value |
| Environment.ReadEnv | file_block_generate.py:21-39 | the manifest must be a JSON object holding `environment`, otherwise the lookup raises (not an object, or missing key); when it succeeds, the result is the mapping of that field |
| Blocks.Hashes | file_block_generate.py:60-65 | the digest map has exactly the keys `sha1` and `sha512`, holding the SHA-1 and SHA-512 hex digests of the bytes |
| Blocks.ArchiveEnv | file_block_generate.py:93 | reading the body as a mod archive fails with the reader's error when the manifest cannot be read; otherwise the result is `read_env`'s lookup and mapping of that manifest |
| Blocks.GenerateFileBlock | file_block_generate.py:87-98 | a failed download aborts with its error; after a download, a block is built exactly when the archive's manifest yields an `env`, otherwise the reader's error is passed on; the block's size is the byte count of the body, its digests are those of the body, and its `env` is read from the body |
| Blocks.BlockBasename | file_block_generate.py:88-96 | a generated block has path `mods/` + the URL's filename, downloads exactly `[link]`, digest keys `sha1`/`sha512`, and an `env` with zero or two keys; the basename of its path is the URL's filename |
| PosixPath.Basename | file_block_generate.py:50 | the basename holds no `/`, is a suffix of the path, and is preceded by a `/` whenever it is shorter than the path |
| PosixPath.BasenameOfJoin | file_block_generate.py:91 | joining a directory ending in `/` (or empty) with a name free of `/` gives back that name as the basename |
| Url.RemoveUnsafe | file_block_generate.py:48 | no tab, CR or LF survives, and a URL without those characters is unchanged |
| Url.RemoveUnsafeAppend | file_block_generate.py:48 | the deletion keeps the order of what survives: the two halves of a URL are cleaned separately and put back in place |
| Url.RemoveUnsafeChar | file_block_generate.py:48 | one character is dropped exactly when it is a tab, CR or LF, and is otherwise kept as it is; with `RemoveUnsafeAppend` this fixes the result for every URL |
| Url.RemoveUnsafeCounts | file_block_generate.py:48 | every character other than tab, CR and LF occurs as often after the deletion as before |
| Url.SplitUrl | file_block_generate.py:48 | the scheme is a valid scheme name; the netloc holds none of `/?#`; after a netloc the path is empty or starts with `/`; the path holds no `?` or `#`; the query holds no `#` |
| Url.SplitComponents | file_block_generate.py:48 | the text before the first `:` is the scheme exactly when it is a valid scheme name; what follows the scheme has an authority exactly when it starts with `//`, and the authority runs to the first `/`, `?` or `#` |
| Url.SplitRoundTrip | file_block_generate.py:48 | scheme, netloc, path, query and fragment put back together give the cleaned URL: splitting loses nothing |
| Url.SplitParams | file_block_generate.py:48-49 | cutting `;params` yields a prefix of the path that keeps everything before the last segment, and whose last segment is that of the path up to its first `;` |
| Url.ParamsPath | file_block_generate.py:48-49 | from `urlsplit`'s path and the scheme: a prefix of that path that keeps its directory part; unchanged unless the scheme carries parameters and the last segment holds a `;`; for such schemes the last segment cut at its first `;` |
| Url.UrlPath | file_block_generate.py:48-49 | `urlparse`'s path is a prefix of `urlsplit`'s at least as long as its directory part, so the directory is kept; it is the same path unless the scheme carries parameters and the last segment holds a `;`; for such schemes its last segment is that of `urlsplit`'s path cut at the first `;` |
| Url.Filename | file_block_generate.py:48-51 | the filename holds no `/`, `?` or `#`, so no part of the query or fragment; it is the last `/`-segment of the URL's path, cut at the first `;` for the schemes that carry parameters |
| Lines.Translate | file_block_generate.py:108 | text-mode reading leaves no `\r` |
| Lines.TranslateAppend | file_block_generate.py:108 | translation keeps character order: a text cut anywhere except right after a `\r` translates as its two parts, one after the other |
| Lines.TranslateLineEnds | file_block_generate.py:108 | `\r\n` becomes exactly one `\n`, a `\r` not followed by `\n` becomes exactly one `\n`, and any other character reads as itself; with `TranslateAppend` this fixes the translation of every text |
| Lines.TranslatePlain | file_block_generate.py:108 | a text without `\r` is read unchanged |
| Lines.TranslateKeepsText | file_block_generate.py:108 | newline translation keeps the count of every character other than `\r` and `\n` |
| Lines.ReadLines | file_block_generate.py:109 | the lines concatenate back to the text; no line is empty; a `\n` occurs only as a line's last character; every line but the last ends in `\n` |
| Lines.StripLine | file_block_generate.py:109 | on a line `readlines` produces, `strip('\n')` removes exactly the final `\n`, if any |
| Lines.LinesRoundTrip | file_block_generate.py:108-109 | the stripped lines, each written back with a `\n`, give the text, plus a final `\n` when the text lacked one |
| Lines.UrlLines | file_block_generate.py:108-109 | there is one URL per line `readlines` gives; each line is its URL, or its URL followed by `\n`; no URL holds a `\n` |
| Lines.UrlLinesRoundTrip | file_block_generate.py:108-109 | no URL read from the list holds a `\n`, and the URLs written back one per line give the translated file text |
| IndexMerge.BasenamesMember | file_block_generate.py:104 | a filename is among those taken before the loop exactly when it is the basename of some existing entry's path |
| IndexMerge.BasenamesSnoc | file_block_generate.py:104 | one more entry adds exactly its own basename to the set of filenames, and nothing else |
| IndexMerge.AppendedSpec | file_block_generate.py:104-117 | a URL gets a block exactly when its filename is not among the basenames taken before the loop; the URLs that get blocks keep their list order |
| IndexMerge.AppendedCount | file_block_generate.py:111-117 | the number of blocks appended equals the number of list entries whose filename was absent before the loop, counting a repeated entry once per occurrence |
| IndexMerge.NewBlocks | file_block_generate.py:111-117 | when the loop completes, it appended one block per selected URL, in order, each the block generated for that URL |
| IndexMerge.NewBlocksSucceeds | file_block_generate.py:111-117 | the loop completes exactly when every selected URL yields a block |
| IndexMerge.NewBlocksFirstFailure | file_block_generate.py:111-117 | an aborted loop aborts with the error of the first selected URL whose block fails, after all earlier ones succeeded |
| IndexMerge.NothingMissing | file_block_generate.py:111-115 | when every URL's filename is already known, nothing is generated or appended |
| IndexMerge.MergeWith | file_block_generate.py:103-117 | `name` and `versionId` are overwritten; every other top-level field is unchanged; the old files form a prefix of the new ones; one block per selected URL follows, in list order |
| IndexMerge.MergedNamesKnown | file_block_generate.py:104-117 | after a merge, every URL's filename is the basename of some file in the index |
| IndexMerge.IdempotentWith | file_block_generate.py:103-117 | a second run with the same list appends nothing and downloads nothing; only `name` and `versionId` take the new values |
| IndexMerge.Merge | file_block_generate.py:103-117 | the merge with the script's filename and block functions: labels overwritten, other fields unchanged, files only appended |
| IndexMerge.MergeIdempotent | file_block_generate.py:103-117 | a second run of the script with an unchanged list appends nothing, whatever the network now returns |
| IndexMerge.DuplicateUrlAppendedTwice | file_block_generate.py:104-117 | as written, a new URL listed twice is generated and appended twice, and the index then holds its filename twice |
| IndexMerge.MergeLoop | file_block_generate.py:104-117 | the loop that walks the list, checks each filename against the set taken once before the loop, and appends, computes the merge exactly, including stopping at the first failure |
| IndexMerge.MergeMods | file_block_generate.py:101-118 | the run of `merge_mods` on the text of the mod list is the merge of the URLs read from it |
| DedupMerge.DedupKnown | file_block_generate.py:104-117 | in the corrected loop, the known filenames at the end are the initial ones plus those of the appended blocks |
| DedupMerge.DedupFresh | file_block_generate.py:104-117 | in the corrected loop, no appended block has a filename known before the loop, and no two appended blocks share a filename |
| DedupMerge.DedupAgrees | file_block_generate.py:104-117 | on a list whose filenames are pairwise distinct, the corrected loop and the loop as written agree, down to the error |
| DedupMerge.MergeDedup | file_block_generate.py:103-117 | the corrected merge keeps the contract of the merge: labels overwritten, other fields unchanged, files only appended |
| DedupMerge.MergeDedupUnique | file_block_generate.py:104-117 | under the corrected merge, an index whose filenames are unique keeps them unique, and a second run with the same list appends nothing |
| DedupMerge.MergeDedupAgrees | file_block_generate.py:104-117 | on a list without repeated filenames, the corrected merge is the merge as written |
| DedupMerge.DuplicateUrlAppendedOnce | file_block_generate.py:104-117 | under the corrected merge, a new URL listed twice gets exactly one block |
| DedupMerge.MergeModsDedup | file_block_generate.py:101-118 | the script's loop, with each filename added to the known set as it is met, computes the corrected merge exactly |

## Left out

- HTTP: `requests.get` is `World.fetch`, an arbitrary function from URL to body or error. Timeouts, redirects, headers and streaming are not modelled.
- SHA-1 and SHA-512 are `World.sha1Hex` and `World.sha512Hex`, arbitrary functions. Only where their results go is proved, not the digest algorithms.
- Opening the jar with `zipfile`, finding `fabric.mod.json`, decoding UTF-8 and parsing JSON are `World.readManifest`. Its failures stand for `BadZipFile`, `KeyError`, `UnicodeDecodeError` and `JSONDecodeError`.
- Reading and writing `modrinth.index.json` are not modelled: `json.loads`, `json.dumps(indent=4, ensure_ascii=False)`, key order and the file I/O. The index enters as an `Index` value and leaves as the `Result`.
- Reading `modlist.txt` from disk is not modelled; the model starts from its text.
- The `print` notices are console output only and are not modelled.
- Existing `files` entries are modelled as `FileBlock` values: a `path`, a digest map, an `env` whose values are `required` or `unsupported`, the download list and the size. The script reads only `path` from an old entry and passes the rest through untouched, so it also accepts entries this type cannot hold. Examples are an `env` of `{"client": "optional", ...}`, an entry without `env`, or one with extra keys. An index holding such entries cannot be given to `IndexMerge.Merge`, and nothing is proved about it. A missing `files` or `path` key, or a non-string path, raises in the script and is not modelled either.
- `os.path` is taken to be `posixpath`, the module on Linux and macOS. On Windows `os.path.basename` (file_block_generate.py:50, 104) is `ntpath.basename`, which also cuts at `\` and after a drive prefix such as `C:`. There the URL path `/mods/a\b.jar` gives `b.jar`, where the model gives `a\b.jar`.
- JSON numbers are integers, both in the mod manifest and in the index. A floating-point value in the manifest is not modelled, since `read_env` compares only strings. A floating-point value among the index's passed-through top-level fields (`Index.others`) cannot be represented, so an index holding one cannot be given to `IndexMerge.Merge`. The script passes such a field through unchanged.
- `calculate_stream_size` is never called by the script and is not modelled.
- The `__main__` block only passes two constant labels to `merge_mods`; `MergeMods` takes them as parameters.
- Url.SplitUrl: does not model the `ValueError`s that CPython's `urlsplit` raises on the netloc. These arise in four cases:
  - an unbalanced `[` or `]`;
  - a bracketed host whose netloc has text before the `[`, or text after the `]` that is not a `:port`, such as `https://a[::1]/x.jar` or `https://[::1]x/a.jar`;
  - a bracketed host that is neither an IPv6 address nor an IPvFuture literal, such as `https://[mods]/a.jar` or `https://[127.0.0.1]/a.jar`;
  - a non-ASCII netloc that, once its `@`, `:`, `#` and `?` are removed, changes under NFKC into text holding one of `/`, `?`, `#`, `@` or `:`. U+2100 `℀`, which becomes `a/c`, is an example. A netloc that only changes under NFKC, such as the fullwidth `ｍｏｄｓ.example`, does not raise.

  For such a URL the script raises while taking the filename (file_block_generate.py:48, called at 112), and the run aborts before any download. The model splits it and gives a filename, for example `a.jar`.
- The URL model follows CPython 3.12's `urllib.parse`. Older interpreters lack some of its input cleaning: stripping leading C0 controls and spaces, deleting tab, CR and LF anywhere in the URL, and the bracketed-host check. On those interpreters some filenames differ. For example, `https://h/a\tb.jar` gives `a\tb.jar` there instead of `ab.jar`.

## Findings

| source | as written | input that shows it | evidently intended | confidence | as-written member | corrected member |
|---|---|---|---|---|---|---|
| file_block_generate.py:104-117 | the set of known filenames is built once, before the loop, and never grows, so a filename appended during the run is not seen again in the same run | an index without `Foo.jar` and a list holding `https://x/Foo.jar` twice (or two URLs whose last segments are both `Foo.jar`): two blocks with path `mods/Foo.jar` are appended | each filename appears at most once in `files`; the merge treats the filename as the identity of a mod | not executed | IndexMerge.DuplicateUrlAppendedTwice | DedupMerge.MergeDedup |

The corrected merge also skips a URL when an earlier URL of the same list
has the same filename, which amounts to adding each filename to the known
set as the loop meets it (`DedupMerge.MergeModsDedup`). On lists without
repeated filenames it behaves exactly as the script does
(`DedupMerge.MergeDedupAgrees`). It keeps a duplicate-free index
duplicate-free (`DedupMerge.MergeDedupUnique`).
