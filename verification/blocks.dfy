/** `generate_file_block`: one entry of the index's `files` list, built from
    a download URL. The download, the two digests and the archive reader are
    calls into code outside the script, so they come in as a `World`. */
module Blocks {
  import opened Common
  import opened PosixPath
  import opened Url
  import opened Environment

  /** One entry of the index's `files` list. */
  datatype FileBlock = FileBlock(
    path: string,
    hashes: map<string, string>,
    env: EnvMap,
    downloads: seq<string>,
    fileSize: nat)

  /** What the script obtains from outside: the response body of a GET on a
      URL (whatever its status), the hex digests of a byte string, and the
      manifest read from a byte string taken as a zip archive. */
  datatype World = World(
    fetch: string -> Result<seq<bv8>>,
    sha1Hex: seq<bv8> -> string,
    sha512Hex: seq<bv8> -> string,
    readManifest: seq<bv8> -> Result<Json>)

  /** Directory of the modpack that every file block points into. */
  const ModsDir: string := "mods/"

  /** `calculate_sha1_and_sha512`: one digest per algorithm, under its name. */
  function Hashes(bytes: seq<bv8>, w: World): (h: map<string, string>)
    ensures h.Keys == {"sha1", "sha512"}
    ensures h["sha1"] == w.sha1Hex(bytes) && h["sha512"] == w.sha512Hex(bytes)
  {
    map["sha1" := w.sha1Hex(bytes), "sha512" := w.sha512Hex(bytes)]
  }

  /** `read_env` on downloaded bytes: open the archive, then map its manifest. */
  function ArchiveEnv(bytes: seq<bv8>, w: World): (r: Result<EnvMap>)
    ensures w.readManifest(bytes).Failure? ==> r == Failure(w.readManifest(bytes).error)
    ensures w.readManifest(bytes).Success? ==> r == ReadEnv(w.readManifest(bytes).value)
  {
    match w.readManifest(bytes)
    case Failure(e) => Failure(e)
    case Success(manifest) => ReadEnv(manifest)
  }

  /** The shape every generated block has for its URL. */
  predicate ShapedFor(b: FileBlock, link: string)
  {
    && b.path == ModsDir + Filename(link)
    && b.downloads == [link]
    && b.hashes.Keys == {"sha1", "sha512"}
    && (b.env.Keys == {} || b.env.Keys == {"server", "client"})
  }

  /** A block assembled from a URL's filename, digests and support map has
      the shape of a block for that URL. */
  lemma AssembledIsShaped(link: string, bytes: seq<bv8>, env: EnvMap, w: World)
    requires env.Keys == {} || env.Keys == {"server", "client"}
    ensures ShapedFor(FileBlock(ModsDir + Filename(link), Hashes(bytes, w), env, [link], |bytes|), link)
  {
  }

  /** Download the URL, then describe the file: where it goes in the pack,
      its digests, its sides, where it came from and its size. The download
      failing, or the body not being a mod archive, aborts. */
  function GenerateFileBlock(link: string, w: World): (r: Result<FileBlock>)
    ensures w.fetch(link).Failure? ==> r == Failure(w.fetch(link).error)
    ensures w.fetch(link).Success? ==>
      (r.Success? <==> ArchiveEnv(w.fetch(link).value, w).Success?)
    ensures w.fetch(link).Success? && r.Failure? ==>
      r.error == ArchiveEnv(w.fetch(link).value, w).error
    ensures r.Success? ==>
      var bytes := w.fetch(link).value;
      && r.value.fileSize == |bytes|
      && r.value.hashes == Hashes(bytes, w)
      && r.value.env == ArchiveEnv(bytes, w).value
  {
    match w.fetch(link)
    case Failure(e) => Failure(e)
    case Success(bytes) =>
      var filename := Filename(link);
      match ArchiveEnv(bytes, w)
      case Failure(e) => Failure(e)
      case Success(env) =>
        Success(FileBlock(ModsDir + filename, Hashes(bytes, w), env, [link], |bytes|))
  }

  /** The block's path leads back to the URL's filename: the basename of
      `mods/<filename>` is the filename, since a filename holds no `/`. */
  lemma BlockBasename(link: string, w: World)
    requires GenerateFileBlock(link, w).Success?
    ensures ShapedFor(GenerateFileBlock(link, w).value, link)
    ensures Basename(GenerateFileBlock(link, w).value.path) == Filename(link)
  {
    var bytes := w.fetch(link).value;
    var manifest := w.readManifest(bytes).value;
    var env := EnvFor(manifest.fields["environment"]);
    AssembledIsShaped(link, bytes, env, w);
    BasenameOfJoin(ModsDir, Filename(link));
  }
}
