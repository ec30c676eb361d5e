/** NGL's loader.js: the datasource registry, which looks datasources up by name
 * whatever its case and passes web URLs through; the RCSB datasource, which turns a
 * file name into a download URL by its extension; the settings every loader takes
 * from its parameters; and the table that picks a loader for an extension. */
module Loader {
  import opened Wrappers
  import Streamer

  /** `toLowerCase` on one character, for the ASCII letters. */
  function LowerChar(c: char): char
  {
    if 'A' <= c <= 'Z' then c - 'A' + 'a' else c
  }

  /** `toLowerCase`, for the ASCII letters. */
  function Lower(s: string): (r: string)
    ensures |r| == |s|
  {
    seq(|s|, i requires 0 <= i < |s| => LowerChar(s[i]))
  }

  /** A lower-cased name has no upper-case letter and lower-casing it again leaves it as
      it is. */
  lemma LowerIsLower(s: string)
    ensures forall i :: 0 <= i < |s| ==> !('A' <= Lower(s)[i] <= 'Z')
    ensures Lower(Lower(s)) == Lower(s)
  {
    var l := Lower(s);
    forall i | 0 <= i < |s|
      ensures Lower(l)[i] == l[i]
    {
      assert l[i] == LowerChar(s[i]);
    }
  }

  /** A datasource: the pass-through, the RCSB one, a static one over a base URL, or
      another one told apart by an identity. */
  datatype Datasource = PassThrough | Rcsb | Static(baseUrl: string) | Other(id: nat)

  /** The names that fall back on the pass-through when nothing is registered under them. */
  const PassThroughNames: set<string> := {"http", "https", "ftp", ""}

  /** `name || ""` for an optional name. */
  function NameOrEmpty(name: Option<string>): string
  {
    if name.Some? then name.value else ""
  }

  /** DatasourceRegistry.get, over the registry's dictionary: the datasource registered
      under the lower-cased name, else the pass-through for a web protocol or no name,
      else an error naming what was asked for. */
  function Find(sourceDict: map<string, Datasource>, name: Option<string>): (r: Result<Datasource, string>)
    ensures var key := Lower(NameOrEmpty(name));
      && (r.Err? <==> key !in sourceDict && key !in PassThroughNames)
      && (key in sourceDict ==> r == Ok(sourceDict[key]))
      && (key !in sourceDict && key in PassThroughNames ==> r == Ok(PassThrough))
      && (r.Err? ==> r.error == "no datasource named '" + key + "' found")
  {
    var key := Lower(NameOrEmpty(name));
    if key in sourceDict then Ok(sourceDict[key])
    else if key in {"http", "https", "ftp"} then Ok(PassThrough)
    else if key == "" then Ok(PassThrough)
    else Err("no datasource named '" + key + "' found")
  }

  /** Looking a name up does not depend on its case. */
  lemma FindIgnoresCase(sourceDict: map<string, Datasource>, name: string)
    ensures Find(sourceDict, Some(name)) == Find(sourceDict, Some(Lower(name)))
  {
    LowerIsLower(name);
  }

  /** After a datasource is added under a name, looking up that name, in any case, finds
      it; every other name finds what it found before. */
  lemma FindAfterAdd(sourceDict: map<string, Datasource>, name: string, datasource: Datasource,
                     query: Option<string>)
    ensures Find(sourceDict[Lower(name) := datasource], query) ==
      if Lower(NameOrEmpty(query)) == Lower(name) then Ok(datasource) else Find(sourceDict, query)
  {
  }

  /** A web protocol, or no name, finds the pass-through unless a datasource was added
      under that name, and the pass-through hands a path on unchanged. */
  lemma PassThroughKeepsPath(sourceDict: map<string, Datasource>, name: Option<string>, path: string,
                             info: FileInfo)
    requires Lower(NameOrEmpty(name)) in PassThroughNames && Lower(NameOrEmpty(name)) !in sourceDict
    ensures Find(sourceDict, name) == Ok(PassThrough)
    ensures DatasourceUrl(PassThrough, path, info) == Some(Url(path, false))
  {
  }

  /** NGL.DatasourceRegistry: the datasources by lower-cased name. */
  class DatasourceRegistry {
    var sourceDict: map<string, Datasource>

    /** Every name is stored lower-cased. */
    ghost predicate Valid()
      reads this
    {
      forall key :: key in sourceDict ==> Lower(key) == key
    }

    /** The registry as loader.js leaves it: the RCSB datasource under "rcsb". */
    constructor()
      ensures Valid() && sourceDict == map["rcsb" := Rcsb]
    {
      sourceDict := map["rcsb" := Rcsb];
      assert Lower("rcsb") == "rcsb";
    }

    /** DatasourceRegistry.add: the datasource is stored under the lower-cased name,
        replacing what was there; the result is whether something was replaced, which
        the source reports as a warning. */
    method Add(name: string, datasource: Datasource) returns (overwrote: bool)
      requires Valid()
      modifies this`sourceDict
      ensures Valid()
      ensures sourceDict == old(sourceDict)[Lower(name) := datasource]
      ensures overwrote == (Lower(name) in old(sourceDict))
    {
      var key := Lower(name);
      overwrote := key in sourceDict;
      LowerIsLower(name);
      sourceDict := sourceDict[key := datasource];
    }

    /** DatasourceRegistry.get. */
    method Get(name: Option<string>) returns (r: Result<Datasource, string>)
      ensures r == Find(sourceDict, name)
    {
      var key := if name.Some? then name.value else "";
      key := Lower(key);
      if key in sourceDict {
        r := Ok(sourceDict[key]);
      } else if key == "http" || key == "https" || key == "ftp" {
        r := Ok(PassThrough);
      } else if key == "" {
        r := Ok(PassThrough);
      } else {
        r := Err("no datasource named '" + key + "' found");
      }
    }
  }

  /** The RCSB datasource is found under its name in any case. */
  lemma RcsbFound(name: string)
    requires Lower(name) == "rcsb"
    ensures Find(map["rcsb" := Rcsb], Some(name)) == Ok(Rcsb)
  {
  }

  /** What getFileInfo makes of a path (getFileInfo is not part of this model): the
      compressed field is None where getFileInfo gives false. */
  datatype FileInfo = FileInfo(path: string, name: string, base: string, ext: string, compressed: Option<string>)

  /** A URL, and whether the source warns that the extension is unsupported. */
  datatype Url = Url(url: string, unsupported: bool)

  const RcsbBaseUrl := "http://www.rcsb.org/pdb/files/"
  const MmtfBaseUrl := "http://mmtf.rcsb.org/full/"
  const BackboneMmtfBaseUrl := "http://mmtf.rcsb.org/backbone/"

  predicate StartsWith(s: string, prefix: string)
  {
    |prefix| <= |s| && s[..|prefix|] == prefix
  }

  predicate EndsWith(s: string, suffix: string)
  {
    |suffix| <= |s| && s[|s| - |suffix|..] == suffix
  }

  /** A PDB or mmCIF file, uncompressed or gzipped: fetched from the RCSB file server. */
  predicate PdbOrCif(info: FileInfo)
  {
    info.ext in {"pdb", "cif"} && (info.compressed.None? || info.compressed == Some("gz"))
  }

  /** An MMTF file name, either the full structure or its backbone. */
  predicate MmtfUrl(info: FileInfo, url: string)
  {
    var suffix := if info.ext == "" then ".mmtf" else "";
    url == MmtfBaseUrl + info.name + suffix || url == BackboneMmtfBaseUrl + info.name + suffix
  }

  /** RcsbDatasource.getUrl: a PDB or mmCIF path on the RCSB file server, otherwise the
      name on the MMTF server, the backbone one for a ".bb" base with the "mmtf"
      extension, with ".mmtf" added when there is no extension; any other extension is
      warned about. */
  function RcsbGetUrl(info: FileInfo): (r: Url)
    ensures PdbOrCif(info) ==> r == Url(RcsbBaseUrl + info.path, false)
    ensures !PdbOrCif(info) ==> MmtfUrl(info, r.url)
    ensures r.unsupported <==> !PdbOrCif(info) && info.ext != "mmtf" && info.ext != ""
  {
    if PdbOrCif(info) then Url(RcsbBaseUrl + info.path, false)
    else if info.ext == "mmtf" then
      if EndsWith(info.base, ".bb") then Url(BackboneMmtfBaseUrl + info.name, false)
      else Url(MmtfBaseUrl + info.name, false)
    else if info.ext == "" then Url(MmtfBaseUrl + info.name + ".mmtf", false)
    else Url(MmtfBaseUrl + info.name, true)
  }

  /** The backbone MMTF server is asked exactly for an "mmtf" file whose base ends with
      ".bb" and that is not a PDB or mmCIF file. */
  lemma RcsbBackbone(info: FileInfo)
    ensures StartsWith(RcsbGetUrl(info).url, BackboneMmtfBaseUrl)
      <==> !PdbOrCif(info) && info.ext == "mmtf" && EndsWith(info.base, ".bb")
  {
    var url := RcsbGetUrl(info).url;
    if PdbOrCif(info) {
      assert url[7] != BackboneMmtfBaseUrl[7];
    } else if !(info.ext == "mmtf" && EndsWith(info.base, ".bb")) {
      assert url[21] != BackboneMmtfBaseUrl[21];
    }
  }

  /** RcsbDatasource.getExt: "mmtf" for the "mmtf" extension or none, nothing otherwise. */
  function RcsbGetExt(info: FileInfo): (r: Option<string>)
    ensures r.Some? <==> info.ext in {"mmtf", ""}
    ensures r.Some? ==> r.value == "mmtf"
  {
    if info.ext == "mmtf" || info.ext == "" then Some("mmtf") else None
  }

  /** Where getExt supplies "mmtf", getUrl points at the MMTF server without a warning,
      so the extension getExt supplies is the format of the file the URL names. */
  lemma RcsbExtMatchesUrl(info: FileInfo)
    requires RcsbGetExt(info).Some?
    ensures MmtfUrl(info, RcsbGetUrl(info).url) && !RcsbGetUrl(info).unsupported
    ensures !StartsWith(RcsbGetUrl(info).url, RcsbBaseUrl)
  {
    var url := RcsbGetUrl(info).url;
    assert url[7] == 'm' && RcsbBaseUrl[7] == 'w';
  }

  /** The URL the datasource found for a path gives it, where the datasource is one this
      model shows: the pass-through hands the path on, the RCSB datasource maps what
      getFileInfo makes of it.  A static datasource calls getAbsolutePath, which is not
      part of this model, and other datasources are not shown. */
  function DatasourceUrl(datasource: Datasource, path: string, info: FileInfo): (r: Option<Url>)
    ensures datasource.PassThrough? ==> r == Some(Url(path, false))
    ensures datasource.Rcsb? ==> r.Some? && !r.value.unsupported ==> PdbOrCif(info) || info.ext in {"mmtf", ""}
  {
    match datasource
    case PassThrough => Some(Url(path, false))
    case Rcsb => Some(RcsbGetUrl(info))
    case _ => None
  }

  /** A loader's parameters; those not given are None. */
  datatype Params = Params(compressed: Option<string>, binary: Option<bool>, name: Option<string>,
                           ext: Option<string>, dir: Option<string>, path: Option<string>,
                           protocol: Option<string>)

  /** The extensions whose files are read as binary data unless the parameters say. */
  const BinaryExts: set<string> := {"mmtf", "dcd", "mrc", "ccp4", "map", "dxbin"}

  /** Whether a loader reads binary data: as the parameters say, else by the extension. */
  function Binary(p: Params): (b: bool)
    ensures p.binary.Some? ==> b == p.binary.value
    ensures p.binary.None? ==> (b <==> p.ext.Some? && p.ext.value in BinaryExts)
  {
    if p.binary.Some? then p.binary.value else p.ext.Some? && p.ext.value in BinaryExts
  }

  /** `p.compressed || false`: an empty compression counts as none. */
  function Compression(p: Params): (c: Option<string>)
    ensures c.Some? <==> p.compressed.Some? && p.compressed.value != ""
    ensures c.Some? ==> c == p.compressed
  {
    if p.compressed.Some? && p.compressed.value != "" then p.compressed else None
  }

  /** NGL.Loader: the settings a loader takes from its parameters and the streamer it
      reads through, a file streamer for a file and a network streamer otherwise. */
  class Loader {
    var compressed: Option<string>
    var binary: bool
    var name: string
    var ext: string
    var dir: string
    var path: string
    var protocol: string
    var params: Params
    var streamer: Streamer.Streamer

    /** The Loader constructor. */
    constructor(src: string, isFile: bool, p: Params)
      ensures compressed == Compression(p) && binary == Binary(p)
      ensures name == NameOrEmpty(p.name) && ext == NameOrEmpty(p.ext) && dir == NameOrEmpty(p.dir)
      ensures path == NameOrEmpty(p.path) && protocol == NameOrEmpty(p.protocol) && params == p
      ensures fresh(streamer) && streamer.kind == (if isFile then "file" else "network") && streamer.src == src
      ensures streamer.compressed == compressed && streamer.binary == binary
      ensures streamer.Packed() <==> binary || compressed.Some?
      ensures streamer.pointer == 0 && streamer.partialLine == ""
    {
      compressed := Compression(p);
      binary := Binary(p);
      name := NameOrEmpty(p.name);
      ext := NameOrEmpty(p.ext);
      dir := NameOrEmpty(p.dir);
      path := NameOrEmpty(p.path);
      protocol := NameOrEmpty(p.protocol);
      params := p;
      var kind := if isFile then "file" else "network";
      streamer := new Streamer.Streamer(kind, src, Compression(p), Some(Binary(p)));
    }
  }

  /** The loaders loaderMap chooses from. */
  datatype LoaderKind = ParserLoader | ScriptLoader | PluginLoader

  /** NGL.loaderMap. */
  const LoaderMap: map<string, LoaderKind> := map[
    "gro" := ParserLoader, "pdb" := ParserLoader, "pdb1" := ParserLoader, "ent" := ParserLoader,
    "pqr" := ParserLoader, "cif" := ParserLoader, "mcif" := ParserLoader, "mmcif" := ParserLoader,
    "sdf" := ParserLoader, "mol2" := ParserLoader,
    "mmtf" := ParserLoader,
    "dcd" := ParserLoader,
    "mrc" := ParserLoader, "ccp4" := ParserLoader, "map" := ParserLoader, "cube" := ParserLoader,
    "dx" := ParserLoader, "dxbin" := ParserLoader,
    "obj" := ParserLoader, "ply" := ParserLoader,
    "txt" := ParserLoader, "text" := ParserLoader, "csv" := ParserLoader, "json" := ParserLoader,
    "xml" := ParserLoader,
    "ngl" := ScriptLoader,
    "plugin" := PluginLoader]

  /** The parser ParserLoader builds for each extension (ParserLoader._load). */
  const ParserClasses: map<string, string> := map[
    "gro" := "GroParser", "pdb" := "PdbParser", "pdb1" := "PdbParser", "ent" := "PdbParser",
    "pqr" := "PqrParser", "cif" := "CifParser", "mcif" := "CifParser", "mmcif" := "CifParser",
    "sdf" := "SdfParser", "mol2" := "Mol2Parser",
    "mmtf" := "MmtfParser",
    "dcd" := "DcdParser",
    "mrc" := "MrcParser", "ccp4" := "MrcParser", "map" := "MrcParser", "cube" := "CubeParser",
    "dx" := "DxParser", "dxbin" := "DxbinParser",
    "ply" := "PlyParser", "obj" := "ObjParser",
    "txt" := "TextParser", "text" := "TextParser", "csv" := "CsvParser", "json" := "JsonParser",
    "xml" := "XmlParser"]

  /** The loader loaderMap chooses for an extension, if any. */
  function LoaderFor(ext: string): (r: Option<LoaderKind>)
    ensures r.Some? <==> ext in LoaderMap
  {
    if ext in LoaderMap then Some(LoaderMap[ext]) else None
  }

  /** loaderMap sends an extension to ParserLoader exactly when ParserLoader has a parser
      for it, "ngl" to ScriptLoader and "plugin" to PluginLoader; every binary extension
      goes to ParserLoader. */
  lemma LoaderForParsers(ext: string)
    ensures LoaderFor(ext) == Some(ParserLoader) <==> ext in ParserClasses
    ensures LoaderFor(ext) == Some(ScriptLoader) <==> ext == "ngl"
    ensures LoaderFor(ext) == Some(PluginLoader) <==> ext == "plugin"
    ensures ext in BinaryExts ==> LoaderFor(ext) == Some(ParserLoader)
  {
  }
}
