/**
 * The media-format record shared by the backend (which builds it from the
 * extractor's raw format dictionaries) and the frontend (which receives it
 * as JSON), with the truthiness and `|| 0` / `or 0` conventions both
 * languages apply to its fields.
 */
module Formats {
  import opened Wrappers

  /** A scalar JSON value as the extractor produces it. */
  datatype Value = Str(text: string) | Int(number: int)

  /**
   * A raw format dictionary from the extractor. A key mapped to None and a
   * missing key read the same through `dict.get`, so both are "not in the map".
   */
  type RawFormat = map<string, Value>

  /** The fixed seven-field projection of a raw format; absent fields stay absent. */
  datatype MediaFormat = MediaFormat(
    formatId: Option<Value>,
    ext: Option<Value>,
    formatNote: Option<Value>,
    height: Option<Value>,
    width: Option<Value>,
    filesize: Option<Value>,
    url: Option<Value>)

  const FormatKeys: set<string> :=
    {"format_id", "ext", "format_note", "height", "width", "filesize", "url"}

  /** Python's `d.get(k)`. */
  function Get(d: map<string, Value>, k: string): (r: Option<Value>)
    ensures r.Some? <==> k in d
    ensures r.Some? ==> r.value == d[k]
  {
    if k in d then Some(d[k]) else None
  }

  /**
   * The dictionary literal built for each raw format in the download handler:
   * each of the seven fields holds what `f.get` gives for its key.
   */
  function Project(f: RawFormat): (r: MediaFormat)
    ensures forall k :: k in FormatKeys ==> Field(r, k) == Get(f, k)
  {
    MediaFormat(
      Get(f, "format_id"), Get(f, "ext"), Get(f, "format_note"),
      Get(f, "height"), Get(f, "width"), Get(f, "filesize"), Get(f, "url"))
  }

  /** The field of m that is serialised under key k. */
  function Field(m: MediaFormat, k: string): Option<Value>
  {
    match k
    case "format_id" => m.formatId
    case "ext" => m.ext
    case "format_note" => m.formatNote
    case "height" => m.height
    case "width" => m.width
    case "filesize" => m.filesize
    case "url" => m.url
    case _ => None
  }

  /** The dictionary a MediaFormat stands for: its present fields only. */
  function Embed(m: MediaFormat): RawFormat
  {
    map k | k in FormatKeys && Field(m, k).Some? :: Field(m, k).value
  }

  /** Projection loses nothing that a MediaFormat can hold. */
  lemma ProjectEmbed(m: MediaFormat)
    ensures Project(Embed(m)) == m
  {
  }

  /**
   * Projection keeps every one of the seven keys exactly as the extractor
   * gave it (never a default) and drops every other key.
   */
  lemma EmbedProject(f: RawFormat)
    ensures Embed(Project(f)) == map k | k in f && k in FormatKeys :: f[k]
  {
    var p := Project(f);
    forall k | k in FormatKeys ensures Field(p, k) == Get(f, k) {
    }
  }

  /** Python and JavaScript truthiness of an optional scalar. */
  predicate Truthy(v: Option<Value>)
  {
    match v
    case None => false
    case Some(Str(s)) => s != ""
    case Some(Int(n)) => n != 0
  }

  /** `f.get("url")` / `f.url` is truthy: the format can be fetched directly. */
  predicate HasUrl(f: MediaFormat)
  {
    Truthy(f.url)
  }

  /** A numeric field read with `or 0` / `|| 0`. */
  function NumberOrZero(v: Option<Value>): int
  {
    match v
    case Some(Int(n)) => n
    case _ => 0
  }

  /** `x.get("height") or 0` in the backend, `f.height || 0` in the frontend. */
  function HeightRank(f: MediaFormat): int
  {
    NumberOrZero(f.height)
  }

  /** `f.filesize || 0`. */
  function FilesizeRank(f: MediaFormat): int
  {
    NumberOrZero(f.filesize)
  }
}
