/**
 * The metadata endpoint (`POST /download`): takes what the extractor
 * returned, keeps only the first entry of a playlist-like result, projects
 * every raw format onto the seven-field record and selects one direct URL.
 * The extractor itself is not modelled: its outcome is a parameter.
 */
module Download {
  import opened Wrappers
  import opened Formats
  import opened StableSort

  /** The extractor's document: scalar attributes, playlist entries and raw formats. */
  datatype RawInfo = RawInfo(
    attrs: map<string, Value>,
    entries: seq<RawInfo>,
    formats: seq<RawFormat>)

  /** What the extractor call produced: a document, or the message of the exception it raised. */
  datatype Extraction = Extracted(info: RawInfo) | Raised(message: string)

  /** The JSON body of a successful response. */
  datatype Metadata = Metadata(
    id: Option<Value>,
    title: Option<Value>,
    uploader: Option<Value>,
    thumbnail: Option<Value>,
    duration: Option<Value>,
    formats: seq<MediaFormat>,
    downloadUrl: Option<Value>)

  /** A playlist-like result (non-empty `entries`) is replaced by its first entry. */
  function EffectiveInfo(info: RawInfo): (r: RawInfo)
    ensures |info.entries| > 0 ==> r == info.entries[0]
    ensures |info.entries| == 0 ==> r == info
  {
    if |info.entries| > 0 then info.entries[0] else info
  }

  function ProjectAll(raw: seq<RawFormat>): (r: seq<MediaFormat>)
    ensures |r| == |raw|
  {
    seq(|raw|, i requires 0 <= i < |raw| => Project(raw[i]))
  }

  /** `req.format_id` is truthy: a non-empty string was supplied. */
  predicate Requested(formatId: Option<string>)
  {
    formatId.Some? && formatId.value != ""
  }

  /** `f.get("format_id") == req.format_id and f.get("url")`. */
  predicate IsRequested(f: MediaFormat, id: string)
  {
    f.formatId == Some(Str(id)) && HasUrl(f)
  }

  /**
   * The id is compared as text: a format whose id the extractor gave as a
   * number is never the requested one, and a requested format has a URL.
   */
  lemma IdComparedAsText(f: MediaFormat, id: string)
    ensures f.formatId.Some? && f.formatId.value.Int? ==> !IsRequested(f, id)
    ensures f.formatId.None? ==> !IsRequested(f, id)
    ensures IsRequested(f, id) <==> f.formatId == Some(Str(id)) && Truthy(f.url)
  {
  }

  /** Index of the first format that has the requested id and a URL. */
  function FirstRequested(fs: seq<MediaFormat>, id: string): (r: Option<nat>)
    ensures r.Some? ==> r.value < |fs| && IsRequested(fs[r.value], id)
    ensures r.Some? ==> forall j :: 0 <= j < r.value ==> !IsRequested(fs[j], id)
    ensures r.None? ==> forall j :: 0 <= j < |fs| ==> !IsRequested(fs[j], id)
  {
    if fs == [] then None
    else if IsRequested(fs[0], id) then Some(0)
    else
      var rest := FirstRequested(fs[1..], id);
      if rest.Some? then Some(rest.value + 1) else None
  }

  /**
   * The download URL the endpoint promises: the URL of the first requested
   * format that has one; failing that, the URL of the earliest format with
   * the greatest height (absent height ranks as 0) among those with a URL.
   */
  function SelectDownloadUrl(fs: seq<MediaFormat>, formatId: Option<string>): (r: Option<Value>)
    ensures r.Some? ==> Truthy(r) && exists i :: 0 <= i < |fs| && HasUrl(fs[i]) && fs[i].url == r
  {
    var requested := if Requested(formatId) then FirstRequested(fs, formatId.value) else None;
    if requested.Some? then fs[requested.value].url
    else
      var best := ArgMaxWhere(fs, HasUrl, HeightRank);
      ArgMaxWhereIsFirstMaximal(fs, HasUrl, HeightRank);
      if best.Some? then best.value.url else None
  }

  /** The handler, from the extractor's outcome to the response body or an HTTP error. */
  method HandleDownload(outcome: Extraction, formatId: Option<string>)
    returns (r: Result<Metadata, HttpError>)
    ensures outcome.Raised? ==>
      r == Failure(HttpError(400, "failed to extract info: " + outcome.message))
    ensures outcome.Extracted? ==>
      var info := EffectiveInfo(outcome.info);
      var fs := ProjectAll(info.formats);
      r == Success(Metadata(
        Get(info.attrs, "id"), Get(info.attrs, "title"), Get(info.attrs, "uploader"),
        Get(info.attrs, "thumbnail"), Get(info.attrs, "duration"),
        fs, SelectDownloadUrl(fs, formatId)))
  {
    if outcome.Raised? {
      return Failure(HttpError(400, "failed to extract info: " + outcome.message));
    }
    var info := outcome.info;
    if |info.entries| > 0 {
      info := info.entries[0];
    }

    var formats := ProjectFormats(info.formats);
    assert formats == ProjectAll(info.formats);
    var downloadUrl := SelectUrl(formats, formatId);
    r := Success(Metadata(
      Get(info.attrs, "id"), Get(info.attrs, "title"), Get(info.attrs, "uploader"),
      Get(info.attrs, "thumbnail"), Get(info.attrs, "duration"),
      formats, downloadUrl));
  }

  /** The loop that copies each raw format into the seven-field record, in order. */
  method ProjectFormats(raw: seq<RawFormat>) returns (formats: seq<MediaFormat>)
    ensures |formats| == |raw|
    ensures forall j :: 0 <= j < |raw| ==> formats[j] == Project(raw[j])
  {
    formats := [];
    var i := 0;
    while i < |raw|
      invariant 0 <= i <= |raw|
      invariant |formats| == i
      invariant forall j :: 0 <= j < i ==> formats[j] == Project(raw[j])
    {
      formats := formats + [Project(raw[i])];
      i := i + 1;
    }
  }

  /**
   * The two scans that pick `download_url`: the requested id first, then the
   * first format with a URL in the list sorted by descending height.
   */
  method SelectUrl(formats: seq<MediaFormat>, formatId: Option<string>) returns (downloadUrl: Option<Value>)
    ensures downloadUrl == SelectDownloadUrl(formats, formatId)
  {
    downloadUrl := None;
    if Requested(formatId) {
      var j := 0;
      while j < |formats|
        invariant 0 <= j <= |formats|
        invariant downloadUrl == None
        invariant forall l :: 0 <= l < j ==> !IsRequested(formats[l], formatId.value)
      {
        if IsRequested(formats[j], formatId.value) {
          downloadUrl := formats[j].url;
          assert FirstRequested(formats, formatId.value) == Some(j);
          break;
        }
        j := j + 1;
      }
    }

    if !Truthy(downloadUrl) {
      var sorted := SortDesc(formats, HeightRank);
      downloadUrl := FirstUrl(sorted);
      FirstAfterSortIsArgMax(formats, HasUrl, HeightRank);
    }
  }

  /** The fallback scan: the URL of the first format in `sorted` that has one. */
  method FirstUrl(sorted: seq<MediaFormat>) returns (downloadUrl: Option<Value>)
    ensures FirstWhere(sorted, HasUrl).None? ==> downloadUrl == None
    ensures FirstWhere(sorted, HasUrl).Some? ==> downloadUrl == FirstWhere(sorted, HasUrl).value.url
  {
    downloadUrl := None;
    var j := 0;
    while j < |sorted|
      invariant 0 <= j <= |sorted|
      invariant downloadUrl == None
      invariant FirstWhere(sorted, HasUrl) == FirstWhere(sorted[j..], HasUrl)
    {
      if HasUrl(sorted[j]) {
        downloadUrl := sorted[j].url;
        return;
      }
      assert sorted[j..][1..] == sorted[j + 1..];
      j := j + 1;
    }
  }

  /** A requested format with a URL wins, and the first of several such wins. */
  lemma SelectRequestedFirst(fs: seq<MediaFormat>, id: string, k: nat)
    requires id != "" && k < |fs| && IsRequested(fs[k], id)
    requires forall j :: 0 <= j < k ==> !IsRequested(fs[j], id)
    ensures SelectDownloadUrl(fs, Some(id)) == fs[k].url
  {
  }

  /**
   * With no usable requested format, the URL comes from the earliest of the
   * tallest formats that have a URL.
   */
  lemma SelectTallest(fs: seq<MediaFormat>, formatId: Option<string>)
    requires !Requested(formatId) || forall j :: 0 <= j < |fs| ==> !IsRequested(fs[j], formatId.value)
    requires exists i :: 0 <= i < |fs| && HasUrl(fs[i])
    ensures exists k :: FirstMaximal(fs, HasUrl, HeightRank, k) && SelectDownloadUrl(fs, formatId) == fs[k].url
  {
    ArgMaxWhereIsFirstMaximal(fs, HasUrl, HeightRank);
  }

  /** No URL is selected exactly when no format has one; a selected URL is truthy. */
  lemma SelectAbsentIffNoUrl(fs: seq<MediaFormat>, formatId: Option<string>)
    ensures SelectDownloadUrl(fs, formatId).None? <==> forall i :: 0 <= i < |fs| ==> !HasUrl(fs[i])
    ensures SelectDownloadUrl(fs, formatId).Some? ==> Truthy(SelectDownloadUrl(fs, formatId))
  {
    ArgMaxWhereIsFirstMaximal(fs, HasUrl, HeightRank);
  }

  /**
   * The endpoint's test case: a 360p and a 720p format, no requested id,
   * yields the 720p URL; requesting the 360p id yields the 360p URL.
   */
  lemma TallestOfTwo(low: MediaFormat, high: MediaFormat)
    requires low == MediaFormat(Some(Str("18")), Some(Str("mp4")), Some(Str("360p")),
      Some(Int(360)), Some(Int(640)), Some(Int(11111)), Some(Str("http://cdn/test360.mp4")))
    requires high == MediaFormat(Some(Str("22")), Some(Str("mp4")), Some(Str("720p")),
      Some(Int(720)), Some(Int(1280)), Some(Int(33333)), Some(Str("http://cdn/test720.mp4")))
    ensures SelectDownloadUrl([low, high], None) == Some(Str("http://cdn/test720.mp4"))
    ensures SelectDownloadUrl([low, high], Some("18")) == Some(Str("http://cdn/test360.mp4"))
  {
    var fs := [low, high];
    assert fs[1..] == [high] && [high][1..] == [];
    assert HasUrl(low) && HasUrl(high) && HeightRank(low) < HeightRank(high);
    assert ArgMaxWhere([high], HasUrl, HeightRank) == Some(high);
    assert ArgMaxWhere(fs, HasUrl, HeightRank) == Some(high);
    assert FirstRequested(fs, "18") == Some(0);
  }
}
