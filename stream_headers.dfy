/**
 * The decision the stream proxy (`GET /stream`) takes before relaying any
 * byte: whether the preflight HEAD request lets it go on, and which
 * `content-type` and `content-disposition` headers it sends. The HEAD
 * request itself is not modelled: its outcome is a parameter, as is the
 * path component of the upstream URL.
 */
module StreamHeaders {
  import opened Wrappers
  import opened UrlPath

  /** The preflight HEAD request failed to connect, or the upstream answered. */
  datatype Preflight =
    | Unreachable(reason: string)
    | Responded(status: int, contentType: Option<string>)

  /** The headers of the streamed response. */
  datatype Headers = Headers(contentType: string, contentDisposition: Option<string>)

  const DefaultContentType := "application/octet-stream"
  const DispositionPrefix := "attachment; filename=\""

  /** `filename.replace('"', "'")`. */
  function NeutraliseQuotes(s: string): (r: string)
    ensures |r| == |s|
    ensures forall i :: 0 <= i < |s| ==> r[i] == (if s[i] == '"' then '\'' else s[i])
  {
    if s == [] then [] else [if s[0] == '"' then '\'' else s[0]] + NeutraliseQuotes(s[1..])
  }

  /**
   * The attachment name: a non-empty caller-supplied name with its double
   * quotes replaced, otherwise the percent-decoded last segment of the URL
   * path, otherwise `download`.
   */
  function DownloadName(filename: Option<string>, urlPath: string): (r: string)
    ensures r != ""
    ensures filename.Some? && filename.value != "" ==>
      && |r| == |filename.value|
      && '"' !in r
      && forall i :: 0 <= i < |r| && filename.value[i] != '"' ==> r[i] == filename.value[i]
  {
    if filename.Some? && filename.value != "" then NeutraliseQuotes(filename.value)
    else
      var base := PercentDecode(LastSegment(urlPath));
      if base == "" then "download" else base
  }

  /**
   * `f'attachment; filename="{safe_name}"'`. The name is not escaped, so a
   * client reads back exactly the name that was written iff the name holds
   * no `"` and no `\`.
   */
  function Disposition(name: string): (r: string)
    ensures ParseDisposition(r) == Some(name) <==> '"' !in name && '\\' !in name
  {
    var h := DispositionPrefix + name + "\"";
    assert h[..|DispositionPrefix|] == DispositionPrefix;
    assert h[|DispositionPrefix|..|h| - 1] == name;
    UnescapeIdentity(name);
    h
  }

  /** The header decision of the handler, before any body byte is sent. */
  function DecideHeaders(pre: Preflight, download: bool, filename: Option<string>, urlPath: string)
    : (r: Result<Headers, HttpError>)
    ensures r.Failure? <==> pre.Unreachable? || pre.status >= 400
    ensures pre.Unreachable? ==> r.Failure? && r.error.status == 502
    ensures pre.Responded? && pre.status >= 400 ==> r.Failure? && r.error.status == pre.status
    ensures r.Success? ==> (r.value.contentDisposition.Some? <==> download)
    ensures r.Success? && download ==> r.value.contentDisposition == Some(Disposition(DownloadName(filename, urlPath)))
    ensures r.Success? && pre.contentType.Some? ==> r.value.contentType == pre.contentType.value
    ensures r.Success? && pre.contentType.None? ==> r.value.contentType == DefaultContentType
  {
    match pre
    case Unreachable(reason) => Failure(HttpError(502, "upstream request failed: " + reason))
    case Responded(status, contentType) =>
      if status >= 400 then Failure(HttpError(status, "upstream returned an error"))
      else
        var ct := if contentType.Some? then contentType.value else DefaultContentType;
        var disposition := if download then Some(Disposition(DownloadName(filename, urlPath))) else None;
        Success(Headers(ct, disposition))
  }

  /**
   * The content of a quoted-string (section 5.6.4 of RFC 9110): characters
   * other than `"` and `\`, or `\` followed by the character it escapes.
   */
  function Unescape(body: string): (r: Option<string>)
    ensures r.Some? ==> |r.value| <= |body|
  {
    if body == [] then Some([])
    else if body[0] == '"' then None
    else if body[0] == '\\' then
      if |body| < 2 then None
      else
        var rest := Unescape(body[2..]);
        if rest.Some? then Some([body[1]] + rest.value) else None
    else
      var rest := Unescape(body[1..]);
      if rest.Some? then Some([body[0]] + rest.value) else None
  }

  /** How a client reads the filename parameter (section 4.1 of RFC 6266) back. */
  function ParseDisposition(h: string): Option<string>
  {
    var n := |DispositionPrefix|;
    if |h| < n + 1 || h[..n] != DispositionPrefix || h[|h| - 1] != '"' then None
    else Unescape(h[n..|h| - 1])
  }

  lemma {:induction false} UnescapeIdentity(s: string)
    ensures Unescape(s) == Some(s) <==> '"' !in s && '\\' !in s
  {
    if s != [] {
      UnescapeIdentity(s[1..]);
      assert s == [s[0]] + s[1..];
      if s[0] == '\\' && |s| >= 2 {
        var rest := Unescape(s[2..]);
        assert rest.Some? ==> |[s[1]] + rest.value| < |s|;
      } else if s[0] != '"' && s[0] != '\\' {
        var rest := Unescape(s[1..]);
        assert rest.Some? ==> ([s[0]] + rest.value == s <==> rest.value == s[1..]);
      }
    }
  }

  /**
   * A caller-supplied name reads back from the header exactly when it holds
   * no `\`.
   */
  lemma SuppliedNameReadsBack(filename: string, urlPath: string)
    requires filename != ""
    ensures ParseDisposition(Disposition(DownloadName(Some(filename), urlPath)))
              == Some(DownloadName(Some(filename), urlPath))
            <==> '\\' !in filename
  {
    var name := DownloadName(Some(filename), urlPath);
    assert name == NeutraliseQuotes(filename);
    assert '\\' in name <==> '\\' in filename by {
      if '\\' in filename {
        var i :| 0 <= i < |filename| && filename[i] == '\\';
        assert name[i] == '\\';
      }
      if '\\' in name {
        var i :| 0 <= i < |name| && name[i] == '\\';
        assert filename[i] == '\\';
      }
    }
  }

  /**
   * The URL-derived name is not neutralised: a `%22` in the last path
   * segment puts a raw `"` into the header, which then no longer reads
   * back as the name.
   */
  lemma DerivedNameMayCarryQuote(dir: string, before: string, after: string)
    requires '/' !in before && '/' !in after
    requires '%' !in before && '%' !in after
    ensures DownloadName(None, dir + "/" + (before + "%22" + after)) == before + "\"" + after
    ensures ParseDisposition(Disposition(before + "\"" + after)) != Some(before + "\"" + after)
  {
    var seg := before + "%22" + after;
    var name := before + "\"" + after;
    assert '/' !in seg;
    LastSegmentAfter(dir, seg);
    DecodeQuote(before, after);
    assert name[|before|] == '"';
  }
}
