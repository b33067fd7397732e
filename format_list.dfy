/**
 * The frontend's post-processing of the format list returned by the
 * backend: deduplication by URL (`dedupeFormatsByUrl`) and the split into
 * audio and video lists, each sorted best first (`groupFormats`).
 *
 * The JavaScript `Map` is modelled as a map plus the sequence of its keys in
 * insertion order; replacing a key's value keeps its position.
 */
module FormatList {
  import opened Wrappers
  import opened Formats
  import opened StableSort

  /** The format is kept under URL u: it has a truthy URL and that URL is u. */
  predicate CarriesUrl(f: MediaFormat, u: Value)
  {
    HasUrl(f) && f.url == Some(u)
  }

  function Carrier(u: Value): MediaFormat -> bool
  {
    f => CarriesUrl(f, u)
  }

  /** `(f.height || 0) * 2 + (f.filesize || 0)`. */
  function Score(f: MediaFormat): int
  {
    HeightRank(f) * 2 + FilesizeRank(f)
  }

  /**
   * The score never drops when neither height nor filesize drops, and rises
   * when either rises; each pixel of height weighs as much as two bytes.
   */
  lemma ScoreMonotone(a: MediaFormat, b: MediaFormat)
    ensures HeightRank(a) <= HeightRank(b) && FilesizeRank(a) <= FilesizeRank(b) ==> Score(a) <= Score(b)
    ensures (&& HeightRank(a) <= HeightRank(b) && FilesizeRank(a) <= FilesizeRank(b)
             && (HeightRank(a) < HeightRank(b) || FilesizeRank(a) < FilesizeRank(b))) ==> Score(a) < Score(b)
    ensures HeightRank(b) == HeightRank(a) + 1 && FilesizeRank(b) == FilesizeRank(a) - 2 ==> Score(a) == Score(b)
  {
  }

  /** The truthy URLs of s, each once, in the order of their first occurrence. */
  function SeenUrls(s: seq<MediaFormat>): seq<Value>
  {
    if s == [] then []
    else
      var prev := SeenUrls(s[..|s| - 1]);
      var f := s[|s| - 1];
      if HasUrl(f) && f.url.value !in prev then prev + [f.url.value] else prev
  }

  /** The entry kept for URL u: the first of those carrying u with the highest score. */
  function KeptFor(s: seq<MediaFormat>, u: Value): Option<MediaFormat>
  {
    ArgMaxWhere(s, Carrier(u), Score)
  }

  /** The deduplicated list: for each URL in first-seen order, the entry kept for it. */
  function Deduped(s: seq<MediaFormat>): seq<MediaFormat>
  {
    var urls := SeenUrls(s);
    seq(|urls|, i requires 0 <= i < |urls| =>
      SeenUrlKept(s, urls[i]);
      KeptFor(s, urls[i]).value)
  }

  /** Every first-seen URL has an entry kept for it. */
  lemma SeenUrlKept(s: seq<MediaFormat>, u: Value)
    requires u in SeenUrls(s)
    ensures KeptFor(s, u).Some?
  {
    SeenUrlsAreCarried(s);
    ArgMaxWhereIsFirstMaximal(s, Carrier(u), Score);
  }

  /** SeenUrls: distinct, and exactly the truthy URLs of s. */
  lemma {:induction false} SeenUrlsAreCarried(s: seq<MediaFormat>)
    ensures forall i, j :: 0 <= i < j < |SeenUrls(s)| ==> SeenUrls(s)[i] != SeenUrls(s)[j]
    ensures forall u :: u in SeenUrls(s) <==> exists k :: 0 <= k < |s| && CarriesUrl(s[k], u)
  {
    if s != [] {
      var init := s[..|s| - 1];
      SeenUrlsAreCarried(init);
      forall u ensures u in SeenUrls(s) <==> exists k :: 0 <= k < |s| && CarriesUrl(s[k], u) {
        if u in SeenUrls(init) {
          var k :| 0 <= k < |init| && CarriesUrl(init[k], u);
          assert CarriesUrl(s[k], u);
        }
        if exists k :: 0 <= k < |s| && CarriesUrl(s[k], u) {
          var k :| 0 <= k < |s| && CarriesUrl(s[k], u);
          if k < |init| {
            assert CarriesUrl(init[k], u);
          }
        }
      }
    }
  }

  /**
   * Some occurrence of u comes before every occurrence of v: u was first
   * seen before v.
   */
  ghost predicate SeenBefore(s: seq<MediaFormat>, u: Value, v: Value)
  {
    exists a :: 0 <= a < |s| && CarriesUrl(s[a], u) && forall b :: 0 <= b <= a ==> !CarriesUrl(s[b], v)
  }

  lemma {:induction false} SeenUrlsOrdered(s: seq<MediaFormat>)
    ensures forall i, j :: 0 <= i < j < |SeenUrls(s)| ==> SeenBefore(s, SeenUrls(s)[i], SeenUrls(s)[j])
  {
    if s != [] {
      var init := s[..|s| - 1];
      var prev := SeenUrls(init);
      SeenUrlsOrdered(init);
      SeenUrlsAreCarried(init);
      var urls := SeenUrls(s);
      forall i, j | 0 <= i < j < |urls| ensures SeenBefore(s, urls[i], urls[j]) {
        if j < |prev| {
          assert SeenBefore(init, prev[i], prev[j]);
          var a :| 0 <= a < |init| && CarriesUrl(init[a], prev[i])
            && forall b :: 0 <= b <= a ==> !CarriesUrl(init[b], prev[j]);
          assert forall b :: 0 <= b <= a ==> s[b] == init[b];
          assert CarriesUrl(s[a], urls[i]);
        } else {
          assert urls[i] in prev;
          var a :| 0 <= a < |init| && CarriesUrl(init[a], urls[i]);
          assert urls[j] !in prev;
          assert forall b :: 0 <= b <= a ==> !CarriesUrl(init[b], urls[j]);
          assert forall b :: 0 <= b <= a ==> s[b] == init[b];
          assert CarriesUrl(s[a], urls[i]);
        }
      }
    }
  }

  /** `dedupeFormatsByUrl`: one pass over the list, updating an insertion-ordered map. */
  method DedupeFormatsByUrl(formats: seq<MediaFormat>) returns (r: seq<MediaFormat>)
    ensures r == Deduped(formats)
  {
    var order: seq<Value> := [];
    var kept: map<Value, MediaFormat> := map[];
    var i := 0;
    while i < |formats|
      invariant 0 <= i <= |formats|
      invariant order == SeenUrls(formats[..i])
      invariant forall u :: u in kept <==> u in order
      invariant forall u :: KeptFor(formats[..i], u) == (if u in kept then Some(kept[u]) else None)
    {
      var f := formats[i];
      assert formats[..i + 1] == formats[..i] + [f];
      assert formats[..i + 1][..i] == formats[..i];
      forall u ensures KeptFor(formats[..i + 1], u) == ReplaceIfBetter(KeptFor(formats[..i], u), f, u) {
        ArgMaxWhereAppend(formats[..i], f, Carrier(u), Score);
      }
      if HasUrl(f) {
        var key := f.url.value;
        if key !in kept {
          kept := kept[key := f];
          order := order + [key];
        } else if Score(f) > Score(kept[key]) {
          kept := kept[key := f];
        }
      }
      i := i + 1;
    }
    assert formats[..i] == formats;
    r := seq(|order|, k requires 0 <= k < |order| => kept[order[k]]);
  }

  /** The entry kept for u once f has been seen after the entry o kept so far. */
  function ReplaceIfBetter(o: Option<MediaFormat>, f: MediaFormat, u: Value): Option<MediaFormat>
  {
    if !CarriesUrl(f, u) then o
    else if o.None? || Score(f) > Score(o.value) then Some(f)
    else o
  }

  /**
   * The deduplicated list holds only formats with a URL, no two with the
   * same URL, and one for every URL that occurs.
   */
  lemma DedupedUniqueUrls(s: seq<MediaFormat>)
    ensures forall i :: 0 <= i < |Deduped(s)| ==> HasUrl(Deduped(s)[i])
    ensures forall i, j :: 0 <= i < j < |Deduped(s)| ==> Deduped(s)[i].url != Deduped(s)[j].url
    ensures forall k :: 0 <= k < |s| && HasUrl(s[k]) ==>
      exists i :: 0 <= i < |Deduped(s)| && Deduped(s)[i].url == s[k].url
  {
    var d, urls := Deduped(s), SeenUrls(s);
    SeenUrlsAreCarried(s);
    forall i | 0 <= i < |d| ensures CarriesUrl(d[i], urls[i]) {
      SeenUrlKept(s, urls[i]);
      ArgMaxWhereIsFirstMaximal(s, Carrier(urls[i]), Score);
    }
    forall k | 0 <= k < |s| && HasUrl(s[k])
      ensures exists i :: 0 <= i < |d| && d[i].url == s[k].url
    {
      assert CarriesUrl(s[k], s[k].url.value);
      assert s[k].url.value in urls;
      var i :| 0 <= i < |urls| && urls[i] == s[k].url.value;
      assert d[i].url == s[k].url;
    }
  }

  /**
   * Each kept entry is an entry of the input, its score is at least that of
   * every entry with the same URL, and every earlier entry with that URL
   * scores strictly less: on a tie the first one seen stays.
   */
  lemma DedupedKeepsBest(s: seq<MediaFormat>)
    ensures forall i :: 0 <= i < |Deduped(s)| ==>
      (Deduped(s)[i].url.Some? &&
       exists k :: FirstMaximal(s, Carrier(Deduped(s)[i].url.value), Score, k) && s[k] == Deduped(s)[i])
  {
    var d, urls := Deduped(s), SeenUrls(s);
    forall i | 0 <= i < |d|
      ensures d[i].url.Some? && exists k :: FirstMaximal(s, Carrier(d[i].url.value), Score, k) && s[k] == d[i]
    {
      SeenUrlKept(s, urls[i]);
      ArgMaxWhereIsFirstMaximal(s, Carrier(urls[i]), Score);
      var k :| FirstMaximal(s, Carrier(urls[i]), Score, k) && s[k] == d[i];
      assert d[i].url.value == urls[i];
    }
  }

  /** The deduplicated list follows the order in which each URL was first seen. */
  lemma DedupedFirstSeenOrder(s: seq<MediaFormat>)
    ensures forall i :: 0 <= i < |Deduped(s)| ==> Deduped(s)[i].url.Some?
    ensures forall i, j :: 0 <= i < j < |Deduped(s)| ==>
      SeenBefore(s, Deduped(s)[i].url.value, Deduped(s)[j].url.value)
  {
    var d, urls := Deduped(s), SeenUrls(s);
    SeenUrlsOrdered(s);
    forall i | 0 <= i < |d| ensures d[i].url == Some(urls[i]) {
      SeenUrlKept(s, urls[i]);
      ArgMaxWhereIsFirstMaximal(s, Carrier(urls[i]), Score);
    }
  }

  /** ASCII lower-casing (`String.prototype.toLowerCase` on ASCII text). */
  function Lower(s: string): (r: string)
    ensures |r| == |s|
    ensures forall i :: 0 <= i < |s| ==> r[i] == (if 'A' <= s[i] <= 'Z' then (s[i] as int + 32) as char else s[i])
  {
    if s == [] then []
    else [if 'A' <= s[0] <= 'Z' then (s[0] as int + 32) as char else s[0]] + Lower(s[1..])
  }

  /** sub occurs in s starting at index i. */
  predicate OccursAt(s: string, sub: string, i: nat)
  {
    i + |sub| <= |s| && s[i..i + |sub|] == sub
  }

  /** `String.prototype.includes`. */
  function Contains(s: string, sub: string): (b: bool)
    ensures b <==> exists i: nat :: OccursAt(s, sub, i)
  {
    if |s| < |sub| then false
    else if s[..|sub|] == sub then
      assert OccursAt(s, sub, 0);
      true
    else
      var rest := Contains(s[1..], sub);
      assert forall i: nat :: OccursAt(s[1..], sub, i) <==> OccursAt(s, sub, i + 1) by {
        forall i: nat ensures OccursAt(s[1..], sub, i) <==> OccursAt(s, sub, i + 1) {
          if i + |sub| <= |s| - 1 {
            assert s[1..][i..i + |sub|] == s[i + 1..i + 1 + |sub|];
          }
        }
      }
      assert (exists i: nat :: OccursAt(s, sub, i)) ==> rest by {
        if exists i: nat :: OccursAt(s, sub, i) {
          var i: nat :| OccursAt(s, sub, i);
          assert i != 0;
          assert OccursAt(s[1..], sub, i - 1);
        }
      }
      rest
  }

  /** `(v || '')` for a text field. */
  function TextOrEmpty(v: Option<Value>): string
  {
    match v
    case Some(Str(s)) => s
    case _ => ""
  }

  /**
   * The audio test of `groupFormats`: the lower-cased extension holds `m4a`
   * or is `mp3`, or the lower-cased format note holds `audio`. A format
   * carrying neither an extension nor a note is video.
   */
  function IsAudio(f: MediaFormat): (b: bool)
    ensures b <==> (
      || (exists i: nat :: OccursAt(Lower(TextOrEmpty(f.ext)), "m4a", i))
      || Lower(TextOrEmpty(f.ext)) == "mp3"
      || (exists i: nat :: OccursAt(Lower(TextOrEmpty(f.formatNote)), "audio", i)))
    ensures f.ext.None? && f.formatNote.None? ==> !b
  {
    var ext := Lower(TextOrEmpty(f.ext));
    var m4a := Contains(ext, "m4a");
    var audio := Contains(Lower(TextOrEmpty(f.formatNote)), "audio");
    assert m4a ==> exists i: nat :: OccursAt(Lower(TextOrEmpty(f.ext)), "m4a", i);
    assert (exists i: nat :: OccursAt(Lower(TextOrEmpty(f.ext)), "m4a", i)) ==> m4a;
    assert audio ==> exists i: nat :: OccursAt(Lower(TextOrEmpty(f.formatNote)), "audio", i);
    assert (exists i: nat :: OccursAt(Lower(TextOrEmpty(f.formatNote)), "audio", i)) ==> audio;
    m4a || ext == "mp3" || audio
  }

  predicate IsVideo(f: MediaFormat)
  {
    !IsAudio(f)
  }

  /**
   * `groupFormats`: deduplicate, push each entry onto `audio` or `video`,
   * then sort video by height and audio by filesize, best first, stably.
   */
  method GroupFormats(formats: seq<MediaFormat>) returns (audio: seq<MediaFormat>, video: seq<MediaFormat>)
    ensures audio == SortDesc(Keep(Deduped(formats), IsAudio), FilesizeRank)
    ensures video == SortDesc(Keep(Deduped(formats), IsVideo), HeightRank)
    ensures multiset(audio) + multiset(video) == multiset(Deduped(formats))
    ensures forall f :: f in audio ==> IsAudio(f)
    ensures forall f :: f in video ==> !IsAudio(f)
    ensures SortedDesc(audio, FilesizeRank) && SortedDesc(video, HeightRank)
    ensures forall k :: KeyClass(audio, FilesizeRank, k) == KeyClass(Keep(Deduped(formats), IsAudio), FilesizeRank, k)
    ensures forall k :: KeyClass(video, HeightRank, k) == KeyClass(Keep(Deduped(formats), IsVideo), HeightRank, k)
  {
    var deduped := DedupeFormatsByUrl(formats);
    audio, video := [], [];
    var i := 0;
    while i < |deduped|
      invariant 0 <= i <= |deduped|
      invariant audio == Keep(deduped[..i], IsAudio)
      invariant video == Keep(deduped[..i], IsVideo)
    {
      var f := deduped[i];
      assert deduped[..i + 1][..i] == deduped[..i];
      if IsAudio(f) {
        audio := audio + [f];
      } else {
        video := video + [f];
      }
      i := i + 1;
    }
    assert deduped[..i] == deduped;
    KeepPartition(deduped, IsAudio, IsVideo);
    var unsortedAudio, unsortedVideo := audio, video;
    video := SortDesc(video, HeightRank);
    audio := SortDesc(audio, FilesizeRank);
    SortDescSorted(unsortedAudio, FilesizeRank);
    SortDescSorted(unsortedVideo, HeightRank);
    forall k ensures KeyClass(audio, FilesizeRank, k) == KeyClass(unsortedAudio, FilesizeRank, k) {
      SortDescStable(unsortedAudio, FilesizeRank, k);
    }
    forall k ensures KeyClass(video, HeightRank, k) == KeyClass(unsortedVideo, HeightRank, k) {
      SortDescStable(unsortedVideo, HeightRank, k);
    }
    forall f | f in audio ensures IsAudio(f) {
      assert f in multiset(audio);
    }
    forall f | f in video ensures !IsAudio(f) {
      assert f in multiset(video);
    }
  }
}
