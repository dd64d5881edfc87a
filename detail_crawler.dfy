/** The detail crawler: from the `src` attributes of the images in an
    announcement's body, keep only the university's file-download links,
    make them absolute, and save the announcement with one image entry per
    link and empty OCR text, unless a record with that post number already
    exists.

    The page fetch and the DOM query are outside calls: the crawler works on
    the list of `src` attributes in document order (None for an `img` without
    one). */
module DetailCrawler {
  import opened Wrappers
  import opened JsStrings
  import opened PostRecords

  const Origin := "https://www.jbnu.ac.kr"
  const FilePath := "/common/file.do"

  /** A `src` worth keeping: a relative or an absolute file-download link. */
  predicate IsFileLink(src: string) {
    StartsWith(src, FilePath) || StartsWith(src, Origin + FilePath)
  }

  /** A relative link gets the site's origin in front; an absolute one is
      kept as it is. */
  function Absolutize(src: string): (url: string)
    requires IsFileLink(src)
    ensures StartsWith(url, Origin + FilePath)
    ensures StartsWith(src, FilePath) ==> url == Origin + src
    ensures !StartsWith(src, FilePath) ==> url == src
  {
    if StartsWith(src, FilePath) then
      assert (Origin + src)[..|Origin + FilePath|] == Origin + src[..|FilePath|];
      Origin + src
    else src
  }

  /** The kept links, in document order. A missing or empty `src` is
      skipped. */
  function FileUrls(srcs: seq<Option<string>>): seq<string> {
    if srcs == [] then []
    else
      var src := srcs[|srcs| - 1];
      FileUrls(srcs[..|srcs| - 1]) +
        (if src.Some? && src.value != "" && IsFileLink(src.value) then [Absolutize(src.value)] else [])
  }

  /** The `.each` loop that pushes kept links onto `images`. */
  method ExtractImageUrls(srcs: seq<Option<string>>) returns (images: seq<string>)
    ensures images == FileUrls(srcs)
  {
    images := [];
    var i := 0;
    while i < |srcs|
      invariant i <= |srcs|
      invariant images == FileUrls(srcs[..i])
    {
      assert srcs[..i + 1][..i] == srcs[..i];
      var imgSrc := srcs[i];
      if imgSrc.None? || imgSrc.value == "" {
        i := i + 1;
        continue;
      }
      if IsFileLink(imgSrc.value) {
        images := images + [Absolutize(imgSrc.value)];
      }
      i := i + 1;
    }
    assert srcs[..i] == srcs;
  }

  // ----- properties -----

  lemma EmptyIsNoFileLink()
    ensures !IsFileLink("")
  {
  }

  /** A URL is kept exactly when some `src` is a file-download link that
      absolutises to it; every kept URL is an absolute file-download link and
      there are no more of them than `img` elements. */
  lemma FileUrlsMembership(srcs: seq<Option<string>>, url: string)
    ensures url in FileUrls(srcs) <==>
      exists k :: 0 <= k < |srcs| && srcs[k].Some? && IsFileLink(srcs[k].value) && Absolutize(srcs[k].value) == url
    ensures url in FileUrls(srcs) ==> StartsWith(url, Origin + FilePath)
    ensures |FileUrls(srcs)| <= |srcs|
  {
    FileUrlsFrom(srcs, url);
    FileUrlsCount(srcs);
  }

  lemma {:induction false} FileUrlsFrom(srcs: seq<Option<string>>, url: string)
    ensures url in FileUrls(srcs) <==>
      exists k :: 0 <= k < |srcs| && srcs[k].Some? && IsFileLink(srcs[k].value) && Absolutize(srcs[k].value) == url
  {
    if srcs != [] {
      var init, last := srcs[..|srcs| - 1], srcs[|srcs| - 1];
      FileUrlsFrom(init, url);
      EmptyIsNoFileLink();
      var kept := last.Some? && IsFileLink(last.value);
      assert FileUrls(srcs) == FileUrls(init) + (if kept then [Absolutize(last.value)] else []);
      if url in FileUrls(init) {
        var k :| 0 <= k < |init| && init[k].Some? && IsFileLink(init[k].value) && Absolutize(init[k].value) == url;
        assert srcs[k] == init[k];
      } else if kept && Absolutize(last.value) == url {
        assert srcs[|srcs| - 1] == last;
      } else {
        forall k | 0 <= k < |srcs| && srcs[k].Some? && IsFileLink(srcs[k].value)
          ensures Absolutize(srcs[k].value) != url
        {
          if k < |init| {
            assert init[k] == srcs[k];
          }
        }
      }
    }
  }

  lemma {:induction false} FileUrlsCount(srcs: seq<Option<string>>)
    ensures |FileUrls(srcs)| <= |srcs|
  {
    if srcs != [] {
      FileUrlsCount(srcs[..|srcs| - 1]);
    }
  }

  /** Document order is kept: the links of two consecutive runs of `img`
      elements are the links of the first followed by those of the second. */
  lemma {:induction false} FileUrlsAppend(a: seq<Option<string>>, b: seq<Option<string>>)
    ensures FileUrls(a + b) == FileUrls(a) + FileUrls(b)
    decreases |b|
  {
    if b == [] {
      assert a + b == a;
    } else {
      assert (a + b)[..|a + b| - 1] == a + b[..|b| - 1];
      FileUrlsAppend(a, b[..|b| - 1]);
    }
  }

  /** Filtering the crawler's own output again changes nothing. */
  lemma {:induction false} FileUrlsIdempotent(urls: seq<string>)
    requires forall k :: 0 <= k < |urls| ==> StartsWith(urls[k], Origin + FilePath)
    ensures FileUrls(seq(|urls|, k requires 0 <= k < |urls| => Some(urls[k]))) == urls
  {
    if urls != [] {
      var init := urls[..|urls| - 1];
      var srcs := seq(|urls|, k requires 0 <= k < |urls| => Some(urls[k]));
      assert srcs[..|srcs| - 1] == seq(|init|, k requires 0 <= k < |init| => Some(init[k]));
      FileUrlsIdempotent(init);
      var u := urls[|urls| - 1];
      assert u[..|FilePath|] != FilePath by {
        assert u[..|Origin + FilePath|] == Origin + FilePath;
        assert u[0] == 'h';
      }
    }
  }

  // ----- the handler -----

  /** The crawler's response. */
  datatype CrawlResult =
    | Skipped(postId: nat)
    | Saved(postId: nat)
    | CrawlFailed(postId: nat)

  /** What the listing crawler passed in, and the details extracted from the
      announcement page (None when the fetch failed). */
  datatype Listing = Listing(postId: nat, title: string, url: string)
  datatype Details = Details(date: string, content: string, srcs: seq<Option<string>>)

  /** The announcement table, keyed by post number. */
  class PostTable {
    var records: map<nat, Post>

    constructor ()
      ensures records == map[]
    {
      records := map[];
    }

    /** The handler: an existing post number is skipped with no write;
        otherwise the details are saved as a new record whose images all
        still need OCR. A failed fetch or write saves nothing. */
    method HandleDetail(listing: Listing, details: Option<Details>, saveOk: bool) returns (result: CrawlResult)
      modifies this
      ensures listing.postId in old(records) ==> result == Skipped(listing.postId) && records == old(records)
      ensures listing.postId !in old(records) && (details.None? || !saveOk) ==>
        result == CrawlFailed(listing.postId) && records == old(records)
      ensures listing.postId !in old(records) && details.Some? && saveOk ==>
        && result == Saved(listing.postId)
        && records.Keys == old(records).Keys + {listing.postId}
        && (forall id :: id in old(records) ==> records[id] == old(records)[id])
        && var post := records[listing.postId];
           && fresh(post) && fresh(post.images)
           && post.postId == listing.postId && post.title == listing.title && post.url == listing.url
           && post.date == details.value.date && post.content == details.value.content
           && post.images[..] == StoredImages(FileUrls(details.value.srcs))
           && post.State() == Unverified
    {
      if listing.postId in records {
        return Skipped(listing.postId);
      }
      if details.None? {
        return CrawlFailed(listing.postId);
      }
      var images := ExtractImageUrls(details.value.srcs);
      if !saveOk {
        return CrawlFailed(listing.postId);
      }
      var post := new Post(listing.postId, listing.title, listing.url, details.value.date, details.value.content, images);
      records := records[listing.postId := post];
      result := Saved(listing.postId);
    }
  }
}
