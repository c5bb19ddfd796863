/** The video list that `syncVideos` returns: one summary per catalog entry,
    newest upload first. */
module Listing {
  import opened Catalog
  import opened Metadata

  datatype Summary = Summary(
    id: string,
    title: string,
    embedUrl: string,
    posterUrl: string,
    views: nat,
    likes: nat,
    dislikes: nat,
    commentsCount: nat,
    uploadedAt: int)

  /** Every catalog entry has a record with a comment list. */
  predicate Covers(catalog: seq<VideoEntry>, videos: map<string, Meta>) {
    forall i :: 0 <= i < |catalog| ==>
      catalog[i].id in videos && videos[catalog[i].id].comments.Some?
  }

  /** The summary of one entry: its catalog fields and its counters, a
      missing counter read as 0. */
  function SummaryOf(e: VideoEntry, m: Meta): (s: Summary)
    requires m.comments.Some?
    ensures s.id == e.id && s.title == e.title && s.uploadedAt == e.uploadedAt
    ensures s.embedUrl == e.embedUrl && s.posterUrl == e.posterUrl
    ensures s.commentsCount == |m.comments.value|
    ensures m.views.Some? ==> s.views == m.views.value
    ensures m.likes.Some? ==> s.likes == m.likes.value
    ensures m.dislikes.Some? ==> s.dislikes == m.dislikes.value
  {
    Summary(e.id, e.title, e.embedUrl, e.posterUrl, m.views.GetOr(0), m.likes.GetOr(0),
            m.dislikes.GetOr(0), |m.comments.value|, e.uploadedAt)
  }

  /** `cloudVideos.map(...)`: the summaries in catalog order. */
  function Summaries(catalog: seq<VideoEntry>, videos: map<string, Meta>): (r: seq<Summary>)
    requires Covers(catalog, videos)
    ensures |r| == |catalog|
    ensures forall i :: 0 <= i < |r| ==> r[i] == SummaryOf(catalog[i], videos[catalog[i].id])
  {
    if catalog == [] then []
    else [SummaryOf(catalog[0], videos[catalog[0].id])] + Summaries(catalog[1..], videos)
  }

  predicate NewestFirst(s: seq<Summary>) {
    forall i, j :: 0 <= i < j < |s| ==> s[i].uploadedAt >= s[j].uploadedAt
  }

  /** Places `x` before the first summary that is not newer than it, so that
      of two equally old summaries the earlier one stays first. */
  function Insert(x: Summary, s: seq<Summary>): (r: seq<Summary>)
    requires NewestFirst(s)
    ensures NewestFirst(r)
    ensures multiset(r) == multiset(s) + multiset{x}
    ensures |r| == |s| + 1
    ensures r[0] == x || (s != [] && r[0] == s[0])
  {
    if s == [] || s[0].uploadedAt <= x.uploadedAt then [x] + s
    else
      var rest := Insert(x, s[1..]);
      assert s == [s[0]] + s[1..];
      assert s[0].uploadedAt >= rest[0].uploadedAt;
      assert forall k :: 0 <= k < |rest| ==> rest[0].uploadedAt >= rest[k].uploadedAt;
      [s[0]] + rest
  }

  /** `.sort((a, b) => b.uploadedAt - a.uploadedAt)`: newest first, a
      rearrangement of the input. */
  function SortNewestFirst(s: seq<Summary>): (r: seq<Summary>)
    ensures NewestFirst(r)
    ensures multiset(r) == multiset(s)
    ensures |r| == |s|
  {
    if s == [] then []
    else
      assert s == [s[0]] + s[1..];
      Insert(s[0], SortNewestFirst(s[1..]))
  }

  /** The list a sync returns has one summary per catalog entry, newest
      first: it rearranges the catalog-order summaries, so every entry's
      summary appears in it, and each element is the summary of some entry,
      with the comment count of that video's stored comments. */
  lemma ListingShape(catalog: seq<VideoEntry>, videos: map<string, Meta>)
    requires Covers(catalog, videos)
    ensures var r := SortNewestFirst(Summaries(catalog, videos));
            && |r| == |catalog|
            && NewestFirst(r)
            && multiset(r) == multiset(Summaries(catalog, videos))
            && (forall i :: 0 <= i < |catalog| ==> SummaryOf(catalog[i], videos[catalog[i].id]) in r)
            && (forall j :: 0 <= j < |r| ==>
                  exists i :: 0 <= i < |catalog| && r[j] == SummaryOf(catalog[i], videos[catalog[i].id])
                              && r[j].commentsCount == |videos[catalog[i].id].comments.value|)
  {
    var s := Summaries(catalog, videos);
    var r := SortNewestFirst(s);
    forall j | 0 <= j < |r|
      ensures exists i :: 0 <= i < |catalog| && r[j] == SummaryOf(catalog[i], videos[catalog[i].id])
                          && r[j].commentsCount == |videos[catalog[i].id].comments.value|
    {
      assert r[j] in multiset(s);
      var i :| 0 <= i < |s| && s[i] == r[j];
    }
    forall i | 0 <= i < |catalog|
      ensures SummaryOf(catalog[i], videos[catalog[i].id]) in r
    {
      assert s[i] in multiset(s);
    }
  }

  /** After a sync every catalog entry has a record with comments. */
  lemma SyncedCovers(catalog: seq<VideoEntry>, videos: map<string, Meta>)
    ensures Covers(catalog, SyncedVideos(videos, Ids(catalog)))
  {
    var v := SyncedVideos(videos, Ids(catalog));
    forall i | 0 <= i < |catalog| ensures catalog[i].id in v && v[catalog[i].id].comments.Some? {
      assert Ids(catalog)[i] == catalog[i].id;
    }
  }
}
