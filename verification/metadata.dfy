/** Per-video metadata as kept in the store, and the reconciliation of the
    store against the catalog that `syncVideos` performs. */
module Metadata {
  import opened Api

  datatype Comment = Comment(
    id: string,
    userId: string,
    username: string,
    text: string,
    createdAt: int)  // creation time, seconds since the Unix epoch

  /** The metadata record of one video. A field that the stored JSON lacks is
      `None`; `syncVideos` fills such fields in. */
  datatype Meta = Meta(
    views: Option<nat>,
    likes: Option<nat>,
    dislikes: Option<nat>,
    comments: Option<seq<Comment>>)

  /** The record created for a video that has none yet. */
  const ZeroMeta: Meta := Meta(Some(0), Some(0), Some(0), Some([]))

  predicate Complete(m: Meta) {
    m.views.Some? && m.likes.Some? && m.dislikes.Some? && m.comments.Some?
  }

  /** `x = x || default` on each field: a missing field gets 0 or `[]`, a
      present one is kept as it is. */
  function Defaulted(m: Meta): (d: Meta)
    ensures Complete(d)
    ensures d.views == (if m.views.Some? then m.views else Some(0))
    ensures d.likes == (if m.likes.Some? then m.likes else Some(0))
    ensures d.dislikes == (if m.dislikes.Some? then m.dislikes else Some(0))
    ensures d.comments == (if m.comments.Some? then m.comments else Some([]))
  {
    Meta(Some(m.views.GetOr(0)), Some(m.likes.GetOr(0)),
         Some(m.dislikes.GetOr(0)), Some(m.comments.GetOr([])))
  }

  /** What one catalog id holds once synchronised. */
  function Settled(videos: map<string, Meta>, id: string): (r: Meta)
    ensures Complete(r)
    ensures id in videos && Complete(videos[id]) ==> r == videos[id]
    ensures id !in videos ==> r == ZeroMeta
  {
    if id in videos then Defaulted(videos[id]) else ZeroMeta
  }

  /** The metadata map after a sync against the catalog ids `ids`. */
  function SyncedVideos(videos: map<string, Meta>, ids: seq<string>): (r: map<string, Meta>)
    ensures forall id :: id in r <==> id in ids
  {
    map id | id in ids :: Settled(videos, id)
  }

  /** The ids whose metadata a sync purges: stored, but not in the catalog. */
  function Purged(videos: map<string, Meta>, ids: seq<string>): (p: set<string>)
    ensures forall id :: id in p <==> id in videos && id !in ids
  {
    set id | id in videos && id !in ids
  }

  /** The reaction maps after a sync: those of purged ids are dropped. */
  function SyncedReactions<R>(videos: map<string, Meta>, reactions: map<string, R>,
                              ids: seq<string>): (r: map<string, R>)
    ensures forall id :: id in r <==> id in reactions && id !in Purged(videos, ids)
  {
    reactions - Purged(videos, ids)
  }

  /** `getVideoMeta`'s auto-vivification: a zeroed record for a missing id. */
  function WithEntry(videos: map<string, Meta>, id: string): (r: map<string, Meta>)
    ensures id in r && r.Keys == videos.Keys + {id}
    ensures forall k :: k in videos ==> r[k] == videos[k]
    ensures id !in videos ==> r[id] == ZeroMeta
  {
    if id in videos then videos else videos[id := ZeroMeta]
  }

  /** Purging first does not change what the catalog ids end up holding. */
  lemma PurgeThenSettle(videos: map<string, Meta>, ids: seq<string>)
    ensures SyncedVideos(videos - Purged(videos, ids), ids) == SyncedVideos(videos, ids)
  {
    var p := videos - Purged(videos, ids);
    assert forall k :: k in ids ==> Settled(p, k) == Settled(videos, k);
  }

  /** After a sync the stored ids are exactly the catalog ids, every record is
      complete, and a purged id has neither metadata nor reactions left. */
  lemma SyncShape<R>(videos: map<string, Meta>, reactions: map<string, R>, ids: seq<string>)
    ensures SyncedVideos(videos, ids).Keys == set id | id in ids
    ensures forall id :: id in SyncedVideos(videos, ids) ==> Complete(SyncedVideos(videos, ids)[id])
    ensures forall id :: id in videos && id !in ids ==>
              id !in SyncedVideos(videos, ids) && id !in SyncedReactions(videos, reactions, ids)
    ensures forall id :: id in reactions && (id in ids || id !in videos) ==>
              id in SyncedReactions(videos, reactions, ids)
              && SyncedReactions(videos, reactions, ids)[id] == reactions[id]
  {
  }

  /** A video that survives a sync keeps every counter and comment it had;
      only missing fields are filled in. A video new to the store starts at
      zero views, likes and dislikes with no comments. */
  lemma SyncKeepsSurvivors(videos: map<string, Meta>, ids: seq<string>, id: string)
    requires id in ids
    ensures var m := SyncedVideos(videos, ids)[id];
            && (id in videos ==>
                  && (videos[id].views.Some? ==> m.views == videos[id].views)
                  && (videos[id].likes.Some? ==> m.likes == videos[id].likes)
                  && (videos[id].dislikes.Some? ==> m.dislikes == videos[id].dislikes)
                  && (videos[id].comments.Some? ==> m.comments == videos[id].comments)
                  && (Complete(videos[id]) ==> m == videos[id]))
            && (id !in videos ==> m == ZeroMeta)
  {
  }

  /** Syncing twice against the same catalog changes nothing the second time. */
  lemma SyncIdempotent<R>(videos: map<string, Meta>, reactions: map<string, R>, ids: seq<string>)
    ensures var v1 := SyncedVideos(videos, ids);
            var r1 := SyncedReactions(videos, reactions, ids);
            SyncedVideos(v1, ids) == v1 && SyncedReactions(v1, r1, ids) == r1
  {
    var v1 := SyncedVideos(videos, ids);
    var r1 := SyncedReactions(videos, reactions, ids);
    assert Purged(v1, ids) == {};
    assert r1 - {} == r1;
  }

  /** A video dropped from the catalog and later added back starts over from
      zero: its old counters and reactions do not come back. */
  lemma {:induction false} NoResurrection<R>(videos: map<string, Meta>, reactions: map<string, R>,
                                             before: seq<string>, after: seq<string>, id: string)
    requires id in videos && id !in before && id in after
    ensures SyncedVideos(SyncedVideos(videos, before), after)[id] == ZeroMeta
    ensures id !in SyncedReactions(SyncedVideos(videos, before),
                                   SyncedReactions(videos, reactions, before), after)
  {
    var v1 := SyncedVideos(videos, before);
    assert id !in v1;
    assert id in Purged(videos, before);
  }
}
