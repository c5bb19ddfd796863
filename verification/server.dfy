/** The server's in-memory store (`db` in server.js) and the request
    handlers that read and change it. */
module Server {
  import opened Api
  import opened Catalog
  import opened JsString
  import opened Metadata
  import opened Ledger
  import opened Listing
  import opened Accounts

  /** The whole store, as it is written to db.json. */
  datatype DbState = DbState(
    users: seq<User>,
    videos: map<string, Meta>,
    reactions: map<string, Records>)

  /** A parsed db.json; a top-level field that is missing or not of the
      expected JSON type is `None`. */
  datatype StoredDb = StoredDb(
    users: Option<seq<User>>,
    videos: Option<map<string, Meta>>,
    reactions: Option<map<string, Records>>)

  /** `loadDb` with `normalizeDb`: each well-typed field is kept, any other
      becomes empty; a file that cannot be read or parsed (`None`) gives the
      empty store. */
  function LoadDb(file: Option<StoredDb>): (d: DbState)
    ensures file.None? ==> d == DbState([], map[], map[])
    ensures file.Some? ==> d.users == file.value.users.GetOr([])
    ensures file.Some? ==> d.videos == file.value.videos.GetOr(map[])
    ensures file.Some? ==> d.reactions == file.value.reactions.GetOr(map[])
  {
    match file
    case None => DbState([], map[], map[])
    case Some(data) =>
      DbState(data.users.GetOr([]), data.videos.GetOr(map[]), data.reactions.GetOr(map[]))
  }

  const MaxCommentLength: nat := 500

  class Store {
    /** The catalog the server was deployed with (`cloudVideos`). */
    const catalog: seq<VideoEntry>
    var users: seq<User>
    var videos: map<string, Meta>
    var reactions: map<string, Records>
    /** The store as last written to db.json by `persistDb`. */
    var disk: DbState

    function State(): DbState
      reads this
    {
      DbState(users, videos, reactions)
    }

    /** Every record has all its fields; true from the startup sync on. */
    ghost predicate Valid()
      reads this
    {
      forall id :: id in videos ==> Complete(videos[id])
    }

    ghost predicate Consistent()
      reads this
    {
      LedgerConsistent(videos, reactions)
    }

    function CatalogIds(): seq<string>
      reads this
    {
      Ids(catalog)
    }

    /** Start-up: load db.json, then sync against the catalog. */
    constructor (catalog: seq<VideoEntry>, file: Option<StoredDb>)
      ensures this.catalog == catalog && Valid()
      ensures users == LoadDb(file).users
      ensures videos == SyncedVideos(LoadDb(file).videos, Ids(catalog))
      ensures reactions == SyncedReactions(LoadDb(file).videos, LoadDb(file).reactions, Ids(catalog))
      ensures disk == State()
      ensures LedgerConsistent(LoadDb(file).videos, LoadDb(file).reactions) ==> Consistent()
      ensures file.None? ==> Consistent()
    {
      var d := LoadDb(file);
      this.catalog := catalog;
      users, videos, reactions := d.users, d.videos, d.reactions;
      disk := d;
      new;
      var _ := Sync();
    }

    /** `persistDb`: the whole store is written out. */
    method Persist()
      modifies this`disk
      ensures disk == State()
    {
      disk := State();
    }

    /** `syncVideos`: purge records of ids gone from the catalog (with their
        reactions), create zeroed records for new ids, fill in missing fields
        of the others, persist, and list the catalog newest first. */
    method Sync() returns (listing: seq<Summary>)
      modifies this`videos, this`reactions, this`disk
      ensures videos == SyncedVideos(old(videos), CatalogIds())
      ensures reactions == SyncedReactions(old(videos), old(reactions), CatalogIds())
      ensures users == old(users) && disk == State() && Valid()
      ensures old(Consistent()) ==> Consistent()
      ensures Covers(catalog, videos)
      ensures listing == SortNewestFirst(Summaries(catalog, videos))
    {
      ghost var v0, r0 := videos, reactions;
      var ids := Ids(catalog);
      PurgeRemoved(ids);
      CompleteCatalog(ids);
      PurgeThenSettle(v0, ids);
      SyncShape(v0, r0, ids);
      Persist();
      if old(Consistent()) {
        SyncKeepsLedger(v0, r0, ids);
      }
      SyncedCovers(catalog, v0);
      listing := SortNewestFirst(Summaries(catalog, videos));
    }

    /** First pass of `syncVideos`: every stored id outside `ids` loses its
        record and its reaction map. */
    method PurgeRemoved(ids: seq<string>)
      modifies this`videos, this`reactions
      ensures videos == old(videos) - Purged(old(videos), ids)
      ensures reactions == SyncedReactions(old(videos), old(reactions), ids)
    {
      var keys := videos.Keys;
      while keys != {}
        invariant keys <= old(videos).Keys
        invariant videos == old(videos) - (Purged(old(videos), ids) - keys)
        invariant reactions == old(reactions) - (Purged(old(videos), ids) - keys)
        decreases keys
      {
        var key :| key in keys;
        if key !in ids {
          videos := videos - {key};
          reactions := reactions - {key};
        }
        keys := keys - {key};
      }
    }

    /** Second pass of `syncVideos`: every id of `ids` gets a zeroed record
        if it has none, or its missing fields filled in. */
    method CompleteCatalog(ids: seq<string>)
      requires forall k :: k in videos ==> k in ids
      modifies this`videos
      ensures videos == SyncedVideos(old(videos), ids)
    {
      var i := 0;
      while i < |ids|
        invariant 0 <= i <= |ids|
        invariant forall k :: k in videos <==> k in old(videos) || k in ids[..i]
        invariant forall k :: k in videos ==>
                    videos[k] == if k in ids[..i] then Settled(old(videos), k) else old(videos)[k]
      {
        var id := ids[i];
        if id !in videos {
          videos := videos[id := ZeroMeta];
        } else {
          videos := videos[id := Defaulted(videos[id])];
        }
        assert ids[..i + 1] == ids[..i] + [id];
        i := i + 1;
      }
      assert ids[..|ids|] == ids;
    }

    /** `getVideoMeta`: `None` for an id outside the catalog, leaving the
        store alone; otherwise the id's record, created zeroed if missing. */
    method GetVideoMeta(id: string) returns (m: Option<Meta>)
      modifies this`videos
      ensures id !in CatalogIds() ==> m == None && videos == old(videos)
      ensures id in CatalogIds() ==> videos == WithEntry(old(videos), id) && m == Some(videos[id])
      ensures old(Valid()) ==> Valid()
      ensures old(Consistent()) ==> Consistent()
    {
      if id !in CatalogIds() {
        return None;
      }
      if id !in videos {
        videos := videos[id := ZeroMeta];
      }
      if old(Consistent()) {
        WithEntryKeepsLedger(old(videos), reactions, id);
      }
      m := Some(videos[id]);
    }

    /** `POST /api/videos/:id/view`: one more view, persisted. */
    method RecordView(id: string) returns (r: Result<nat>)
      requires Valid()
      modifies this`videos, this`disk
      ensures Valid() && users == old(users) && reactions == old(reactions)
      ensures id !in CatalogIds() ==> r == Err(VideoNotFound) && videos == old(videos) && disk == old(disk)
      ensures id in CatalogIds() ==>
                var m := WithEntry(old(videos), id)[id];
                && r == Ok(m.views.value + 1)
                && videos == WithEntry(old(videos), id)[id := m.(views := Some(m.views.value + 1))]
                && disk == State()
      ensures old(Consistent()) ==> Consistent()
    {
      var meta := GetVideoMeta(id);
      if meta.None? {
        return Err(VideoNotFound);
      }
      var m := meta.value;
      var views := m.views.value + 1;
      if old(Consistent()) {
        SameCountersKeepLedger(videos, reactions, id, m.(views := Some(views)));
      }
      videos := videos[id := m.(views := Some(views))];
      Persist();
      r := Ok(views);
    }

    /** `POST /api/videos/:id/react`: record identity `key`'s reaction of type
        `reqType` and move the counters accordingly. */
    method React(id: string, reqType: string, key: string) returns (r: Result<Counts>)
      requires Valid()
      modifies this`videos, this`reactions, this`disk
      ensures Valid() && users == old(users)
      ensures id !in CatalogIds() ==>
                r == Err(VideoNotFound) && videos == old(videos) && reactions == old(reactions)
                && disk == old(disk)
      ensures id in CatalogIds() && ParseReaction(reqType).None? ==>
                r == Err(BadRequest("Reaction must be like or dislike"))
                && videos == WithEntry(old(videos), id) && reactions == old(reactions)
                && disk == old(disk)
      ensures id in CatalogIds() && ParseReaction(reqType).Some? ==>
                var t := ParseReaction(reqType).value;
                var m := WithEntry(old(videos), id)[id];
                var records := RecordsOf(old(reactions), id);
                var c := Transition(Counts(m.likes.value, m.dislikes.value), Lookup(records, key), t);
                && r == Ok(c)
                && videos == WithEntry(old(videos), id)[id := m.(likes := Some(c.likes), dislikes := Some(c.dislikes))]
                && reactions == old(reactions)[id := records[key := t]]
                && disk == (if Lookup(records, key) == Some(t) then old(disk) else State())
      ensures old(Consistent()) ==> Consistent()
    {
      var meta := GetVideoMeta(id);
      if meta.None? {
        return Err(VideoNotFound);
      }
      var reaction := ParseReaction(reqType);
      if reaction.None? {
        return Err(BadRequest("Reaction must be like or dislike"));
      }
      var c := RecordReaction(id, key, reaction.value);
      r := Ok(c);
    }

    /** The ledger step of the react handler for a video that has a record:
        a repeat of the identity's reaction changes nothing and is not
        persisted; any other request moves the counters and records `t`. */
    method RecordReaction(id: string, key: string, t: Reaction) returns (c: Counts)
      requires Valid() && id in videos
      modifies this`videos, this`reactions, this`disk
      ensures Valid() && users == old(users)
      ensures var m := old(videos)[id];
              var records := RecordsOf(old(reactions), id);
              && c == Transition(Counts(m.likes.value, m.dislikes.value), Lookup(records, key), t)
              && videos == old(videos)[id := m.(likes := Some(c.likes), dislikes := Some(c.dislikes))]
              && reactions == old(reactions)[id := records[key := t]]
              && disk == (if Lookup(records, key) == Some(t) then old(disk) else State())
      ensures old(Consistent()) ==> Consistent()
    {
      ghost var v0, r0 := videos, reactions;
      var m := videos[id];
      var records := RecordsOf(reactions, id);
      reactions := reactions[id := records];
      var existing := Lookup(records, key);
      var before := Counts(m.likes.value, m.dislikes.value);
      if existing == Some(t) {
        RepeatIsNoOp(before, records, key, t);
        assert m.(likes := Some(before.likes), dislikes := Some(before.dislikes)) == m;
        assert reactions == r0;
        return before;
      }
      c := Transition(before, existing, t);
      videos := videos[id := m.(likes := Some(c.likes), dislikes := Some(c.dislikes))];
      reactions := reactions[id := records[key := t]];
      Persist();
      assert reactions == r0[id := records[key := t]];
      assert videos == Reacted(v0, r0, id, key, t).0;
      assert reactions == Reacted(v0, r0, id, key, t).1;
      ReactStep(v0, r0, id, key, t, videos, reactions);
    }

    /** `GET /api/videos/:id/comments`. */
    method ListComments(id: string) returns (r: Result<seq<Comment>>)
      modifies this`videos
      ensures reactions == old(reactions) && users == old(users) && disk == old(disk)
      ensures old(Valid()) ==> Valid()
      ensures id !in CatalogIds() ==> r == Err(VideoNotFound) && videos == old(videos)
      ensures id in CatalogIds() ==>
                videos == WithEntry(old(videos), id) && r == Ok(videos[id].comments.GetOr([]))
      ensures old(Consistent()) ==> Consistent()
    {
      var meta := GetVideoMeta(id);
      if meta.None? {
        return Err(VideoNotFound);
      }
      r := Ok(meta.value.comments.GetOr([]));
    }

    /** `POST /api/videos/:id/comments` by `user` (`None` when signed out):
        the text is trimmed, refused when empty, cut to 500 characters and
        appended to the video's comments. `Ok` here stands for the handler's
        201 Created answer; every other handler answers `Ok` with 200. */
    method AddComment(user: Option<User>, id: string, text: string, commentId: string, now: int)
      returns (r: Result<Comment>)
      requires Valid()
      modifies this`videos, this`disk
      ensures Valid() && users == old(users) && reactions == old(reactions)
      ensures user.None? ==>
                r == Err(Unauthorized("Authentication required")) && videos == old(videos)
                && disk == old(disk)
      ensures user.Some? && id !in CatalogIds() ==>
                r == Err(VideoNotFound) && videos == old(videos) && disk == old(disk)
      ensures user.Some? && id in CatalogIds() && Trim(text) == "" ==>
                r == Err(BadRequest("Comment cannot be empty"))
                && videos == WithEntry(old(videos), id) && disk == old(disk)
      ensures user.Some? && id in CatalogIds() && Trim(text) != "" ==>
                var m := WithEntry(old(videos), id)[id];
                var c := Comment(commentId, user.value.id, user.value.username,
                                 Prefix(Trim(text), MaxCommentLength), now);
                && r == Ok(c)
                && videos == WithEntry(old(videos), id)[id := m.(comments := Some(m.comments.value + [c]))]
                && disk == State()
      ensures old(Consistent()) ==> Consistent()
    {
      if user.None? {
        return Err(Unauthorized("Authentication required"));
      }
      var meta := GetVideoMeta(id);
      if meta.None? {
        return Err(VideoNotFound);
      }
      var body := Trim(text);
      if body == "" {
        return Err(BadRequest("Comment cannot be empty"));
      }
      var c := Comment(commentId, user.value.id, user.value.username,
                       Prefix(body, MaxCommentLength), now);
      AppendComment(id, c);
      r := Ok(c);
    }

    /** `meta.comments.push(comment)` followed by `persistDb()`. */
    method AppendComment(id: string, c: Comment)
      requires Valid() && id in videos
      modifies this`videos, this`disk
      ensures Valid() && users == old(users) && reactions == old(reactions)
      ensures videos == old(videos)[id := old(videos)[id].(comments := Some(old(videos)[id].comments.value + [c]))]
      ensures disk == State()
      ensures old(Consistent()) ==> Consistent()
    {
      var m := videos[id];
      videos := videos[id := m.(comments := Some(m.comments.value + [c]))];
      Persist();
    }

    /** `POST /api/signup`: validate, then append an account with the given
        id and password hash and persist. */
    method Signup(username: string, password: string, newId: string, passwordHash: string)
      returns (r: Result<User>)
      modifies this`users, this`disk
      ensures videos == old(videos) && reactions == old(reactions)
      ensures SignupError(old(users), username, password).Some? ==>
                r == Err(SignupError(old(users), username, password).value)
                && users == old(users) && disk == old(disk)
      ensures SignupError(old(users), username, password).None? ==>
                r == Ok(User(newId, username, passwordHash, None))
                && users == old(users) + [r.value] && disk == State()
      ensures old(NamesUnique(users)) ==> NamesUnique(users)
    {
      var e := SignupError(users, username, password);
      if e.Some? {
        return Err(e.value);
      }
      var user := User(newId, username, passwordHash, None);
      if NamesUnique(users) {
        SignupKeepsNamesUnique(users, username, password, user);
      }
      users := users + [user];
      Persist();
      r := Ok(user);
    }
  }
}
