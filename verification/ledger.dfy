/** The reaction ledger: at most one reaction per (video, identity key), and
    like/dislike counters that follow the transitions between reactions. */
module Ledger {
  import opened Api
  import opened Metadata

  datatype Reaction = Like | Dislike

  /** The reaction records of one video, keyed by identity key. */
  type Records = map<string, Reaction>

  /** The request body's `type`: only "like" and "dislike" are accepted. */
  function ParseReaction(t: string): (r: Option<Reaction>)
    ensures r == Some(Like) <==> t == "like"
    ensures r == Some(Dislike) <==> t == "dislike"
  {
    if t == "like" then Some(Like) else if t == "dislike" then Some(Dislike) else None
  }

  function Lookup(records: Records, key: string): Option<Reaction> {
    if key in records then Some(records[key]) else None
  }

  /** `db.reactions[id] || {}`. */
  function RecordsOf(reactions: map<string, Records>, id: string): (r: Records)
    ensures id in reactions ==> r == reactions[id]
    ensures id !in reactions ==> |r| == 0
  {
    if id in reactions then reactions[id] else map[]
  }

  /** How many identities hold reaction `t`. */
  function Tally(records: Records, t: Reaction): nat {
    |Holders(records, t)|
  }

  function Holders(records: Records, t: Reaction): (s: set<string>)
    ensures forall key :: key in s <==> key in records && records[key] == t
  {
    set key | key in records && records[key] == t
  }

  datatype Counts = Counts(likes: nat, dislikes: nat)

  function Max0(n: int): nat {
    if n < 0 then 0 else n
  }

  /** The counters after a request of type `t` by an identity whose current
      reaction is `existing`: a repeat changes nothing; otherwise the old
      reaction's counter drops by one (never below zero) and the counter of
      `t` rises by one. */
  function Transition(c: Counts, existing: Option<Reaction>, t: Reaction): (r: Counts)
    ensures existing == Some(t) ==> r == c
    ensures existing != Some(t) && t == Like ==>
              r.likes == c.likes + 1
              && r.dislikes == (if existing == Some(Dislike) then Max0(c.dislikes - 1) else c.dislikes)
    ensures existing != Some(t) && t == Dislike ==>
              r.dislikes == c.dislikes + 1
              && r.likes == (if existing == Some(Like) then Max0(c.likes - 1) else c.likes)
    ensures r.likes + r.dislikes <= c.likes + c.dislikes + 1
  {
    if existing == Some(t) then c
    else
      var dropped :=
        match existing
        case Some(Like) => c.(likes := Max0(c.likes - 1))
        case Some(Dislike) => c.(dislikes := Max0(c.dislikes - 1))
        case None => c;
      match t
      case Like => dropped.(likes := dropped.likes + 1)
      case Dislike => dropped.(dislikes := dropped.dislikes + 1)
  }

  function TallyCounts(records: Records): Counts {
    Counts(Tally(records, Like), Tally(records, Dislike))
  }

  /** A video's counters equal the tally of its reaction records. */
  predicate Agrees(m: Meta, records: Records) {
    m.likes == Some(Tally(records, Like)) && m.dislikes == Some(Tally(records, Dislike))
  }

  /** The whole store agrees: reaction maps exist only for videos with
      metadata, and every video's counters equal its tallies. */
  predicate LedgerConsistent(videos: map<string, Meta>, reactions: map<string, Records>)
    ensures LedgerConsistent(videos, reactions) ==> reactions.Keys <= videos.Keys
    ensures LedgerConsistent(videos, reactions) ==>
              forall id :: id in videos ==> videos[id].likes.Some? && videos[id].dislikes.Some?
    ensures videos == map[] && reactions == map[] ==> LedgerConsistent(videos, reactions)
  {
    && (forall id :: id in reactions ==> id in videos)
    && (forall id :: id in videos ==> Agrees(videos[id], RecordsOf(reactions, id)))
  }

  /** Setting one identity's reaction to `t` moves that identity from its old
      tally (if any) to the tally of `t`, and touches no other tally. */
  lemma TallyUpdate(records: Records, key: string, t: Reaction, u: Reaction)
    ensures Tally(records[key := t], u) + (if Lookup(records, key) == Some(u) then 1 else 0)
         == Tally(records, u) + (if t == u then 1 else 0)
  {
    var updated := records[key := t];
    var before, after := Holders(records, u), Holders(updated, u);
    assert after - {key} == before - {key};
    if key in before {
      assert before == (before - {key}) + {key};
    }
    if key in after {
      assert after == (after - {key}) + {key};
    }
  }

  /** The transition keeps the counters equal to the tallies: starting from
      counters that agree with the records, the counters after the request
      agree with the records after the request. */
  lemma TransitionKeepsTally(records: Records, key: string, t: Reaction)
    ensures Transition(TallyCounts(records), Lookup(records, key), t)
         == TallyCounts(records[key := t])
  {
    TallyUpdate(records, key, t, Like);
    TallyUpdate(records, key, t, Dislike);
    if Lookup(records, key) == Some(t) {
      assert records[key := t] == records;
    }
  }

  /** A repeated request changes neither the counters nor the records. */
  lemma RepeatIsNoOp(c: Counts, records: Records, key: string, t: Reaction)
    requires Lookup(records, key) == Some(t)
    ensures Transition(c, Lookup(records, key), t) == c
    ensures records[key := t] == records
  {
  }

  /** Switching from like to dislike (or back) with agreeing counters moves
      exactly one vote: the zero floor is never needed. */
  lemma SwitchMovesOneVote(records: Records, key: string, t: Reaction)
    requires Lookup(records, key).Some? && Lookup(records, key) != Some(t)
    ensures var c := TallyCounts(records);
            var c' := Transition(c, Lookup(records, key), t);
            c'.likes + c'.dislikes == c.likes + c.dislikes
            && (t == Like ==> c'.likes == c.likes + 1 && c'.dislikes == c.dislikes - 1)
            && (t == Dislike ==> c'.dislikes == c.dislikes + 1 && c'.likes == c.likes - 1)
  {
    TransitionKeepsTally(records, key, t);
    TallyUpdate(records, key, t, Like);
    TallyUpdate(records, key, t, Dislike);
  }

  lemma TallyEmpty(t: Reaction)
    ensures Tally(map[], t) == 0
  {
    assert Holders(map[], t) == {};
  }

  /** The store after identity `key` reacts with `t` to video `id`: the
      video's counters moved by `Transition`, the identity's record set. */
  function Reacted(videos: map<string, Meta>, reactions: map<string, Records>,
                   id: string, key: string, t: Reaction): (r: (map<string, Meta>, map<string, Records>))
    requires id in videos && videos[id].likes.Some? && videos[id].dislikes.Some?
    ensures r.0.Keys == videos.Keys && r.1.Keys == reactions.Keys + {id}
  {
    var m := videos[id];
    var records := RecordsOf(reactions, id);
    var c := Transition(Counts(m.likes.value, m.dislikes.value), Lookup(records, key), t);
    (videos[id := m.(likes := Some(c.likes), dislikes := Some(c.dislikes))],
     reactions[id := records[key := t]])
  }

  /** Every reaction request keeps the counters equal to the tallies, for
      the video reacted to and, untouched, for every other video. */
  lemma ReactKeepsLedger(videos: map<string, Meta>, reactions: map<string, Records>,
                         id: string, key: string, t: Reaction)
    requires LedgerConsistent(videos, reactions) && id in videos
    ensures LedgerConsistent(Reacted(videos, reactions, id, key, t).0, Reacted(videos, reactions, id, key, t).1)
  {
    var (v1, r1) := Reacted(videos, reactions, id, key, t);
    var records := RecordsOf(reactions, id);
    TransitionKeepsTally(records, key, t);
    forall k | k in v1 ensures Agrees(v1[k], RecordsOf(r1, k)) {
      if k == id {
        assert RecordsOf(r1, k) == records[key := t];
      } else {
        assert RecordsOf(r1, k) == RecordsOf(reactions, k);
      }
    }
  }

  /** The one identity key that a JavaScript object does not store as an own
      property: reading it yields the inherited prototype and assigning a
      string to it is ignored. */
  const ProtoKey: string := "__proto__"

  /** The react step as the handler runs it on a plain object of records.
      For `ProtoKey` the read finds no reaction and the write stores none,
      while the counters still move; every other key behaves as in
      `Reacted`. */
  function ReactedAsWritten(videos: map<string, Meta>, reactions: map<string, Records>,
                            id: string, key: string, t: Reaction): (r: (map<string, Meta>, map<string, Records>))
    requires id in videos && videos[id].likes.Some? && videos[id].dislikes.Some?
    ensures key != ProtoKey ==> r == Reacted(videos, reactions, id, key, t)
    ensures key == ProtoKey ==> r.1 == reactions[id := RecordsOf(reactions, id)]
    ensures r.0.Keys == videos.Keys
  {
    if key != ProtoKey then Reacted(videos, reactions, id, key, t)
    else
      var m := videos[id];
      var c := Transition(Counts(m.likes.value, m.dislikes.value), None, t);
      (videos[id := m.(likes := Some(c.likes), dislikes := Some(c.dislikes))],
       reactions[id := RecordsOf(reactions, id)])
  }

  /** As written, a guest whose cookie is `__proto__` raises the counter of
      `t` on every request while no record is kept, so a consistent store
      stops being consistent; repeating the request widens the gap. */
  lemma ProtoKeyBreaksLedger(videos: map<string, Meta>, reactions: map<string, Records>,
                             id: string, t: Reaction)
    requires LedgerConsistent(videos, reactions) && id in videos
    ensures var r := ReactedAsWritten(videos, reactions, id, ProtoKey, t);
            && RecordsOf(r.1, id) == RecordsOf(reactions, id)
            && (t == Like ==> r.0[id].likes == Some(videos[id].likes.value + 1))
            && (t == Dislike ==> r.0[id].dislikes == Some(videos[id].dislikes.value + 1))
            && !LedgerConsistent(r.0, r.1)
  {
    var r := ReactedAsWritten(videos, reactions, id, ProtoKey, t);
    assert RecordsOf(r.1, id) == RecordsOf(reactions, id);
    assert !Agrees(r.0[id], RecordsOf(r.1, id));
  }

  /** Names the outcome of `Reacted` and carries consistency over to it. */
  lemma ReactStep(videos: map<string, Meta>, reactions: map<string, Records>,
                  id: string, key: string, t: Reaction,
                  videos': map<string, Meta>, reactions': map<string, Records>)
    requires id in videos && videos[id].likes.Some? && videos[id].dislikes.Some?
    requires (videos', reactions') == Reacted(videos, reactions, id, key, t)
    ensures LedgerConsistent(videos, reactions) ==> LedgerConsistent(videos', reactions')
  {
    if LedgerConsistent(videos, reactions) {
      ReactKeepsLedger(videos, reactions, id, key, t);
    }
  }

  /** A sync keeps the ledger consistent: purged videos lose metadata and
      reactions together, and a video new to the store has no reactions. */
  lemma SyncKeepsLedger(videos: map<string, Meta>, reactions: map<string, Records>, ids: seq<string>)
    requires LedgerConsistent(videos, reactions)
    ensures LedgerConsistent(SyncedVideos(videos, ids), SyncedReactions(videos, reactions, ids))
  {
    var v1, r1 := SyncedVideos(videos, ids), SyncedReactions(videos, reactions, ids);
    forall id | id in v1 ensures Agrees(v1[id], RecordsOf(r1, id)) {
      if id in videos {
        assert RecordsOf(r1, id) == RecordsOf(reactions, id);
      } else {
        assert RecordsOf(r1, id) == map[];
        TallyEmpty(Like);
        TallyEmpty(Dislike);
      }
    }
  }

  /** Creating a zeroed record for a video keeps the ledger consistent. */
  lemma WithEntryKeepsLedger(videos: map<string, Meta>, reactions: map<string, Records>, id: string)
    requires LedgerConsistent(videos, reactions)
    ensures LedgerConsistent(WithEntry(videos, id), reactions)
  {
    if id !in videos {
      assert RecordsOf(reactions, id) == map[];
      TallyEmpty(Like);
      TallyEmpty(Dislike);
    }
  }

  /** Replacing a video's record by one with the same counters (a view, a
      new comment) keeps the store consistent. */
  lemma SameCountersKeepLedger(videos: map<string, Meta>, reactions: map<string, Records>,
                               id: string, m: Meta)
    requires LedgerConsistent(videos, reactions)
    requires id in videos && m.likes == videos[id].likes && m.dislikes == videos[id].dislikes
    ensures LedgerConsistent(videos[id := m], reactions)
  {
    assert Agrees(videos[id], RecordsOf(reactions, id));
  }

  /** `ensureGuestKey`: the identity key and the guest cookie issued, if any. */
  datatype KeyChoice = KeyChoice(key: string, issuedGuestId: Option<string>)

  /** A signed-in user reacts under the user id; a guest under the guest id
      that the client holds once the response is in (its cookie, or the
      fresh id issued now). A fresh guest id is issued whenever the request
      carries no guest cookie, signed in or not. */
  function IdentityKey(userId: Option<string>, guestCookie: string, freshId: string): (r: KeyChoice)
    ensures r.issuedGuestId == (if guestCookie == "" then Some(freshId) else None)
    ensures userId.Some? ==> r.key == userId.value
    ensures userId.None? ==> r.key == r.issuedGuestId.GetOr(guestCookie)
  {
    var guestId := if guestCookie == "" then freshId else guestCookie;
    var issued := if guestCookie == "" then Some(freshId) else None;
    match userId
    case Some(uid) => KeyChoice(uid, issued)
    case None => KeyChoice(guestId, issued)
  }
}
