/** Client-side logic of public/app.js that is not DOM work: the once-per-
    video view registration and the liked percentage. */
module Client {

  /** The ids for which a run of `registerView` calls posts a view, in
      order, starting from the already viewed ids `viewed`. */
  function PostedViews(viewed: set<string>, calls: seq<string>): seq<string>
    decreases |calls|
  {
    if calls == [] then []
    else
      var id := calls[0];
      (if id in viewed then [] else [id]) + PostedViews(viewed + {id}, calls[1..])
  }

  /** However the calls go, a view is posted at most once per id, exactly
      for the called ids not viewed at the start. */
  lemma {:induction false} PostedAtMostOnce(viewed: set<string>, calls: seq<string>)
    ensures var posted := PostedViews(viewed, calls);
            && (forall i, j :: 0 <= i < j < |posted| ==> posted[i] != posted[j])
            && (forall id :: id in posted <==> id in calls && id !in viewed)
    decreases |calls|
  {
    if calls != [] {
      var id := calls[0];
      var rest := PostedViews(viewed + {id}, calls[1..]);
      PostedAtMostOnce(viewed + {id}, calls[1..]);
      assert calls == [id] + calls[1..];
      var posted := (if id in viewed then [] else [id]) + rest;
      forall i, j | 0 <= i < j < |posted| ensures posted[i] != posted[j] {
        if id !in viewed && i == 0 {
          assert posted[j] == rest[j - 1];
        }
      }
    }
  }

  class ViewTracker {
    /** `state.viewed`: the ids a view has been registered for. */
    var viewed: set<string>

    constructor ()
      ensures viewed == {}
    {
      viewed := {};
    }

    /** `registerView`: returns whether the view request is sent. */
    method RegisterView(id: string) returns (post: bool)
      modifies this
      ensures viewed == old(viewed) + {id}
      ensures post <==> id !in old(viewed)
      ensures (if post then [id] else []) == PostedViews(old(viewed), [id])
    {
      if id in viewed {
        return false;
      }
      viewed := viewed + {id};
      post := true;
    }
  }

  /** The liked percentage shown under the player: 100 with no votes,
      otherwise `likes / total * 100` rounded to the nearest integer, halves
      up. */
  function LikeRatio(likes: nat, dislikes: nat): (r: nat)
    ensures r <= 100
    ensures likes + dislikes == 0 ==> r == 100
    ensures likes + dislikes > 0 ==>
              var total: int := likes + dislikes;
              -total < 2 * (r * total - 100 * likes) <= total
    ensures dislikes == 0 ==> r == 100
    ensures likes == 0 && dislikes > 0 ==> r == 0
  {
    var total := likes + dislikes;
    if total == 0 then 100
    else
      var r := (200 * likes + total) / (2 * total);
      RoundedRatio(likes, total, r);
      r
  }

  lemma RoundedRatio(likes: int, total: int, r: int)
    requires 0 <= likes <= total && 0 < total && r == (200 * likes + total) / (2 * total)
    ensures 0 <= r <= 100
    ensures -total < 2 * (r * total - 100 * likes) <= total
    ensures likes == total ==> r == 100
    ensures likes == 0 ==> r == 0
  {
    var d := 2 * total;
    var n := 200 * likes + total;
    var rem := n % d;
    assert n == d * r + rem && 0 <= rem < d;
    assert d * r == 2 * (r * total);
    assert 2 * (r * total - 100 * likes) == total - rem;
    DivBounds(n, d, r);
    if likes == total {
      DivUnique(n, d, 100, total);
    }
    if likes == 0 {
      DivUnique(n, d, 0, total);
    }
  }

  lemma DivUnique(n: int, d: int, q: int, rem: int)
    requires 0 <= rem < d && n == d * q + rem
    ensures n / d == q
  {
    var q' := n / d;
    assert d * q' + n % d == d * q + rem;
    if q' < q {
      MulStep(d, q', q);
    } else if q' > q {
      MulStep(d, q, q');
    }
  }

  lemma MulStep(d: int, a: int, b: int)
    requires 0 < d && a < b
    ensures d * a + d <= d * b
    decreases b - a
  {
    if a + 1 < b {
      MulStep(d, a + 1, b);
    }
    assert d * (a + 1) == d * a + d;
  }

  lemma DivBounds(n: int, d: int, q: int)
    requires 0 < d && 0 <= n < 101 * d && q == n / d
    ensures 0 <= q <= 100
  {
  }
}
