/** What holds of the cache in every interleaving of reads, answers and callbacks. */
module CacheHolds {
  import opened Wrappers
  import opened CacheModel

  // ----- Recency -----

  predicate Recent(requests: seq<Request>, readLog: seq<string>, order: seq<nat>) {
    && (forall k :: 0 <= k < |order| ==> order[k] < |requests| && 0 < LastRead(readLog, requests[order[k]].url))
    && (forall j, k :: 0 <= j < k < |order| ==>
          LastRead(readLog, requests[order[j]].url) < LastRead(readLog, requests[order[k]].url))
  }

  lemma RecentIsOrdered(c: Cache)
    ensures Ordered(c) <==> Recent(c.requests, c.readLog, c.order) && |c.order| <= c.capacity
  {
    hide LastRead;
    if Ordered(c) {
      forall j, k | 0 <= j < k < |c.order|
        ensures LastRead(c.readLog, c.requests[c.order[j]].url) < LastRead(c.readLog, c.requests[c.order[k]].url)
      {
        assert LastRead(c.readLog, Url(c, j)) < LastRead(c.readLog, Url(c, k));
      }
      forall k | 0 <= k < |c.order| ensures 0 < LastRead(c.readLog, c.requests[c.order[k]].url) {
        assert 0 < LastRead(c.readLog, Url(c, k));
      }
    }
  }

  lemma RecentFront(requests: seq<Request>, readLog: seq<string>, order: seq<nat>)
    requires Recent(requests, readLog, order) && order != []
    ensures var last := order[|order| - 1];
      && last < |requests| && 0 < LastRead(readLog, requests[last].url)
      && Recent(requests, readLog, order[..|order| - 1])
      && Before(requests, readLog, order[..|order| - 1], LastRead(readLog, requests[last].url))
  {
    hide LastRead;
  }

  /** Every request listed was last read before `time`. */
  predicate Before(requests: seq<Request>, readLog: seq<string>, order: seq<nat>, time: nat) {
    forall x :: x in order && x < |requests| ==> LastRead(readLog, requests[x].url) < time
  }

  lemma RecentPush(requests: seq<Request>, readLog: seq<string>, order: seq<nat>, x: nat)
    requires Recent(requests, readLog, order) && x < |requests| && 0 < LastRead(readLog, requests[x].url)
    requires Before(requests, readLog, order, LastRead(readLog, requests[x].url))
    ensures Recent(requests, readLog, order + [x])
  {
    hide LastRead;
  }

  lemma {:induction false} WithoutIsRecent(requests: seq<Request>, readLog: seq<string>, order: seq<nat>, id: nat)
    requires Recent(requests, readLog, order)
    ensures Recent(requests, readLog, Without(order, id)) && |Without(order, id)| <= |order|
  {
    hide LastRead, Recent;
    if order != [] {
      var front, last := order[..|order| - 1], order[|order| - 1];
      RecentFront(requests, readLog, order);
      WithoutIsRecent(requests, readLog, front, id);
      WithoutMembers(front, id);
      if last != id {
        RecentPush(requests, readLog, Without(front, id), last);
      } else {
        assert Without(front, id) + [] == Without(front, id);
      }
    }
  }

  lemma {:induction false} CurrentIsRecent(requests: seq<Request>, readLog: seq<string>, order: seq<nat>, version: nat)
    requires Recent(requests, readLog, order)
    ensures Recent(requests, readLog, Current(requests, order, version)) && |Current(requests, order, version)| <= |order|
  {
    hide LastRead;
    if order != [] {
      var front, last := order[..|order| - 1], order[|order| - 1];
      RecentFront(requests, readLog, order);
      CurrentIsRecent(requests, readLog, front, version);
      CurrentMembers(requests, front, version);
      if !SettledBelow(requests[last], version) {
        RecentPush(requests, readLog, Current(requests, front, version), last);
      } else {
        assert Current(requests, front, version) + [] == Current(requests, front, version);
      }
    }
  }

  lemma {:induction false} SameUrlsStayRecent(a: seq<Request>, b: seq<Request>, readLog: seq<string>, order: seq<nat>)
    requires Recent(a, readLog, order) && |a| <= |b|
    requires forall i :: 0 <= i < |a| ==> b[i].url == a[i].url
    ensures Recent(b, readLog, order)
  {
    hide LastRead;
  }

  lemma LastReadPush(readLog: seq<string>, read: string, url: string)
    ensures LastRead(readLog + [read], url) == if read == url then |readLog| + 1 else LastRead(readLog, url)
  {
    assert (readLog + [read])[..|readLog|] == readLog;
  }

  /** Reading a URL makes its entry the most recent and leaves the others as they were. */
  lemma ReadIsRecent(requests: seq<Request>, readLog: seq<string>, order: seq<nat>, rest: seq<nat>, id: nat)
    requires Recent(requests, readLog, rest) && id < |requests| && order == rest + [id]
    requires forall k :: 0 <= k < |rest| ==> requests[rest[k]].url != requests[id].url
    ensures Recent(requests, readLog + [requests[id].url], order)
  {
    hide LastRead;
    var url := requests[id].url;
    forall k | 0 <= k < |order|
      ensures LastRead(readLog + [url], requests[order[k]].url)
           == if k == |rest| then |readLog| + 1 else LastRead(readLog, requests[rest[k]].url)
    {
      LastReadPush(readLog, url, requests[order[k]].url);
    }
  }

  lemma ReadKeepsOrder(c: Cache, url: string)
    requires Ordered(c)
    ensures Ordered(ReadStep(c, url))
  {
    hide LastRead;
    RecentIsOrdered(c);
    var after := ReadStep(c, url);
    match EntryOf(c, url, |c.order|)
    case Some(k) =>
      var rest := c.order[..k] + c.order[k + 1..];
      forall j | 0 <= j < |rest| ensures c.requests[rest[j]].url != url {
        var i := if j < k then j else j + 1;
        assert rest[j] == c.order[i];
      }
      RestIsRecent(c.requests, c.readLog, c.order, k);
      ReadIsRecent(c.requests, c.readLog, after.order, rest, c.order[k]);
      RecentIsOrdered(after);
    case None =>
      var id := |c.requests|;
      SameUrlsStayRecent(c.requests, after.requests, c.readLog, c.order);
      ReadIsRecent(after.requests, c.readLog, c.order + [id], c.order, id);
      assert Recent(after.requests, after.readLog, after.order);
      RecentIsOrdered(after);
  }

  lemma RestIsRecent(requests: seq<Request>, readLog: seq<string>, order: seq<nat>, k: nat)
    requires Recent(requests, readLog, order) && k < |order|
    ensures Recent(requests, readLog, order[..k] + order[k + 1..])
  {
  }

  // ----- The watermark -----

  lemma MaxPush(vs: seq<nat>, v: nat)
    ensures Max(vs + [v]) == if v > Max(vs) then v else Max(vs)
    ensures LastRise(vs + [v]) == if v > Max(vs) then |vs| + 1 else LastRise(vs)
    ensures Rises(vs + [v]) == if v > Max(vs) then Rises(vs) + [v] else Rises(vs)
  {
    hide LastRead;
    assert (vs + [v])[..|vs|] == vs;
  }

  lemma {:induction false} MaxIsLargest(vs: seq<nat>)
    ensures forall i :: 0 <= i < |vs| ==> vs[i] <= Max(vs)
    ensures vs != [] ==> Max(vs) in vs
  {
    hide LastRead;
    if vs != [] {
      MaxIsLargest(vs[..|vs| - 1]);
      if |vs| > 1 {
        assert Max(vs[..|vs| - 1]) in vs[..|vs| - 1];
      }
    }
  }

  /** What subscribers are told rises strictly, and ends at the watermark. */
  lemma {:induction false} RisesAscend(vs: seq<nat>)
    ensures forall i, j :: 0 <= i < j < |Rises(vs)| ==> Rises(vs)[i] < Rises(vs)[j]
    ensures if Rises(vs) == [] then Max(vs) == 0 else Rises(vs)[|Rises(vs)| - 1] == Max(vs)
  {
    hide LastRead;
    if vs != [] {
      RisesAscend(vs[..|vs| - 1]);
    }
  }

  // ----- Every step keeps the cache sound -----

  lemma ReadIsSound(c: Cache, url: string)
    requires Sound(c)
    ensures Sound(ReadStep(c, url))
  {
    hide LastRead;
    ReadKeepsOrder(c, url);
    var after := ReadStep(c, url);
    forall k | 0 <= k < |after.order|
      ensures Fresh(after, after.order[k]) && !after.requests[after.order[k]].phase.Rejected?
    {
      if after.order[k] < |c.requests| {
        assert exists j :: 0 <= j < |c.order| && c.order[j] == after.order[k] by {
          match EntryOf(c, url, |c.order|)
          case Some(i) =>
            var j := if k < i then k else if k < |c.order| - 1 then k + 1 else i;
            assert c.order[j] == after.order[k];
          case None =>
            var j := k + (|c.order| + 1 - |after.order|);
            assert c.order[j] == after.order[k];
        }
      }
    }
  }

  lemma ReplyIsSound(c: Cache, id: nat, reply: Reply)
    requires Sound(c) && id < |c.requests|
    ensures Sound(ReplyStep(c, id, reply))
  {
    hide LastRead;
    var after := ReplyStep(c, id, reply);
    RecentIsOrdered(c);
    SameUrlsStayRecent(c.requests, after.requests, c.readLog, c.order);
    RecentIsOrdered(after);
  }

  /** The cache once a request has resolved, before the watermark is compared. */
  function Settled(c: Cache, id: nat, v: Versioned): Cache
    requires id < |c.requests|
  {
    c.(requests := c.requests[id := c.requests[id].(phase := Resolved(v, |c.resolved|))],
       resolved := c.resolved + [v.version])
  }

  lemma SettledRequestsHold(c: Cache, id: nat, v: Versioned)
    requires Sound(c) && id < |c.requests| && c.requests[id].phase == Answered(v)
    ensures forall i :: 0 <= i < |c.requests| ==> RequestHolds(Settled(c, id, v), Settled(c, id, v).requests[i])
  {
    hide LastRead, LastRise, Max, Rises;
  }

  lemma EntriesStayFresh(c: Cache, id: nat, v: Versioned)
    requires Sound(c) && id < |c.requests| && c.requests[id].phase == Answered(v)
    ensures WellFormed(SettleStep(c, id))
    ensures var after := SettleStep(c, id);
      forall k :: 0 <= k < |after.order| ==>
        Fresh(after, after.order[k]) && !after.requests[after.order[k]].phase.Rejected?
  {
    hide LastRead, Current, Rises, RequestHolds;
    StepWellFormed(c, Settle(id));
    var s := Settled(c, id, v);
    var after := SettleStep(c, id);
    MaxPush(c.resolved, v.version);
    if v.version > c.highest {
      CurrentMembers(s.requests, s.order, v.version);
    }
    forall k | 0 <= k < |after.order|
      ensures Fresh(after, after.order[k]) && !after.requests[after.order[k]].phase.Rejected?
    {
      assert after.order[k] in after.order;
      var j :| 0 <= j < |c.order| && c.order[j] == after.order[k];
      assert Fresh(c, c.order[j]);
    }
  }

  lemma {:induction false} ResolveIsSound(c: Cache, id: nat, v: Versioned)
    requires Sound(c) && id < |c.requests| && c.requests[id].phase == Answered(v)
    ensures Sound(SettleStep(c, id))
  {
    hide LastRead, LastRise, Max, Rises, Current, Recent, Fresh;
    var s := Settled(c, id, v);
    var after := SettleStep(c, id);
    assert after == Advance(s, v.version);
    SettledRequestsHold(c, id, v);
    MaxPush(c.resolved, v.version);
    EntriesStayFresh(c, id, v);
    RecentIsOrdered(c);
    SameUrlsStayRecent(c.requests, s.requests, c.readLog, c.order);
    if v.version > c.highest {
      CurrentIsRecent(s.requests, s.readLog, s.order, v.version);
    }
    RecentIsOrdered(after);
  }

  lemma {:induction false} RejectIsSound(c: Cache, id: nat)
    requires Sound(c) && id < |c.requests| && c.requests[id].phase.Failed?
    ensures Sound(SettleStep(c, id))
  {
    hide LastRead, Without, Recent;
    var after := SettleStep(c, id);
    RecentIsOrdered(c);
    SameUrlsStayRecent(c.requests, after.requests, c.readLog, c.order);
    WithoutIsRecent(after.requests, c.readLog, c.order, id);
    WithoutMembers(c.order, id);
    RecentIsOrdered(after);
    forall k | 0 <= k < |after.order|
      ensures Fresh(after, after.order[k]) && !after.requests[after.order[k]].phase.Rejected?
    {
      assert after.order[k] in after.order;
      var j :| 0 <= j < |c.order| && c.order[j] == after.order[k];
    }
  }

  lemma {:induction false} StepIsSound(c: Cache, e: Event)
    requires Sound(c)
    ensures Sound(Step(c, e))
  {
    hide LastRead, Sound;
    match e
    case Read(url) => ReadIsSound(c, url);
    case Reply(id, reply) =>
      if id < |c.requests| {
        ReplyIsSound(c, id, reply);
      }
    case Settle(id) =>
      if id < |c.requests| {
        match c.requests[id].phase
        case Answered(v) => ResolveIsSound(c, id, v);
        case Failed => RejectIsSound(c, id);
        case _ =>
      }
  }

  /**
   * In every interleaving: at most one entry per URL and never more than fit, in order of
   * last read; the watermark is the largest version any read resolved to; subscribers were
   * told of each rise once; a held entry below it settled after it last rose; and no miss
   * made more than two fetches.
   */
  lemma {:induction false} EveryRunIsSound(capacity: nat, events: seq<Event>)
    ensures Sound(Run(capacity, events)) && Run(capacity, events).capacity == capacity
  {
    hide LastRead;
    if events != [] {
      EveryRunIsSound(capacity, events[..|events| - 1]);
      StepIsSound(Run(capacity, events[..|events| - 1]), events[|events| - 1]);
    }
  }

  // ----- What single steps promise -----

  /** The watermark never falls. */
  lemma {:induction false} WatermarkNeverFalls(c: Cache, e: Event)
    requires Sound(c)
    ensures c.highest <= Step(c, e).highest
  {
    hide LastRead;
  }

  /** A rise to a version leaves no settled entry below it. */
  lemma {:induction false} RiseDropsTheOlder(c: Cache, e: Event)
    requires Sound(c) && c.highest < Step(c, e).highest
    ensures WellFormed(Step(c, e))
    ensures var after := Step(c, e);
      forall k :: 0 <= k < |after.order| ==> !SettledBelow(after.requests[after.order[k]], after.highest)
  {
    hide LastRead, Current, Fresh, RequestHolds, Rises, LastRise;
    StepWellFormed(c, e);
    var after := Step(c, e);
    var id := e.request;
    var v := c.requests[id].phase.result;
    CurrentMembers(Settled(c, id, v).requests, c.order, v.version);
    forall k | 0 <= k < |after.order| ensures !SettledBelow(after.requests[after.order[k]], after.highest) {
      assert after.order[k] in after.order;
    }
  }

  /** A failed read removes its own entry and no other, not even a newer one for its URL. */
  lemma {:induction false} FailureRemovesOnlyItself(c: Cache, id: nat)
    requires Sound(c) && id < |c.requests| && c.requests[id].phase.Failed?
    ensures var after := Step(c, Settle(id));
      && (forall x :: x in after.order <==> x in c.order && x != id)
      && (id !in c.order ==> after.order == c.order)
      && |after.requests| == |c.requests| && after.requests[id] == c.requests[id].(phase := Rejected)
      && (forall x :: 0 <= x < |c.requests| && x != id ==> after.requests[x] == c.requests[x])
  {
    hide LastRead, Without, Fresh, RequestHolds, Ordered;
    WithoutMembers(c.order, id);
    if id !in c.order {
      WithoutNothing(c.order, id);
    }
  }

  lemma {:induction false} WithoutNothing(order: seq<nat>, id: nat)
    requires id !in order
    ensures Without(order, id) == order
  {
    hide LastRead;
    if order != [] {
      assert order == order[..|order| - 1] + [order[|order| - 1]];
      WithoutNothing(order[..|order| - 1], id);
    }
  }

  predicate Holds(c: Cache, url: string)
    requires WellFormed(c)
  {
    exists k :: 0 <= k < |c.order| && c.requests[c.order[k]].url == url
  }

  lemma Moved(order: seq<nat>, k: nat)
    requires k < |order|
    ensures multiset(order[..k] + order[k + 1..] + [order[k]]) == multiset(order)
  {
    hide LastRead;
    assert order == order[..k] + [order[k]] + order[k + 1..];
  }

  /** Reading a URL the cache holds starts nothing and drops nothing. */
  lemma {:induction false} HitStartsNothing(c: Cache, url: string)
    requires Sound(c) && Holds(c, url)
    ensures var after := ReadStep(c, url);
      && after.requests == c.requests
      && multiset(after.order) == multiset(c.order)
      && |after.order| > 0 && after.requests[after.order[|after.order| - 1]].url == url
  {
    hide LastRead, Fresh, RequestHolds;
    var k := EntryOf(c, url, |c.order|).value;
    Moved(c.order, k);
  }

  /** What is cut from the front was read before anything that stays. */
  lemma CutIsOlder(c: Cache, cut: nat, x: nat, y: nat)
    requires Recent(c.requests, c.readLog, c.order) && cut <= |c.order|
    requires x in c.order && x !in c.order[cut..] && y in c.order[cut..]
    ensures x < |c.requests| && y < |c.requests|
    ensures LastRead(c.readLog, c.requests[x].url) < LastRead(c.readLog, c.requests[y].url)
  {
    hide LastRead;
    var m :| cut <= m < |c.order| && c.order[m] == y;
    assert c.order == c.order[..cut] + c.order[cut..];
    assert x in c.order[..cut];
    var j :| 0 <= j < cut && c.order[j] == x;
  }

  /** A miss starts one request, and evicts only the least recently read, never the entry just added. */
  lemma {:induction false} MissEvictsTheLeastRecent(c: Cache, url: string)
    requires Sound(c) && !Holds(c, url) && c.capacity >= 1
    ensures var after := ReadStep(c, url);
      var cut := if |c.order| < c.capacity then 0 else 1;
      && after.requests == c.requests + [Request(url, Asked, 1)]
      && after.order == c.order[cut..] + [|c.requests|]
      && (forall x, y :: x in c.order && x !in c.order[cut..] && y in c.order[cut..] ==>
            x < |c.requests| && y < |c.requests|
            && LastRead(c.readLog, c.requests[x].url) < LastRead(c.readLog, c.requests[y].url))
  {
    hide LastRead, Fresh, RequestHolds, Recent, Ordered;
    RecentIsOrdered(c);
    var cut := if |c.order| < c.capacity then 0 else 1;
    forall x, y | x in c.order && x !in c.order[cut..] && y in c.order[cut..]
      ensures x < |c.requests| && y < |c.requests|
      ensures LastRead(c.readLog, c.requests[x].url) < LastRead(c.readLog, c.requests[y].url)
    {
      CutIsOlder(c, cut, x, y);
    }
    assert (c.order + [|c.requests|])[cut..] == c.order[cut..] + [|c.requests|];
  }

  /** Nothing but this request is touched by a reply to it. */
  predicate OnlyItsRequest(c: Cache, after: Cache, id: nat)
    requires id < |c.requests|
  {
    && |after.requests| == |c.requests|
    && (forall k :: 0 <= k < |c.requests| && k != id ==> after.requests[k] == c.requests[k])
    && after == c.(requests := after.requests)
  }

  /**
   * What becomes of a reply. A first answer is taken, itself and not another, unless it is older
   * than some answer already resolved, and is then asked for again, once; whatever comes the second
   * time is taken; a refusal fails the request, either time; a late reply changes nothing.
   */
  lemma {:induction false} ReplyIsJudged(c: Cache, id: nat, reply: Reply)
    requires Sound(c) && id < |c.requests|
    ensures var after := Step(c, CacheModel.Reply(id, reply));
      OnlyItsRequest(c, after, id) &&
      var r, was := after.requests[id], c.requests[id];
      && r.url == was.url
      && (was.phase.Asked? && reply.Answer? && (exists v :: v in c.resolved && reply.result.version < v) ==>
            r.phase == AskedAgain && r.fetches == 2)
      && (was.phase.Asked? && reply.Answer? && (forall v :: v in c.resolved ==> v <= reply.result.version) ==>
            r.phase == Answered(reply.result) && r.fetches == 1)
      && (was.phase.AskedAgain? && reply.Answer? ==> r.phase == Answered(reply.result) && r.fetches == was.fetches)
      && ((was.phase.Asked? || was.phase.AskedAgain?) && reply.Refusal? ==> r.phase == Failed && r.fetches == was.fetches)
      && (!was.phase.Asked? && !was.phase.AskedAgain? ==> r == was)
  {
    assert c.resolved == [] ==> Max(c.resolved) == 0;
    hide LastRead, Max, Rises, Fresh, Ordered;
    MaxIsLargest(c.resolved);
    assert RequestHolds(c, c.requests[id]);
  }

  /** An answer that was taken is what its request settles to, and its version enters the history. */
  lemma {:induction false} AnswerSettles(c: Cache, id: nat, v: Versioned)
    requires WellFormed(c) && id < |c.requests| && c.requests[id].phase == Answered(v)
    ensures var after := Step(c, Settle(id));
      && |after.requests| == |c.requests|
      && after.requests[id].phase.Resolved? && after.requests[id].phase.value == v
      && after.requests[id].url == c.requests[id].url
      && after.resolved == c.resolved + [v.version]
      && (forall k :: 0 <= k < |c.requests| && k != id ==> after.requests[k] == c.requests[k])
  {
    hide Current;
    StepWellFormed(c, Settle(id));
  }
}
