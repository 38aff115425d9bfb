/**
 * A client's cache of versioned API answers, as a step system.
 *
 * Reads, answers and the callbacks that follow them happen one at a time but in any order.
 * A request's answer is judged when it arrives and takes effect when its callback runs;
 * other requests may settle in between.
 */
module CacheModel {
  import opened Wrappers

  datatype Versioned = Versioned(data: string, version: nat, asOf: Option<string>)

  /** What one fetch comes back with: a payload naming its version, or nothing usable. */
  datatype Reply = Answer(result: Versioned) | Refusal

  datatype Phase =
    | Asked
    | AskedAgain
    | Answered(result: Versioned)
    | Failed
    | Resolved(value: Versioned, at: nat)
    | Rejected

  datatype Request = Request(url: string, phase: Phase, fetches: nat)

  /**
   * `order` lists the requests the cache holds, as its map iterates them. `resolved` and
   * `readLog` are history: the versions of the reads resolved, and the URLs read, in order.
   */
  datatype Cache = Cache(
    capacity: nat,
    requests: seq<Request>,
    order: seq<nat>,
    highest: nat,
    told: seq<nat>,
    resolved: seq<nat>,
    readLog: seq<string>
  )

  function Empty(capacity: nat): Cache {
    Cache(capacity, [], [], 0, [], [], [])
  }

  datatype Event = Read(url: string) | Reply(request: nat, reply: Reply) | Settle(request: nat)

  // ----- The map's order -----

  predicate WellFormed(c: Cache) {
    forall k :: 0 <= k < |c.order| ==> c.order[k] < |c.requests|
  }

  /** The position of the entry held for a URL, if there is one. */
  function EntryOf(c: Cache, url: string, n: nat): (r: Option<nat>)
    requires WellFormed(c) && n <= |c.order|
    ensures r.Some? ==> r.value < n && c.requests[c.order[r.value]].url == url
    ensures r.None? ==> forall k :: 0 <= k < n ==> c.requests[c.order[k]].url != url
  {
    if n == 0 then None
    else if c.requests[c.order[n - 1]].url == url then Some(n - 1)
    else EntryOf(c, url, n - 1)
  }

  function Without(order: seq<nat>, id: nat): seq<nat> {
    if order == [] then []
    else Without(order[..|order| - 1], id) + (if order[|order| - 1] == id then [] else [order[|order| - 1]])
  }

  /** Dropped from the front until the map fits. */
  function Trimmed<T>(order: seq<T>, capacity: nat): seq<T> {
    if |order| <= capacity then order else order[|order| - capacity..]
  }

  // ----- Steps -----

  function ReadStep(c: Cache, url: string): Cache
    requires WellFormed(c)
  {
    match EntryOf(c, url, |c.order|)
    case Some(k) =>
      c.(order := c.order[..k] + c.order[k + 1..] + [c.order[k]], readLog := c.readLog + [url])
    case None =>
      c.(requests := c.requests + [Request(url, Asked, 1)],
         order := Trimmed(c.order + [|c.requests|], c.capacity),
         readLog := c.readLog + [url])
  }

  /** An answer older than something already shown is asked for once more; then anything is accepted. */
  function Judged(r: Request, reply: Reply, highest: nat): Request {
    match (r.phase, reply)
    case (Asked, Answer(v)) =>
      if v.version >= highest then r.(phase := Answered(v)) else r.(phase := AskedAgain, fetches := r.fetches + 1)
    case (AskedAgain, Answer(v)) => r.(phase := Answered(v))
    case (Asked, Refusal) => r.(phase := Failed)
    case (AskedAgain, Refusal) => r.(phase := Failed)
    case (_, _) => r
  }

  function ReplyStep(c: Cache, id: nat, reply: Reply): Cache
    requires id < |c.requests|
  {
    c.(requests := c.requests[id := Judged(c.requests[id], reply, c.highest)])
  }

  predicate SettledBelow(r: Request, version: nat) {
    r.phase.Resolved? && r.phase.value.version < version
  }

  /** The entries a rise to `version` keeps, in order. */
  function Current(requests: seq<Request>, order: seq<nat>, version: nat): seq<nat>
    requires forall k :: 0 <= k < |order| ==> order[k] < |requests|
  {
    if order == [] then []
    else
      Current(requests, order[..|order| - 1], version)
      + (if SettledBelow(requests[order[|order| - 1]], version) then [] else [order[|order| - 1]])
  }

  function Advance(c: Cache, version: nat): Cache
    requires WellFormed(c)
  {
    if version <= c.highest then c
    else c.(highest := version, order := Current(c.requests, c.order, version), told := c.told + [version])
  }

  function SettleStep(c: Cache, id: nat): Cache
    requires WellFormed(c) && id < |c.requests|
  {
    match c.requests[id].phase
    case Answered(v) =>
      Advance(c.(requests := c.requests[id := c.requests[id].(phase := Resolved(v, |c.resolved|))],
                 resolved := c.resolved + [v.version]),
              v.version)
    case Failed =>
      c.(requests := c.requests[id := c.requests[id].(phase := Rejected)], order := Without(c.order, id))
    case _ => c
  }

  /** One event; one that names no request changes nothing. */
  function Step(c: Cache, e: Event): Cache
    requires WellFormed(c)
  {
    match e
    case Read(url) => ReadStep(c, url)
    case Reply(id, reply) => if id < |c.requests| then ReplyStep(c, id, reply) else c
    case Settle(id) => if id < |c.requests| then SettleStep(c, id) else c
  }

  // ----- Histories -----

  function Max(vs: seq<nat>): nat {
    if vs == [] then 0
    else if vs[|vs| - 1] > Max(vs[..|vs| - 1]) then vs[|vs| - 1] else Max(vs[..|vs| - 1])
  }

  /** When the watermark last rose: the index of the read that raised it, plus one; 0 for never. */
  function LastRise(vs: seq<nat>): (n: nat)
    ensures n <= |vs|
  {
    if vs == [] then 0
    else if vs[|vs| - 1] > Max(vs[..|vs| - 1]) then |vs| else LastRise(vs[..|vs| - 1])
  }

  /** The watermarks a history announces, in order. */
  function Rises(vs: seq<nat>): seq<nat> {
    if vs == [] then []
    else Rises(vs[..|vs| - 1]) + (if vs[|vs| - 1] > Max(vs[..|vs| - 1]) then [vs[|vs| - 1]] else [])
  }

  /** When a URL was last read: the index of that read, plus one; 0 for never. */
  function LastRead(readLog: seq<string>, url: string): (n: nat)
    ensures n <= |readLog|
  {
    if readLog == [] then 0
    else if readLog[|readLog| - 1] == url then |readLog| else LastRead(readLog[..|readLog| - 1], url)
  }

  function Url(c: Cache, k: nat): string
    requires WellFormed(c) && k < |c.order|
  {
    c.requests[c.order[k]].url
  }

  // ----- What every reachable cache satisfies -----

  /** At most one entry per URL, least recently read first, never more than fit. */
  predicate Ordered(c: Cache) {
    && WellFormed(c)
    && |c.order| <= c.capacity
    && (forall j, k :: 0 <= j < k < |c.order| ==> LastRead(c.readLog, Url(c, j)) < LastRead(c.readLog, Url(c, k)))
    && (forall k :: 0 <= k < |c.order| ==> 0 < LastRead(c.readLog, Url(c, k)))
  }

  predicate RequestHolds(c: Cache, r: Request) {
    && 1 <= r.fetches <= 2
    && (r.phase.Asked? ==> r.fetches == 1)
    && (r.phase.Resolved? ==> r.phase.at < |c.resolved| && c.resolved[r.phase.at] == r.phase.value.version)
  }

  /** A held entry below the watermark settled after the watermark last rose. */
  predicate Fresh(c: Cache, id: nat)
    requires id < |c.requests|
  {
    SettledBelow(c.requests[id], c.highest) ==> LastRise(c.resolved) <= c.requests[id].phase.at
  }

  predicate Sound(c: Cache) {
    && Ordered(c)
    && c.highest == Max(c.resolved)
    && c.told == Rises(c.resolved)
    && (forall id :: 0 <= id < |c.requests| ==> RequestHolds(c, c.requests[id]))
    && (forall k :: 0 <= k < |c.order| ==> Fresh(c, c.order[k]) && !c.requests[c.order[k]].phase.Rejected?)
  }

  function Run(capacity: nat, events: seq<Event>): (c: Cache)
    ensures WellFormed(c)
  {
    if events == [] then Empty(capacity)
    else
      var before := Run(capacity, events[..|events| - 1]);
      StepWellFormed(before, events[|events| - 1]);
      Step(before, events[|events| - 1])
  }

  lemma {:induction false} WithoutMembers(order: seq<nat>, id: nat)
    ensures forall x :: x in Without(order, id) <==> x in order && x != id
  {
    if order != [] {
      WithoutMembers(order[..|order| - 1], id);
      assert order == order[..|order| - 1] + [order[|order| - 1]];
    }
  }

  lemma {:induction false} CurrentMembers(requests: seq<Request>, order: seq<nat>, version: nat)
    requires forall k :: 0 <= k < |order| ==> order[k] < |requests|
    ensures forall x :: x in Current(requests, order, version) <==> x in order && !SettledBelow(requests[x], version)
  {
    if order != [] {
      CurrentMembers(requests, order[..|order| - 1], version);
      assert order == order[..|order| - 1] + [order[|order| - 1]];
    }
  }

  lemma StepWellFormed(c: Cache, e: Event)
    requires WellFormed(c)
    ensures WellFormed(Step(c, e))
  {
    match e
    case Read(url) =>
    case Reply(id, reply) =>
    case Settle(id) =>
      if id < |c.requests| {
        WithoutMembers(c.order, id);
        var after := SettleStep(c, id);
        assert forall x :: x in c.order ==> x < |c.requests|;
        match c.requests[id].phase
        case Answered(v) =>
          var settled := c.requests[id := c.requests[id].(phase := Resolved(v, |c.resolved|))];
          CurrentMembers(settled, c.order, v.version);
          forall k | 0 <= k < |after.order| ensures after.order[k] < |after.requests| {
            assert after.order[k] in after.order;
          }
        case Failed =>
          forall k | 0 <= k < |after.order| ensures after.order[k] < |after.requests| {
            assert after.order[k] in after.order;
          }
        case _ =>
      }
  }
}
