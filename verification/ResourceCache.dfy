/** The cache as the program keeps it: a map of entries whose `settled` field callbacks fill in. */
module ResourceCaches {
  import opened Wrappers
  import opened CacheModel
  import opened CacheHolds

  /** One read's entry. `url` is the key the map holds it under; `id` is which request it stands for. */
  class Entry {
    const url: string
    ghost const id: nat
    var settled: Option<Versioned>

    constructor (url: string, ghost id: nat)
      ensures this.url == url && this.id == id && settled == None
    {
      this.url := url;
      this.id := id;
      settled := None;
    }
  }

  function SettledOf(phase: Phase): Option<Versioned> {
    if phase.Resolved? then Some(phase.value) else None
  }

  /** Every request has its entry, held or dropped, and the entry shows what the request came to. */
  ghost predicate Tracks(issued: seq<Entry>, requests: seq<Request>)
    reads issued
  {
    && |issued| == |requests|
    && forall id :: 0 <= id < |issued| ==> Shows(issued[id], id, requests[id])
  }

  ghost predicate Shows(entry: Entry, id: nat, r: Request)
    reads entry
  {
    entry.id == id && entry.url == r.url && entry.settled == SettledOf(r.phase)
  }

  /** The entries of the requests listed. */
  ghost function Picked(issued: seq<Entry>, order: seq<nat>): (entries: seq<Entry>)
    requires forall k :: 0 <= k < |order| ==> order[k] < |issued|
    ensures |entries| == |order|
    ensures forall k :: 0 <= k < |order| ==> entries[k] == issued[order[k]]
  {
    seq(|order|, k requires 0 <= k < |order| => issued[order[k]])
  }

  /** The entry at `k` taken out and put last. */
  function MovedLast(entries: seq<Entry>, k: nat): seq<Entry>
    requires k < |entries|
  {
    entries[..k] + entries[k + 1..] + [entries[k]]
  }

  class ResourceCache {
    const capacity: nat
    /** The map's entries, in the order it iterates them. */
    var entries: seq<Entry>
    var highest: nat
    /** The watermarks subscribers have been called with. */
    var told: seq<nat>
    /** The step system this cache has run so far. */
    ghost var state: Cache

    /** The entry made for each request, in the order they were started. */
    ghost var issued: seq<Entry>

    ghost predicate Valid()
      reads this, issued
    {
      && Sound(state)
      && capacity == state.capacity && highest == state.highest && told == state.told
      && Tracks(issued, state.requests)
      && entries == Picked(issued, state.order)
    }

    /** An entry this cache made: what `Read` returns, and what the callbacks are called with. */
    ghost predicate Issued(entry: Entry)
      reads this, entry
    {
      entry.id < |issued| && issued[entry.id] == entry
    }

    constructor (capacity: nat)
      ensures Valid() && state == Empty(capacity)
    {
      this.capacity := capacity;
      entries, highest, told := [], 0, [];
      state := Empty(capacity);
      issued := [];
    }

    /** The position of the entry held for a URL, if there is one. */
    method Find(url: string) returns (r: Option<nat>)
      requires Valid()
      ensures r == EntryOf(state, url, |state.order|)
    {
      hide Sound;
      SoundIsWellFormed(state);
      var k: nat := |entries|;
      while k > 0
        invariant k <= |entries|
        invariant EntryOf(state, url, |state.order|) == EntryOf(state, url, k)
      {
        k := k - 1;
        assert Shows(issued[state.order[k]], state.order[k], state.requests[state.order[k]]);
        if entries[k].url == url {
          return Some(k);
        }
      }
      r := None;
    }

    /** The answer held for `url`, where its request has settled; nothing changes. */
    method Peek(url: string) returns (r: Option<Versioned>)
      requires Valid()
      ensures match EntryOf(state, url, |state.order|)
        case None => r == None
        case Some(k) => r == SettledOf(state.requests[state.order[k]].phase)
    {
      hide Sound;
      SoundIsWellFormed(state);
      var k := Find(url);
      if k.Some? {
        assert Shows(issued[state.order[k.value]], state.order[k.value], state.requests[state.order[k.value]]);
      }
      r := if k.None? then None else entries[k.value].settled;
    }

    /** Drop entries from the front until the map fits. */
    method Trim()
      modifies this`entries
      ensures entries == Trimmed(old(entries), capacity)
    {
      ghost var was := entries;
      while |entries| > capacity
        invariant |entries| <= |was| && entries == was[|was| - |entries|..]
        invariant |entries| >= capacity || entries == was
      {
        entries := entries[1..];
      }
    }

    /** Share the read in flight or held for a URL, or start one. */
    method Read(url: string) returns (entry: Entry, started: bool)
      requires Valid()
      modifies this
      ensures Valid() && state == Step(old(state), CacheModel.Read(url))
      ensures started <==> !Holds(old(state), url)
      ensures if started then fresh(entry) && issued == old(issued) + [entry]
              else entry in old(entries) && issued == old(issued)
      ensures Issued(entry) && entry.url == url
    {
      hide Sound, Ordered, LastRead, EntryOf, ReadStep, Tracks, Picked, Trimmed, MovedLast;
      SoundIsWellFormed(state);
      StepIsSound(state, CacheModel.Read(url));
      var k := Find(url);
      started := k.None?;
      if k.Some? {
        entry := entries[k.value];
        HitPicks(issued, state, url, k.value);
        entries := MovedLast(entries, k.value);
      } else {
        entry := new Entry(url, |state.requests|);
        MissPicks(issued, state, entry);
        issued := issued + [entry];
        entries := entries + [entry];
        Trim();
      }
      state := ReadStep(state, url);
    }

    /**
     * What `load` does with an answer: a first one below the watermark is not taken and the request
     * is made a second time, past the HTTP cache; a second one is always taken.
     */
    method Judge(ghost entry: Entry, second: bool, reply: Reply) returns (askAgain: bool)
      requires Valid() && Issued(entry)
      requires state.requests[entry.id].phase == if second then AskedAgain else Asked
      modifies this`state
      ensures Valid() && state == Step(old(state), CacheModel.Reply(entry.id, reply))
      ensures askAgain <==> state.requests[entry.id].phase.AskedAgain?
    {
      askAgain := !second && reply.Answer? && reply.result.version < highest;
      hide Sound;
      SoundIsWellFormed(state);
      StepIsSound(state, CacheModel.Reply(entry.id, reply));
      ChangeTracks(issued, state.requests, entry.id, Judged(state.requests[entry.id], reply, highest));
      hide Tracks, Picked;
      state := ReplyStep(state, entry.id, reply);
    }

    /** Raise the watermark, drop what is older, and tell subscribers. */
    method Advance(version: nat)
      modifies this`entries, this`highest, this`told
      ensures if version <= old(highest) then
          entries == old(entries) && highest == old(highest) && told == old(told)
        else
          highest == version && told == old(told) + [version]
          && entries == NotOlder(old(entries), version)
    {
      if version <= highest {
        return;
      }
      highest := version;
      var kept: seq<Entry> := [];
      for i := 0 to |entries|
        invariant kept == NotOlder(entries[..i], version)
      {
        assert entries[..i + 1][..i] == entries[..i];
        var entry := entries[i];
        if entry.settled.None? || entry.settled.value.version >= version {
          kept := kept + [entry];
        }
      }
      assert entries[..|entries|] == entries;
      entries := kept;
      told := told + [version];
    }

    /** The callback of a resolved read: fill the entry in, then compare the watermark. */
    method OnResolved(entry: Entry, result: Versioned)
      requires Valid() && Issued(entry)
      requires state.requests[entry.id].phase == Answered(result)
      modifies this, entry
      ensures Valid() && state == Step(old(state), Settle(entry.id)) && issued == old(issued)
      ensures entry.settled == Some(result)
    {
      hide Sound, SettleStep, Picked, Settled, NotOlder, Tracks, TracksButOne, Current;
      SoundIsWellFormed(state);
      StepIsSound(state, Settle(entry.id));
      IssuedForItsUrl(issued, state.requests, entry);
      ghost var s := Settled(state, entry.id, result);
      ResolvedIs(state, entry.id, result);
      TracksOthers(issued, state.requests, entry);
      entry.settled := Some(result);
      FilledTracks(issued, state, entry, result);
      NotOlderIsCurrent(issued, state.order, s.requests, result.version);
      Advance(result.version);
      state := SettleStep(state, entry.id);
    }

    /** The callback of a failed read: remove this request's entry, if it is still the one held. */
    method OnFailed(entry: Entry)
      requires Valid() && Issued(entry)
      requires state.requests[entry.id].phase.Failed?
      modifies this
      ensures Valid() && state == Step(old(state), Settle(entry.id)) && issued == old(issued)
    {
      hide Sound, Step, Picked, Tracks, EntryOf;
      SoundIsWellFormed(state);
      IssuedForItsUrl(issued, state.requests, entry);
      var k := Find(entry.url);
      FailedIs(issued, state, entry.id, k, entries);
      if k.Some? && entries[k.value] == entry {
        entries := entries[..k.value] + entries[k.value + 1..];
      }
      state := Step(state, Settle(entry.id));
    }
  }

  lemma SoundIsWellFormed(c: Cache)
    requires Sound(c)
    ensures Ordered(c) && WellFormed(c)
  {
  }

  // ----- Entries follow the steps -----

  lemma IssuedForItsUrl(issued: seq<Entry>, requests: seq<Request>, entry: Entry)
    requires Tracks(issued, requests) && entry.id < |issued| && issued[entry.id] == entry
    ensures |issued| == |requests| && entry.url == requests[entry.id].url
  {
    assert Shows(issued[entry.id], entry.id, requests[entry.id]);
  }

  lemma HitPicks(issued: seq<Entry>, c: Cache, url: string, k: nat)
    requires WellFormed(c) && Tracks(issued, c.requests) && EntryOf(c, url, |c.order|) == Some(k)
    ensures var entries, after := Picked(issued, c.order), ReadStep(c, url);
      && Tracks(issued, after.requests)
      && after.capacity == c.capacity && after.highest == c.highest && after.told == c.told
      && (forall j :: 0 <= j < |after.order| ==> after.order[j] < |issued|)
      && MovedLast(entries, k) == Picked(issued, after.order)
      && entries[k].url == url && entries[k].id < |issued| && issued[entries[k].id] == entries[k]
  {
    assert Shows(issued[c.order[k]], c.order[k], c.requests[c.order[k]]);
  }

  lemma MissPicks(issued: seq<Entry>, c: Cache, entry: Entry)
    requires WellFormed(c) && Tracks(issued, c.requests) && EntryOf(c, entry.url, |c.order|) == None
    requires entry.id == |c.requests| && entry.settled == None
    ensures var all, after := Picked(issued, c.order) + [entry], ReadStep(c, entry.url);
      && |issued| == |c.requests| && Tracks(issued + [entry], after.requests)
      && after.capacity == c.capacity && after.highest == c.highest && after.told == c.told
      && (forall j :: 0 <= j < |after.order| ==> after.order[j] < |issued| + 1)
      && Trimmed(all, c.capacity) == Picked(issued + [entry], after.order)
  {
    var requests := c.requests + [Request(entry.url, Asked, 1)];
    assert Picked(issued, c.order) + [entry] == Picked(issued + [entry], c.order + [|c.requests|]);
    forall id | 0 <= id < |issued| + 1 ensures Shows((issued + [entry])[id], id, requests[id]) {
      if id < |issued| {
        assert Shows(issued[id], id, c.requests[id]);
      }
    }
  }

  /** A request that has not resolved and does not resolve now shows nothing either way. */
  lemma ChangeTracks(issued: seq<Entry>, requests: seq<Request>, id: nat, r: Request)
    requires Tracks(issued, requests) && id < |requests|
    requires r.url == requests[id].url && SettledOf(r.phase) == SettledOf(requests[id].phase)
    ensures Tracks(issued, requests[id := r])
  {
    forall j | 0 <= j < |issued| ensures Shows(issued[j], j, requests[id := r][j]) {
      assert Shows(issued[j], j, requests[j]);
    }
  }

  lemma ResolvedIs(c: Cache, id: nat, v: Versioned)
    requires WellFormed(c) && id < |c.requests| && c.requests[id].phase == Answered(v)
    ensures var s, after := Settled(c, id, v), SettleStep(c, id);
      && s.order == c.order && s.requests == c.requests[id := s.requests[id]] && |s.requests| == |c.requests|
      && s.requests[id].url == c.requests[id].url && SettledOf(s.requests[id].phase) == Some(v)
      && after.requests == s.requests && after.capacity == c.capacity
      && if v.version <= c.highest then after.order == c.order && after.highest == c.highest && after.told == c.told
         else after.order == Current(s.requests, c.order, v.version) && after.highest == v.version
              && after.told == c.told + [v.version]
  {
  }

  /** What the entries show apart from one of them. */
  ghost predicate TracksButOne(issued: seq<Entry>, requests: seq<Request>, entry: Entry)
    reads set e | e in issued && e != entry
  {
    && |issued| == |requests|
    && (forall id :: 0 <= id < |issued| ==> issued[id].id == id && issued[id].url == requests[id].url)
    && (forall id :: 0 <= id < |issued| && issued[id] != entry ==> issued[id].settled == SettledOf(requests[id].phase))
  }

  lemma TracksOthers(issued: seq<Entry>, requests: seq<Request>, entry: Entry)
    requires Tracks(issued, requests)
    ensures TracksButOne(issued, requests, entry)
  {
    forall id | 0 <= id < |issued| ensures Shows(issued[id], id, requests[id]) {
    }
  }

  /** Filling an entry in is its request resolving. */
  lemma FilledTracks(issued: seq<Entry>, c: Cache, entry: Entry, v: Versioned)
    requires WellFormed(c) && TracksButOne(issued, c.requests, entry)
    requires entry.id < |issued| && issued[entry.id] == entry && c.requests[entry.id].phase == Answered(v)
    requires entry.settled == Some(v)
    ensures Tracks(issued, Settled(c, entry.id, v).requests)
  {
    var s := Settled(c, entry.id, v);
    forall j | 0 <= j < |issued| ensures Shows(issued[j], j, s.requests[j]) {
    }
  }

  /** What a failed request leaves, in the step and among the entries. */
  lemma FailedStep(issued: seq<Entry>, c: Cache, id: nat)
    requires WellFormed(c) && Tracks(issued, c.requests) && id < |c.requests| && c.requests[id].phase.Failed?
    ensures var after := Step(c, Settle(id));
      && after.order == Without(c.order, id) && Tracks(issued, after.requests)
      && after.capacity == c.capacity && after.highest == c.highest && after.told == c.told
  {
    hide Without;
    ChangeTracks(issued, c.requests, id, c.requests[id].(phase := Rejected));
  }

  /** What the failure handler leaves: the failed request's entry gone, if it was the one held. */
  lemma FailedIs(issued: seq<Entry>, c: Cache, id: nat, k: Option<nat>, entries: seq<Entry>)
    requires WellFormed(c) && Sound(c) && Tracks(issued, c.requests)
    requires id < |issued| == |c.requests| && c.requests[id].phase.Failed?
    requires k == EntryOf(c, c.requests[id].url, |c.order|) && entries == Picked(issued, c.order)
    ensures var after := Step(c, Settle(id));
      && Sound(after) && Tracks(issued, after.requests)
      && after.capacity == c.capacity && after.highest == c.highest && after.told == c.told
      && (forall j :: 0 <= j < |after.order| ==> after.order[j] < |issued|)
      && Picked(issued, after.order) ==
        if k.Some? && entries[k.value] == issued[id] then entries[..k.value] + entries[k.value + 1..] else entries
  {
    StepIsSound(c, Settle(id));
    SoundIsWellFormed(c);
    FailedStep(issued, c, id);
    hide Sound, Ordered, Without, EntryOf, Picked, Tracks, Step, WellFormed;
    FailureRemoves(issued, c, id, k);
  }

  /** The entries a rise keeps: those unsettled, and those at or above the version. */
  function NotOlder(entries: seq<Entry>, version: nat): seq<Entry>
    reads entries
  {
    if entries == [] then []
    else
      var last := entries[|entries| - 1];
      NotOlder(entries[..|entries| - 1], version)
      + (if last.settled.None? || last.settled.value.version >= version then [last] else [])
  }

  /** What the loop keeps by looking at entries is what the step keeps by looking at requests. */
  lemma {:induction false} NotOlderIsCurrent(issued: seq<Entry>, order: seq<nat>, requests: seq<Request>, version: nat)
    requires Tracks(issued, requests) && forall k :: 0 <= k < |order| ==> order[k] < |requests|
    ensures forall k :: 0 <= k < |Current(requests, order, version)| ==> Current(requests, order, version)[k] < |requests|
    ensures NotOlder(Picked(issued, order), version) == Picked(issued, Current(requests, order, version))
  {
    if order != [] {
      var n := |order| - 1;
      NotOlderIsCurrent(issued, order[..n], requests, version);
      assert Picked(issued, order)[..n] == Picked(issued, order[..n]);
      assert Shows(issued[order[n]], order[n], requests[order[n]]);
    }
  }

  /** Removing a failed request removes it where its URL finds it, and nothing where it does not. */
  lemma FailureCuts(c: Cache, id: nat, k: Option<nat>)
    requires Ordered(c) && id < |c.requests| && k == EntryOf(c, c.requests[id].url, |c.order|)
    ensures Without(c.order, id) ==
      if k.Some? && c.order[k.value] == id then c.order[..k.value] + c.order[k.value + 1..] else c.order
  {
    hide Ordered, Without, EntryOf;
    if k.Some? && c.order[k.value] == id {
      RemovedAt(c, id, k.value);
    } else if id in c.order {
      var j :| 0 <= j < |c.order| && c.order[j] == id;
      FoundForItsUrl(c, j);
    } else {
      WithoutNothing(c.order, id);
    }
  }

  lemma SameEntrySameRequest(issued: seq<Entry>, requests: seq<Request>, a: nat, b: nat)
    requires Tracks(issued, requests) && a < |issued| && b < |issued|
    ensures issued[a] == issued[b] <==> a == b
  {
    assert Shows(issued[a], a, requests[a]) && Shows(issued[b], b, requests[b]);
  }

  lemma PickedCut(issued: seq<Entry>, order: seq<nat>, k: nat)
    requires k < |order| && forall j :: 0 <= j < |order| ==> order[j] < |issued|
    ensures var left := order[..k] + order[k + 1..];
      && (forall j :: 0 <= j < |left| ==> left[j] < |issued|)
      && Picked(issued, left) == Picked(issued, order)[..k] + Picked(issued, order)[k + 1..]
  {
  }

  /** The entry its URL finds is the failed one exactly when that request is the one held. */
  lemma FailureRemoves(issued: seq<Entry>, c: Cache, id: nat, k: Option<nat>)
    requires WellFormed(c) && Ordered(c) && Tracks(issued, c.requests) && id < |issued|
    requires k == EntryOf(c, c.requests[id].url, |c.order|)
    ensures var entries := Picked(issued, c.order);
      var left := if k.Some? && entries[k.value] == issued[id] then entries[..k.value] + entries[k.value + 1..] else entries;
      && (forall j :: 0 <= j < |Without(c.order, id)| ==> Without(c.order, id)[j] < |issued|)
      && left == Picked(issued, Without(c.order, id))
  {
    hide Without, EntryOf, Ordered, Picked;
    FailureCuts(c, id, k);
    if k.Some? {
      SameEntrySameRequest(issued, c.requests, c.order[k.value], id);
      PickedCut(issued, c.order, k.value);
    }
  }

  /** The entry found for its URL is the only one with its id, so removing it there is removing it. */
  lemma {:induction false} RemovedAt(c: Cache, id: nat, k: nat)
    requires Ordered(c) && k < |c.order| && c.order[k] == id
    ensures Without(c.order, id) == c.order[..k] + c.order[k + 1..]
  {
    RecentIsOrdered(c);
    WithoutAt(c.order, id, k);
  }

  lemma {:induction false} WithoutAt(order: seq<nat>, id: nat, k: nat)
    requires k < |order| && order[k] == id && forall j :: 0 <= j < |order| && j != k ==> order[j] != id
    ensures Without(order, id) == order[..k] + order[k + 1..]
  {
    var front := order[..|order| - 1];
    if k < |order| - 1 {
      WithoutAt(front, id, k);
      assert front[..k] == order[..k] && front[k + 1..] + [order[|order| - 1]] == order[k + 1..];
    } else {
      WithoutNothing(front, id);
    }
  }

  /** The cache never holds two entries for one URL. */
  lemma OneEntryPerUrl(c: Cache, j: nat, k: nat)
    requires Ordered(c) && j < k < |c.order|
    ensures Url(c, j) != Url(c, k)
  {
    assert LastRead(c.readLog, Url(c, j)) < LastRead(c.readLog, Url(c, k));
  }

  /** A held request is the one its URL finds. */
  lemma FoundForItsUrl(c: Cache, j: nat)
    requires Ordered(c) && j < |c.order|
    ensures EntryOf(c, Url(c, j), |c.order|) == Some(j)
  {
    var k := EntryOf(c, Url(c, j), |c.order|);
    if k.Some? && k.value < j {
      OneEntryPerUrl(c, k.value, j);
    } else if k.Some? && j < k.value {
      OneEntryPerUrl(c, j, k.value);
    }
  }
}
