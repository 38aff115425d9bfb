/**
 * Place mentions from reviewed facts: each confirmed fact whose value resolves to a unit of
 * the state has its mention, and a fact that is not confirmed has none.
 */
module PlaceMentions {
  import opened Mentions
  import opened Positions
  import opened Places
  import opened Wrappers

  datatype Confirmed = Confirmed(factId: nat, value: string)

  predicate Wanted(w: Mention, units: seq<Unit>, c: Confirmed) {
    Resolve(units, c.value) == Some(w.0) && w.1 == c.factId
  }

  ghost predicate Wants(wanted: seq<Mention>, units: seq<Unit>, confirmed: seq<Confirmed>) {
    && (forall i, j :: 0 <= i < j < |wanted| ==> wanted[i] != wanted[j])
    && (forall w :: w in wanted <==> exists c :: c in confirmed && Wanted(w, units, c))
  }

  lemma {:induction false} WantsOneMore(wanted: seq<Mention>, units: seq<Unit>, confirmed: seq<Confirmed>, i: nat)
    requires i < |confirmed| && Wants(wanted, units, confirmed[..i])
    ensures var r := Resolve(units, confirmed[i].value);
      Wants(
        if r.None? || (r.value, confirmed[i].factId) in wanted then wanted
        else wanted + [(r.value, confirmed[i].factId)],
        units, confirmed[..i + 1])
  {
    hide Resolve;
    var c, more := confirmed[i], confirmed[..i + 1];
    assert more == confirmed[..i] + [c];
    var r := Resolve(units, c.value);
    var now := if r.None? || (r.value, c.factId) in wanted then wanted else wanted + [(r.value, c.factId)];
    forall w ensures w in now <==> exists d :: d in more && Wanted(w, units, d) {
      if w in wanted {
        var d :| d in confirmed[..i] && Wanted(w, units, d);
        assert d in more;
      } else if w in now {
        assert c in more && Wanted(w, units, c);
      }
      if d :| d in more && Wanted(w, units, d) {
        if d in confirmed[..i] {
          assert w in wanted;
        } else {
          assert d == c;
        }
      }
    }
  }

  /** The values that resolve to no unit, in the order of their facts. */
  function Unresolved(units: seq<Unit>, confirmed: seq<Confirmed>): seq<string> {
    if confirmed == [] then []
    else
      var last := confirmed[|confirmed| - 1];
      Unresolved(units, confirmed[..|confirmed| - 1]) + if Resolve(units, last.value).None? then [last.value] else []
  }

  ghost function WhereUnresolved(units: seq<Unit>, confirmed: seq<Confirmed>): set<nat> {
    set i: nat | i < |confirmed| && Resolve(units, confirmed[i].value) == None
  }

  /** The values listed are those that resolve to nothing, each as often as it stands, in order. */
  lemma {:induction false} UnresolvedAreListed(units: seq<Unit>, confirmed: seq<Confirmed>) returns (at: seq<nat>)
    ensures Lists(at, WhereUnresolved(units, confirmed)) && |Unresolved(units, confirmed)| == |at|
    ensures forall k :: 0 <= k < |at| ==> at[k] < |confirmed| && Unresolved(units, confirmed)[k] == confirmed[at[k]].value
  {
    hide Resolve;
    at := [];
    if confirmed != [] {
      var n := |confirmed| - 1;
      var front := confirmed[..n];
      at := UnresolvedAreListed(units, front);
      var s := WhereUnresolved(units, front);
      if Resolve(units, confirmed[n].value) == None {
        ListsPush(at, s, n);
        at := at + [n];
        assert WhereUnresolved(units, confirmed) == s + {n};
      } else {
        assert WhereUnresolved(units, confirmed) == s;
      }
    }
  }

  ghost function WantedSet(units: seq<Unit>, confirmed: seq<Confirmed>): set<Mention> {
    set c | c in confirmed && Resolve(units, c.value).Some? :: (Resolve(units, c.value).value, c.factId)
  }

  lemma WantsAreTheSet(wanted: seq<Mention>, units: seq<Unit>, confirmed: seq<Confirmed>)
    requires Wants(wanted, units, confirmed)
    ensures Elements(wanted) == WantedSet(units, confirmed)
  {
    hide Resolve;
    forall w ensures w in Elements(wanted) <==> w in WantedSet(units, confirmed) {
      if c :| c in confirmed && Wanted(w, units, c) {
        assert w == (Resolve(units, c.value).value, c.factId);
      }
      if w in WantedSet(units, confirmed) {
        var c :| c in confirmed && Resolve(units, c.value).Some? && w == (Resolve(units, c.value).value, c.factId);
        assert Wanted(w, units, c);
      }
    }
  }

  lemma NothingWanted(units: seq<Unit>, confirmed: seq<Confirmed>)
    ensures Wants([], units, confirmed[..0])
  {
  }

  method LoadPlaceMentions(table: MentionTable, units: seq<Unit>, confirmed: seq<Confirmed>, scope: set<nat>, version: nat)
    returns (added: nat, removed: nat, unresolved: seq<string>)
    modifies table
    ensures var wanted := WantedSet(units, confirmed);
      && table.rows == Agreed(old(table.rows), wanted, scope, version)
      && added == |wanted - old(table.rows).Keys|
      && removed == |Withdrawn(old(table.rows), wanted, scope)|
    ensures unresolved == Unresolved(units, confirmed)
  {
    hide Resolve, WantedSet;
    var wanted: seq<Mention> := [];
    unresolved := [];
    NothingWanted(units, confirmed);
    for i := 0 to |confirmed|
      invariant table.rows == old(table.rows)
      invariant Wants(wanted, units, confirmed[..i])
      invariant unresolved == Unresolved(units, confirmed[..i])
    {
      hide Wants;
      WantsOneMore(wanted, units, confirmed, i);
      assert confirmed[..i + 1][..i] == confirmed[..i];
      var unit := Resolve(units, confirmed[i].value);
      if unit.None? {
        unresolved := unresolved + [confirmed[i].value];
        continue;
      }
      if (unit.value, confirmed[i].factId) !in wanted {
        wanted := wanted + [(unit.value, confirmed[i].factId)];
      }
    }
    assert confirmed[..|confirmed|] == confirmed;
    WantsAreTheSet(wanted, units, confirmed);
    added, removed := table.Agree(wanted, scope, version);
  }

  ghost predicate AreInScope(confirmed: seq<Confirmed>, scope: set<nat>) {
    forall c :: c in confirmed ==> c.factId in scope
  }

  /** The mentions of the state's documents become those of its confirmed facts; a second load changes nothing. */
  lemma {:induction false} PlaceLoadConverges(rows: Rows, units: seq<Unit>, confirmed: seq<Confirmed>, scope: set<nat>,
      version: nat, again: nat)
    requires AreInScope(confirmed, scope)
    ensures var wanted := WantedSet(units, confirmed);
      var after := Agreed(rows, wanted, scope, version);
      && (forall w :: InScope(w, scope) ==> (w in after <==> w in wanted))
      && (forall w :: !InScope(w, scope) ==> (w in after <==> w in rows) && (w in rows ==> after[w] == rows[w]))
      && Agreed(after, wanted, scope, again) == after
      && wanted - after.Keys == {} && Withdrawn(after, wanted, scope) == {}
  {
    hide Resolve;
    var wanted := WantedSet(units, confirmed);
    assert forall w :: w in wanted ==> InScope(w, scope);
    hide WantedSet;
    AgreesInScope(rows, wanted, scope, version);
    AgreedStays(rows, wanted, scope, version, again);
  }

  /**
   * From the page to the map: a taluka candidate, confirmed as it was proposed, gives a mention
   * of the one taluka of that name, and of no other place.
   */
  lemma {:induction false} ConfirmedTalukaIsMentioned(rows: Rows, units: seq<Unit>, confirmed: seq<Confirmed>,
      scope: set<nat>, version: nat, e: Entry, factId: nat) returns (i: nat)
    requires AreInScope(confirmed, scope)
    requires e.level.Taluka? && IsMatchable(EntriesOf(units), e)
    requires Confirmed(factId, PlaceValue(e.name, e.level)) in confirmed
    requires forall c :: c in confirmed && c.factId == factId ==> c.value == PlaceValue(e.name, e.level)
    ensures i < |units| && forall j :: 0 <= j < |units| ==> (IsNamed(units[j], e) <==> j == i)
    ensures forall u :: (u, factId) in Agreed(rows, WantedSet(units, confirmed), scope, version) <==> u == units[i].id
  {
    hide Resolve, IsMatchable, PlaceValue, IsNamed;
    i := TalukaResolves(units, e);
    var c := Confirmed(factId, PlaceValue(e.name, e.level));
    var wanted := WantedSet(units, confirmed);
    assert forall u :: (u, factId) in wanted <==> u == units[i].id by {
      assert (units[i].id, factId) in wanted;
    }
    assert InScope((0, factId), scope);
    hide WantedSet, Agreed;
    PlaceLoadConverges(rows, units, confirmed, scope, version, version);
    assert forall u: nat :: InScope((u, factId), scope);
  }
}
