/**
 * Mentions of a public body or a place, made to agree with what the reviewed facts name.
 *
 * The two loaders end the same way: insert the wanted mentions that are not held, then delete
 * the held ones, of the documents in scope, that are no longer wanted.
 */
module Mentions {

  /** What is named, and the fact that names it. */
  type Mention = (nat, nat)

  /** Every mention held, with the version of the load that inserted it. */
  type Rows = map<Mention, nat>

  ghost predicate InScope(m: Mention, scope: set<nat>) {
    m.1 in scope
  }

  /** Held mentions of the scope that are no longer wanted. */
  ghost function Withdrawn(rows: Rows, wanted: set<Mention>, scope: set<nat>): set<Mention> {
    set m | m in rows && InScope(m, scope) && m !in wanted
  }

  ghost function Agreed(rows: Rows, wanted: set<Mention>, scope: set<nat>, version: nat): Rows {
    map m | m in rows.Keys + wanted && m !in Withdrawn(rows, wanted, scope) ::
      if m in rows then rows[m] else version
  }

  /** Inside the scope, exactly the wanted mentions; outside it, what was there; kept ones untouched. */
  lemma {:induction false} AgreesInScope(rows: Rows, wanted: set<Mention>, scope: set<nat>, version: nat)
    requires forall m :: m in wanted ==> InScope(m, scope)
    ensures var after := Agreed(rows, wanted, scope, version);
      && (forall m :: InScope(m, scope) ==> (m in after <==> m in wanted))
      && (forall m :: !InScope(m, scope) ==> (m in after <==> m in rows))
      && (forall m :: m in after && m in rows ==> after[m] == rows[m])
      && |after| == |rows| + |wanted - rows.Keys| - |Withdrawn(rows, wanted, scope)|
  {
    var after := Agreed(rows, wanted, scope, version);
    var new_, gone := wanted - rows.Keys, Withdrawn(rows, wanted, scope);
    assert after.Keys == rows.Keys - gone + new_;
    assert gone <= rows.Keys && (rows.Keys - gone) !! new_;
    assert |after| == |after.Keys| && |rows| == |rows.Keys|;
    assert |rows.Keys - gone| == |rows.Keys| - |gone|;
    assert |rows.Keys - gone + new_| == |rows.Keys - gone| + |new_|;
  }

  /** Once they agree there is nothing to insert and nothing to delete. */
  lemma {:induction false} AgreedStays(rows: Rows, wanted: set<Mention>, scope: set<nat>, version: nat, again: nat)
    requires forall m :: m in wanted ==> InScope(m, scope)
    ensures var after := Agreed(rows, wanted, scope, version);
      && Agreed(after, wanted, scope, again) == after
      && wanted - after.Keys == {} && Withdrawn(after, wanted, scope) == {}
  {
  }

  ghost function Elements(wanted: seq<Mention>): set<Mention> {
    set m | m in wanted
  }

  lemma ElementsNext(wanted: seq<Mention>, i: nat)
    requires i < |wanted| && forall a, b :: 0 <= a < b < |wanted| ==> wanted[a] != wanted[b]
    ensures Elements(wanted[..i + 1]) == Elements(wanted[..i]) + {wanted[i]} && wanted[i] !in Elements(wanted[..i])
  {
    assert wanted[..i + 1] == wanted[..i] + [wanted[i]];
  }

  ghost function With(rows: Rows, inserted: set<Mention>, version: nat): Rows {
    map m | m in rows.Keys + inserted :: if m in rows then rows[m] else version
  }

  lemma NothingWith(rows: Rows, version: nat)
    ensures With(rows, {}, version) == rows
  {
  }

  lemma OneMoreWith(rows: Rows, inserted: set<Mention>, m: Mention, version: nat)
    requires m !in inserted
    ensures var now := With(rows, inserted, version);
      (m in now <==> m in rows) && With(rows, inserted + {m}, version) == if m in rows then now else now[m := version]
  {
  }

  lemma OneMoreNew(rows: Rows, inserted: set<Mention>, m: Mention)
    requires m !in inserted
    ensures |inserted + {m} - rows.Keys| == |inserted - rows.Keys| + if m in rows then 0 else 1
  {
    var was := inserted - rows.Keys;
    if m in rows {
      assert inserted + {m} - rows.Keys == was;
    } else {
      assert inserted + {m} - rows.Keys == was + {m};
    }
  }

  /** Inserting and then withdrawing comes to agreeing. */
  lemma InsertedThenWithdrawn(rows: Rows, wanted: set<Mention>, scope: set<nat>, version: nat)
    ensures var now := With(rows, wanted, version);
      && Withdrawn(now, wanted, scope) == Withdrawn(rows, wanted, scope)
      && now - Withdrawn(now, wanted, scope) == Agreed(rows, wanted, scope, version)
  {
  }

  class MentionTable {
    var rows: Rows

    constructor ()
      ensures rows == map[]
    {
      rows := map[];
    }

    /** Inserts each wanted mention unless it is held: ON CONFLICT DO NOTHING. */
    method Insert(wanted: seq<Mention>, version: nat) returns (added: nat)
      requires forall i, j :: 0 <= i < j < |wanted| ==> wanted[i] != wanted[j]
      modifies this
      ensures rows == With(old(rows), Elements(wanted), version)
      ensures added == |Elements(wanted) - old(rows).Keys|
    {
      hide With;
      added := 0;
      ghost var was := rows;
      NothingWith(rows, version);
      assert Elements(wanted[..0]) == {};
      for i := 0 to |wanted|
        invariant added == |Elements(wanted[..i]) - was.Keys|
        invariant rows == With(was, Elements(wanted[..i]), version)
      {
        ElementsNext(wanted, i);
        hide Elements;
        OneMoreWith(was, Elements(wanted[..i]), wanted[i], version);
        OneMoreNew(was, Elements(wanted[..i]), wanted[i]);
        if wanted[i] !in rows {
          rows := rows[wanted[i] := version];
          added := added + 1;
        }
      }
      assert wanted[..|wanted|] == wanted;
    }

    /** Deletes the mentions of the scope that are not wanted. */
    method Withdraw(wanted: set<Mention>, scope: set<nat>) returns (removed: nat)
      modifies this
      ensures rows == old(rows) - Withdrawn(old(rows), wanted, scope)
      ensures removed == |Withdrawn(old(rows), wanted, scope)|
    {
      var existing := set m | m in rows && m.1 in scope;
      ghost var gone: set<Mention> := {};
      removed := 0;
      while existing != {}
        invariant forall m :: m in existing ==> m in old(rows) && m.1 in scope && m !in gone
        invariant forall m :: m in gone ==> m in Withdrawn(old(rows), wanted, scope)
        invariant forall m :: m in Withdrawn(old(rows), wanted, scope) ==> m in gone || m in existing
        invariant removed == |gone|
        invariant rows == old(rows) - gone
        decreases |existing|
      {
        var row :| row in existing;
        existing := existing - {row};
        if row !in wanted {
          rows := rows - {row};
          removed := removed + 1;
          gone := gone + {row};
        }
      }
      assert gone == Withdrawn(old(rows), wanted, scope);
    }

    /** Makes the table agree with what is wanted, within the scope. */
    method Agree(wanted: seq<Mention>, scope: set<nat>, version: nat) returns (added: nat, removed: nat)
      requires forall i, j :: 0 <= i < j < |wanted| ==> wanted[i] != wanted[j]
      modifies this
      ensures var w := Elements(wanted);
        && rows == Agreed(old(rows), w, scope, version)
        && added == |w - old(rows).Keys|
        && removed == |Withdrawn(old(rows), w, scope)|
    {
      var w := set m | m in wanted;
      assert w == Elements(wanted);
      InsertedThenWithdrawn(rows, w, scope, version);
      hide With, Agreed, Withdrawn;
      added := Insert(wanted, version);
      removed := Withdraw(w, scope);
    }
  }
}
