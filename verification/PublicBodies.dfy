/**
 * The register of public bodies: each confirmed fact gets the body of its name, made when it is
 * not there yet, under the unit that body governs.
 */
module PublicBodies {
  import opened Blanks
  import opened Mentions
  import opened Positions
  import opened Wrappers

  datatype Kind = Government | Department

  datatype Body = Body(id: nat, kind: Kind, name: string, parent: Option<nat>, unit: nat, version: nat)

  /** A confirmed fact, its settled name, and the state of its document. */
  datatype Confirmed = Confirmed(factId: nat, name: string, stateId: nat, stateName: string)

  const GOVERNMENT_OF: string := "Government of "

  /** The country or state of a name, as the hierarchy has it. */
  type Hierarchy = map<string, nat>

  // ----- Finding and ensuring a body -----

  predicate IsBody(b: Body, unit: nat, kind: Kind, name: string) {
    b.unit == unit && b.kind == kind && b.name == name
  }

  function Find(bodies: seq<Body>, unit: nat, kind: Kind, name: string): (found: Option<nat>)
    ensures found.Some? <==> exists i :: 0 <= i < |bodies| && IsBody(bodies[i], unit, kind, name)
    ensures found.Some? ==> exists i :: 0 <= i < |bodies| && IsBody(bodies[i], unit, kind, name) && bodies[i].id == found.value
  {
    if bodies == [] then None
    else
      var n := |bodies| - 1;
      if IsBody(bodies[n], unit, kind, name) then Some(bodies[n].id)
      else
        assert forall i :: 0 <= i < n ==> bodies[..n][i] == bodies[i];
        Find(bodies[..n], unit, kind, name)
  }

  /** The table a load works on, its identity counter, and what it has done so far. */
  datatype Progress = Progress(
    bodies: seq<Body>,
    nextId: nat,
    wanted: seq<Mention>,
    governments: nat,
    departments: nat,
    unplaced: seq<string>)

  datatype Spec = Spec(kind: Kind, name: string, parent: Option<nat>, unit: nat)

  function Ensured(p: Progress, s: Spec, version: nat): Progress {
    if Find(p.bodies, s.unit, s.kind, s.name).Some? then p
    else
      var body := Body(p.nextId, s.kind, s.name, s.parent, s.unit, version);
      var q := p.(bodies := p.bodies + [body], nextId := p.nextId + 1);
      if s.kind.Government? then q.(governments := q.governments + 1) else q.(departments := q.departments + 1)
  }

  function IdOf(p: Progress, s: Spec): (id: nat)
    requires Find(p.bodies, s.unit, s.kind, s.name).Some?
  {
    Find(p.bodies, s.unit, s.kind, s.name).value
  }

  predicate NamesGovernment(m: Confirmed) {
    |GOVERNMENT_OF| <= |m.name| && m.name[..|GOVERNMENT_OF|] == GOVERNMENT_OF
  }

  /** The unit a government's name stands for: the state of the document, or the country or state named. */
  function UnitOf(m: Confirmed, hierarchy: Hierarchy): Option<nat>
    requires NamesGovernment(m)
  {
    var place := Trim(m.name[|GOVERNMENT_OF|..]);
    if place == m.stateName then Some(m.stateId)
    else if place in hierarchy then Some(hierarchy[place])
    else None
  }

  function StateGovernment(m: Confirmed): Spec {
    Spec(Government, GOVERNMENT_OF + m.stateName, None, m.stateId)
  }

  /** The body a confirmed mention names, if its place is known; `parent` is its government's id. */
  function Named(m: Confirmed, hierarchy: Hierarchy, parent: Option<nat>): Option<Spec> {
    if NamesGovernment(m) then
      match UnitOf(m, hierarchy)
      case None => None
      case Some(unit) => Some(Spec(Government, m.name, None, unit))
    else Some(Spec(Department, m.name, parent, m.stateId))
  }

  function Wanting(wanted: seq<Mention>, m: Mention): seq<Mention> {
    if m in wanted then wanted else wanted + [m]
  }

  lemma EnsuredIsFound(p: Progress, s: Spec, version: nat)
    ensures Find(Ensured(p, s, version).bodies, s.unit, s.kind, s.name).Some?
  {
    var q := Ensured(p, s, version);
    if Find(p.bodies, s.unit, s.kind, s.name).None? {
      assert IsBody(q.bodies[|q.bodies| - 1], s.unit, s.kind, s.name);
    }
  }

  /** One confirmed mention: its body, and its government where it is a department's. */
  function Settled(p: Progress, m: Confirmed, hierarchy: Hierarchy, version: nat): Progress {
    var q := if NamesGovernment(m) then p else Ensured(p, StateGovernment(m), version);
    EnsuredIsFound(p, StateGovernment(m), version);
    var parent := if NamesGovernment(m) then None else Some(IdOf(q, StateGovernment(m)));
    match Named(m, hierarchy, parent)
    case None => p.(unplaced := p.unplaced + [m.name])
    case Some(s) =>
      EnsuredIsFound(q, s, version);
      var r := Ensured(q, s, version);
      r.(wanted := Wanting(r.wanted, (IdOf(r, s), m.factId)))
  }

  function SettledAll(p: Progress, confirmed: seq<Confirmed>, hierarchy: Hierarchy, version: nat): Progress {
    if confirmed == [] then p
    else
      var n := |confirmed| - 1;
      Settled(SettledAll(p, confirmed[..n], hierarchy, version), confirmed[n], hierarchy, version)
  }

  function Start(bodies: seq<Body>, nextId: nat): Progress {
    Progress(bodies, nextId, [], 0, 0, [])
  }

  // ----- What a load keeps -----

  /** At most one body for each unit, kind and name, and no id given twice. */
  ghost predicate AreDistinct(bodies: seq<Body>, nextId: nat) {
    && (forall i, j :: 0 <= i < j < |bodies| ==>
          !IsBody(bodies[i], bodies[j].unit, bodies[j].kind, bodies[j].name) && bodies[i].id != bodies[j].id)
    && (forall i :: 0 <= i < |bodies| ==> bodies[i].id < nextId)
  }

  /** A government has no parent; a department made by a load has its state's government. */
  ghost predicate IsRooted(b: Body, bodies: seq<Body>) {
    match b.kind
    case Government => b.parent == None
    case Department =>
      b.parent.Some? && exists g :: g in bodies && g.id == b.parent.value && g.kind.Government? && g.unit == b.unit
  }

  /** Bodies are only added, at the end, and those added are rooted and counted. */
  ghost predicate Grows(p: Progress, q: Progress) {
    && p.bodies <= q.bodies
    && (forall i :: |p.bodies| <= i < |q.bodies| ==> IsRooted(q.bodies[i], q.bodies))
    && q.governments + q.departments == p.governments + p.departments + (|q.bodies| - |p.bodies|)
  }

  lemma {:induction false} EnsuredGrows(p: Progress, s: Spec, version: nat)
    requires AreDistinct(p.bodies, p.nextId)
    requires s.kind.Government? ==> s.parent == None
    requires s.kind.Department? ==>
      s.parent.Some? && exists g :: g in p.bodies && g.id == s.parent.value && g.kind.Government? && g.unit == s.unit
    ensures var q := Ensured(p, s, version);
      AreDistinct(q.bodies, q.nextId) && Grows(p, q) && q.wanted == p.wanted && q.unplaced == p.unplaced
  {
    var q := Ensured(p, s, version);
    if Find(p.bodies, s.unit, s.kind, s.name).None? {
      var body := q.bodies[|p.bodies|];
      assert forall g :: g in p.bodies ==> g in q.bodies;
      assert IsRooted(body, q.bodies);
      forall i | 0 <= i < |p.bodies| ensures !IsBody(q.bodies[i], body.unit, body.kind, body.name) {
        assert q.bodies[i] == p.bodies[i];
      }
    }
  }

  lemma RootedStays(b: Body, bodies: seq<Body>, more: seq<Body>)
    requires IsRooted(b, bodies) && bodies <= more
    ensures IsRooted(b, more)
  {
    if b.kind.Department? {
      var g :| g in bodies && g.id == b.parent.value && g.kind.Government? && g.unit == b.unit;
      assert g in more;
    }
  }

  lemma {:induction false} GrowsOn(p: Progress, q: Progress, r: Progress)
    requires Grows(p, q) && Grows(q, r)
    ensures Grows(p, r)
  {
    hide IsRooted;
    forall i | |p.bodies| <= i < |r.bodies| ensures IsRooted(r.bodies[i], r.bodies) {
      if i < |q.bodies| {
        assert r.bodies[i] == q.bodies[i];
        RootedStays(q.bodies[i], q.bodies, r.bodies);
      }
    }
  }

  lemma {:induction false} SettledGrows(p: Progress, m: Confirmed, hierarchy: Hierarchy, version: nat)
    requires AreDistinct(p.bodies, p.nextId)
    ensures var q := Settled(p, m, hierarchy, version); AreDistinct(q.bodies, q.nextId) && Grows(p, q)
  {
    hide AreDistinct, Find, Ensured, UnitOf, Grows;
    SameGrows(p);
    if NamesGovernment(m) {
      var named := Named(m, hierarchy, None);
      if named.Some? {
        EnsuredGrows(p, named.value, version);
        WantingGrows(p, Ensured(p, named.value, version), Settled(p, m, hierarchy, version));
      } else {
        WantingGrows(p, p, Settled(p, m, hierarchy, version));
      }
    } else {
      var g := StateGovernment(m);
      EnsuredGrows(p, g, version);
      EnsuredIsFound(p, g, version);
      var q := Ensured(p, g, version);
      FoundIsThere(q, g);
      var d := Named(m, hierarchy, Some(IdOf(q, g))).value;
      EnsuredGrows(q, d, version);
      GrowsOn(p, q, Ensured(q, d, version));
      WantingGrows(p, Ensured(q, d, version), Settled(p, m, hierarchy, version));
    }
  }

  lemma SameGrows(p: Progress)
    ensures Grows(p, p)
  {
  }

  lemma WantingGrows(p: Progress, q: Progress, r: Progress)
    requires Grows(p, q) && r.bodies == q.bodies && r.governments == q.governments && r.departments == q.departments
    ensures Grows(p, r)
  {
  }

  lemma FoundIsThere(p: Progress, s: Spec)
    requires Find(p.bodies, s.unit, s.kind, s.name).Some?
    ensures exists g :: g in p.bodies && g.id == IdOf(p, s) && g.kind == s.kind && g.unit == s.unit && g.name == s.name
  {
    var i :| 0 <= i < |p.bodies| && IsBody(p.bodies[i], s.unit, s.kind, s.name) && p.bodies[i].id == IdOf(p, s);
    assert p.bodies[i] in p.bodies;
  }

  /** No body is renamed, moved or removed; none is held twice; every new department is rooted. */
  lemma {:induction false} LoadKeepsBodies(p: Progress, confirmed: seq<Confirmed>, hierarchy: Hierarchy, version: nat)
    requires AreDistinct(p.bodies, p.nextId)
    ensures var q := SettledAll(p, confirmed, hierarchy, version); AreDistinct(q.bodies, q.nextId) && Grows(p, q)
  {
    hide AreDistinct, Grows, Settled;
    if confirmed == [] {
      SameGrows(p);
    } else {
      var n := |confirmed| - 1;
      LoadKeepsBodies(p, confirmed[..n], hierarchy, version);
      var q := SettledAll(p, confirmed[..n], hierarchy, version);
      SettledGrows(q, confirmed[n], hierarchy, version);
      GrowsOn(p, q, Settled(q, confirmed[n], hierarchy, version));
    }
  }

  // ----- What a load wants -----

  /** The body of a mention, among those held. */
  function IdFor(bodies: seq<Body>, m: Confirmed, hierarchy: Hierarchy): Option<nat> {
    match Named(m, hierarchy, None)
    case None => None
    case Some(s) => Find(bodies, s.unit, s.kind, s.name)
  }

  predicate IsPlaced(m: Confirmed, hierarchy: Hierarchy) {
    Named(m, hierarchy, None).Some?
  }

  /** Every body a mention needs is held. */
  predicate HasBodies(bodies: seq<Body>, m: Confirmed, hierarchy: Hierarchy) {
    && (IsPlaced(m, hierarchy) ==> IdFor(bodies, m, hierarchy).Some?)
    && (!NamesGovernment(m) ==>
          var g := StateGovernment(m); Find(bodies, g.unit, g.kind, g.name).Some?)
  }

  lemma OneBody(bodies: seq<Body>, nextId: nat, i: nat, j: nat, unit: nat, kind: Kind, name: string)
    requires AreDistinct(bodies, nextId) && i < |bodies| && j < |bodies|
    requires IsBody(bodies[i], unit, kind, name) && IsBody(bodies[j], unit, kind, name)
    ensures i == j
  {
  }

  lemma {:induction false} FindStays(bodies: seq<Body>, more: seq<Body>, nextId: nat, unit: nat, kind: Kind, name: string)
    requires bodies <= more && AreDistinct(more, nextId) && Find(bodies, unit, kind, name).Some?
    ensures Find(more, unit, kind, name) == Find(bodies, unit, kind, name)
  {
    var i: nat :| i < |bodies| && IsBody(bodies[i], unit, kind, name) && bodies[i].id == Find(bodies, unit, kind, name).value;
    assert IsBody(more[i], unit, kind, name);
    var j: nat :| j < |more| && IsBody(more[j], unit, kind, name) && more[j].id == Find(more, unit, kind, name).value;
    OneBody(more, nextId, i, j, unit, kind, name);
  }

  lemma {:induction false} HasBodiesStays(bodies: seq<Body>, more: seq<Body>, nextId: nat, m: Confirmed, hierarchy: Hierarchy)
    requires bodies <= more && AreDistinct(more, nextId) && HasBodies(bodies, m, hierarchy)
    ensures HasBodies(more, m, hierarchy) && IdFor(more, m, hierarchy) == IdFor(bodies, m, hierarchy)
  {
    hide Find, AreDistinct, UnitOf, NamesGovernment;
    var named := Named(m, hierarchy, None);
    if named.Some? {
      FindStays(bodies, more, nextId, named.value.unit, named.value.kind, named.value.name);
    }
    if !NamesGovernment(m) {
      var g := StateGovernment(m);
      FindStays(bodies, more, nextId, g.unit, g.kind, g.name);
    }
  }

  /** After its turn a mention has its bodies, and its own body is wanted with its fact. */
  lemma {:induction false} SettledHasBodies(p: Progress, m: Confirmed, hierarchy: Hierarchy, version: nat)
    requires AreDistinct(p.bodies, p.nextId)
    ensures var q := Settled(p, m, hierarchy, version);
      && HasBodies(q.bodies, m, hierarchy)
      && (IsPlaced(m, hierarchy) ==> IdFor(q.bodies, m, hierarchy).Some?)
      && q.wanted == (if IsPlaced(m, hierarchy)
                      then Wanting(p.wanted, (IdFor(q.bodies, m, hierarchy).value, m.factId)) else p.wanted)
      && q.unplaced == if IsPlaced(m, hierarchy) then p.unplaced else p.unplaced + [m.name]
  {
    SettledGrows(p, m, hierarchy, version);
    var r := Settled(p, m, hierarchy, version);
    hide AreDistinct, Find, UnitOf, Grows, Wanting;
    if NamesGovernment(m) {
      var named := Named(m, hierarchy, None);
      if named.Some? {
        EnsuredIsFound(p, named.value, version);
      }
    } else {
      var g := StateGovernment(m);
      EnsuredIsFound(p, g, version);
      var q := Ensured(p, g, version);
      var d := Named(m, hierarchy, Some(IdOf(q, g))).value;
      EnsuredIsFound(q, d, version);
      assert q.bodies <= Ensured(q, d, version).bodies;
      FindStays(q.bodies, r.bodies, r.nextId, g.unit, g.kind, g.name);
    }
  }

  /** A mention whose bodies are held makes none. */
  lemma {:induction false} SettledAgain(p: Progress, m: Confirmed, hierarchy: Hierarchy, version: nat)
    requires HasBodies(p.bodies, m, hierarchy)
    ensures var q := Settled(p, m, hierarchy, version);
      q.bodies == p.bodies && q.nextId == p.nextId && q.governments == p.governments && q.departments == p.departments
  {
    hide Find, UnitOf, NamesGovernment, Wanting;
  }

  ghost predicate Wants(wanted: seq<Mention>, bodies: seq<Body>, confirmed: seq<Confirmed>, hierarchy: Hierarchy) {
    && (forall i, j :: 0 <= i < j < |wanted| ==> wanted[i] != wanted[j])
    && (forall w :: w in wanted <==> exists m :: m in confirmed && Wanted(w, bodies, m, hierarchy))
  }

  predicate Wanted(w: Mention, bodies: seq<Body>, m: Confirmed, hierarchy: Hierarchy) {
    IsPlaced(m, hierarchy) && IdFor(bodies, m, hierarchy) == Some(w.0) && w.1 == m.factId
  }

  /** The mentions wanted are, for each confirmed fact that can be placed, it and its own body. */
  lemma {:induction false} LoadWants(p: Progress, confirmed: seq<Confirmed>, hierarchy: Hierarchy, version: nat)
    requires AreDistinct(p.bodies, p.nextId) && p.wanted == []
    ensures var q := SettledAll(p, confirmed, hierarchy, version);
      && (forall m :: m in confirmed ==> HasBodies(q.bodies, m, hierarchy))
      && Wants(q.wanted, q.bodies, confirmed, hierarchy)
  {
    hide AreDistinct, Grows, Settled, HasBodies, IdFor, IsPlaced;
    if confirmed != [] {
      var n := |confirmed| - 1;
      var m := confirmed[n];
      assert confirmed == confirmed[..n] + [m];
      LoadWants(p, confirmed[..n], hierarchy, version);
      LoadKeepsBodies(p, confirmed[..n], hierarchy, version);
      var q := SettledAll(p, confirmed[..n], hierarchy, version);
      var r := Settled(q, m, hierarchy, version);
      SettledGrows(q, m, hierarchy, version);
      SettledHasBodies(q, m, hierarchy, version);
      GrownIsLonger(q, r);
      forall c | c in confirmed[..n]
        ensures HasBodies(r.bodies, c, hierarchy) && IdFor(r.bodies, c, hierarchy) == IdFor(q.bodies, c, hierarchy)
      {
        HasBodiesStays(q.bodies, r.bodies, r.nextId, c, hierarchy);
      }
      WantsOneMore(q.wanted, q.bodies, r.bodies, confirmed[..n], m, hierarchy);
    }
  }

  lemma GrownIsLonger(p: Progress, q: Progress)
    requires Grows(p, q)
    ensures p.bodies <= q.bodies
  {
  }

  lemma {:induction false} WantsOneMore(wanted: seq<Mention>, bodies: seq<Body>, more: seq<Body>,
      confirmed: seq<Confirmed>, m: Confirmed, hierarchy: Hierarchy)
    requires Wants(wanted, bodies, confirmed, hierarchy)
    requires forall c :: c in confirmed ==> IdFor(more, c, hierarchy) == IdFor(bodies, c, hierarchy)
    requires IsPlaced(m, hierarchy) ==> IdFor(more, m, hierarchy).Some?
    ensures Wants(
      if IsPlaced(m, hierarchy) then Wanting(wanted, (IdFor(more, m, hierarchy).value, m.factId)) else wanted,
      more, confirmed + [m], hierarchy)
  {
    hide IdFor, IsPlaced;
    var now := if IsPlaced(m, hierarchy) then Wanting(wanted, (IdFor(more, m, hierarchy).value, m.factId)) else wanted;
    forall w ensures w in now <==> exists c :: c in confirmed + [m] && Wanted(w, more, c, hierarchy) {
      if w in wanted {
        var c :| c in confirmed && Wanted(w, bodies, c, hierarchy);
        assert c in confirmed + [m] && Wanted(w, more, c, hierarchy);
      } else if w in now {
        assert m in confirmed + [m] && Wanted(w, more, m, hierarchy);
      }
      if c :| c in confirmed + [m] && Wanted(w, more, c, hierarchy) {
        if c in confirmed {
          assert Wanted(w, bodies, c, hierarchy);
        } else {
          assert c == m;
        }
      }
    }
  }

  lemma {:induction false} LoadAgain(p: Progress, confirmed: seq<Confirmed>, hierarchy: Hierarchy, version: nat)
    requires forall m :: m in confirmed ==> HasBodies(p.bodies, m, hierarchy)
    ensures var q := SettledAll(p, confirmed, hierarchy, version);
      q.bodies == p.bodies && q.nextId == p.nextId && q.governments == p.governments && q.departments == p.departments
  {
    hide Settled, HasBodies;
    if confirmed != [] {
      var n := |confirmed| - 1;
      LoadAgain(p, confirmed[..n], hierarchy, version);
      SettledAgain(SettledAll(p, confirmed[..n], hierarchy, version), confirmed[n], hierarchy, version);
    }
  }

  lemma {:induction false} UnplacedAre(p: Progress, q: Progress, confirmed: seq<Confirmed>, hierarchy: Hierarchy,
      version: nat, again: nat)
    requires AreDistinct(p.bodies, p.nextId) && AreDistinct(q.bodies, q.nextId) && p.unplaced == q.unplaced
    ensures SettledAll(p, confirmed, hierarchy, version).unplaced == SettledAll(q, confirmed, hierarchy, again).unplaced
  {
    hide AreDistinct, Settled, IsPlaced, HasBodies, IdFor;
    if confirmed != [] {
      var n := |confirmed| - 1;
      UnplacedAre(p, q, confirmed[..n], hierarchy, version, again);
      LoadKeepsBodies(p, confirmed[..n], hierarchy, version);
      LoadKeepsBodies(q, confirmed[..n], hierarchy, again);
      SettledHasBodies(SettledAll(p, confirmed[..n], hierarchy, version), confirmed[n], hierarchy, version);
      SettledHasBodies(SettledAll(q, confirmed[..n], hierarchy, again), confirmed[n], hierarchy, again);
    }
  }

  // ----- A load and the next -----

  /** What a load makes of the table and reports. */
  datatype Loaded = Loaded(progress: Progress, rows: Rows, added: nat, removed: nat)

  ghost function LoadOf(bodies: seq<Body>, nextId: nat, rows: Rows, confirmed: seq<Confirmed>, hierarchy: Hierarchy,
      scope: set<nat>, version: nat): Loaded
  {
    var p := SettledAll(Start(bodies, nextId), confirmed, hierarchy, version);
    var wanted := Elements(p.wanted);
    Loaded(p, Agreed(rows, wanted, scope, version), |wanted - rows.Keys|, |Withdrawn(rows, wanted, scope)|)
  }

  ghost predicate AreInScope(confirmed: seq<Confirmed>, scope: set<nat>) {
    forall m :: m in confirmed ==> m.factId in scope
  }

  lemma {:induction false} WantedInScope(p: Progress, confirmed: seq<Confirmed>, hierarchy: Hierarchy, scope: set<nat>)
    requires Wants(p.wanted, p.bodies, confirmed, hierarchy) && AreInScope(confirmed, scope)
    ensures forall w :: w in Elements(p.wanted) ==> InScope(w, scope)
  {
    hide IdFor, IsPlaced;
  }

  /**
   * A load run again with the same decisions makes no body, adds no mention and removes none: it
   * leaves the bodies and the mentions exactly as they are, and reports the same names unplaced.
   */
  lemma {:induction false} SecondLoadChangesNothing(bodies: seq<Body>, nextId: nat, rows: Rows,
      confirmed: seq<Confirmed>, hierarchy: Hierarchy, scope: set<nat>, version: nat, again: nat)
    requires AreDistinct(bodies, nextId) && AreInScope(confirmed, scope)
    ensures var first := LoadOf(bodies, nextId, rows, confirmed, hierarchy, scope, version);
      var p := first.progress;
      var second := LoadOf(p.bodies, p.nextId, first.rows, confirmed, hierarchy, scope, again);
      && second.progress.bodies == p.bodies && second.progress.nextId == p.nextId && second.rows == first.rows
      && second.progress.governments == 0 && second.progress.departments == 0
      && second.added == 0 && second.removed == 0
      && second.progress.unplaced == p.unplaced
  {
    var start := Start(bodies, nextId);
    var p := SettledAll(start, confirmed, hierarchy, version);
    var restart := Start(p.bodies, p.nextId);
    var q := SettledAll(restart, confirmed, hierarchy, again);
    hide SettledAll, HasBodies, IdFor, IsPlaced, AreDistinct, Agreed, Withdrawn, Wants, Grows;
    LoadKeepsBodies(start, confirmed, hierarchy, version);
    LoadWants(start, confirmed, hierarchy, version);
    LoadAgain(restart, confirmed, hierarchy, again);
    LoadWants(restart, confirmed, hierarchy, again);
    UnplacedAre(start, restart, confirmed, hierarchy, version, again);
    WantedInScope(p, confirmed, hierarchy, scope);
    SameWants(p, q, confirmed, hierarchy);
    AgreedStays(rows, Elements(p.wanted), scope, version, again);
  }

  lemma SameWants(p: Progress, q: Progress, confirmed: seq<Confirmed>, hierarchy: Hierarchy)
    requires p.bodies == q.bodies
    requires Wants(p.wanted, p.bodies, confirmed, hierarchy) && Wants(q.wanted, q.bodies, confirmed, hierarchy)
    ensures Elements(p.wanted) == Elements(q.wanted)
  {
    hide Wanted;
    forall w ensures w in p.wanted <==> w in q.wanted {
    }
  }

  // ----- What a load makes and lists, said of the facts themselves -----

  /** "Government of X" for some X; any other name is a department's. */
  predicate IsOfGovernment(name: string) {
    |name| >= 14 && name[..14] == "Government of "
  }

  /** A government is of the document's own state if it names that state, else of the unit of that name. */
  predicate IsUnitOf(unit: nat, m: Confirmed, hierarchy: Hierarchy)
    requires IsOfGovernment(m.name)
  {
    var place := Trim(m.name[14..]);
    if place == m.stateName then unit == m.stateId else place in hierarchy && unit == hierarchy[place]
  }

  /** The body a confirmed fact names. */
  predicate IsBodyOf(b: Body, m: Confirmed, hierarchy: Hierarchy) {
    && b.name == m.name
    && if IsOfGovernment(m.name) then b.kind == Government && IsUnitOf(b.unit, m, hierarchy)
       else b.kind == Department && b.unit == m.stateId
  }

  predicate HasAPlace(m: Confirmed, hierarchy: Hierarchy) {
    IsOfGovernment(m.name) ==> var place := Trim(m.name[14..]); place == m.stateName || place in hierarchy
  }

  predicate IsStateGovernmentOf(b: Body, m: Confirmed) {
    b.kind == Government && b.name == "Government of " + m.stateName && b.unit == m.stateId
  }

  /** A body a load makes: the one a fact names, or the government of a department's state. */
  ghost predicate IsMadeFor(b: Body, m: Confirmed, bodies: seq<Body>, hierarchy: Hierarchy, version: nat) {
    && b.version == version
    && if b.kind == Government then
         b.parent == None && (IsBodyOf(b, m, hierarchy) || (!IsOfGovernment(m.name) && IsStateGovernmentOf(b, m)))
       else
         && IsBodyOf(b, m, hierarchy) && b.parent.Some?
         && exists g :: g in bodies && g.id == b.parent.value && IsStateGovernmentOf(g, m)
  }

  lemma NamedIsBodyOf(m: Confirmed, hierarchy: Hierarchy, parent: Option<nat>)
    ensures IsOfGovernment(m.name) <==> NamesGovernment(m)
    ensures var s := Named(m, hierarchy, parent);
      && (s.Some? <==> HasAPlace(m, hierarchy))
      && (s.Some? ==> forall b: Body :: IsBody(b, s.value.unit, s.value.kind, s.value.name) <==> IsBodyOf(b, m, hierarchy))
      && (s.Some? ==> s.value.parent == if IsOfGovernment(m.name) then None else parent)
  {
    hide Trim;
  }

  lemma {:induction false} FoundBody(bodies: seq<Body>, nextId: nat, m: Confirmed, hierarchy: Hierarchy, id: nat)
    requires AreDistinct(bodies, nextId)
    ensures IsPlaced(m, hierarchy) && IdFor(bodies, m, hierarchy) == Some(id)
       <==> exists b :: b in bodies && b.id == id && IsBodyOf(b, m, hierarchy)
  {
    NamedIsBodyOf(m, hierarchy, None);
    hide Named, IsBodyOf, NamesGovernment, IsBody, AreDistinct, HasAPlace;
    var s := Named(m, hierarchy, None);
    if s.Some? {
      var v := s.value;
      if b :| b in bodies && b.id == id && IsBodyOf(b, m, hierarchy) {
        var i :| 0 <= i < |bodies| && bodies[i] == b;
        assert IsBody(bodies[i], v.unit, v.kind, v.name);
        var j: nat :| j < |bodies| && IsBody(bodies[j], v.unit, v.kind, v.name)
          && bodies[j].id == Find(bodies, v.unit, v.kind, v.name).value;
        OneBody(bodies, nextId, i, j, v.unit, v.kind, v.name);
      }
      if IdFor(bodies, m, hierarchy) == Some(id) {
        var j: nat :| j < |bodies| && IsBody(bodies[j], v.unit, v.kind, v.name) && bodies[j].id == id;
        assert bodies[j] in bodies;
      }
    } else {
      NoBodyWithoutAPlace(bodies, m, hierarchy);
    }
  }

  lemma NoBodyWithoutAPlace(bodies: seq<Body>, m: Confirmed, hierarchy: Hierarchy)
    requires !HasAPlace(m, hierarchy)
    ensures forall b: Body :: !IsBodyOf(b, m, hierarchy)
  {
    hide Trim;
  }

  /**
   * After a load, the mentions of the documents in scope are exactly these: for each confirmed
   * fact, it and the body of its name, at the unit that name says; every other document's mentions
   * are as they were.
   */
  lemma {:induction false} LoadAgrees(bodies: seq<Body>, nextId: nat, rows: Rows, confirmed: seq<Confirmed>,
      hierarchy: Hierarchy, scope: set<nat>, version: nat, w: Mention)
    requires AreDistinct(bodies, nextId) && AreInScope(confirmed, scope)
    ensures var after := LoadOf(bodies, nextId, rows, confirmed, hierarchy, scope, version);
      if w.1 in scope
      then w in after.rows <==> exists m, b ::
        m in confirmed && m.factId == w.1 && b in after.progress.bodies && b.id == w.0 && IsBodyOf(b, m, hierarchy)
      else (w in after.rows <==> w in rows) && (w in rows ==> after.rows[w] == rows[w])
  {
    var start := Start(bodies, nextId);
    var p := SettledAll(start, confirmed, hierarchy, version);
    hide SettledAll, HasBodies, IdFor, IsPlaced, AreDistinct, Agreed, Withdrawn, Grows, IsBodyOf;
    LoadWants(start, confirmed, hierarchy, version);
    LoadKeepsBodies(start, confirmed, hierarchy, version);
    WantedInScope(p, confirmed, hierarchy, scope);
    AgreesInScope(rows, Elements(p.wanted), scope, version);
    forall m | m in confirmed
      ensures Wanted(w, p.bodies, m, hierarchy)
        <==> m.factId == w.1 && exists b :: b in p.bodies && b.id == w.0 && IsBodyOf(b, m, hierarchy)
    {
      FoundBody(p.bodies, p.nextId, m, hierarchy, w.0);
    }
  }

  /** The new bodies of one mention are made for it. */
  ghost predicate MadeFor(p: Progress, q: Progress, m: Confirmed, hierarchy: Hierarchy, version: nat) {
    && p.bodies <= q.bodies
    && forall i :: |p.bodies| <= i < |q.bodies| ==> IsMadeFor(q.bodies[i], m, q.bodies, hierarchy, version)
  }

  lemma {:induction false} GovernmentMade(p: Progress, m: Confirmed, hierarchy: Hierarchy, version: nat)
    requires IsOfGovernment(m.name)
    ensures MadeFor(p, Settled(p, m, hierarchy, version), m, hierarchy, version)
  {
    NamedIsBodyOf(m, hierarchy, None);
    hide Find, IsBodyOf, UnitOf, HasAPlace, Wanting;
    var s := Named(m, hierarchy, None);
    if s.Some? {
      var q := Ensured(p, s.value, version);
      if |q.bodies| > |p.bodies| {
        assert IsBody(q.bodies[|p.bodies|], s.value.unit, s.value.kind, s.value.name);
      }
    }
  }

  lemma DepartmentIsMadeFor(b: Body, g: Body, m: Confirmed, bodies: seq<Body>, hierarchy: Hierarchy, version: nat)
    requires !IsOfGovernment(m.name) && g in bodies && IsStateGovernmentOf(g, m)
    requires b == Body(b.id, Department, m.name, Some(g.id), m.stateId, version)
    ensures IsMadeFor(b, m, bodies, hierarchy, version)
  {
  }

  lemma StateGovernmentIsMadeFor(b: Body, m: Confirmed, bodies: seq<Body>, hierarchy: Hierarchy, version: nat)
    requires !IsOfGovernment(m.name)
    requires b == Body(b.id, Government, "Government of " + m.stateName, None, m.stateId, version)
    ensures IsMadeFor(b, m, bodies, hierarchy, version)
  {
  }

  lemma EnsuredIs(p: Progress, s: Spec, version: nat)
    ensures var q := Ensured(p, s, version).bodies;
      q == p.bodies || q == p.bodies + [Body(p.nextId, s.kind, s.name, s.parent, s.unit, version)]
  {
    hide Find;
  }

  lemma SettledDepartment(p: Progress, m: Confirmed, hierarchy: Hierarchy, version: nat) returns (g: Body)
    requires !IsOfGovernment(m.name)
    ensures var q := Ensured(p, StateGovernment(m), version);
      && Settled(p, m, hierarchy, version).bodies ==
           Ensured(q, Spec(Department, m.name, Some(g.id), m.stateId), version).bodies
      && g in q.bodies && IsStateGovernmentOf(g, m)
  {
    NamedIsBodyOf(m, hierarchy, None);
    var s := StateGovernment(m);
    EnsuredIsFound(p, s, version);
    var q := Ensured(p, s, version);
    FoundIsThere(q, s);
    hide Find, UnitOf, Wanting, Ensured, IsOfGovernment, NamesGovernment;
    g :| g in q.bodies && g.id == IdOf(q, s) && g.kind == s.kind && g.unit == s.unit && g.name == s.name;
  }

  lemma DepartmentBodies(before: seq<Body>, mid: seq<Body>, after: seq<Body>, g: Body, a: nat, b: nat, m: Confirmed,
      hierarchy: Hierarchy, version: nat)
    requires !IsOfGovernment(m.name) && g in mid && IsStateGovernmentOf(g, m)
    requires mid == before || mid == before + [Body(a, Government, "Government of " + m.stateName, None, m.stateId, version)]
    requires after == mid || after == mid + [Body(b, Department, m.name, Some(g.id), m.stateId, version)]
    ensures before <= after
    ensures forall i :: |before| <= i < |after| ==> IsMadeFor(after[i], m, after, hierarchy, version)
  {
    assert g in after;
    if mid != before {
      StateGovernmentIsMadeFor(mid[|before|], m, after, hierarchy, version);
    }
    if after != mid {
      DepartmentIsMadeFor(after[|mid|], g, m, after, hierarchy, version);
    }
    hide IsMadeFor, IsOfGovernment, IsStateGovernmentOf;
  }

  lemma {:induction false} DepartmentMade(p: Progress, m: Confirmed, hierarchy: Hierarchy, version: nat)
    requires !IsOfGovernment(m.name)
    ensures MadeFor(p, Settled(p, m, hierarchy, version), m, hierarchy, version)
  {
    var g := SettledDepartment(p, m, hierarchy, version);
    var s := StateGovernment(m);
    var q := Ensured(p, s, version);
    var d := Spec(Department, m.name, Some(g.id), m.stateId);
    EnsuredIs(p, s, version);
    EnsuredIs(q, d, version);
    hide Ensured, IsMadeFor, IsOfGovernment, Settled, IsStateGovernmentOf;
    DepartmentBodies(p.bodies, q.bodies, Ensured(q, d, version).bodies, g, p.nextId, q.nextId, m, hierarchy, version);
  }

  /** Every body a load adds is made for one of its facts, under this load's version. */
  lemma {:induction false} NewBodiesAreMadeFor(p: Progress, confirmed: seq<Confirmed>, hierarchy: Hierarchy, version: nat, i: nat)
    returns (m: Confirmed)
    requires |p.bodies| <= i < |SettledAll(p, confirmed, hierarchy, version).bodies|
    ensures var q := SettledAll(p, confirmed, hierarchy, version);
      m in confirmed && IsMadeFor(q.bodies[i], m, q.bodies, hierarchy, version)
  {
    hide Settled, IsMadeFor;
    var n := |confirmed| - 1;
    var before := SettledAll(p, confirmed[..n], hierarchy, version);
    var q := Settled(before, confirmed[n], hierarchy, version);
    if IsOfGovernment(confirmed[n].name) {
      GovernmentMade(before, confirmed[n], hierarchy, version);
    } else {
      DepartmentMade(before, confirmed[n], hierarchy, version);
    }
    if i < |before.bodies| {
      m := NewBodiesAreMadeFor(p, confirmed[..n], hierarchy, version, i);
      MadeForStays(before.bodies[i], m, before.bodies, q.bodies, hierarchy, version);
    } else {
      m := confirmed[n];
    }
  }

  lemma MadeForStays(b: Body, m: Confirmed, bodies: seq<Body>, more: seq<Body>, hierarchy: Hierarchy, version: nat)
    requires IsMadeFor(b, m, bodies, hierarchy, version) && bodies <= more
    ensures IsMadeFor(b, m, more, hierarchy, version)
  {
    hide IsBodyOf, IsStateGovernmentOf, IsOfGovernment;
    assert forall g :: g in bodies ==> g in more;
  }

  /** The new bodies of a kind. */
  ghost function Added(before: seq<Body>, after: seq<Body>, kind: Kind): set<nat> {
    set i: nat | |before| <= i < |after| && after[i].kind == kind
  }

  lemma AddedOne(start: seq<Body>, bodies: seq<Body>, b: Body, kind: Kind)
    requires start <= bodies
    ensures |Added(start, bodies + [b], kind)| == |Added(start, bodies, kind)| + if b.kind == kind then 1 else 0
  {
    var more := bodies + [b];
    assert Added(start, more, kind) == Added(start, bodies, kind) + if b.kind == kind then {|bodies|} else {};
  }

  lemma {:induction false} EnsuredCounts(start: seq<Body>, p: Progress, s: Spec, version: nat)
    requires start <= p.bodies
    requires p.governments == |Added(start, p.bodies, Government)| && p.departments == |Added(start, p.bodies, Department)|
    ensures var q := Ensured(p, s, version);
      && start <= q.bodies
      && q.governments == |Added(start, q.bodies, Government)| && q.departments == |Added(start, q.bodies, Department)|
  {
    hide Find;
    if Find(p.bodies, s.unit, s.kind, s.name).None? {
      AddedOne(start, p.bodies, Body(p.nextId, s.kind, s.name, s.parent, s.unit, version), Government);
      AddedOne(start, p.bodies, Body(p.nextId, s.kind, s.name, s.parent, s.unit, version), Department);
    }
    hide Added;
  }

  lemma {:induction false} SettledCounts(start: seq<Body>, p: Progress, m: Confirmed, hierarchy: Hierarchy, version: nat)
    requires start <= p.bodies
    requires p.governments == |Added(start, p.bodies, Government)| && p.departments == |Added(start, p.bodies, Department)|
    ensures var q := Settled(p, m, hierarchy, version);
      && start <= q.bodies
      && q.governments == |Added(start, q.bodies, Government)| && q.departments == |Added(start, q.bodies, Department)|
  {
    hide Find, UnitOf, NamesGovernment, Added, Ensured, Wanting;
    var g := StateGovernment(m);
    EnsuredCounts(start, p, g, version);
    EnsuredIsFound(p, g, version);
    var q := if NamesGovernment(m) then p else Ensured(p, g, version);
    var d := Named(m, hierarchy, if NamesGovernment(m) then None else Some(IdOf(q, g)));
    if d.Some? {
      EnsuredCounts(start, q, d.value, version);
    }
  }

  /** The two counts of a load are of the bodies it added, by kind. */
  lemma {:induction false} LoadCountsBodies(bodies: seq<Body>, nextId: nat, confirmed: seq<Confirmed>, hierarchy: Hierarchy,
      version: nat)
    ensures var q := SettledAll(Start(bodies, nextId), confirmed, hierarchy, version);
      && bodies <= q.bodies
      && q.governments == |Added(bodies, q.bodies, Government)| && q.departments == |Added(bodies, q.bodies, Department)|
  {
    hide Settled;
    if confirmed == [] {
      assert Added(bodies, bodies, Government) == {} && Added(bodies, bodies, Department) == {};
    } else {
      var n := |confirmed| - 1;
      LoadCountsBodies(bodies, nextId, confirmed[..n], hierarchy, version);
      hide Added;
      SettledCounts(bodies, SettledAll(Start(bodies, nextId), confirmed[..n], hierarchy, version), confirmed[n],
        hierarchy, version);
    }
  }

  ghost function WithoutAPlace(confirmed: seq<Confirmed>, hierarchy: Hierarchy): set<nat> {
    set k: nat | k < |confirmed| && !HasAPlace(confirmed[k], hierarchy)
  }

  lemma SettledLists(p: Progress, m: Confirmed, hierarchy: Hierarchy, version: nat)
    requires AreDistinct(p.bodies, p.nextId)
    ensures Settled(p, m, hierarchy, version).unplaced ==
      if HasAPlace(m, hierarchy) then p.unplaced else p.unplaced + [m.name]
  {
    hide AreDistinct, Settled, HasBodies, IdFor, HasAPlace, Named, Wanting;
    SettledHasBodies(p, m, hierarchy, version);
    NamedIsBodyOf(m, hierarchy, None);
  }

  /** `at` is where the governments without a place stand, and `names` are theirs. */
  ghost predicate AreListed(names: seq<string>, confirmed: seq<Confirmed>, hierarchy: Hierarchy, at: seq<nat>) {
    && Lists(at, WithoutAPlace(confirmed, hierarchy)) && |names| == |at|
    && forall k :: 0 <= k < |at| ==> at[k] < |confirmed| && names[k] == confirmed[at[k]].name
  }

  lemma OneMoreListed(names: seq<string>, confirmed: seq<Confirmed>, m: Confirmed, hierarchy: Hierarchy, at: seq<nat>)
    returns (next: seq<nat>)
    requires AreListed(names, confirmed, hierarchy, at)
    ensures AreListed(if HasAPlace(m, hierarchy) then names else names + [m.name], confirmed + [m], hierarchy, next)
  {
    hide HasAPlace;
    var n, s := |confirmed|, WithoutAPlace(confirmed, hierarchy);
    if HasAPlace(m, hierarchy) {
      assert WithoutAPlace(confirmed + [m], hierarchy) == s;
      next := at;
    } else {
      ListsPush(at, s, n);
      next := at + [n];
      assert WithoutAPlace(confirmed + [m], hierarchy) == s + {n};
    }
  }

  /** The names listed as unplaced are those of the governments whose place is unknown, in order. */
  lemma {:induction false} UnplacedAreListed(p: Progress, confirmed: seq<Confirmed>, hierarchy: Hierarchy, version: nat)
    returns (at: seq<nat>)
    requires AreDistinct(p.bodies, p.nextId) && p.unplaced == []
    ensures AreListed(SettledAll(p, confirmed, hierarchy, version).unplaced, confirmed, hierarchy, at)
  {
    hide AreDistinct, Settled, HasAPlace, Grows, AreListed;
    if confirmed == [] {
      NothingListed(hierarchy);
      at := [];
    } else {
      var n := |confirmed| - 1;
      var front, last := confirmed[..n], confirmed[n];
      var before := SettledAll(p, front, hierarchy, version);
      assert SettledAll(p, confirmed, hierarchy, version) == Settled(before, last, hierarchy, version);
      assert confirmed == front + [last];
      at := UnplacedAreListed(p, front, hierarchy, version);
      LoadKeepsBodies(p, front, hierarchy, version);
      hide SettledAll;
      SettledLists(before, last, hierarchy, version);
      at := OneMoreListed(before.unplaced, front, last, hierarchy, at);
    }
  }

  lemma NothingListed(hierarchy: Hierarchy)
    ensures AreListed([], [], hierarchy, [])
  {
  }

  // ----- The table -----

  datatype LoadResult = LoadResult(governments: nat, departments: nat, added: nat, removed: nat, unplaced: seq<string>)

  class BodyRegister {
    var bodies: seq<Body>
    var nextId: nat
    var versions: nat
    const mentions: MentionTable

    constructor ()
      ensures bodies == [] && nextId == 1 && versions == 0 && fresh(mentions) && mentions.rows == map[]
    {
      bodies, nextId, versions := [], 1, 0;
      mentions := new MentionTable();
    }

    method FindBody(unit: nat, kind: Kind, name: string) returns (found: Option<nat>)
      ensures found == Find(bodies, unit, kind, name)
    {
      hide IsBody;
      var i := |bodies|;
      assert bodies[..i] == bodies;
      while i > 0
        invariant 0 <= i <= |bodies| && Find(bodies[..i], unit, kind, name) == Find(bodies, unit, kind, name)
        decreases i
      {
        i := i - 1;
        assert bodies[..i + 1][..i] == bodies[..i];
        if IsBody(bodies[i], unit, kind, name) {
          return Some(bodies[i].id);
        }
      }
      return None;
    }

    /** The id of a body, inserted if it is not held. */
    method EnsureBody(s: Spec, version: nat, ghost p: Progress) returns (id: nat, created: bool)
      requires bodies == p.bodies && nextId == p.nextId
      modifies this`bodies, this`nextId
      ensures var q := Ensured(p, s, version);
        && bodies == q.bodies && nextId == q.nextId
        && created == Find(p.bodies, s.unit, s.kind, s.name).None?
        && Find(q.bodies, s.unit, s.kind, s.name) == Some(id)
    {
      var held := FindBody(s.unit, s.kind, s.name);
      EnsuredIsFound(p, s, version);
      if held.Some? {
        return held.value, false;
      }
      id, created := nextId, true;
      bodies := bodies + [Body(nextId, s.kind, s.name, s.parent, s.unit, version)];
      nextId := nextId + 1;
    }

    /** One confirmed mention: the id of its body, made if need be, or none where it has no place. */
    method SettleMention(m: Confirmed, hierarchy: Hierarchy, version: nat, ghost p: Progress)
      returns (bodyId: Option<nat>, newGovernments: nat, newDepartments: nat)
      requires bodies == p.bodies && nextId == p.nextId
      modifies this`bodies, this`nextId
      ensures Settled(p, m, hierarchy, version) == Progress(
        bodies, nextId,
        if bodyId.Some? then Wanting(p.wanted, (bodyId.value, m.factId)) else p.wanted,
        p.governments + newGovernments, p.departments + newDepartments,
        if bodyId.Some? then p.unplaced else p.unplaced + [m.name])
    {
      hide Find, UnitOf, NamesGovernment, Wanting;
      newGovernments, newDepartments := 0, 0;
      if NamesGovernment(m) {
        var unit := UnitOf(m, hierarchy);
        if unit.None? {
          return None, 0, 0;
        }
        var id, created := EnsureBody(Spec(Government, m.name, None, unit.value), version, p);
        return Some(id), if created then 1 else 0, 0;
      }
      var gov, newGov := EnsureBody(StateGovernment(m), version, p);
      ghost var q := Ensured(p, StateGovernment(m), version);
      var dept, newDept := EnsureBody(Spec(Department, m.name, Some(gov), m.stateId), version, q);
      return Some(dept), if newGov then 1 else 0, if newDept then 1 else 0;
    }

    /** Reads the confirmed mentions in turn, then makes the mentions agree. */
    method LoadPublicBodies(confirmed: seq<Confirmed>, hierarchy: Hierarchy, scope: set<nat>) returns (r: LoadResult)
      requires AreDistinct(bodies, nextId)
      modifies this, mentions
      ensures var after := LoadOf(old(bodies), old(nextId), old(mentions.rows), confirmed, hierarchy, scope, old(versions) + 1);
        var p := after.progress;
        && bodies == p.bodies && nextId == p.nextId && mentions.rows == after.rows
        && r == LoadResult(p.governments, p.departments, after.added, after.removed, p.unplaced)
      ensures AreDistinct(bodies, nextId)
      ensures versions == old(versions) + 1
    {
      hide AreDistinct, Grows, HasBodies, Settled;
      versions := versions + 1;
      var version := versions;
      ghost var start := Start(bodies, nextId);
      LoadWants(start, confirmed, hierarchy, version);
      LoadKeepsBodies(start, confirmed, hierarchy, version);
      var wanted: seq<Mention> := [];
      var governments, departments := 0, 0;
      var unplaced: seq<string> := [];
      for i := 0 to |confirmed|
        invariant versions == version
        invariant mentions.rows == old(mentions.rows)
        invariant Progress(bodies, nextId, wanted, governments, departments, unplaced)
          == SettledAll(start, confirmed[..i], hierarchy, version)
      {
        hide Wants;
        assert confirmed[..i + 1][..i] == confirmed[..i];
        var m := confirmed[i];
        var body, newGovernments, newDepartments :=
          SettleMention(m, hierarchy, version, SettledAll(start, confirmed[..i], hierarchy, version));
        governments, departments := governments + newGovernments, departments + newDepartments;
        if body.None? {
          unplaced := unplaced + [m.name];
          continue;
        }
        if (body.value, m.factId) !in wanted {
          wanted := wanted + [(body.value, m.factId)];
        }
      }
      assert confirmed[..|confirmed|] == confirmed;
      var added, removed := mentions.Agree(wanted, scope, version);
      r := LoadResult(governments, departments, added, removed, unplaced);
    }
  }
}
