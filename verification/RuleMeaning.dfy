/** The app's rules, which name nodes by node_id, and their resolution to RF addresses (rulesjson.go). The
    meaning of an app rule is given here directly on node ids; the engine on the resolved rules fires exactly
    the same. */
module RuleMeaning {
  import opened Wrappers
  import opened LiveState
  import E = RuleEngine

  datatype AppCond =
    | AppTime(hS: nat, mS: nat, hE: nat, mE: nat)
    | AppParameter(node: int, p: nat, op: nat, mn: real, mx: real)
    | AppDelta(node1: int, p1: nat, node2: int, p2: nat, op: nat, mn: real, mx: real)

  datatype AppAction = AppRelay(node: int, value: real) | AppMessage(msg: string)

  datatype AppRule = AppRule(name: string, enabled: bool, conds: seq<AppCond>, action: AppAction)

  /** node_id to current RF address, for the nodes that have one: addressForNode. */
  type Binding = map<int, E.Address>

  predicate Injective(b: Binding) {
    forall i, j :: i in b && j in b && b[i] == b[j] ==> i == j
  }

  // ---------------------------------------------------------------- resolution

  function ResolveCond(b: Binding, c: AppCond): Option<E.Cond> {
    match c
    case AppTime(hS, mS, hE, mE) => Some(E.TimeCond(hS, mS, hE, mE))
    case AppParameter(node, p, op, mn, mx) =>
      if node in b then Some(E.ParamCond(b[node], p, op, mn, mx)) else None
    case AppDelta(n1, p1, n2, p2, op, mn, mx) =>
      if n1 in b && n2 in b then Some(E.DeltaCond(b[n1], p1, b[n2], p2, op, mn, mx)) else None
  }

  /** The resolved conditions, or None at the first that names an unavailable node. */
  function ResolveConds(b: Binding, conds: seq<AppCond>): Option<seq<E.Cond>> {
    if conds == [] then Some([]) else
      var n := |conds| - 1;
      var rest := ResolveConds(b, conds[..n]);
      var last := ResolveCond(b, conds[n]);
      if rest.Some? && last.Some? then Some(rest.value + [last.value]) else None
  }

  function ResolveAction(b: Binding, a: AppAction): Option<E.Action> {
    match a
    case AppRelay(node, value) => if node in b then Some(E.SetRelay(b[node], value)) else None
    case AppMessage(msg) => Some(E.SendMessage(msg))
  }

  function ResolveRule(b: Binding, r: AppRule): Option<E.Rule> {
    var conds, action := ResolveConds(b, r.conds), ResolveAction(b, r.action);
    if r.enabled && conds.Some? && action.Some? then Some(E.Rule(r.name, conds.value, action.value)) else None
  }

  /** appRulesToWire */
  function Wire(b: Binding, rules: seq<AppRule>): seq<E.Rule> {
    if rules == [] then [] else
      var n := |rules| - 1;
      match ResolveRule(b, rules[n])
      case None => Wire(b, rules[..n])
      case Some(r) => Wire(b, rules[..n]) + [r]
  }

  /** One rule, as the loop over its conditions and the flag ok do it. */
  method ResolveOne(b: Binding, r: AppRule) returns (rule: Option<E.Rule>)
    requires r.enabled
    ensures rule == ResolveRule(b, r)
  {
    var conds: seq<E.Cond> := [];
    for i := 0 to |r.conds|
      invariant ResolveConds(b, r.conds[..i]) == Some(conds)
    {
      assert r.conds[..i + 1][..i] == r.conds[..i];
      var c := ResolveCond(b, r.conds[i]);
      if c.None? {
        UnresolvedStays(b, r.conds, i + 1);
        return None;
      }
      conds := conds + [c.value];
    }
    assert r.conds[..|r.conds|] == r.conds;
    var action := ResolveAction(b, r.action);
    if action.None? {
      return None;
    }
    return Some(E.Rule(r.name, conds, action.value));
  }

  lemma {:induction false} UnresolvedStays(b: Binding, conds: seq<AppCond>, i: nat)
    requires i <= |conds| && ResolveConds(b, conds[..i]).None?
    ensures ResolveConds(b, conds).None?
    decreases |conds| - i
  {
    if i < |conds| {
      assert conds[..i + 1][..i] == conds[..i];
      UnresolvedStays(b, conds, i + 1);
    } else {
      assert conds[..i] == conds;
    }
  }

  method AppRulesToWire(b: Binding, rules: seq<AppRule>) returns (out: seq<E.Rule>)
    ensures out == Wire(b, rules)
  {
    hide ResolveRule;
    out := [];
    for i := 0 to |rules|
      invariant out == Wire(b, rules[..i])
    {
      assert rules[..i + 1][..i] == rules[..i];
      if !rules[i].enabled {
        DisabledIsSkipped(b, rules[i]);
        continue;
      }
      var rule := ResolveOne(b, rules[i]);
      if rule.Some? {
        out := out + [rule.value];
      }
    }
    assert rules[..|rules|] == rules;
  }

  lemma DisabledIsSkipped(b: Binding, r: AppRule)
    requires !r.enabled
    ensures ResolveRule(b, r).None?
  {}

  // ---------------------------------------------------------------- what an app rule means

  /** What a node is known for: whether it has reported, its type code, and the latest value of each parameter by
      the parameter's code. */
  datatype AppNode = AppNode(seen: bool, kind: nat, values: map<nat, real>)

  /** Every node that has an address. */
  type House = map<int, AppNode>

  /** The parameters of a solar controller (type 0), a buffer controller (type 1) and a temperature and humidity
      sensor (type 6). */
  predicate Owns(kind: nat, p: nat) {
    || (kind == 0 && p in {0, 1, 2, 3, 5, 6, 7, 8})
    || (kind == 1 && p == 4)
    || (kind == 6 && p in {9, 10, 11})
  }

  /** The value of a parameter; 0 for one that the node's type does not have. */
  function Reading(n: AppNode, p: nat): real {
    if Owns(n.kind, p) && p in n.values then n.values[p] else 0.0
  }

  /** What a report says of a parameter. */
  function Says(m: Report, p: nat): Option<real> {
    match m
    case SolarData(t1, t2, t3, t4, tcol, energyGain, flowRate, pumpState) =>
      if p == 0 then Some(t1) else if p == 1 then Some(t2) else if p == 2 then Some(t3) else if p == 3 then Some(t4)
      else if p == 5 then Some(tcol) else if p == 6 then Some(energyGain as real)
      else if p == 7 then Some(flowRate as real) else if p == 8 then Some(pumpState as real) else None
    case PumpStatus(pumpState) => if p == 8 then Some(pumpState as real) else None
    case BuforData(temp) => if p == 4 then Some(temp) else None
    case ThData(temperature, humidity, battMv) =>
      if p == 9 then Some(temperature) else if p == 10 then Some(humidity) else if p == 11 then Some(battMv as real)
      else None
    case Unknown => None
  }

  /** The type a report comes from. */
  function KindOf(m: Report): Option<nat> {
    match m
    case SolarData(_, _, _, _, _, _, _, _) => Some(0)
    case PumpStatus(_) => Some(0)
    case BuforData(_) => Some(1)
    case ThData(_, _, _) => Some(6)
    case Unknown => None
  }

  /** A report gives the parameters it carries new values, and nothing else. */
  function Told(n: AppNode, m: Report): AppNode {
    match KindOf(m)
    case None => n
    case Some(kind) =>
      AppNode(true, kind, map p: nat | p < 12 && (p in n.values || Says(m, p).Some?) ::
                            match Says(m, p) case Some(v) => v case None => n.values[p])
  }

  /** "Less than" asks that the upper bound is not reached, "more than" that the lower one is passed, "between"
      that neither is overstepped. */
  predicate Satisfied(op: nat, mn: real, mx: real, v: real) {
    || (op == 0 && !(mx <= v))
    || (op == 1 && !(v <= mn))
    || (op == 2 && !(v < mn) && !(mx < v))
  }

  predicate Earlier(h: nat, m: nat, h': nat, m': nat) { h < h' || (h == h' && m < m') }

  /** Not before the start and not after the end. */
  predicate InWindow(hS: nat, mS: nat, hE: nat, mE: nat, h: nat, m: nat) {
    !Earlier(h, m, hS, mS) && !Earlier(hE, mE, h, m)
  }

  predicate WantsOn(value: real) { !(value < 0.5) }

  /** The pump of a solar controller is already as the action wants it. */
  predicate Needless(n: AppNode, value: real) {
    n.kind == 0 && 8 in n.values && n.values[8] == if WantsOn(value) then 1.0 else 0.0
  }

  predicate Refers(c: AppCond, known: set<int>) {
    match c
    case AppTime(_, _, _, _) => true
    case AppParameter(node, _, _, _, _) => node in known
    case AppDelta(n1, _, n2, _, _, _, _) => n1 in known && n2 in known
  }

  /** Enabled, and every node it names is available. */
  predicate Available(r: AppRule, known: set<int>) {
    && r.enabled
    && (forall c :: c in r.conds ==> Refers(c, known))
    && (r.action.AppRelay? ==> r.action.node in known)
  }

  predicate Met(c: AppCond, house: House, clock: E.Clock)
    requires Refers(c, house.Keys)
  {
    match c
    case AppTime(hS, mS, hE, mE) => clock.Some? && InWindow(hS, mS, hE, mE, clock.value.0, clock.value.1)
    case AppParameter(node, p, op, mn, mx) => house[node].seen && Satisfied(op, mn, mx, Reading(house[node], p))
    case AppDelta(n1, p1, n2, p2, op, mn, mx) =>
      house[n1].seen && house[n2].seen && Satisfied(op, mn, mx, Reading(house[n1], p1) - Reading(house[n2], p2))
  }

  /** A time evaluation concerns rules with a time condition or none at all, a node report those with a
      condition on some node. */
  predicate Concerned(r: AppRule, scope: E.Scope) {
    match scope
    case EvalTime => r.conds == [] || exists c :: c in r.conds && c.AppTime?
    case EvalNode => exists c :: c in r.conds && !c.AppTime?
  }

  predicate ActsOn(r: AppRule, house: House, clock: E.Clock, scope: E.Scope) {
    && Available(r, house.Keys)
    && Concerned(r, scope)
    && (forall c :: c in r.conds ==> Met(c, house, clock))
    && (r.action.AppRelay? ==> !Needless(house[r.action.node], r.action.value))
  }

  datatype Act =
    | Switch(rule: nat, node: int, kind: nat, on: bool)
    | Notify(rule: nat, text: string)

  function ActOf(rule: nat, r: AppRule, house: House): Act
    requires r.action.AppRelay? ==> r.action.node in house
  {
    match r.action
    case AppRelay(node, value) => Switch(rule, node, house[node].kind, WantsOn(value))
    case AppMessage(msg) => Notify(rule, msg)
  }

  function Acts(rules: seq<AppRule>, house: House, clock: E.Clock, scope: E.Scope): seq<Act> {
    if rules == [] then [] else
      var n := |rules| - 1;
      Acts(rules[..n], house, clock, scope)
      + if ActsOn(rules[n], house, clock, scope) then [ActOf(n, rules[n], house)] else []
  }

  // ---------------------------------------------------------------- one evaluation

  /** The field of a parameter code. */
  function Field(r: NodeRec, p: nat): real {
    if p == 0 then r.t1 else if p == 1 then r.t2 else if p == 2 then r.t3 else if p == 3 then r.t4
    else if p == 4 then r.buforTemp else if p == 5 then r.tcol else if p == 6 then r.energyGain as real
    else if p == 7 then r.flowRate as real else if p == 8 then r.pumpState as real
    else if p == 9 then r.temperature else if p == 10 then r.humidity else r.battMv as real
  }

  /** The engine's record of a node, by parameter codes. */
  function View(r: NodeRec): AppNode { AppNode(r.inUse, r.kind, map p: nat | p < 12 :: Field(r, p)) }

  /** The engine's records show the house through the binding. */
  ghost predicate Shows(b: Binding, recs: E.Records, house: House) {
    house.Keys == b.Keys && forall id :: id in b ==> View(recs[b[id]]) == house[id]
  }

  /** Reading a record's field is reading the parameter, folding a report in is telling it, and the tests of the
      engine are those of the app. */
  lemma SameReading(r: NodeRec, p: nat)
    ensures Param(r, p) == Reading(View(r), p)
  {}

  lemma SameTelling(r: NodeRec, m: Report)
    ensures View(Fold(r, m)) == Told(View(r), m)
  {
    forall p: nat | p < 12
      ensures Field(Fold(r, m), p) == match Says(m, p) case Some(v) => v case None => Field(r, p)
    {}
    hide Field, Says;
  }

  lemma SameTests(op: nat, lo: real, hi: real, v: real, hS: nat, mS: nat, hE: nat, mE: nat, h: nat, m: nat)
    ensures Compare(op, lo, hi, v) <==> Satisfied(op, lo, hi, v)
    ensures WithinHours(hS, mS, hE, mE, h, m) <==> InWindow(hS, mS, hE, mE, h, m)
  {}

  lemma SameRelay(r: NodeRec, value: real)
    ensures Switched(value) <==> WantsOn(value)
    ensures AlreadySet(r, value) <==> Needless(View(r), value)
  {}

  /** An act in the engine's terms: the rule by its index among the pushed rules, the node by its address. */
  function Render(b: Binding, rules: seq<AppRule>, a: Act): E.Fired
    requires a.rule < |rules| && (a.Switch? ==> a.node in b)
  {
    var index, name := |Wire(b, rules[..a.rule])|, rules[a.rule].name;
    match a
    case Switch(_, node, kind, on) => E.Relayed(index, name, b[node], kind, on)
    case Notify(_, text) => E.Notified(index, name, text)
  }

  predicate Renders(b: Binding, rules: seq<AppRule>, acts: seq<Act>) {
    forall i :: 0 <= i < |acts| ==> acts[i].rule < |rules| && (acts[i].Switch? ==> acts[i].node in b)
  }

  function RenderAll(b: Binding, rules: seq<AppRule>, acts: seq<Act>): seq<E.Fired>
    requires Renders(b, rules, acts)
  {
    seq(|acts|, i requires 0 <= i < |acts| => Render(b, rules, acts[i]))
  }

  lemma {:induction false} ResolvedConds(b: Binding, conds: seq<AppCond>)
    ensures ResolveConds(b, conds).Some? <==> forall c :: c in conds ==> Refers(c, b.Keys)
    ensures ResolveConds(b, conds).Some? ==>
              var cs := ResolveConds(b, conds).value;
              |cs| == |conds| && forall i :: 0 <= i < |conds| ==> ResolveCond(b, conds[i]) == Some(cs[i])
  {
    if conds != [] {
      var n := |conds| - 1;
      ResolvedConds(b, conds[..n]);
      assert conds == conds[..n] + [conds[n]];
      assert forall c :: c in conds <==> c in conds[..n] || c == conds[n];
      assert ResolveCond(b, conds[n]).Some? <==> Refers(conds[n], b.Keys);
    }
  }

  lemma SameCond(b: Binding, recs: E.Records, house: House, c: AppCond, clock: E.Clock)
    requires Shows(b, recs, house) && Refers(c, b.Keys)
    ensures var ec := ResolveCond(b, c).value;
            (E.Holds(ec, recs, clock) <==> Met(c, house, clock)) && (ec.TimeCond? <==> c.AppTime?)
  {
    hide Param, Reading, Compare, Satisfied, WithinHours, InWindow;
    match c
    case AppTime(hS, mS, hE, mE) =>
      if clock.Some? {
        SameTests(0, 0.0, 0.0, 0.0, hS, mS, hE, mE, clock.value.0, clock.value.1);
      }
    case AppParameter(node, p, op, mn, mx) =>
      SameReading(recs[b[node]], p);
      SameTests(op, mn, mx, Param(recs[b[node]], p), 0, 0, 0, 0, 0, 0);
    case AppDelta(n1, p1, n2, p2, op, mn, mx) =>
      SameReading(recs[b[n1]], p1);
      SameReading(recs[b[n2]], p2);
      SameTests(op, mn, mx, Param(recs[b[n1]], p1) - Param(recs[b[n2]], p2), 0, 0, 0, 0, 0, 0);
  }

  lemma AvailableIffResolves(b: Binding, r: AppRule)
    ensures Available(r, b.Keys) <==> ResolveRule(b, r).Some?
  {
    ResolvedConds(b, r.conds);
  }

  lemma SameScope(b: Binding, r: AppRule, scope: E.Scope)
    requires ResolveRule(b, r).Some?
    ensures E.InScope(ResolveRule(b, r).value, scope) <==> Concerned(r, scope)
  {
    ResolvedConds(b, r.conds);
    var cs := ResolveConds(b, r.conds).value;
    forall i | 0 <= i < |cs|
      ensures cs[i].TimeCond? <==> r.conds[i].AppTime?
    {
      assert ResolveCond(b, r.conds[i]) == Some(cs[i]);
    }
    if c :| c in cs && c.TimeCond? { var i :| 0 <= i < |cs| && cs[i] == c; assert r.conds[i] in r.conds; }
    if c :| c in cs && !c.TimeCond? { var i :| 0 <= i < |cs| && cs[i] == c; assert r.conds[i] in r.conds; }
    if c :| c in r.conds && c.AppTime? { var i :| 0 <= i < |cs| && r.conds[i] == c; assert cs[i] in cs; }
    if c :| c in r.conds && !c.AppTime? { var i :| 0 <= i < |cs| && r.conds[i] == c; assert cs[i] in cs; }
  }

  lemma SameConds(b: Binding, recs: E.Records, house: House, r: AppRule, clock: E.Clock)
    requires Shows(b, recs, house) && ResolveRule(b, r).Some? && Available(r, b.Keys)
    ensures (forall c :: c in ResolveRule(b, r).value.conds ==> E.Holds(c, recs, clock))
        <==> (forall c :: c in r.conds ==> Met(c, house, clock))
  {
    ResolvedConds(b, r.conds);
    var cs := ResolveConds(b, r.conds).value;
    forall i | 0 <= i < |cs|
      ensures E.Holds(cs[i], recs, clock) <==> Met(r.conds[i], house, clock)
    {
      assert ResolveCond(b, r.conds[i]) == Some(cs[i]);
      SameCond(b, recs, house, r.conds[i], clock);
    }
    hide ResolveConds, E.Holds, Met;
    forall c | c in r.conds ensures exists i :: 0 <= i < |cs| && r.conds[i] == c {}
    forall c | c in cs ensures exists i :: 0 <= i < |cs| && cs[i] == c {}
  }

  lemma SameFiring(b: Binding, recs: E.Records, house: House, r: AppRule, clock: E.Clock, scope: E.Scope)
    requires Shows(b, recs, house)
    ensures var er := ResolveRule(b, r);
            ActsOn(r, house, clock, scope) <==> er.Some? && E.Fires(er.value, recs, clock, scope)
  {
    hide ResolveRule, Available, Concerned, E.InScope, E.Holds, Met, AlreadySet, Needless;
    AvailableIffResolves(b, r);
    if ResolveRule(b, r).Some? {
      SameScope(b, r, scope);
      SameConds(b, recs, house, r, clock);
      ActionResolves(b, r);
      if r.action.AppRelay? {
        SameRelay(recs[b[r.action.node]], r.action.value);
      }
    }
  }

  lemma ActionResolves(b: Binding, r: AppRule)
    requires ResolveRule(b, r).Some?
    ensures Some(ResolveRule(b, r).value.action) == ResolveAction(b, r.action)
    ensures ResolveRule(b, r).value.name == r.name
  {}

  lemma {:induction false} ActsRender(b: Binding, recs: E.Records, rules: seq<AppRule>, whole: seq<AppRule>,
                                      house: House, clock: E.Clock, scope: E.Scope)
    requires rules <= whole && Shows(b, recs, house)
    ensures Renders(b, whole, Acts(rules, house, clock, scope))
  {
    if rules != [] {
      var n := |rules| - 1;
      ActsRender(b, recs, rules[..n], whole, house, clock, scope);
      if ActsOn(rules[n], house, clock, scope) {
        assert rules[n].action.AppRelay? ==> rules[n].action.node in b;
      }
    }
  }

  lemma RenderOneMore(b: Binding, rules: seq<AppRule>, acts: seq<Act>, a: Act)
    requires Renders(b, rules, acts) && a.rule < |rules| && (a.Switch? ==> a.node in b)
    ensures Renders(b, rules, acts + [a])
    ensures RenderAll(b, rules, acts + [a]) == RenderAll(b, rules, acts) + [Render(b, rules, a)]
  {
    hide Render;
  }

  /** One evaluation of the pushed rules fires, in order, what the app's rules say. */
  lemma {:induction false} SameActs(b: Binding, recs: E.Records, house: House, rules: seq<AppRule>,
                                    whole: seq<AppRule>, clock: E.Clock, scope: E.Scope)
    requires Shows(b, recs, house) && rules <= whole
    ensures var acts := Acts(rules, house, clock, scope);
            Renders(b, whole, acts) && E.FiredBy(Wire(b, rules), recs, clock, scope) == RenderAll(b, whole, acts)
  {
    hide ResolveRule, ActsOn, E.Fires, E.Firing, Render, Shows, RenderAll, Renders;
    ActsRender(b, recs, rules, whole, house, clock, scope);
    if rules == [] {
      NothingRenders(b, whole);
    } else {
      var n := |rules| - 1;
      SameActs(b, recs, house, rules[..n], whole, clock, scope);
      SameFiring(b, recs, house, rules[n], clock, scope);
      var wire, before := Wire(b, rules), Wire(b, rules[..n]);
      var acts := Acts(rules[..n], house, clock, scope);
      assert acts + [] == acts;
      if ResolveRule(b, rules[n]).Some? {
        var fired := E.FiredBy(before, recs, clock, scope);
        assert wire[..|before|] == before && fired + [] == fired;
        if ActsOn(rules[n], house, clock, scope) {
          SameLast(b, recs, house, rules, whole, clock, scope);
          RenderOneMore(b, whole, acts, ActOf(n, rules[n], house));
        }
      }
    }
  }

  lemma NothingRenders(b: Binding, rules: seq<AppRule>)
    ensures Renders(b, rules, []) && RenderAll(b, rules, []) == []
  {}

  lemma SameLast(b: Binding, recs: E.Records, house: House, rules: seq<AppRule>, whole: seq<AppRule>,
                 clock: E.Clock, scope: E.Scope)
    requires Shows(b, recs, house) && rules != [] && rules <= whole
    requires ActsOn(rules[|rules| - 1], house, clock, scope) && ResolveRule(b, rules[|rules| - 1]).Some?
    ensures var n := |rules| - 1;
            && (rules[n].action.AppRelay? ==> rules[n].action.node in b && rules[n].action.node in house)
            && Render(b, whole, ActOf(n, rules[n], house))
               == E.Firing(|Wire(b, rules[..n])|, ResolveRule(b, rules[n]).value, recs)
  {
    var n := |rules| - 1;
    assert whole[..n] == rules[..n];
    ActionResolves(b, rules[n]);
    if rules[n].action.AppRelay? {
      SameRelay(recs[b[rules[n].action.node]], rules[n].action.value);
    }
  }

  // ---------------------------------------------------------------- whole runs

  /** A minute tick; a report from a node of the house; a report from an address bound to none. */
  datatype Event =
    | Tick(clock: E.Clock)
    | Reports(node: int, m: Report, clock: E.Clock)
    | Foreign(sender: E.Address, m: Report, clock: E.Clock)

  predicate Possible(b: Binding, e: Event) {
    match e
    case Tick(_) => true
    case Reports(node, _, _) => node in b
    case Foreign(sender, _, _) => forall id :: id in b ==> b[id] != sender
  }

  /** The engine task: fold the report in, then evaluate. */
  function EngineStep(b: Binding, s: E.State, wire: seq<E.Rule>, e: Event): (E.State, seq<E.Fired>)
    requires Possible(b, e)
  {
    match e
    case Tick(clock) => E.Evaluate(s, wire, clock, E.EvalTime)
    case Reports(node, m, clock) => E.Evaluate(E.Update(s, b[node], m), wire, clock, E.EvalNode)
    case Foreign(sender, m, clock) => E.Evaluate(E.Update(s, sender, m), wire, clock, E.EvalNode)
  }

  /** The same on node ids: the house, and the minute TIME rules last ran for. */
  datatype Home = Home(house: House, lastTimeMin: int)

  function HomeStep(h: Home, rules: seq<AppRule>, e: Event): (Home, seq<Act>) {
    match e
    case Tick(clock) =>
      if clock.Some? && 60 * clock.value.0 + clock.value.1 == h.lastTimeMin then (h, [])
      else
        (if clock.Some? then h.(lastTimeMin := 60 * clock.value.0 + clock.value.1) else h,
         Acts(rules, h.house, clock, E.EvalTime))
    case Reports(node, m, clock) =>
      var house := if node in h.house then h.house[node := Told(h.house[node], m)] else h.house;
      (h.(house := house), Acts(rules, house, clock, E.EvalNode))
    case Foreign(_, _, clock) => (h, Acts(rules, h.house, clock, E.EvalNode))
  }

  function EngineRun(b: Binding, s: E.State, wire: seq<E.Rule>, events: seq<Event>): (E.State, seq<E.Fired>)
    requires forall i :: 0 <= i < |events| ==> Possible(b, events[i])
  {
    if events == [] then (s, []) else
      var n := |events| - 1;
      var (s1, fired) := EngineRun(b, s, wire, events[..n]);
      var (s2, more) := EngineStep(b, s1, wire, events[n]);
      (s2, fired + more)
  }

  function HomeRun(h: Home, rules: seq<AppRule>, events: seq<Event>): (Home, seq<Act>) {
    if events == [] then (h, []) else
      var n := |events| - 1;
      var (h1, acts) := HomeRun(h, rules, events[..n]);
      var (h2, more) := HomeStep(h1, rules, events[n]);
      (h2, acts + more)
  }

  ghost predicate Matches(b: Binding, s: E.State, h: Home) {
    Shows(b, s.recs, h.house) && s.lastTimeMin == h.lastTimeMin
  }

  lemma StepMeansTheSame(b: Binding, s: E.State, h: Home, rules: seq<AppRule>, e: Event)
    requires Injective(b) && Matches(b, s, h) && Possible(b, e)
    ensures var (s', fired) := EngineStep(b, s, Wire(b, rules), e);
            var (h', acts) := HomeStep(h, rules, e);
            Matches(b, s', h') && Renders(b, rules, acts) && fired == RenderAll(b, rules, acts)
  {
    hide Acts, E.FiredBy, Render, Wire, Fold, Told, View;
    match e
    case Tick(clock) => SameActs(b, s.recs, h.house, rules, rules, clock, E.EvalTime);
    case Reports(node, m, clock) =>
      var s1 := E.Update(s, b[node], m);
      var house := h.house[node := Told(h.house[node], m)];
      SameTelling(s.recs[b[node]], m);
      SameActs(b, s1.recs, house, rules, rules, clock, E.EvalNode);
    case Foreign(sender, m, clock) =>
      var s1 := E.Update(s, sender, m);
      SameActs(b, s1.recs, h.house, rules, rules, clock, E.EvalNode);
  }

  /** Under a fixed injective binding, and over every run of reports and minute ticks, the engine on the
      resolved rules fires exactly the acts of the app's enabled and available rules, in the same order. */
  lemma {:induction false} MeaningIsKept(b: Binding, s: E.State, h: Home, rules: seq<AppRule>, events: seq<Event>)
    requires Injective(b) && Matches(b, s, h)
    requires forall i :: 0 <= i < |events| ==> Possible(b, events[i])
    ensures var (s', fired) := EngineRun(b, s, Wire(b, rules), events);
            var (h', acts) := HomeRun(h, rules, events);
            Matches(b, s', h') && Renders(b, rules, acts) && fired == RenderAll(b, rules, acts)
  {
    hide EngineStep, HomeStep, Render, Wire, Matches, Possible;
    if events != [] {
      var n := |events| - 1;
      MeaningIsKept(b, s, h, rules, events[..n]);
      StepMeansTheSame(b, EngineRun(b, s, Wire(b, rules), events[..n]).0, HomeRun(h, rules, events[..n]).0, rules, events[n]);
    }
  }

  // ---------------------------------------------------------------- what a rule reads

  function FoldAll(r: NodeRec, ms: seq<Report>): NodeRec {
    if ms == [] then r else Fold(FoldAll(r, ms[..|ms| - 1]), ms[|ms| - 1])
  }

  /** After any reports of a node, with the k-th the last to say something of a parameter and the j-th the last that
      was understood, the engine reads what the k-th said, if the parameter is one of the j-th's type, else 0. */
  lemma {:induction false} ReadsLastSaid(r: NodeRec, ms: seq<Report>, p: nat, k: nat, j: nat)
    requires k <= j < |ms| && Says(ms[k], p).Some? && !ms[j].Unknown?
    requires forall i :: k < i < |ms| ==> Says(ms[i], p).None?
    requires forall i :: j < i < |ms| ==> ms[i].Unknown?
    ensures FoldAll(r, ms).inUse
    ensures Param(FoldAll(r, ms), p) == if Owns(KindOf(ms[j]).value, p) then Says(ms[k], p).value else 0.0
  {
    hide Param, Fold;
    ValueIsLastSaid(r, ms, p, k);
    KindIsLastTold(r, ms, j);
    SameReading(FoldAll(r, ms), p);
  }

  lemma SaidIsBelow(m: Report, p: nat)
    ensures Says(m, p).Some? ==> p < 12
  {}

  lemma {:induction false} ValueIsLastSaid(r: NodeRec, ms: seq<Report>, p: nat, k: nat)
    requires k < |ms| && Says(ms[k], p).Some? && forall i :: k < i < |ms| ==> Says(ms[i], p).None?
    ensures var n := View(FoldAll(r, ms)); p in n.values && n.values[p] == Says(ms[k], p).value
  {
    var n := |ms| - 1;
    SameTelling(FoldAll(r, ms[..n]), ms[n]);
    hide View, Fold;
    SaysIsTold(View(FoldAll(r, ms[..n])), ms[n], p);
    SaidIsBelow(ms[k], p);
    if k < n {
      ValueIsLastSaid(r, ms[..n], p, k);
    }
  }

  lemma SaysIsTold(n: AppNode, m: Report, p: nat)
    ensures match Says(m, p)
            case Some(v) => p in Told(n, m).values && Told(n, m).values[p] == v
            case None => p < 12 && p in n.values ==> p in Told(n, m).values && Told(n, m).values[p] == n.values[p]
  {}

  lemma {:induction false} KindIsLastTold(r: NodeRec, ms: seq<Report>, j: nat)
    requires j < |ms| && !ms[j].Unknown? && forall i :: j < i < |ms| ==> ms[i].Unknown?
    ensures FoldAll(r, ms).inUse
    ensures Some(FoldAll(r, ms).kind) == KindOf(ms[j])
  {
    var n := |ms| - 1;
    if j < n {
      KindIsLastTold(r, ms[..n], j);
    }
  }

  /** Every field of a report is what the parameter with its code reads next. */
  lemma ReportIsReadBack(r: NodeRec, a: real, b: real, c: real, d: real, col: real, gain: int, flow: int, pump: nat)
    ensures var n := Fold(r, SolarData(a, b, c, d, col, gain, flow, pump));
            && Param(n, 0) == a && Param(n, 1) == b && Param(n, 2) == c && Param(n, 3) == d && Param(n, 5) == col
            && Param(n, 6) == gain as real && Param(n, 7) == flow as real && Param(n, 8) == pump as real
    ensures Param(Fold(r, PumpStatus(pump)), 8) == pump as real
    ensures r.kind == 0 ==> forall p :: p != 8 ==> Param(Fold(r, PumpStatus(pump)), p) == Param(r, p)
    ensures Param(Fold(r, BuforData(a)), 4) == a
    ensures var n := Fold(r, ThData(a, b, pump)); Param(n, 9) == a && Param(n, 10) == b && Param(n, 11) == pump as real
    ensures Fold(r, Unknown) == r
  {}

  /** The comparisons in figures, each end on its own side. */
  lemma ComparisonLaws(lo: real, hi: real, v: real, op: nat)
    ensures Compare(0, lo, hi, v) <==> v < hi
    ensures Compare(1, lo, hi, v) <==> lo < v
    ensures Compare(2, lo, hi, v) <==> lo <= v && v <= hi
    ensures op > 2 ==> !Compare(op, lo, hi, v)
    ensures !Compare(0, lo, v, v) && !Compare(1, v, hi, v) && Compare(2, v, v, v)
  {}

  /** On a clock, with minutes below 60, a window is an interval of minutes of the day. */
  lemma WindowInMinutes(hS: nat, mS: nat, hE: nat, mE: nat, h: nat, m: nat)
    requires mS < 60 && mE < 60 && m < 60
    ensures WithinHours(hS, mS, hE, mE, h, m) <==> 60 * hS + mS <= 60 * h + m <= 60 * hE + mE
  {}
}
