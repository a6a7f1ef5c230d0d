/** What the engine knows of a node, and how it is read: the part of engine.c that looks at one record only. */
module LiveState {

  const SOLAR := 0
  const BUFOR := 1
  const TH_SENSOR := 6

  /** NodeRec. */
  datatype NodeRec = NodeRec(inUse: bool, kind: nat,
                             t1: real, t2: real, t3: real, t4: real, tcol: real,
                             energyGain: int, flowRate: int, pumpState: nat,
                             buforTemp: real, temperature: real, humidity: real, battMv: nat)

  /** What a node can report, by type and command of the message. */
  datatype Report =
    | SolarData(t1: real, t2: real, t3: real, t4: real, tcol: real, energyGain: int, flowRate: int, pumpState: nat)
    | PumpStatus(pumpState: nat)
    | BuforData(temp: real)
    | ThData(temperature: real, humidity: real, battMv: nat)
    | Unknown

  /** engine_update_node on the record of the sender. */
  function Fold(r: NodeRec, m: Report): NodeRec {
    match m
    case SolarData(t1, t2, t3, t4, tcol, energyGain, flowRate, pumpState) =>
      r.(inUse := true, kind := SOLAR, t1 := t1, t2 := t2, t3 := t3, t4 := t4, tcol := tcol,
         energyGain := energyGain, flowRate := flowRate, pumpState := pumpState)
    case PumpStatus(pumpState) => r.(inUse := true, kind := SOLAR, pumpState := pumpState)
    case BuforData(temp) => r.(inUse := true, kind := BUFOR, buforTemp := temp)
    case ThData(temperature, humidity, battMv) =>
      r.(inUse := true, kind := TH_SENSOR, temperature := temperature, humidity := humidity, battMv := battMv)
    case Unknown => r
  }

  /** getNodeParam: 0 for a parameter that the node's type does not have. */
  function Param(r: NodeRec, p: nat): real {
    if r.kind == SOLAR then
      match p
      case 0 => r.t1
      case 1 => r.t2
      case 2 => r.t3
      case 3 => r.t4
      case 5 => r.tcol
      case 6 => r.energyGain as real
      case 7 => r.flowRate as real
      case 8 => r.pumpState as real
      case _ => 0.0
    else if r.kind == BUFOR then
      if p == 4 then r.buforTemp else 0.0
    else if r.kind == TH_SENSOR then
      match p
      case 9 => r.temperature
      case 10 => r.humidity
      case 11 => r.battMv as real
      case _ => 0.0
    else 0.0
  }

  /** OP_LESS_THAN, OP_MORE_THAN, OP_BETWEEN; any other code is never met. */
  predicate Compare(op: nat, lo: real, hi: real, v: real) {
    match op
    case 0 => v < hi
    case 1 => v > lo
    case 2 => lo <= v <= hi
    case _ => false
  }

  /** A time of day not before the start and not after the end, compared hour first. */
  predicate WithinHours(hS: nat, mS: nat, hE: nat, mE: nat, h: nat, m: nat) {
    (h > hS || (h == hS && m >= mS)) && (h < hE || (h == hE && m <= mE))
  }

  predicate Switched(value: real) { value >= 0.5 }

  /** The pump of a solar node is already as the action wants it. */
  predicate AlreadySet(r: NodeRec, value: real) {
    r.kind == SOLAR && r.pumpState == if Switched(value) then 1 else 0
  }
}

/** engine_evaluate and engine_update_node: rules that name nodes by RF address. */
module RuleEngine {
  import opened Wrappers
  import opened LiveState

  type Address = a: nat | a < 256

  datatype Cond =
    | TimeCond(hS: nat, mS: nat, hE: nat, mE: nat)
    | ParamCond(addr: Address, p: nat, op: nat, lo: real, hi: real)
    | DeltaCond(addr1: Address, p1: nat, addr2: Address, p2: nat, op: nat, lo: real, hi: real)

  datatype Action = SetRelay(addr: Address, value: real) | SendMessage(text: string)

  datatype Rule = Rule(name: string, conds: seq<Cond>, action: Action)

  const NO_RECORDS: seq<NodeRec> :=
    seq(256, _ => NodeRec(false, 0, 0.0, 0.0, 0.0, 0.0, 0.0, 0, 0, 0, 0.0, 0.0, 0.0, 0))

  type Records = s: seq<NodeRec> | |s| == 256 witness NO_RECORDS

  /** Rounded hour and minute, if the wall clock is set. */
  type Clock = Option<(nat, nat)>

  datatype Scope = EvalTime | EvalNode

  datatype Fired =
    | Relayed(index: nat, name: string, addr: Address, kind: nat, on: bool)
    | Notified(index: nat, name: string, text: string)

  predicate Holds(c: Cond, recs: Records, clock: Clock) {
    match c
    case TimeCond(hS, mS, hE, mE) => clock.Some? && WithinHours(hS, mS, hE, mE, clock.value.0, clock.value.1)
    case ParamCond(a, p, op, lo, hi) => recs[a].inUse && Compare(op, lo, hi, Param(recs[a], p))
    case DeltaCond(a1, p1, a2, p2, op, lo, hi) =>
      recs[a1].inUse && recs[a2].inUse && Compare(op, lo, hi, Param(recs[a1], p1) - Param(recs[a2], p2))
  }

  /** rule_matches_scope */
  predicate InScope(rule: Rule, scope: Scope) {
    match scope
    case EvalTime => (exists c :: c in rule.conds && c.TimeCond?) || rule.conds == []
    case EvalNode => exists c :: c in rule.conds && !c.TimeCond?
  }

  predicate Redundant(a: Action, recs: Records) { a.SetRelay? && AlreadySet(recs[a.addr], a.value) }

  predicate Fires(rule: Rule, recs: Records, clock: Clock, scope: Scope) {
    && InScope(rule, scope)
    && !Redundant(rule.action, recs)
    && forall c :: c in rule.conds ==> Holds(c, recs, clock)
  }

  function Firing(index: nat, rule: Rule, recs: Records): Fired {
    match rule.action
    case SetRelay(a, value) => Relayed(index, rule.name, a, recs[a].kind, Switched(value))
    case SendMessage(text) => Notified(index, rule.name, text)
  }

  function FiredBy(rules: seq<Rule>, recs: Records, clock: Clock, scope: Scope): seq<Fired> {
    if rules == [] then [] else
      var n := |rules| - 1;
      FiredBy(rules[..n], recs, clock, scope) + if Fires(rules[n], recs, clock, scope) then [Firing(n, rules[n], recs)] else []
  }

  // ---------------------------------------------------------------- the state machine

  datatype State = State(recs: Records, lastTimeMin: int)

  function MinuteOfDay(t: (nat, nat)): int { t.0 * 60 + t.1 }

  /** TIME rules are evaluated at most once in a wall minute. */
  function Evaluate(s: State, rules: seq<Rule>, clock: Clock, scope: Scope): (State, seq<Fired>) {
    if scope.EvalTime? && clock.Some? && MinuteOfDay(clock.value) == s.lastTimeMin then (s, [])
    else
      (if scope.EvalTime? && clock.Some? then s.(lastTimeMin := MinuteOfDay(clock.value)) else s,
       FiredBy(rules, s.recs, clock, scope))
  }

  function Update(s: State, sender: Address, m: Report): State {
    s.(recs := s.recs[sender := Fold(s.recs[sender], m)])
  }

  // ---------------------------------------------------------------- in place

  class Engine {
    const g_node: array<NodeRec>
    var lastTimeMin: int

    function Contents(): State
      requires g_node.Length == 256
      reads this, g_node
    {
      State(g_node[..], lastTimeMin)
    }

    constructor (memory: array<NodeRec>)
      requires memory.Length == 256
      ensures g_node == memory && Contents() == State(memory[..], -1)
    {
      g_node := memory;
      lastTimeMin := -1;
    }

    method UpdateNode(sender: Address, m: Report) returns (known: bool)
      requires g_node.Length == 256
      modifies g_node
      ensures known == !m.Unknown? && Contents() == Update(old(Contents()), sender, m)
    {
      if m.Unknown? {
        assert g_node[..] == old(g_node[..])[sender := g_node[sender]];
        return false;
      }
      g_node[sender] := Fold(g_node[sender], m);
      return true;
    }

    method MatchesScope(rule: Rule, scope: Scope) returns (r: bool)
      ensures r == InScope(rule, scope)
    {
      var hasTime, hasData := false, false;
      for c := 0 to |rule.conds|
        invariant hasTime <==> exists k :: 0 <= k < c && rule.conds[k].TimeCond?
        invariant hasData <==> exists k :: 0 <= k < c && !rule.conds[k].TimeCond?
      {
        if rule.conds[c].TimeCond? {
          hasTime := true;
        } else {
          hasData := true;
        }
      }
      if scope.EvalTime? {
        return hasTime || |rule.conds| == 0;
      }
      return hasData;
    }

    method AllHold(rule: Rule, clock: Clock) returns (r: bool)
      requires g_node.Length == 256
      ensures r <==> forall c :: c in rule.conds ==> Holds(c, g_node[..], clock)
    {
      for c := 0 to |rule.conds|
        invariant forall k :: 0 <= k < c ==> Holds(rule.conds[k], g_node[..], clock)
      {
        var ok := false;
        match rule.conds[c] {
          case TimeCond(hS, mS, hE, mE) =>
            if clock.Some? {
              ok := WithinHours(hS, mS, hE, mE, clock.value.0, clock.value.1);
            }
          case ParamCond(a, p, op, lo, hi) =>
            if g_node[a].inUse {
              ok := Compare(op, lo, hi, Param(g_node[a], p));
            }
          case DeltaCond(a1, p1, a2, p2, op, lo, hi) =>
            if g_node[a1].inUse && g_node[a2].inUse {
              ok := Compare(op, lo, hi, Param(g_node[a1], p1) - Param(g_node[a2], p2));
            }
        }
        assert ok <==> Holds(rule.conds[c], g_node[..], clock);
        if !ok {
          return false;
        }
      }
      return true;
    }

    method EvaluateRules(rules: seq<Rule>, clock: Clock, scope: Scope) returns (fired: seq<Fired>)
      requires g_node.Length == 256
      modifies this
      ensures (Contents(), fired) == Evaluate(old(Contents()), rules, clock, scope)
    {
      hide Holds, InScope, AlreadySet;
      fired := [];
      if scope.EvalTime? && clock.Some? {
        var curMin := clock.value.0 * 60 + clock.value.1;
        if curMin == lastTimeMin {
          return;
        }
        lastTimeMin := curMin;
      }
      ghost var minute := lastTimeMin;
      for i := 0 to |rules|
        invariant lastTimeMin == minute
        invariant fired == FiredBy(rules[..i], g_node[..], clock, scope)
      {
        var rule := rules[i];
        assert rules[..i + 1][..i] == rules[..i];
        var inScope := MatchesScope(rule, scope);
        if !inScope {
          continue;
        }
        if rule.action.SetRelay? && AlreadySet(g_node[rule.action.addr], rule.action.value) {
          continue;
        }
        var met := AllHold(rule, clock);
        if !met {
          continue;
        }
        fired := fired + [Firing(i, rule, g_node[..])];
      }
      assert rules[..|rules|] == rules;
    }
  }
}
