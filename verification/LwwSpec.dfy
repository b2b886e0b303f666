// Last-write-wins state: what one stamped operation does to a replica's strings and sets.
//
// A replica is read through slots.  A string key is one slot; each element of a set key is
// another.  Every slot holds its winning fact, and every stamped operation is the join of
// one fact into one slot (ApplyIsJoin); the theorems in LwwConvergence.dfy use nothing else.
module LwwSpec {
  import opened Wrappers
  import opened Hlc

  datatype Stamp = Stamp(ts: HLCTimestamp, origin: nat) {
    predicate After(b: Stamp) {
      var c := ts.Compare(b.ts);
      if c != 0 then c > 0 else origin > b.origin
    }
  }

  const ZERO_STAMP := Stamp(ZERO_TIME, 0)

  // The element set CRDT: the newest add and the newest remove of each element.
  datatype Crdt = Crdt(adds: map<string, Stamp>, removes: map<string, Stamp>) {
    function Add(e: string, st: Stamp): Crdt {
      if e !in adds || st.After(adds[e]) then this.(adds := adds[e := st]) else this
    }

    function Remove(e: string, st: Stamp): Crdt {
      if e !in removes || st.After(removes[e]) then this.(removes := removes[e := st]) else this
    }

    predicate Contains(e: string) {
      e in adds && !(e in removes && removes[e].After(adds[e]))
    }

    function Members(): set<string> {
      set e | e in adds && Contains(e)
    }
  }

  const EMPTY_CRDT := Crdt(map[], map[])

  datatype Stored =
    | Text(value: string, stamp: Stamp)
    | Elements(crdt: Crdt)

  // `tombs` maps a deleted string key to the stamp of its delete.
  datatype State = State(data: map<string, Stored>, tombs: map<string, Stamp>)

  const EMPTY_STATE := State(map[], map[])

  datatype Op =
    | SetOp(key: string, value: string, stamp: Stamp)
    | DelOp(key: string, stamp: Stamp)
    | AddOp(key: string, elem: string, stamp: Stamp)
    | RemOp(key: string, elem: string, stamp: Stamp)

  // The stamp a stored value carries itself; a set carries the zero stamp.
  function OwnStamp(v: Stored): Stamp {
    match v
    case Text(_, st) => st
    case Elements(_) => ZERO_STAMP
  }

  // The guard shared by SetWithHLC and DeleteWithHLC.
  predicate Superseded(s: State, key: string, st: Stamp) {
    || (key in s.data && !st.After(OwnStamp(s.data[key])))
    || (key in s.tombs && !st.After(s.tombs[key]))
  }

  function CrdtAt(s: State, key: string): Crdt {
    if key in s.data && s.data[key].Elements? then s.data[key].crdt else EMPTY_CRDT
  }

  predicate WrongType(s: State, key: string) {
    key in s.data && !s.data[key].Elements?
  }

  function ApplySet(s: State, k: string, v: string, st: Stamp): State {
    if Superseded(s, k, st) then s else State(s.data[k := Text(v, st)], s.tombs - {k})
  }

  function ApplyDelete(s: State, k: string, st: Stamp): State {
    if Superseded(s, k, st) then s else State(s.data - {k}, s.tombs[k := st])
  }

  function PutCrdt(s: State, k: string, c: Crdt): State {
    s.(data := s.data[k := Elements(c)])
  }

  function Apply(s: State, op: Op): State {
    match op
    case SetOp(k, v, st) => ApplySet(s, k, v, st)
    case DelOp(k, st) => ApplyDelete(s, k, st)
    case AddOp(k, e, st) => if WrongType(s, k) then s else PutCrdt(s, k, CrdtAt(s, k).Add(e, st))
    case RemOp(k, e, st) => if WrongType(s, k) then s else PutCrdt(s, k, CrdtAt(s, k).Remove(e, st))
  }

  function Run(s: State, ops: seq<Op>): State
    decreases |ops|
  {
    if ops == [] then s else Run(Apply(s, ops[0]), ops[1..])
  }

  /* What clients see */

  function Get(s: State, key: string): Option<string> {
    if key in s.data && s.data[key].Text? then Some(s.data[key].value) else None
  }

  function MembersOf(s: State, key: string): set<string> {
    CrdtAt(s, key).Members()
  }

  /* Slots and facts */

  datatype Slot = StringSlot(key: string) | ElementSlot(key: string, elem: string)

  // `content` is None for a deleted key or a removed element.
  datatype Fact = Fact(stamp: Stamp, content: Option<string>)

  function Winner(s: State, slot: Slot): Option<Fact> {
    match slot
    case StringSlot(k) =>
      if k in s.data && s.data[k].Text? then Some(Fact(s.data[k].stamp, Some(s.data[k].value)))
      else if k in s.tombs then Some(Fact(s.tombs[k], None))
      else None
    case ElementSlot(k, e) =>
      ElementWinner(CrdtAt(s, k), e)
  }

  function ElementWinner(c: Crdt, e: string): Option<Fact> {
    if c.Contains(e) then Some(Fact(c.adds[e], Some("")))
    else if e in c.removes then Some(Fact(c.removes[e], None))
    else None
  }

  function SlotOf(op: Op): Slot {
    if op.SetOp? || op.DelOp? then StringSlot(op.key) else ElementSlot(op.key, op.elem)
  }

  function FactOf(op: Op): Fact {
    match op
    case SetOp(_, v, st) => Fact(st, Some(v))
    case AddOp(_, _, st) => Fact(st, Some(""))
    case DelOp(_, st) => Fact(st, None)
    case RemOp(_, _, st) => Fact(st, None)
  }

  // Newer wins; between an add and a remove of one element with one stamp, the add wins.
  predicate Beats(slot: Slot, f: Fact, g: Fact) {
    || f.stamp.After(g.stamp)
    || (slot.ElementSlot? && f.stamp == g.stamp && f.content.Some? && g.content.None?)
  }

  function Join(slot: Slot, held: Option<Fact>, f: Fact): Option<Fact> {
    if held.None? || Beats(slot, f, held.value) then Some(f) else held
  }

  // Each key is used with one type; isSet says which keys are sets.
  ghost predicate Typed(s: State, isSet: string -> bool) {
    && (forall k :: k in s.data ==> (s.data[k].Elements? <==> isSet(k)))
    && (forall k :: k in s.tombs ==> !isSet(k) && k !in s.data)
  }

  ghost predicate TypedOp(op: Op, isSet: string -> bool) {
    op.AddOp? || op.RemOp? <==> isSet(op.key)
  }

  ghost predicate TypedOps(ops: seq<Op>, isSet: string -> bool) {
    forall op :: op in ops ==> TypedOp(op, isSet)
  }

  // Keeping the two newest stamps of an element amounts to keeping its greatest event.
  lemma CrdtIsJoin(c: Crdt, e: string, st: Stamp, k: string)
    ensures ElementWinner(c.Add(e, st), e) == Join(ElementSlot(k, e), ElementWinner(c, e), Fact(st, Some("")))
    ensures ElementWinner(c.Remove(e, st), e) == Join(ElementSlot(k, e), ElementWinner(c, e), Fact(st, None))
  {
  }

  lemma ApplyKeepsTyped(s: State, op: Op, isSet: string -> bool)
    requires Typed(s, isSet) && TypedOp(op, isSet)
    ensures Typed(Apply(s, op), isSet)
  {
  }

  // One stamped operation joins its fact into its slot and touches no other slot.
  lemma ApplyIsJoin(s: State, op: Op, isSet: string -> bool, slot: Slot)
    requires Typed(s, isSet) && TypedOp(op, isSet)
    ensures Winner(Apply(s, op), slot) ==
              if slot == SlotOf(op) then Join(slot, Winner(s, slot), FactOf(op)) else Winner(s, slot)
  {
    if op.SetOp? || op.DelOp? {
    } else if slot.ElementSlot? && slot.key == op.key {
      CrdtIsJoin(CrdtAt(s, op.key), op.elem, op.stamp, op.key);
    }
  }

  // Stamps compare by physical time, then by counter, then by origin.
  lemma AfterIsLexicographic(x: Stamp, y: Stamp)
    ensures x.After(y) <==>
            || x.ts.physical > y.ts.physical
            || (x.ts.physical == y.ts.physical && x.ts.logical > y.ts.logical)
            || (x.ts == y.ts && x.origin > y.origin)
  {
  }

  // Of two writes at one time that of the higher origin is kept, whichever arrives first.
  lemma OriginBreaksTies(ts: HLCTimestamp, k: string, v: string, w: string, a: nat, b: nat)
    requires a < b
    ensures var older, newer := SetOp(k, v, Stamp(ts, a)), SetOp(k, w, Stamp(ts, b));
            && Get(Apply(Apply(EMPTY_STATE, older), newer), k) == Some(w)
            && Get(Apply(Apply(EMPTY_STATE, newer), older), k) == Some(w)
  {
  }

  // Keys used with both types: an element operation on a string changes nothing, and a string
  // operation replaces a whole set, whose own stamp is zero.
  lemma OtherTypeRule(s: State, op: Op)
    requires op.key in s.data && op.key !in s.tombs && (s.data[op.key].Text? <==> op.AddOp? || op.RemOp?)
    ensures var t := Apply(s, op);
            if op.AddOp? || op.RemOp? || !op.stamp.After(ZERO_STAMP) then t == s
            else MembersOf(t, op.key) == {} && Get(t, op.key) == FactOf(op).content
  {
  }
}
