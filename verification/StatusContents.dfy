// What the items of the status database hold after a run, told from the operations alone.
module StatusContents {
  import opened StatusItems
  import opened StatusDatabases
  import opened StatusRuns
  import opened StatusTraces

  const Cleared: AlarmState := AlarmState(ALARM_OK, ALARM_CAUSE_OK, "")

  /** How an item was declared. */
  datatype Declared = Declared(kind: Kind, typ: Type)

  /** The first creation under that name; later ones are refused. A health item is always an integer. */
  function Creation(ops: seq<Op>, n: string): Option<Declared> {
    if ops == [] then None
    else
      var before, op := Creation(ops[..|ops| - 1], n), ops[|ops| - 1];
      if before.Some? then before
      else if op.Create? && op.name == n then Some(Declared(op.kind, if op.kind == Healthy then INT else op.typ))
      else None
  }

  /** A value that a setter takes, for an item of that type. */
  predicate Fits(v: Value, typ: Type) {
    match v
    case Int(_) => typ == INT
    case Text(_) => typ == STRING
    case Double(_) => typ == DOUBLE
    case Float(_) => typ == FLOAT
    case _ => false
  }

  /** The value that an operation gives to the item of that name, if it is accepted. */
  function Given(op: Op, n: string, d: Declared): Option<Value> {
    match op
    case SetTo(name, v) => if name == n && Fits(v, d.typ) then Some(v) else None
    case Health(name, GOOD) => if name == n && d.kind == Healthy then Some(Int(0)) else None
    case Health(name, WARNING) => if name == n && d.kind == Healthy then Some(Int(1)) else None
    case Health(name, BAD) => if name == n && d.kind == Healthy then Some(Int(2)) else None
    case _ => None
  }

  function First(typ: Type): Value {
    match typ
    case BOOLEAN => Boolean(false)
    case INT => Int(0)
    case FLOAT => Float(0.0)
    case DOUBLE => Double(0.0)
    case STRING => Text(" ")
    case BYTE => Octet(0)
    case SHORT => Short(0)
  }

  /** The value given last, else the one that a new item has. */
  function LastValue(ops: seq<Op>, n: string): Value
    requires Creation(ops, n).Some?
  {
    var (rest, op, d) := (ops[..|ops| - 1], ops[|ops| - 1], Creation(ops, n).value);
    if Creation(rest, n).None? then First(d.typ)
    else if Given(op, n, d).Some? then Given(op, n, d).value
    else LastValue(rest, n)
  }

  /** The alarm that an operation gives to the item of that name, if it is accepted. */
  function Raised(op: Op, n: string, d: Declared): Option<AlarmState> {
    match op
    case RaiseAlarm(name, AlarmState(severity, cause, message)) =>
      if name != n || d.kind != Alarm || (cause == ALARM_CAUSE_OTHER && message == "") then None
      else if severity == ALARM_OK then Some(Cleared)
      else Some(AlarmState(severity, cause, message))
    case DropAlarm(name) =>
      if name == n && d.kind == Alarm then Some(Cleared) else None
    case _ => None
  }

  /** The alarm given last, else none. */
  function LastAlarm(ops: seq<Op>, n: string): AlarmState
    requires Creation(ops, n).Some?
  {
    var (rest, op, d) := (ops[..|ops| - 1], ops[|ops| - 1], Creation(ops, n).value);
    if Creation(rest, n).None? then Cleared
    else if Raised(op, n, d).Some? then Raised(op, n, d).value
    else LastAlarm(rest, n)
  }

  /** Some alarm operation has been accepted. */
  predicate Alarmed(ops: seq<Op>, n: string)
    requires Creation(ops, n).Some?
  {
    var rest, op := ops[..|ops| - 1], ops[|ops| - 1];
    Creation(rest, n).Some? && (Raised(op, n, Creation(ops, n).value).Some? || Alarmed(rest, n))
  }

  /** The operation gives something new: another value, or an alarm that is not the present one, or the first one. */
  predicate News(ops: seq<Op>, op: Op, n: string)
    requires Creation(ops, n).Some?
  {
    var d := Creation(ops, n).value;
    || (Given(op, n, d).Some? && Given(op, n, d).value != LastValue(ops, n))
    || (Raised(op, n, d).Some? && !(Alarmed(ops, n) && LastAlarm(ops, n) == if op.RaiseAlarm? then op.a else Cleared))
  }

  /** Something new has been given to the item since it was created or last posted. */
  predicate Dirty(ops: seq<Op>, n: string)
    requires Creation(ops, n).Some?
  {
    var rest, op := ops[..|ops| - 1], ops[|ops| - 1];
    Creation(rest, n).Some? ==> op != PostEverything && op != Post(n) && (News(rest, op, n) || Dirty(rest, n))
  }

  /** The item holds what the operations gave to its name last; exact tells whether its flag must be right, too. */
  ghost predicate Holds(it: Item, ops: seq<Op>, exact: bool) {
    && Creation(ops, it.name) == Some(Declared(it.kind, it.typ))
    && it.value == LastValue(ops, it.name) && it.alarm == LastAlarm(ops, it.name)
    && it.initialized == Alarmed(ops, it.name)
    && (exact ==> it.changed == Dirty(ops, it.name))
  }

  /** The items are those created, each with its contents. */
  ghost predicate Stored(items: seq<Item>, ops: seq<Op>, exact: bool) {
    && Unique(items)
    && (forall i :: 0 <= i < |items| && items[i].name != "" ==> Holds(items[i], ops, exact))
    && (forall n :: n != "" ==> (Creation(ops, n).Some? <==> Find(items, n) >= 0))
  }

  predicate IsSetter(op: Op) {
    op.SetTo? || op.Health? || op.RaiseAlarm? || op.DropAlarm?
  }

  lemma CreationSnoc(ops: seq<Op>, op: Op, n: string)
    ensures Creation(ops + [op], n) ==
      if Creation(ops, n).Some? then Creation(ops, n)
      else if op.Create? && op.name == n then Some(Declared(op.kind, if op.kind == Healthy then INT else op.typ))
      else None
  {
    assert (ops + [op])[..|ops|] == ops;
  }

  lemma LastSnocs(ops: seq<Op>, op: Op, n: string)
    requires Creation(ops, n).Some?
    ensures var d := Creation(ops, n).value;
      && Creation(ops + [op], n) == Some(d)
      && LastValue(ops + [op], n) == (if Given(op, n, d).Some? then Given(op, n, d).value else LastValue(ops, n))
      && LastAlarm(ops + [op], n) == (if Raised(op, n, d).Some? then Raised(op, n, d).value else LastAlarm(ops, n))
      && Alarmed(ops + [op], n) == (Raised(op, n, d).Some? || Alarmed(ops, n))
      && Dirty(ops + [op], n) == (op != PostEverything && op != Post(n) && (News(ops, op, n) || Dirty(ops, n)))
  {
    hide Given, Raised, News;
    CreationSnoc(ops, op, n);
    assert (ops + [op])[..|ops|] == ops;
  }

  lemma {:induction false} AlarmSettled(ops: seq<Op>, n: string)
    requires Creation(ops, n).Some?
    ensures LastAlarm(ops, n).severity == ALARM_OK ==> LastAlarm(ops, n) == Cleared
    decreases |ops|
  {
    var rest, d := ops[..|ops| - 1], Creation(ops, n).value;
    if Creation(rest, n).Some? && Raised(ops[|ops| - 1], n, d).None? {
      AlarmSettled(rest, n);
    }
  }

  /** An operation that gives nothing to an item leaves its contents as they are. */
  lemma HoldsOther(it: Item, it': Item, ops: seq<Op>, op: Op, exact: bool)
    requires Holds(it, ops, exact) && it' == it.(changed := it'.changed)
    requires Given(op, it.name, Declared(it.kind, it.typ)).None? && Raised(op, it.name, Declared(it.kind, it.typ)).None?
    requires exact ==> it'.changed == (op != PostEverything && op != Post(it.name) && it.changed)
    ensures Holds(it', ops + [op], exact)
  {
    hide Given, Raised, LastValue, LastAlarm, Alarmed, Dirty, Creation;
    LastSnocs(ops, op, it.name);
  }

  /** What a setter makes of an item. */
  lemma HoldsValue(it: Item, ops: seq<Op>, op: Op, v: Value, exact: bool)
    requires Holds(it, ops, exact) && IsSetter(op) && Raised(op, it.name, Declared(it.kind, it.typ)).None?
    requires Given(op, it.name, Declared(it.kind, it.typ)) == if it.typ == TypeOf(v) then Some(v) else None
    ensures Holds(WithValue(it, v), ops + [op], exact) && WithValue(it, v).name == it.name
  {
    hide Given, Raised, LastValue, LastAlarm, Alarmed, Dirty, Creation;
    LastSnocs(ops, op, it.name);
  }

  lemma HoldsAlarm(it: Item, ops: seq<Op>, op: Op, a: AlarmState, exact: bool)
    requires Holds(it, ops, exact) && IsSetter(op) && Given(op, it.name, Declared(it.kind, it.typ)).None?
    requires a == if op.RaiseAlarm? then op.a else NoAlarm
    requires Raised(op, it.name, Declared(it.kind, it.typ)) == if Explained(a) then Some(Settled(a)) else None
    ensures Holds(WithAlarm(it, a), ops + [op], exact) && WithAlarm(it, a).name == it.name
  {
    hide Given, Raised, LastValue, LastAlarm, Alarmed, Dirty, Creation;
    LastSnocs(ops, op, it.name);
    AlarmSettled(ops, it.name);
  }

  lemma HoldsNew(ops: seq<Op>, name: string, kind: Kind, typ: Type, exact: bool)
    requires Creation(ops, name).None?
    ensures Holds(NewItem(name, kind, if kind == Healthy then INT else typ), ops + [Create(name, kind, typ)], exact)
  {
    CreationSnoc(ops, Create(name, kind, typ), name);
    assert (ops + [Create(name, kind, typ)])[..|ops|] == ops;
  }

  /** The operation gives nothing to the item. */
  predicate Idle(op: Op, it: Item) {
    var d := Declared(it.kind, it.typ);
    Given(op, it.name, d).None? && Raised(op, it.name, d).None?
  }

  /** The same items, but for their flags. */
  ghost predicate SameContents(items: seq<Item>, items': seq<Item>) {
    |items'| == |items| && forall i :: 0 <= i < |items| ==> items'[i] == items[i].(changed := items'[i].changed)
  }

  lemma NamesSame(items: seq<Item>, items': seq<Item>, ops: seq<Op>, op: Op, exact: bool)
    requires Stored(items, ops, exact) && !op.Create?
    requires |items'| == |items| && forall i :: 0 <= i < |items| ==> items'[i].name == items[i].name
    ensures Unique(items')
    ensures forall n :: n != "" ==> (Creation(ops + [op], n).Some? <==> Find(items', n) >= 0)
  {
    hide Holds, Creation;
    forall n | n != "" ensures Creation(ops + [op], n).Some? <==> Find(items', n) >= 0 {
      CreationSnoc(ops, op, n);
      FindByNames(items, items', n);
    }
  }

  lemma StoredSame(items: seq<Item>, items': seq<Item>, ops: seq<Op>, op: Op, exact: bool)
    requires Stored(items, ops, exact) && !op.Create? && SameContents(items, items')
    requires forall i :: 0 <= i < |items| && items[i].name != "" ==> Idle(op, items[i])
    requires exact ==> forall i :: 0 <= i < |items| && items[i].name != "" ==>
      items'[i].changed == (op != PostEverything && op != Post(items[i].name) && items[i].changed)
    ensures Stored(items', ops + [op], exact)
  {
    hide Holds, Creation, Given, Raised, Unique, Find;
    NamesSame(items, items', ops, op, exact);
    forall i | 0 <= i < |items'| && items'[i].name != "" ensures Holds(items'[i], ops + [op], exact) {
      HoldsOther(items[i], items'[i], ops, op, exact);
    }
  }

  lemma StoredUpdate(items: seq<Item>, i: nat, it: Item, ops: seq<Op>, op: Op, exact: bool)
    requires Stored(items, ops, exact) && IsSetter(op) && i < |items| && items[i].name == it.name != ""
    requires Holds(it, ops + [op], exact)
    requires forall k :: 0 <= k < |items| && k != i && items[k].name != "" ==> Idle(op, items[k])
    ensures Stored(items[i := it], ops + [op], exact)
  {
    hide Holds, Creation, Given, Raised, Unique, Find;
    var items' := items[i := it];
    NamesSame(items, items', ops, op, exact);
    forall k | 0 <= k < |items'| && items'[k].name != "" ensures Holds(items'[k], ops + [op], exact) {
      if k != i {
        HoldsOther(items[k], items'[k], ops, op, exact);
      }
    }
  }

  lemma StoredCreate(items: seq<Item>, ops: seq<Op>, name: string, kind: Kind, typ: Type, exact: bool)
    requires Stored(items, ops, exact) && Find(items, name) < 0
    ensures var it := NewItem(name, kind, if kind == Healthy then INT else typ);
      Stored(items + [it], ops + [Create(name, kind, typ)], exact)
  {
    var it, op := NewItem(name, kind, if kind == Healthy then INT else typ), Create(name, kind, typ);
    var items' := items + [it];
    hide Holds, Creation;
    forall n | n != "" ensures Creation(ops + [op], n).Some? <==> Find(items', n) >= 0 {
      CreationSnoc(ops, op, n);
      FindAdd(items, it, n);
    }
    forall k | 0 <= k < |items'| && items'[k].name != "" ensures Holds(items'[k], ops + [op], exact) {
      if k < |items| {
        HoldsOther(items[k], items'[k], ops, op, exact);
      } else {
        HoldsNew(ops, name, kind, typ, exact);
      }
    }
  }

  lemma FindAdd(items: seq<Item>, it: Item, n: string)
    ensures Find(items + [it], n) >= 0 <==> Find(items, n) >= 0 || (it.name == n && n != "")
  {
    var items' := items + [it];
    if n != "" {
      assert Find(items, n) >= 0 ==> items'[Find(items, n)].name == n;
      assert items'[|items|] == it;
    }
  }

  /** A creation under a name that is taken. */
  lemma StoredRefused(items: seq<Item>, ops: seq<Op>, op: Op, exact: bool)
    requires Stored(items, ops, exact) && op.Create? && Find(items, op.name) >= 0
    ensures Stored(items, ops + [op], exact)
  {
    hide Holds, Creation;
    forall n | n != "" ensures Creation(ops + [op], n).Some? <==> Find(items, n) >= 0 {
      CreationSnoc(ops, op, n);
    }
    forall k | 0 <= k < |items| && items[k].name != "" ensures Holds(items[k], ops + [op], exact) {
      HoldsOther(items[k], items[k], ops, op, exact);
    }
  }

  lemma {:induction false} PostsKeepContents(w: World, i: nat)
    requires i <= |w.items|
    ensures SameContents(w.items, AfterPosts(w, i).items)
    ensures w.plan == [] ==> AfterPosts(w, i).plan == [] && forall k :: 0 <= k < |w.items| ==>
      AfterPosts(w, i).items[k].changed == (k < i && w.items[k].changed)
    decreases |w.items| - i
  {
    if i < |w.items| && !Throws(w, i) {
      PostsKeepContents(AfterPost(w, i), i + 1);
    }
  }

  lemma IdleOther(op: Op, it: Item)
    requires IsSetter(op) && op.name != it.name
    ensures Idle(op, it)
  {
  }

  /** Only the item that the operation names is given anything. */
  lemma OthersIdle(items: seq<Item>, i: int, op: Op)
    requires Unique(items) && -1 <= i < |items| && IsSetter(op)
    requires i == Find(items, op.name)
    ensures forall k :: 0 <= k < |items| && k != i && items[k].name != "" ==> Idle(op, items[k])
  {
    hide Idle, Unique;
    forall k | 0 <= k < |items| && k != i && items[k].name != "" ensures Idle(op, items[k]) {
      if items[k].name == op.name {
        FindUnique(items, k);
      }
      IdleOther(op, items[k]);
    }
  }

  lemma {:induction false} HealthyInt(ops: seq<Op>, n: string)
    ensures Creation(ops, n).Some? && Creation(ops, n).value.kind == Healthy ==> Creation(ops, n).value.typ == INT
    decreases |ops|
  {
    if ops != [] {
      HealthyInt(ops[..|ops| - 1], n);
    }
  }

  /** What a setter makes of the item that it is for. */
  function Changed(it: Item, op: Op): Item {
    match op
    case SetTo(_, v) => if HasSetter(v) then WithValue(it, v) else it
    case Health(_, health) => if it.kind == Healthy then WithValue(it, Int(Ordinal(health))) else it
    case RaiseAlarm(_, a) => if it.kind == Alarm then WithAlarm(it, a) else it
    case DropAlarm(_) => if it.kind == Alarm then WithAlarm(it, NoAlarm) else it
    case _ => it
  }

  lemma HoldsSet(it: Item, ops: seq<Op>, op: Op, exact: bool)
    requires Holds(it, ops, exact) && IsSetter(op) && op.name == it.name
    ensures Holds(Changed(it, op), ops + [op], exact) && Changed(it, op).name == it.name
  {
    hide Holds, WithValue, WithAlarm;
    HoldsHealthy(it, ops, exact);
    match op {
      case SetTo(_, v) =>
        if HasSetter(v) {
          HoldsValue(it, ops, op, v, exact);
        } else {
          HoldsOther(it, it, ops, op, exact);
        }
      case Health(_, health) =>
        if it.kind == Healthy {
          HoldsValue(it, ops, op, Int(Ordinal(health)), exact);
        } else {
          HoldsOther(it, it, ops, op, exact);
        }
      case RaiseAlarm(_, a) =>
        if it.kind == Alarm {
          HoldsAlarm(it, ops, op, a, exact);
        } else {
          HoldsOther(it, it, ops, op, exact);
        }
      case DropAlarm(_) =>
        if it.kind == Alarm {
          HoldsAlarm(it, ops, op, NoAlarm, exact);
        } else {
          HoldsOther(it, it, ops, op, exact);
        }
    }
  }

  lemma HoldsHealthy(it: Item, ops: seq<Op>, exact: bool)
    requires Holds(it, ops, exact)
    ensures it.kind == Healthy ==> it.typ == INT
  {
    HealthyInt(ops, it.name);
  }

  lemma ApplySet(w: World, op: Op)
    requires IsSetter(op)
    ensures var i := Find(w.items, op.name);
      Apply(w, op).items == if i < 0 then w.items else w.items[i := Changed(w.items[i], op)]
  {
    hide Find, WithValue, WithAlarm;
  }

  lemma StoredSet(w: World, ops: seq<Op>, op: Op, exact: bool)
    requires Stored(w.items, ops, exact) && IsSetter(op)
    ensures Stored(Apply(w, op).items, ops + [op], exact)
  {
    hide Holds, Creation, Given, Raised, Idle, Changed, Apply;
    var i := Find(w.items, op.name);
    OthersIdle(w.items, i, op);
    ApplySet(w, op);
    if i < 0 {
      StoredSame(w.items, w.items, ops, op, exact);
    } else {
      HoldsSet(w.items[i], ops, op, exact);
      StoredUpdate(w.items, i, Changed(w.items[i], op), ops, op, exact);
    }
  }

  lemma AllIdle(items: seq<Item>, op: Op)
    requires !IsSetter(op)
    ensures forall i :: 0 <= i < |items| ==> Idle(op, items[i])
  {
  }

  lemma PostedFlags(w: World, op: Op, ops: seq<Op>, exact: bool)
    requires op.Post? && Stored(w.items, ops, exact)
    ensures SameContents(w.items, Apply(w, op).items) && (w.plan == [] ==> Apply(w, op).plan == [])
    ensures forall i :: 0 <= i < |w.items| && w.items[i].name != "" ==>
      Apply(w, op).items[i].changed == (op != Post(w.items[i].name) && w.items[i].changed)
  {
    hide Holds, Creation;
  }

  lemma StoredOp(w: World, ops: seq<Op>, op: Op, exact: bool)
    requires Stored(w.items, ops, exact) && (exact ==> w.plan == [])
    ensures Stored(Apply(w, op).items, ops + [op], exact) && (exact ==> Apply(w, op).plan == [])
  {
    hide Stored, Holds, Creation, Given, Raised, AfterPosts, WithValue, WithAlarm, Unique, Find, Idle;
    match op {
      case Create(name, kind, typ) =>
        if Find(w.items, name) >= 0 {
          StoredRefused(w.items, ops, op, exact);
        } else {
          StoredCreate(w.items, ops, name, kind, typ, exact);
        }
      case SetTo(_, _) => StoredSet(w, ops, op, exact);
      case Health(_, _) => StoredSet(w, ops, op, exact);
      case RaiseAlarm(_, _) => StoredSet(w, ops, op, exact);
      case DropAlarm(_) => StoredSet(w, ops, op, exact);
      case Lookup(_) =>
        AllIdle(w.items, op);
        StoredSame(w.items, w.items, ops, op, exact);
      case Post(_) =>
        AllIdle(w.items, op);
        PostedFlags(w, op, ops, exact);
        StoredSame(w.items, Apply(w, op).items, ops, op, exact);
      case PostEverything =>
        AllIdle(w.items, op);
        PostsKeepContents(w, 0);
        StoredSame(w.items, Apply(w, op).items, ops, op, exact);
    }
  }

  lemma {:induction false} StoredRun(plan: seq<bool>, ops: seq<Op>, exact: bool)
    requires exact ==> plan == []
    ensures Stored(Run(World([], map[], plan), ops).items, ops, exact)
    ensures exact ==> Run(World([], map[], plan), ops).plan == []
    decreases |ops|
  {
    hide Stored, Apply, Run;
    if ops == [] {
      StoredStart(plan, exact);
    } else {
      var rest, op := ops[..|ops| - 1], ops[|ops| - 1];
      assert ops == rest + [op];
      StoredRun(plan, rest, exact);
      RunSnoc(World([], map[], plan), rest, op);
      StoredOp(Run(World([], map[], plan), rest), rest, op, exact);
    }
  }

  lemma StoredStart(plan: seq<bool>, exact: bool)
    ensures Stored(Run(World([], map[], plan), []).items, [], exact) && Run(World([], map[], plan), []).plan == plan
  {
  }

  /**
   * After any run, with any of the sends failing: there is one item for each name that was created, declared as it was
   * then, with the value and the alarm that were given to it last. If no send fails, the dirty items are those that
   * were given something new since they were created or last posted.
   */
  lemma ContentsRun(plan: seq<bool>, ops: seq<Op>, n: string)
    requires n != ""
    ensures var items := Run(World([], map[], plan), ops).items;
      && (Creation(ops, n).Some? <==> exists i :: 0 <= i < |items| && items[i].name == n)
      && forall i :: 0 <= i < |items| && items[i].name == n ==>
        && Creation(ops, n) == Some(Declared(items[i].kind, items[i].typ))
        && items[i].value == LastValue(ops, n) && items[i].alarm == LastAlarm(ops, n)
        && (plan == [] ==> items[i].changed == Dirty(ops, n))
        && forall j :: 0 <= j < |items| && items[j].name == n ==> j == i
  {
    hide Creation, LastValue, LastAlarm, Dirty, Run;
    StoredRun(plan, ops, plan == []);
    var items := Run(World([], map[], plan), ops).items;
    assert Find(items, n) >= 0 ==> items[Find(items, n)].name == n;
    forall i | 0 <= i < |items| && items[i].name == n ensures Holds(items[i], ops, plan == []) && Find(items, n) == i {
      FindUnique(items, i);
    }
  }

  lemma PostingGivesNothing(ops: seq<Op>, n: string)
    ensures Creation(ops + [PostEverything], n) == Creation(ops, n)
    ensures Creation(ops, n).Some? ==> LastValue(ops + [PostEverything], n) == LastValue(ops, n)
    ensures Creation(ops, n).Some? ==> LastAlarm(ops + [PostEverything], n) == LastAlarm(ops, n)
  {
    hide Creation, LastValue, LastAlarm;
    CreationSnoc(ops, PostEverything, n);
    if Creation(ops, n).Some? {
      LastSnocs(ops, PostEverything, n);
    }
  }

  /** The other side has exactly the named items of the run, with the value and the alarm given last. */
  ghost predicate Copied(remote: map<string, Content>, ops: seq<Op>) {
    forall n :: n != "" ==>
      && (n in remote <==> Creation(ops, n).Some?)
      && (n in remote ==> remote[n] == Content(LastValue(ops, n), LastAlarm(ops, n)))
  }

  /** After a run in which the sends arrive, and posting everything, the other side has exactly these contents. */
  lemma RemoteContents(ops: seq<Op>)
    ensures Copied(Run(World([], map[], []), ops + [PostEverything]).remote, ops)
  {
    hide Creation, LastValue, LastAlarm, Run;
    var all := ops + [PostEverything];
    var w := Run(World([], map[], []), all);
    RemoteExact(ops);
    forall n | n != ""
      ensures n in w.remote <==> Creation(ops, n).Some?
      ensures n in w.remote ==> w.remote[n] == Content(LastValue(ops, n), LastAlarm(ops, n))
    {
      ContentsRun([], all, n);
      PostingGivesNothing(ops, n);
      if Creation(ops, n).Some? {
        var i :| 0 <= i < |w.items| && w.items[i].name == n;
        assert Known(w, i);
      }
    }
  }

  /**
   * Whatever arrives and whatever does not: after posting everything without an exception the other side has these
   * contents of each named item that is not owed.
   */
  lemma DeliveredContents(plan: seq<bool>, ops: seq<Op>, n: string)
    requires n != "" && Creation(ops, n).Some? && !Interrupts(Run(World([], map[], plan), ops), 0)
    ensures var all := ops + [PostEverything];
      var w, t := Run(World([], map[], plan), all), Trace(World([], map[], plan), all);
      !Owed(t, n) ==> n in w.remote && w.remote[n] == Content(LastValue(ops, n), LastAlarm(ops, n))
  {
    hide Creation, LastValue, LastAlarm, Dirty, Run, Trace, Owed, LastDelivery, Interrupts;
    var all := ops + [PostEverything];
    var w := Run(World([], map[], plan), all);
    KnownAfterPosts(plan, ops);
    ContentsRun(plan, all, n);
    PostingGivesNothing(ops, n);
    var i :| 0 <= i < |w.items| && w.items[i].name == n;
    assert !Owed(Trace(World([], map[], plan), all), n) ==> Known(w, i);
  }
}
