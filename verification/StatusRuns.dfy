// Runs of the status database: what sending only dirty items guarantees, and what it does not.
module StatusRuns {
  import opened StatusItems
  import opened StatusDatabases

  datatype Op =
    | Create(name: string, kind: Kind, typ: Type)
    | SetTo(name: string, v: Value)
    | Health(name: string, health: Health)
    | RaiseAlarm(name: string, a: AlarmState)
    | DropAlarm(name: string)
    | Lookup(name: string)
    | Post(name: string)
    | PostEverything

  function Apply(w: World, op: Op): World {
    match op
    case Create(name, kind, typ) =>
      if Find(w.items, name) >= 0 then w
      else w.(items := w.items + [NewItem(name, kind, if kind == Healthy then INT else typ)])
    case SetTo(name, v) => if HasSetter(v) then w.(items := AfterValue(w.items, name, v)) else w
    case Health(name, health) => w.(items := AfterHealth(w.items, name, health))
    case RaiseAlarm(name, a) => w.(items := AfterAlarm(w.items, name, a))
    case DropAlarm(name) => w.(items := AfterAlarm(w.items, name, NoAlarm))
    case Lookup(_) => w
    case Post(name) => if Find(w.items, name) >= 0 then AfterPost(w, Find(w.items, name)) else w
    case PostEverything => AfterPosts(w, 0)
  }

  function Run(w: World, ops: seq<Op>): World
    decreases |ops|
  {
    if ops == [] then w else Run(Apply(w, ops[0]), ops[1..])
  }

  /** One operation of the database or of a sender. */
  method Perform(db: StatusDatabase, sender: Sender, op: Op)
    requires db.Valid()
    modifies db, db.statusItemList, sender
    ensures db.Valid() && WorldOf(db, sender) == Apply(old(WorldOf(db, sender)), op)
    ensures forall k :: 0 <= k < |db.statusItemList| ==>
      db.statusItemList[k] in old(db.statusItemList) || fresh(db.statusItemList[k])
  {
    hide StatusDatabase.Valid, Views, Find, AfterValue, AfterHealth, AfterAlarm, AfterPost, AfterPosts;
    match op {
      case Create(name, kind, typ) => var _ := db.CreateItem(name, kind, if kind == Healthy then INT else typ);
      case SetTo(name, v) => if HasSetter(v) { var _ := db.SetStatusValue(name, v); }
      case Health(name, health) => var _ := db.SetHealth(name, health);
      case RaiseAlarm(name, a) => var _ := db.SetAlarm(name, a.severity, a.cause, a.message);
      case DropAlarm(name) => var _ := db.ClearAlarm(name);
      case Lookup(name) => var _, _ := db.GetStatusItem(name);
      case Post(name) => var _ := PostStatus(db, sender, name);
      case PostEverything => var _ := PostAll(db, sender);
    }
  }

  method PerformAll(db: StatusDatabase, sender: Sender, ops: seq<Op>)
    requires db.Valid()
    modifies db, db.statusItemList, sender
    ensures db.Valid() && WorldOf(db, sender) == Run(old(WorldOf(db, sender)), ops)
  {
    hide Apply;
    assert ops[0..] == ops;
    for i := 0 to |ops|
      invariant db.Valid()
      invariant forall k :: 0 <= k < |db.statusItemList| ==>
        db.statusItemList[k] in old(db.statusItemList) || fresh(db.statusItemList[k])
      invariant Run(WorldOf(db, sender), ops[i..]) == Run(old(WorldOf(db, sender)), ops)
    {
      assert ops[i..][1..] == ops[i + 1..];
      Perform(db, sender, ops[i]);
    }
  }

  ghost predicate AllSound(items: seq<Item>) {
    forall i :: 0 <= i < |items| ==> Sound(items[i])
  }

  /** The other side has the present content of every clean item that has a name. */
  ghost predicate UpToDate(w: World) {
    forall i :: 0 <= i < |w.items| && !w.items[i].changed ==> Known(w, i)
  }

  predicate Known(w: World, i: nat)
    requires i < |w.items|
  {
    var it := w.items[i];
    it.name != "" ==> it.name in w.remote && w.remote[it.name] == ContentOf(it)
  }

  /** The other side has nothing that the database does not have. */
  ghost predicate NothingElse(w: World) {
    forall n :: n in w.remote && n != "" ==> Find(w.items, n) >= 0
  }

  ghost predicate Good(w: World) {
    Unique(w.items) && AllSound(w.items) && UpToDate(w) && NothingElse(w)
  }

  /** Every send arrives. */
  ghost predicate Reliable(w: World) {
    forall i :: 0 <= i < |w.plan| ==> w.plan[i]
  }

  lemma SoundSteps(it: Item, v: Value, a: AlarmState)
    requires Sound(it)
    ensures Sound(WithValue(it, v)) && WithValue(it, v).name == it.name
    ensures WithValue(it, v) == it || WithValue(it, v).changed
    ensures Sound(WithAlarm(it, a)) && WithAlarm(it, a).name == it.name
    ensures WithAlarm(it, a) == it || WithAlarm(it, a).changed
  {
  }

  lemma FindByNames(items: seq<Item>, others: seq<Item>, name: string)
    requires |items| == |others| && forall k :: 0 <= k < |items| ==> items[k].name == others[k].name
    ensures Find(items, name) == Find(others, name)
  {
  }

  /** Setting an item keeps everything: it stays as it was, or it gets dirty. */
  lemma GoodUpdate(w: World, i: nat, it: Item)
    requires Good(w) && i < |w.items| && Sound(it) && it.name == w.items[i].name && (it == w.items[i] || it.changed)
    ensures Good(w.(items := w.items[i := it]))
  {
    var w' := w.(items := w.items[i := it]);
    forall n | n in w.remote && n != "" ensures Find(w'.items, n) >= 0 {
      FindByNames(w.items, w'.items, n);
    }
    forall k | 0 <= k < |w'.items| && !w'.items[k].changed ensures Known(w', k) {
      assert Known(w, k);
    }
  }

  lemma GoodCreate(w: World, name: string, kind: Kind, typ: Type)
    requires Good(w) && Find(w.items, name) < 0 && (kind == Healthy ==> typ == INT)
    ensures Good(w.(items := w.items + [NewItem(name, kind, typ)]))
  {
    var w' := w.(items := w.items + [NewItem(name, kind, typ)]);
    forall k | 0 <= k < |w'.items| && !w'.items[k].changed ensures Known(w', k) {
      assert Known(w, k);
    }
    forall n | n in w.remote && n != "" ensures Find(w'.items, n) >= 0 {
      var j := Find(w.items, n);
      assert w'.items[j].name == n;
    }
  }

  /** A send that arrives keeps everything. */
  lemma GoodPost(w: World, i: nat)
    requires Good(w) && i < |w.items| && !Throws(w, i)
    ensures Good(AfterPost(w, i))
    ensures !AfterPost(w, i).items[i].changed
  {
    var w' := AfterPost(w, i);
    forall k | 0 <= k < |w'.items| && !w'.items[k].changed ensures Known(w', k) {
      assert k != i ==> Known(w, k);
    }
    forall n | n in w'.remote && n != "" ensures Find(w'.items, n) >= 0 {
      FindByNames(w.items, w'.items, n);
      if n == w.items[i].name {
        FindUnique(w.items, i);
      }
    }
  }

  /**
   * A send that fails loses the update, unless the other side happens to have the content already; it has
   * no influence on any other item. StatusTraces says what that means for a run.
   */
  lemma LostUpdate(w: World, i: nat)
    requires Good(w) && i < |w.items| && Throws(w, i)
    ensures Good(AfterPost(w, i)) <==> Known(w, i)
    ensures forall k :: 0 <= k < |w.items| && k != i ==>
      AfterPost(w, i).items[k] == w.items[k] && (Known(AfterPost(w, i), k) <==> Known(w, k))
  {
    var w' := AfterPost(w, i);
    assert Known(w', i) <==> Known(w, i);
    if Known(w, i) {
      forall k | 0 <= k < |w'.items| && !w'.items[k].changed ensures Known(w', k) {
        assert k != i ==> Known(w, k);
      }
      forall n | n in w'.remote && n != "" ensures Find(w'.items, n) >= 0 {
        FindByNames(w.items, w'.items, n);
      }
    }
  }

  /** Posting everything leaves nothing dirty, changes no content, and brings the other side up to date. */
  lemma {:induction false} PostsAll(w: World, i: nat)
    requires Good(w) && Reliable(w) && i <= |w.items|
    ensures var w' := AfterPosts(w, i);
      && Good(w') && Reliable(w') && |w'.items| == |w.items| && !Interrupts(w, i)
      && (forall k :: 0 <= k < |w.items| ==> w'.items[k] == w.items[k].(changed := k < i && w.items[k].changed))
    decreases |w.items| - i
  {
    if i < |w.items| {
      GoodPost(w, i);
      PostsAll(AfterPost(w, i), i + 1);
    }
  }

  lemma GoodApply(w: World, op: Op)
    requires Good(w) && Reliable(w)
    ensures Good(Apply(w, op)) && Reliable(Apply(w, op))
  {
    hide Good, AfterPosts, WithValue, WithAlarm, Sound;
    GoodItems(w);
    match op {
      case Create(name, kind, typ) =>
        if Find(w.items, name) < 0 {
          GoodCreate(w, name, kind, if kind == Healthy then INT else typ);
        }
      case SetTo(name, v) =>
        var i := Find(w.items, name);
        if i >= 0 {
          SoundSteps(w.items[i], v, NoAlarm);
          GoodUpdate(w, i, WithValue(w.items[i], v));
        }
      case Health(name, health) =>
        var i := Find(w.items, name);
        if i >= 0 {
          SoundSteps(w.items[i], Int(Ordinal(health)), NoAlarm);
          GoodUpdate(w, i, WithValue(w.items[i], Int(Ordinal(health))));
        }
      case RaiseAlarm(name, a) =>
        var i := Find(w.items, name);
        if i >= 0 {
          SoundSteps(w.items[i], Int(0), a);
          GoodUpdate(w, i, WithAlarm(w.items[i], a));
        }
      case DropAlarm(name) =>
        var i := Find(w.items, name);
        if i >= 0 {
          SoundSteps(w.items[i], Int(0), NoAlarm);
          GoodUpdate(w, i, WithAlarm(w.items[i], NoAlarm));
        }
      case Lookup(_) =>
      case Post(name) =>
        var i := Find(w.items, name);
        if i >= 0 {
          GoodPost(w, i);
        }
      case PostEverything => PostsAll(w, 0);
    }
  }

  lemma GoodItems(w: World)
    requires Good(w)
    ensures forall i :: 0 <= i < |w.items| ==> Sound(w.items[i])
  {
  }

  /** For every run in which the sends arrive: types, alarms and names are right, and clean items are known remotely. */
  lemma {:induction false} GoodRun(w: World, ops: seq<Op>)
    requires Good(w) && Reliable(w)
    ensures Good(Run(w, ops)) && Reliable(Run(w, ops))
    decreases |ops|
  {
    hide Good, Reliable, Apply;
    if ops != [] {
      GoodApply(w, ops[0]);
      GoodRun(Apply(w, ops[0]), ops[1..]);
    }
  }

  /** So after any such run, posting what is dirty makes the remote copy exact, for all items with a name. */
  lemma RemoteExact(ops: seq<Op>)
    ensures var w := Run(World([], map[], []), ops + [PostEverything]);
      && (forall i :: 0 <= i < |w.items| ==> Known(w, i))
      && (forall n :: n in w.remote && n != "" ==> Find(w.items, n) >= 0)
  {
    var w0, w1 := World([], map[], []), Run(World([], map[], []), ops);
    GoodRun(w0, ops);
    RunSnoc(w0, ops, PostEverything);
    PostsAll(w1, 0);
    var w := AfterPosts(w1, 0);
    assert forall i :: 0 <= i < |w.items| ==> !w.items[i].changed;
  }

  lemma {:induction false} RunSnoc(w: World, ops: seq<Op>, op: Op)
    ensures Run(w, ops + [op]) == Apply(Run(w, ops), op)
    decreases |ops|
  {
    hide Apply;
    if ops == [] {
      assert ops + [op] == [op] && [op][1..] == [];
    } else {
      assert (ops + [op])[0] == ops[0] && (ops + [op])[1..] == ops[1..] + [op];
      RunSnoc(Apply(w, ops[0]), ops[1..], op);
    }
  }

  // Names.

  ghost predicate DistinctNames(items: seq<Item>) {
    forall i, j :: 0 <= i < j < |items| ==> items[i].name != items[j].name
  }

  function Nameless(items: seq<Item>): nat {
    if items == [] then 0 else (if items[0].name == "" then 1 else 0) + Nameless(items[1..])
  }

  /** The creations without a name in a run; each of them succeeds. */
  function NamelessCreations(ops: seq<Op>): nat {
    if ops == [] then 0 else (if ops[0].Create? && ops[0].name == "" then 1 else 0) + NamelessCreations(ops[1..])
  }

  lemma {:induction false} NamelessSame(items: seq<Item>, others: seq<Item>)
    requires |items| == |others| && forall k :: 0 <= k < |items| ==> items[k].name == others[k].name
    ensures Nameless(items) == Nameless(others)
  {
    if items != [] {
      NamelessSame(items[1..], others[1..]);
    }
  }

  lemma {:induction false} NamelessSnoc(items: seq<Item>, it: Item)
    ensures Nameless(items + [it]) == Nameless(items) + if it.name == "" then 1 else 0
  {
    if items != [] {
      assert (items + [it])[1..] == items[1..] + [it];
      NamelessSnoc(items[1..], it);
    } else {
      assert items + [it] == [it] && [it][1..] == [];
    }
  }

  lemma {:induction false} PostsKeepNames(w: World, i: nat)
    requires i <= |w.items|
    ensures var w' := AfterPosts(w, i);
      |w'.items| == |w.items| && forall k :: 0 <= k < |w.items| ==> w'.items[k].name == w.items[k].name
    decreases |w.items| - i
  {
    if i < |w.items| && !Throws(w, i) {
      PostsKeepNames(AfterPost(w, i), i + 1);
    }
  }

  /** Only creations add items, and none changes its name. */
  lemma NamesKept(w: World, op: Op)
    ensures Nameless(Apply(w, op).items) == Nameless(w.items) + if op.Create? && op.name == "" then 1 else 0
    ensures Unique(w.items) ==> Unique(Apply(w, op).items)
  {
    var items' := Apply(w, op).items;
    if op.Create? {
      if Find(w.items, op.name) < 0 {
        NamelessSnoc(w.items, items'[|w.items|]);
      }
    } else {
      PostsKeepNames(w, 0);
      NamelessSame(w.items, items');
    }
  }

  lemma {:induction false} NamelessRun(w: World, ops: seq<Op>)
    requires Unique(w.items)
    ensures Nameless(Run(w, ops).items) == Nameless(w.items) + NamelessCreations(ops) && Unique(Run(w, ops).items)
    decreases |ops|
  {
    hide Apply, Unique;
    if ops != [] {
      NamesKept(w, ops[0]);
      NamelessRun(Apply(w, ops[0]), ops[1..]);
    }
  }

  lemma {:induction false} NamelessTwo(items: seq<Item>)
    ensures Nameless(items) >= 1 <==> exists i :: 0 <= i < |items| && items[i].name == ""
    ensures Nameless(items) >= 2 <==> exists i, j :: 0 <= i < j < |items| && items[i].name == "" == items[j].name
  {
    if items != [] {
      var rest := items[1..];
      NamelessTwo(rest);
      assert forall k :: 0 <= k < |rest| ==> rest[k] == items[k + 1];
      if Nameless(rest) >= 2 {
        var i, j :| 0 <= i < j < |rest| && rest[i].name == "" == rest[j].name;
        assert items[i + 1].name == "" == items[j + 1].name;
      }
      if Nameless(rest) >= 1 {
        var j :| 0 <= j < |rest| && rest[j].name == "";
        assert items[j + 1].name == "";
      }
      if i, j :| 0 <= i < j < |items| && items[i].name == "" == items[j].name {
        assert rest[j - 1].name == "" && (i > 0 ==> rest[i - 1].name == "");
      }
      if i :| 0 < i < |items| && items[i].name == "" {
        assert rest[i - 1].name == "";
      }
    }
  }

  /** Names are unique after every run, except that an item without a name can be created again and again. */
  lemma NamesUnique(ops: seq<Op>)
    ensures DistinctNames(Run(World([], map[], []), ops).items) <==> NamelessCreations(ops) <= 1
  {
    var items := Run(World([], map[], []), ops).items;
    NamelessRun(World([], map[], []), ops);
    NamelessTwo(items);
    assert Unique(items);
    if i, j :| 0 <= i < j < |items| && items[i].name == items[j].name {
      assert items[i].name == "" == items[j].name;
    }
  }
}
