// Runs in which sends may fail: what the other side knows, told from the events of the run.
module StatusTraces {
  import opened StatusItems
  import opened StatusDatabases
  import opened StatusRuns

  datatype Option<T> = None | Some(value: T)

  /** What can happen to an item: it gets dirty, a post of it arrives, or a post of it ends in an exception. */
  datatype Event =
    | Dirtied(name: string)
    | Delivered(name: string, content: Content)
    | Threw(name: string)

  /** A setter that does anything makes the item dirty. */
  function SetEvents(it: Item, it': Item): seq<Event> {
    if it' == it then [] else [Dirtied(it.name)]
  }

  function PostEvents(w: World, i: nat): seq<Event>
    requires i < |w.items|
  {
    var it := w.items[i];
    if !it.changed then [] else if Delivers(w.plan) then [Delivered(it.name, ContentOf(it))] else [Threw(it.name)]
  }

  function PostsEvents(w: World, i: nat): seq<Event>
    requires i <= |w.items|
    decreases |w.items| - i
  {
    if i == |w.items| then []
    else if Throws(w, i) then PostEvents(w, i)
    else PostEvents(w, i) + PostsEvents(AfterPost(w, i), i + 1)
  }

  function OpEvents(w: World, op: Op): seq<Event> {
    match op
    case Create(name, _, _) => if Find(w.items, name) >= 0 then [] else [Dirtied(name)]
    case SetTo(name, _) => ItemEvents(w, Apply(w, op), Find(w.items, name))
    case Health(name, _) => ItemEvents(w, Apply(w, op), Find(w.items, name))
    case RaiseAlarm(name, _) => ItemEvents(w, Apply(w, op), Find(w.items, name))
    case DropAlarm(name) => ItemEvents(w, Apply(w, op), Find(w.items, name))
    case Lookup(_) => []
    case Post(name) => if Find(w.items, name) >= 0 then PostEvents(w, Find(w.items, name)) else []
    case PostEverything => PostsEvents(w, 0)
  }

  function ItemEvents(w: World, w': World, i: int): seq<Event>
    requires i < |w.items| == |w'.items|
  {
    if i < 0 then [] else SetEvents(w.items[i], w'.items[i])
  }

  /** The events of a run. */
  function Trace(w: World, ops: seq<Op>): seq<Event>
    decreases |ops|
  {
    if ops == [] then [] else OpEvents(w, ops[0]) + Trace(Apply(w, ops[0]), ops[1..])
  }

  /** The last thing that happened to the item of that name. */
  function Last(t: seq<Event>, name: string): Option<Event> {
    if t == [] then None
    else if t[|t| - 1].name == name then Some(t[|t| - 1])
    else Last(t[..|t| - 1], name)
  }

  /** What was delivered last for that name. */
  function LastDelivery(t: seq<Event>, name: string): Option<Content> {
    if t == [] then None
    else if t[|t| - 1].Delivered? && t[|t| - 1].name == name then Some(t[|t| - 1].content)
    else LastDelivery(t[..|t| - 1], name)
  }

  /** An update is owed: the last post of the item threw, and nothing has made it dirty since. */
  predicate Owed(t: seq<Event>, name: string) {
    Last(t, name).Some? && Last(t, name).value.Threw?
  }

  lemma LastSnoc(t: seq<Event>, e: Event, n: string)
    ensures Last(t + [e], n) == if e.name == n then Some(e) else Last(t, n)
    ensures LastDelivery(t + [e], n) == if e.Delivered? && e.name == n then Some(e.content) else LastDelivery(t, n)
  {
    assert (t + [e])[..|t|] == t;
  }

  lemma {:induction false} DeliveredLast(t: seq<Event>, n: string)
    requires Last(t, n).Some? && Last(t, n).value.Delivered?
    ensures LastDelivery(t, n) == Some(Last(t, n).value.content)
  {
    if t[|t| - 1].name != n {
      DeliveredLast(t[..|t| - 1], n);
    }
  }

  /** What the events say of an item. */
  ghost predicate Told(it: Item, t: seq<Event>) {
    it.name != "" ==>
      && Last(t, it.name).Some?
      && if it.changed then Last(t, it.name).value.Dirtied?
         else Last(t, it.name).value == Delivered(it.name, ContentOf(it)) || Last(t, it.name).value.Threw?
  }

  /** What the events say of the world; every delivery is for an item of the database. */
  ghost predicate Follows(w: World, t: seq<Event>) {
    && Unique(w.items) && AllSound(w.items)
    && (forall i :: 0 <= i < |w.items| ==> Told(w.items[i], t))
    && (forall n :: n != "" ==> LastDelivery(t, n) == if n in w.remote then Some(w.remote[n]) else None)
    && NothingElse(w)
  }

  /** An item is made dirty by a setter, or stays as it was. */
  lemma FollowsSet(w: World, t: seq<Event>, i: nat, it: Item)
    requires Follows(w, t) && i < |w.items| && Sound(it) && it.name == w.items[i].name
    requires (it == w.items[i] || it.changed)
    ensures Follows(w.(items := w.items[i := it]), t + SetEvents(w.items[i], it))
  {
    hide Find, Sound, Last, LastDelivery;
    var w', t' := w.(items := w.items[i := it]), t + SetEvents(w.items[i], it);
    if it == w.items[i] {
      assert t' == t && w'.items == w.items;
    } else {
      forall n
        ensures Last(t', n) == if n == it.name then Some(Dirtied(n)) else Last(t, n)
        ensures LastDelivery(t', n) == LastDelivery(t, n)
      {
        LastSnoc(t, Dirtied(it.name), n);
      }
      forall k | 0 <= k < |w'.items| ensures Told(w'.items[k], t') {
        assert Told(w.items[k], t);
      }
      NothingElseSame(w, w');
    }
  }

  lemma NothingElseSame(w: World, w': World)
    requires NothingElse(w) && w'.remote == w.remote && |w'.items| == |w.items|
    requires forall k :: 0 <= k < |w.items| ==> w'.items[k].name == w.items[k].name
    ensures NothingElse(w')
  {
    forall n | n in w'.remote && n != "" ensures Find(w'.items, n) >= 0 {
      FindByNames(w.items, w'.items, n);
    }
  }

  lemma FollowsCreate(w: World, t: seq<Event>, name: string, kind: Kind, typ: Type)
    requires Follows(w, t) && Find(w.items, name) < 0 && (kind == Healthy ==> typ == INT)
    ensures Follows(w.(items := w.items + [NewItem(name, kind, typ)]), t + [Dirtied(name)])
  {
    hide Last, LastDelivery;
    var w', t' := w.(items := w.items + [NewItem(name, kind, typ)]), t + [Dirtied(name)];
    forall n
      ensures Last(t', n) == if n == name then Some(Dirtied(n)) else Last(t, n)
      ensures LastDelivery(t', n) == LastDelivery(t, n)
    {
      LastSnoc(t, Dirtied(name), n);
    }
    forall k | 0 <= k < |w'.items| ensures Told(w'.items[k], t') {
      assert k < |w.items| ==> Told(w.items[k], t);
    }
    forall n | n in w'.remote && n != "" ensures Find(w'.items, n) >= 0 {
      var j := Find(w.items, n);
      assert w'.items[j].name == n;
    }
  }

  /** A post, whether it arrives or throws. */
  lemma FollowsPost(w: World, t: seq<Event>, i: nat)
    requires Follows(w, t) && i < |w.items|
    ensures Follows(AfterPost(w, i), t + PostEvents(w, i)) && !AfterPost(w, i).items[i].changed
    ensures |AfterPost(w, i).items| == |w.items|
    ensures forall k :: 0 <= k < |w.items| && k != i ==> AfterPost(w, i).items[k] == w.items[k]
  {
    hide Last, LastDelivery, AllSound, NothingElse;
    var it, w', t' := w.items[i], AfterPost(w, i), t + PostEvents(w, i);
    if !it.changed {
      assert t' == t;
    } else {
      var e := PostEvents(w, i)[0];
      assert t' == t + [e] && e.name == it.name;
      forall n
        ensures Last(t', n) == if n == it.name then Some(e) else Last(t, n)
        ensures LastDelivery(t', n) == if e.Delivered? && n == it.name then Some(e.content) else LastDelivery(t, n)
      {
        LastSnoc(t, e, n);
      }
      forall k | 0 <= k < |w'.items| ensures Told(w'.items[k], t') {
        assert Told(w.items[k], t);
      }
      PostShape(w, i);
    }
  }

  lemma PostShape(w: World, i: nat)
    requires Unique(w.items) && AllSound(w.items) && NothingElse(w) && i < |w.items|
    ensures var w' := AfterPost(w, i); Unique(w'.items) && AllSound(w'.items) && NothingElse(w')
  {
    var w' := AfterPost(w, i);
    forall n | n in w'.remote && n != "" ensures Find(w'.items, n) >= 0 {
      FindByNames(w.items, w'.items, n);
      if n == w.items[i].name {
        FindUnique(w.items, i);
      }
    }
  }

  lemma {:induction false} FollowsPosts(w: World, t: seq<Event>, i: nat)
    requires Follows(w, t) && i <= |w.items|
    ensures Follows(AfterPosts(w, i), t + PostsEvents(w, i)) && |AfterPosts(w, i).items| == |w.items|
    ensures forall k :: 0 <= k < i ==> AfterPosts(w, i).items[k] == w.items[k]
    ensures !Interrupts(w, i) ==> forall k :: i <= k < |w.items| ==> !AfterPosts(w, i).items[k].changed
    decreases |w.items| - i
  {
    hide Follows;
    if i == |w.items| {
      assert t + [] == t;
    } else {
      FollowsPost(w, t, i);
      if !Throws(w, i) {
        FollowsPosts(AfterPost(w, i), t + PostEvents(w, i), i + 1);
        assert (t + PostEvents(w, i)) + PostsEvents(AfterPost(w, i), i + 1)
          == t + (PostEvents(w, i) + PostsEvents(AfterPost(w, i), i + 1));
      }
    }
  }

  lemma FollowsOp(w: World, t: seq<Event>, op: Op)
    requires Follows(w, t)
    ensures Follows(Apply(w, op), t + OpEvents(w, op))
  {
    hide Follows, AfterPosts, WithValue, WithAlarm, Sound;
    assert t + [] == t;
    SoundAll(w, t);
    match op {
      case Create(name, kind, typ) =>
        if Find(w.items, name) < 0 {
          FollowsCreate(w, t, name, kind, if kind == Healthy then INT else typ);
        }
      case SetTo(name, v) =>
        var i := Find(w.items, name);
        if i >= 0 {
          SoundSteps(w.items[i], v, NoAlarm);
          FollowsSet(w, t, i, Apply(w, op).items[i]);
        }
      case Health(name, health) =>
        var i := Find(w.items, name);
        if i >= 0 {
          SoundSteps(w.items[i], Int(Ordinal(health)), NoAlarm);
          FollowsSet(w, t, i, Apply(w, op).items[i]);
        }
      case RaiseAlarm(name, a) =>
        var i := Find(w.items, name);
        if i >= 0 {
          SoundSteps(w.items[i], Int(0), a);
          FollowsSet(w, t, i, Apply(w, op).items[i]);
        }
      case DropAlarm(name) =>
        var i := Find(w.items, name);
        if i >= 0 {
          SoundSteps(w.items[i], Int(0), NoAlarm);
          FollowsSet(w, t, i, Apply(w, op).items[i]);
        }
      case Lookup(_) =>
      case Post(name) =>
        var i := Find(w.items, name);
        if i >= 0 {
          FollowsPost(w, t, i);
        }
      case PostEverything => FollowsPosts(w, t, 0);
    }
  }

  lemma SoundAll(w: World, t: seq<Event>)
    requires Follows(w, t)
    ensures forall i :: 0 <= i < |w.items| ==> Sound(w.items[i])
  {
  }

  /** Whatever arrives and whatever does not: the events tell what the other side knows. */
  lemma {:induction false} FollowsRun(w: World, t: seq<Event>, ops: seq<Op>)
    requires Follows(w, t)
    ensures Follows(Run(w, ops), t + Trace(w, ops))
    decreases |ops|
  {
    hide Follows, Apply, OpEvents;
    if ops == [] {
      assert t + [] == t;
    } else {
      FollowsOp(w, t, ops[0]);
      FollowsRun(Apply(w, ops[0]), t + OpEvents(w, ops[0]), ops[1..]);
      assert (t + OpEvents(w, ops[0])) + Trace(Apply(w, ops[0]), ops[1..])
        == t + (OpEvents(w, ops[0]) + Trace(Apply(w, ops[0]), ops[1..]));
    }
  }

  /** When nothing is dirty, the events tell of each item whether the other side has its content. */
  lemma KnownWhenClean(w: World, t: seq<Event>, i: nat)
    requires Follows(w, t) && i < |w.items| && !w.items[i].changed && w.items[i].name != ""
    ensures !Owed(t, w.items[i].name) ==> Known(w, i)
    ensures Owed(t, w.items[i].name) ==>
      (Known(w, i) <==> LastDelivery(t, w.items[i].name) == Some(ContentOf(w.items[i])))
  {
    hide Find, Sound;
    assert Told(w.items[i], t);
    if !Owed(t, w.items[i].name) {
      DeliveredLast(t, w.items[i].name);
    }
  }

  lemma FollowsElse(w: World, t: seq<Event>)
    requires Follows(w, t)
    ensures NothingElse(w)
  {
  }

  lemma FollowsStart(plan: seq<bool>)
    ensures Follows(World([], map[], plan), [])
  {
  }

  /**
   * After any run, with any of the sends failing, that ends in posting everything without an exception:
   * the other side has the content of every named item that is not owed, and of an owed one exactly if
   * what was delivered last for it happens to be the same; and it has nothing else.
   */
  lemma KnownAfterPosts(plan: seq<bool>, ops: seq<Op>)
    requires !Interrupts(Run(World([], map[], plan), ops), 0)
    ensures var all := ops + [PostEverything];
      var w, t := Run(World([], map[], plan), all), Trace(World([], map[], plan), all);
      && (forall i :: 0 <= i < |w.items| && w.items[i].name != "" && !Owed(t, w.items[i].name) ==> Known(w, i))
      && (forall i :: 0 <= i < |w.items| && w.items[i].name != "" && Owed(t, w.items[i].name) ==>
        (Known(w, i) <==> LastDelivery(t, w.items[i].name) == Some(ContentOf(w.items[i]))))
      && NothingElse(w)
  {
    hide Follows, Run, Trace, Owed, LastDelivery, Known, Interrupts, AfterPosts, PostsEvents, NothingElse;
    var w0, all := World([], map[], plan), ops + [PostEverything];
    FollowsStart(plan);
    FollowsRun(w0, [], ops);
    FollowsRun(w0, [], all);
    var w, t := Run(w0, all), Trace(w0, all);
    assert [] + Trace(w0, ops) == Trace(w0, ops) && [] + t == t;
    RunSnoc(w0, ops, PostEverything);
    FollowsPosts(Run(w0, ops), Trace(w0, ops), 0);
    FollowsElse(w, t);
    forall i | 0 <= i < |w.items| && w.items[i].name != ""
      ensures !Owed(t, w.items[i].name) ==> Known(w, i)
      ensures Owed(t, w.items[i].name) ==>
        (Known(w, i) <==> LastDelivery(t, w.items[i].name) == Some(ContentOf(w.items[i])))
    {
      KnownWhenClean(w, t, i);
    }
  }
}
