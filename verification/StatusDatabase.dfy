// The status database and the posting of its items.
module StatusDatabases {
  import opened StatusItems
  import opened Seqs

  /** Where the item of that name is; items without a name cannot be found. */
  function Find(items: seq<Item>, name: string): (i: int)
    ensures -1 <= i < |items|
    ensures i >= 0 ==> items[i].name == name && name != ""
    ensures i < 0 && name != "" ==> forall k :: 0 <= k < |items| ==> items[k].name != name
  {
    if name == "" || items == [] then -1
    else if items[0].name == name then 0
    else
      var i := Find(items[1..], name);
      assert forall k :: 1 <= k < |items| ==> items[k] == items[1..][k - 1];
      if i < 0 then -1 else i + 1
  }

  /** No two items have the same name, unless they have none. */
  ghost predicate Unique(items: seq<Item>) {
    forall i, j :: 0 <= i < j < |items| && items[i].name == items[j].name ==> items[i].name == ""
  }

  lemma FindUnique(items: seq<Item>, i: nat)
    requires Unique(items) && i < |items| && items[i].name != ""
    ensures Find(items, items[i].name) == i
  {
  }

  ghost function Views(list: seq<StatusItem>): (s: seq<Item>)
    reads list
    ensures |s| == |list| && forall i :: 0 <= i < |s| ==> s[i] == list[i].View()
  {
    if list == [] then [] else [list[0].View()] + Views(list[1..])
  }

  /** The entries that are not null are the items, one for one; a failed lookup only leaves a null behind. */
  ghost predicate Linked(byName: map<string, StatusItem?>, list: seq<StatusItem>) {
    && NoDup(list)
    && (forall i {:trigger list[i]} :: 0 <= i < |list| && list[i].name != "" ==>
      list[i].name in byName && byName[list[i].name] == list[i])
    && (forall n :: n in byName && byName[n] != null ==> byName[n] in list && byName[n].name == n)
  }

  lemma LinkedAdd(byName: map<string, StatusItem?>, list: seq<StatusItem>, item: StatusItem)
    requires Linked(byName, list) && item !in list
    requires item.name != "" ==> forall k :: 0 <= k < |list| ==> list[k].name != item.name
    ensures Linked(byName[item.name := item], list + [item])
  {
  }

  class StatusDatabase {
    var byName: map<string, StatusItem?>
    var statusItemList: seq<StatusItem>

    ghost predicate Valid()
      reads this
    {
      Linked(byName, statusItemList)
    }

    ghost function Items(): (s: seq<Item>)
      reads this, statusItemList
    {
      Views(statusItemList)
    }

    constructor ()
      ensures Valid() && statusItemList == []
    {
      byName, statusItemList := map[], [];
    }

    /** getStatusItem: looking up an unknown name stores a null for it. */
    method GetStatusItem(name: string) returns (item: StatusItem?, ghost i: int)
      requires Valid()
      modifies this`byName
      ensures Valid() && i == Find(Items(), name)
      ensures if i < 0 then item == null else item == statusItemList[i]
      ensures byName == if name == "" || name in old(byName) then old(byName) else old(byName)[name := null]
    {
      hide Views;
      i := Find(Items(), name);
      if name == "" {
        return null, i;
      }
      if i >= 0 {
        assert statusItemList[i].View() == Items()[i];
      }
      if name !in byName {
        byName := byName[name := null];
      }
      item := byName[name];
      if item != null {
        ghost var k :| 0 <= k < |statusItemList| && statusItemList[k] == item;
        assert Items()[k].name == name;
      }
    }

    /** createStatusItem, createAlarmStatusItem and createHealthStatusItem. */
    method CreateItem(name: string, kind: Kind, typ: Type) returns (rv: Outcome)
      requires Valid() && (kind == Healthy ==> typ == INT)
      modifies this
      ensures Valid() && rv == if Find(old(Items()), name) >= 0 then ERROR else OK
      ensures Items() == old(Items()) + if rv == OK then [NewItem(name, kind, typ)] else []
      ensures rv == ERROR ==> statusItemList == old(statusItemList)
      ensures rv == OK ==> exists item :: fresh(item) && statusItemList == old(statusItemList) + [item]
    {
      hide Linked, Views, Find;
      var found;
      ghost var i;
      found, i := GetStatusItem(name);
      if found != null {
        return ERROR;
      }
      var item := new StatusItem(name, kind, typ);
      LinkedAdd(byName, statusItemList, item);
      byName := byName[name := item];
      statusItemList := statusItemList + [item];
      return OK;
    }

    lemma Listed()
      requires Valid()
      ensures NoDup(statusItemList)
    {
    }

    /** setStatusValueAsInt, and the same for a string, a double and a float. */
    method SetStatusValue(name: string, v: Value) returns (rv: Outcome)
      requires Valid() && HasSetter(v)
      modifies this`byName, statusItemList
      ensures Valid() && statusItemList == old(statusItemList)
      ensures Items() == AfterValue(old(Items()), name, v)
      ensures rv == if Accepting(old(Items()), name, TypeOf(v)) then OK else ERROR
    {
      hide Valid, Views, Find;
      Listed();
      var item;
      ghost var i;
      item, i := GetStatusItem(name);
      if item == null {
        return ERROR;
      }
      rv := item.SetValue(v);
    }

    /** setHealth. */
    method SetHealth(name: string, health: Health) returns (rv: Outcome)
      requires Valid()
      modifies this`byName, statusItemList
      ensures Valid() && statusItemList == old(statusItemList)
      ensures Items() == AfterHealth(old(Items()), name, health)
      ensures rv == if ReportsHealth(old(Items()), name) then OK else ERROR
    {
      hide Valid, Views, Find;
      Listed();
      var item;
      ghost var i;
      item, i := GetStatusItem(name);
      if item == null || item.kind != Healthy {
        return ERROR;
      }
      rv := item.SetValue(Int(Ordinal(health)));
    }

    /** setAlarm. */
    method SetAlarm(name: string, severity: Severity, cause: Cause, message: string) returns (rv: Outcome)
      requires Valid()
      modifies this`byName, statusItemList
      ensures Valid() && statusItemList == old(statusItemList)
      ensures Items() == AfterAlarm(old(Items()), name, AlarmState(severity, cause, message))
      ensures rv ==
        if Alarming(old(Items()), name) && Explained(AlarmState(severity, cause, message)) then OK else ERROR
    {
      hide Valid, Views, Find;
      Listed();
      var item;
      ghost var i;
      item, i := GetStatusItem(name);
      if item == null || item.kind != Alarm {
        return ERROR;
      }
      rv := item.SetAlarmState(severity, cause, message);
    }

    /** clearAlarm. */
    method ClearAlarm(name: string) returns (rv: Outcome)
      requires Valid()
      modifies this`byName, statusItemList
      ensures Valid() && statusItemList == old(statusItemList)
      ensures Items() == AfterAlarm(old(Items()), name, NoAlarm)
      ensures rv == if Alarming(old(Items()), name) then OK else ERROR
    {
      hide Valid, Views, Find;
      Listed();
      var item;
      ghost var i;
      item, i := GetStatusItem(name);
      if item == null || item.kind != Alarm {
        return ERROR;
      }
      item.ClearAlarmState();
      return OK;
    }
  }

  predicate Accepting(items: seq<Item>, name: string, typ: Type) {
    Find(items, name) >= 0 && items[Find(items, name)].typ == typ
  }

  predicate ReportsHealth(items: seq<Item>, name: string) {
    Accepting(items, name, INT) && items[Find(items, name)].kind == Healthy
  }

  predicate Alarming(items: seq<Item>, name: string) {
    Find(items, name) >= 0 && items[Find(items, name)].kind == Alarm
  }

  function AfterValue(items: seq<Item>, name: string, v: Value): seq<Item> {
    var i := Find(items, name);
    if i < 0 then items else items[i := WithValue(items[i], v)]
  }

  function AfterHealth(items: seq<Item>, name: string, health: Health): seq<Item> {
    var i := Find(items, name);
    if i < 0 || items[i].kind != Healthy then items else items[i := WithValue(items[i], Int(Ordinal(health)))]
  }

  function AfterAlarm(items: seq<Item>, name: string, a: AlarmState): seq<Item> {
    var i := Find(items, name);
    if Alarming(items, name) then items[i := WithAlarm(items[i], a)] else items
  }

  /** What is sent of an item. */
  datatype Content = Content(value: Value, alarm: AlarmState)

  function ContentOf(it: Item): Content {
    Content(it.value, it.alarm)
  }

  /** The database, the copy on the other side, and which of the sends to come will be delivered (after them, all). */
  datatype World = World(items: seq<Item>, remote: map<string, Content>, plan: seq<bool>)

  predicate Delivers(plan: seq<bool>) {
    plan == [] || plan[0]
  }

  /** doPost of the item at position i: the flag is cleared first, then the content is sent. */
  function AfterPost(w: World, i: nat): World
    requires i < |w.items|
  {
    var it := w.items[i];
    if !it.changed then w
    else World(
      w.items[i := it.(changed := false)],
      if Delivers(w.plan) then w.remote[it.name := ContentOf(it)] else w.remote,
      if w.plan == [] then [] else w.plan[1..])
  }

  /** The post of the item at position i ends in an exception. */
  predicate Throws(w: World, i: nat)
    requires i < |w.items|
  {
    w.items[i].changed && !Delivers(w.plan)
  }

  /** Posting all items from position i on, up to the first exception. */
  function AfterPosts(w: World, i: nat): World
    requires i <= |w.items|
    decreases |w.items| - i
  {
    if i == |w.items| then w
    else if Throws(w, i) then AfterPost(w, i)
    else AfterPosts(AfterPost(w, i), i + 1)
  }

  /** Posting all items from position i on ends in an exception. */
  predicate Interrupts(w: World, i: nat)
    requires i <= |w.items|
    decreases |w.items| - i
  {
    i < |w.items| && (Throws(w, i) || Interrupts(AfterPost(w, i), i + 1))
  }

  lemma PostsStep(w: World, i: nat)
    requires i <= |w.items|
    ensures i == |w.items| ==> AfterPosts(w, i) == w && !Interrupts(w, i)
    ensures i < |w.items| && Throws(w, i) ==> AfterPosts(w, i) == AfterPost(w, i) && Interrupts(w, i)
    ensures i < |w.items| ==> |AfterPost(w, i).items| == |w.items|
    ensures i < |w.items| && !Throws(w, i) ==>
      && AfterPosts(w, i) == AfterPosts(AfterPost(w, i), i + 1)
      && (Interrupts(w, i) <==> Interrupts(AfterPost(w, i), i + 1))
  {
  }

  /** The way to the other side. */
  class Sender {
    ghost var remote: map<string, Content>
    var plan: seq<bool>

    /** postStatus of the implementing class: the content arrives, or an exception is thrown. */
    method Send(item: StatusItem) returns (thrown: bool)
      modifies this
      ensures thrown == !Delivers(old(plan)) && plan == if old(plan) == [] then [] else old(plan)[1..]
      ensures remote == if thrown then old(remote) else old(remote)[item.name := ContentOf(item.View())]
    {
      thrown := plan != [] && !plan[0];
      plan := if plan == [] then [] else plan[1..];
      if !thrown {
        remote := remote[item.name := ContentOf(item.View())];
      }
    }
  }

  ghost function WorldOf(db: StatusDatabase, sender: Sender): World
    reads db, db.statusItemList, sender
  {
    World(db.Items(), sender.remote, sender.plan)
  }

  datatype Posted = Sent | NotPosted | Thrown

  /** What a post of the item at position i reports; a negative i is for no item. */
  function PostResult(w: World, i: int): Posted
    requires i < |w.items|
  {
    if i < 0 then NotPosted else if Throws(w, i) then Thrown else if w.items[i].changed then Sent else NotPosted
  }

  /** doPost. */
  method DoPost(db: StatusDatabase, sender: Sender, item: StatusItem, ghost i: nat) returns (rv: Posted)
    requires db.Valid() && i < |db.statusItemList| && db.statusItemList[i] == item
    modifies item, sender
    ensures db.Valid() && WorldOf(db, sender) == AfterPost(old(WorldOf(db, sender)), i)
    ensures rv == PostResult(old(WorldOf(db, sender)), i)
    ensures rv == NotPosted <==> !old(item.changedFlag)
  {
    if !item.changedFlag {
      return NotPosted;
    }
    item.ClearChanged();
    var thrown := sender.Send(item);
    rv := if thrown then Thrown else Sent;
  }

  /** postStatus of one item by name. */
  method PostStatus(db: StatusDatabase, sender: Sender, name: string) returns (rv: Posted)
    requires db.Valid()
    modifies db`byName, db.statusItemList, sender
    ensures db.Valid() && db.statusItemList == old(db.statusItemList)
    ensures var i := Find(old(db.Items()), name);
      WorldOf(db, sender) == if i < 0 then old(WorldOf(db, sender)) else AfterPost(old(WorldOf(db, sender)), i)
    ensures rv == PostResult(old(WorldOf(db, sender)), Find(old(db.Items()), name))
  {
    var item;
    ghost var i;
    item, i := db.GetStatusItem(name);
    if item == null {
      return NotPosted;
    }
    rv := DoPost(db, sender, item, i);
  }

  /** postStatus of all items. An exception ends it early. */
  method PostAll(db: StatusDatabase, sender: Sender) returns (thrown: bool)
    requires db.Valid()
    modifies db.statusItemList, sender
    ensures db.Valid() && db.statusItemList == old(db.statusItemList)
    ensures WorldOf(db, sender) == AfterPosts(old(WorldOf(db, sender)), 0)
    ensures thrown <==> Interrupts(old(WorldOf(db, sender)), 0)
  {
    hide AfterPosts, AfterPost, Interrupts, Throws, StatusDatabase.Valid, Views;
    var items := db.statusItemList;
    var k := 0;
    while k < |items|
      invariant k <= |items| && db.Valid() && db.statusItemList == old(db.statusItemList)
      invariant AfterPosts(WorldOf(db, sender), k) == AfterPosts(old(WorldOf(db, sender)), 0)
      invariant Interrupts(WorldOf(db, sender), k) <==> Interrupts(old(WorldOf(db, sender)), 0)
    {
      PostsStep(WorldOf(db, sender), k);
      var rv := DoPost(db, sender, items[k], k);
      if rv == Thrown {
        return true;
      }
      k := k + 1;
    }
    PostsStep(WorldOf(db, sender), k);
    return false;
  }
}
