// Status items: a typed value, perhaps an alarm, and a dirty flag.
module StatusItems {

  datatype Type = BOOLEAN | INT | FLOAT | DOUBLE | STRING | BYTE | SHORT

  datatype Value = Boolean(b: bool) | Int(i: int) | Float(f: real) | Double(d: real) | Text(s: string)
    | Octet(o: int) | Short(h: int)

  datatype Severity = ALARM_OK | ALARM_WARNING | ALARM_FAILURE

  datatype Cause =
    | ALARM_CAUSE_OK | ALARM_CAUSE_HIHI | ALARM_CAUSE_HI | ALARM_CAUSE_LOLO | ALARM_CAUSE_LO | ALARM_CAUSE_OTHER

  datatype Health = GOOD | WARNING | BAD

  /** The classes StatusItem, AlarmStatusItem and HealthStatusItem. */
  datatype Kind = Plain | Alarm | Healthy

  datatype Outcome = OK | ERROR

  function TypeOf(v: Value): Type {
    match v
    case Boolean(_) => BOOLEAN case Int(_) => INT case Float(_) => FLOAT case Double(_) => DOUBLE
    case Text(_) => STRING case Octet(_) => BYTE case Short(_) => SHORT
  }

  /** The values for which there is a setter. */
  predicate HasSetter(v: Value) {
    v.Int? || v.Text? || v.Double? || v.Float?
  }

  function Ordinal(h: Health): int {
    match h case GOOD => 0 case WARNING => 1 case BAD => 2
  }

  datatype AlarmState = AlarmState(severity: Severity, cause: Cause, message: string)

  /** The state of a status item. */
  datatype Item = Item(name: string, typ: Type, kind: Kind, value: Value, alarm: AlarmState, initialized: bool,
                       changed: bool)

  function Initial(typ: Type): (v: Value)
    ensures TypeOf(v) == typ
  {
    match typ
    case BOOLEAN => Boolean(false) case DOUBLE => Double(0.0) case FLOAT => Float(0.0) case INT => Int(0)
    case BYTE => Octet(0) case SHORT => Short(0) case STRING => Text(" ")
  }

  const NoAlarm: AlarmState := AlarmState(ALARM_OK, ALARM_CAUSE_OK, "")

  /** A new item is dirty. */
  function NewItem(name: string, kind: Kind, typ: Type): Item {
    Item(name, typ, kind, Initial(typ), NoAlarm, false, true)
  }

  /** A setter: the type must be the declared one, and only a new value makes the item dirty. */
  function WithValue(it: Item, v: Value): Item {
    if it.typ != TypeOf(v) || it.value == v then it else it.(value := v, changed := true)
  }

  /** What an alarm setter stores: with no alarm, neither cause nor message. */
  function Settled(a: AlarmState): AlarmState {
    if a.severity == ALARM_OK then NoAlarm else a
  }

  /** The alarm cause OTHER needs a message. */
  predicate Explained(a: AlarmState) {
    a.cause == ALARM_CAUSE_OTHER ==> a.message != ""
  }

  function WithAlarm(it: Item, a: AlarmState): Item {
    if !Explained(a) || (it.initialized && a == it.alarm) then it
    else it.(alarm := Settled(a), initialized := true, changed := true)
  }

  /** What is promised of every item: its declared type, and a consistent alarm. */
  predicate Sound(it: Item) {
    && TypeOf(it.value) == it.typ
    && (it.alarm.severity == ALARM_OK ==> it.alarm == NoAlarm)
    && Explained(it.alarm)
    && (it.kind == Healthy ==> it.typ == INT)
  }

  class StatusItem {
    const name: string
    const typ: Type
    const kind: Kind
    var value: Value
    var changedFlag: bool
    var severity: Severity
    var cause: Cause
    var message: string
    var initialized: bool

    function View(): Item
      reads this
    {
      Item(name, typ, kind, value, AlarmState(severity, cause, message), initialized, changedFlag)
    }

    constructor (name: string, kind: Kind, typ: Type)
      ensures View() == NewItem(name, kind, typ)
    {
      this.name, this.kind, this.typ := name, kind, typ;
      value := Initial(typ);
      severity, cause, message := ALARM_OK, ALARM_CAUSE_OK, "";
      initialized, changedFlag := false, true;
    }

    /** setValueAsInt, setValueAsString, setValueAsDouble and setValueAsFloat. */
    method SetValue(v: Value) returns (rv: Outcome)
      requires HasSetter(v)
      modifies this
      ensures View() == WithValue(old(View()), v)
      ensures rv == if typ == TypeOf(v) then OK else ERROR
      ensures rv == OK ==> value == v && changedFlag == (old(changedFlag) || v != old(value))
      ensures rv == ERROR ==> View() == old(View())
    {
      if typ != TypeOf(v) {
        return ERROR;
      }
      if v == value {
        return OK;
      }
      changedFlag := true;
      value := v;
      return OK;
    }

    /** setAlarmState. */
    method SetAlarmState(severity': Severity, cause': Cause, message': string) returns (rv: Outcome)
      modifies this
      ensures var a := AlarmState(severity', cause', message');
        View() == WithAlarm(old(View()), a) && rv == if Explained(a) then OK else ERROR
      ensures rv == ERROR <==> message' == "" && cause' == ALARM_CAUSE_OTHER
      ensures rv == ERROR ==> View() == old(View())
      ensures rv == OK ==> severity == severity' && initialized && (severity' != ALARM_OK ==>
        cause == cause' && message == message')
      ensures rv == OK && !old(initialized) ==> changedFlag
    {
      if message' == "" && cause' == ALARM_CAUSE_OTHER {
        return ERROR;
      }
      if initialized {
        if severity' == severity && cause' == cause && message' == message {
          return OK;
        }
      } else {
        initialized := true;
      }
      severity := severity';
      if severity == ALARM_OK {
        cause := ALARM_CAUSE_OK;
        message := "";
      } else {
        cause := cause';
        message := message';
      }
      changedFlag := true;
      return OK;
    }

    /** clearAlarmState, which cannot fail. */
    method ClearAlarmState()
      modifies this
      ensures View() == WithAlarm(old(View()), NoAlarm)
    {
      var rv := SetAlarmState(ALARM_OK, ALARM_CAUSE_OK, "");
      assert rv == OK;
    }

    method ClearChanged()
      modifies this
      ensures View() == old(View()).(changed := false)
    {
      changedFlag := false;
    }
  }
}
