/** The key/value store: last write wins, and read repair. */
module KVStores {
  import opened Instructions

  datatype Kind = StringValue | TombstoneValue | BoolValue

  /** The contents of a stored value. */
  datatype Content = Content(kind: Kind, text: Text, flag: bool, time: Time)

  /** A value object. Values are immutable but are compared by identity in one place. */
  class Value {
    const content: Content

    constructor (content: Content)
      ensures this.content == content
    {
      this.content := content;
    }
  }

  predicate IsZero(t: Time) {
    InstantOf(t) == 0
  }

  /** String.Equal and Tombstone.Equal, with the receiver first. */
  predicate Equal(v: Content, o: Content) {
    v.kind == o.kind && v.time == o.time && (v.kind == StringValue ==> v.text == o.text)
  }

  const GET: Text := [71, 69, 84]
  const SET: Text := [83, 69, 84]
  const DEL: Text := [68, 69, 76]

  function StringContent(text: Text, time: Time): Content {
    Content(StringValue, text, false, time)
  }

  function TombstoneContent(time: Time): Content {
    Content(TombstoneValue, [], false, time)
  }

  // ---------- what instructions do ----------

  type Store = map<Text, Content>

  predicate IsValid(i: Instruction) {
    if i.cmd == GET then i.args == []
    else if i.cmd == SET then |i.args| == 1 && !IsZero(i.timestamp)
    else i.cmd == DEL && i.args == [] && !IsZero(i.timestamp)
  }

  /** A set that is older than what is stored is ignored; a delete is not, but
      leaves a missing key missing. */
  function Run(s: Store, i: Instruction): Store {
    if !IsValid(i) || i.cmd == GET then s
    else if i.cmd == SET then
      if i.key in s && InstantOf(i.timestamp) < InstantOf(s[i.key].time) then s
      else s[i.key := StringContent(i.args[0], i.timestamp)]
    else if i.key in s then s[i.key := TombstoneContent(i.timestamp)] else s
  }

  function RunAll(s: Store, list: seq<Instruction>): Store {
    if list == [] then s else Run(RunAll(s, list[..|list| - 1]), list[|list| - 1])
  }

  class KVStore {
    var data: map<Text, Value>

    constructor ()
      ensures data == map[]
    {
      data := map[];
    }

    function View(): Store
      reads this
    {
      map k | k in data :: data[k].content
    }

    method ExecuteInstruction(i: Instruction) returns (ok: bool, result: Value?)
      modifies this
      ensures ok == IsValid(i) && View() == Run(old(View()), i)
      ensures ok <==> || (i.cmd == GET && i.args == [])
                      || (i.cmd == SET && |i.args| == 1 && InstantOf(i.timestamp) != 0)
                      || (i.cmd == DEL && i.args == [] && InstantOf(i.timestamp) != 0)
      ensures !ok ==> result == null
      ensures ok && i.cmd == GET ==> result == if i.key in data then data[i.key] else null
      ensures ok && i.cmd == SET ==> i.key in data && result == data[i.key]
      ensures ok && i.cmd == DEL ==> result != null && result.content.flag == (i.key in old(data))
      ensures ok && i.cmd == DEL ==>
        result.content.time == if i.key in old(data) then old(data)[i.key].content.time else ZERO_TIME
    {
      if i.cmd == GET {
        if i.args != [] {
          return false, null;
        }
        return true, if i.key in data then data[i.key] else null;
      } else if i.cmd == SET {
        if |i.args| != 1 || IsZero(i.timestamp) {
          return false, null;
        }
        var value := Set(i.key, i.args[0], i.timestamp);
        return true, value;
      } else if i.cmd == DEL {
        if i.args != [] || IsZero(i.timestamp) {
          return false, null;
        }
        var value := Del(i.key, i.timestamp);
        return true, value;
      }
      return false, null;
    }

    method Set(key: Text, text: Text, ts: Time) returns (value: Value)
      modifies this
      ensures key in data && value == data[key]
      ensures View() == if key in old(data) && InstantOf(ts) < InstantOf(old(data)[key].content.time) then old(View())
                        else old(View())[key := StringContent(text, ts)]
    {
      if key in data && InstantOf(ts) < InstantOf(data[key].content.time) {
        return data[key];
      }
      value := new Value(StringContent(text, ts));
      data := data[key := value];
    }

    method Del(key: Text, ts: Time) returns (value: Value)
      modifies this
      ensures value.content.kind == BoolValue && value.content.flag == (key in old(data))
      ensures value.content.time == if key in old(data) then old(data)[key].content.time else ZERO_TIME
      ensures View() == if key in old(data) then old(View())[key := TombstoneContent(ts)] else old(View())
    {
      if key in data {
        var previous := data[key].content.time;
        var tombstone := new Value(TombstoneContent(ts));
        data := data[key := tombstone];
        value := new Value(Content(BoolValue, [], true, previous));
      } else {
        value := new Value(Content(BoolValue, [], false, ZERO_TIME));
      }
    }
  }

  // ---------- read repair ----------

  /** Position h holds the first value with the latest instant, after the zero time. */
  ghost predicate IsHighest(values: seq<Value>, h: nat) {
    && h < |values| && InstantOf(values[h].content.time) > 0
    && (forall i :: 0 <= i < |values| ==> InstantOf(values[i].content.time) <= InstantOf(values[h].content.time))
    && (forall i :: 0 <= i < h ==> InstantOf(values[i].content.time) < InstantOf(values[h].content.time))
  }

  method GetHighValue(values: seq<Value>) returns (high: Value?, ghost h: nat)
    ensures high == null <==> forall i :: 0 <= i < |values| ==> InstantOf(values[i].content.time) <= 0
    ensures high != null ==> IsHighest(values, h) && high == values[h]
    ensures high != null ==> forall i :: 0 <= i < |values| ==> InstantOf(values[i].content.time) <= InstantOf(high.content.time)
    ensures high != null ==> forall i :: 0 <= i < h ==> InstantOf(values[i].content.time) < InstantOf(high.content.time)
  {
    var highInstant := 0;
    high, h := null, 0;
    for k := 0 to |values|
      invariant high == null <==> highInstant == 0
      invariant highInstant >= 0 && forall i :: 0 <= i < k ==> InstantOf(values[i].content.time) <= highInstant
      invariant high != null ==> h < k && high == values[h] && InstantOf(high.content.time) == highInstant
      invariant high != null ==> forall i :: 0 <= i < h ==> InstantOf(values[i].content.time) < highInstant
    {
      var ts := InstantOf(values[k].content.time);
      if ts > highInstant {
        highInstant, high, h := ts, values[k], k;
      }
    }
  }

  datatype Repair = Failed | Panics | Repaired(instructions: seq<seq<Instruction>>)

  function SetTo(key: Text, high: Content): Instruction {
    Instruction(SET, key, [high.text], high.time)
  }

  function DeleteAt(key: Text, high: Content): Instruction {
    Instruction(DEL, key, [], high.time)
  }

  /** What the replica that answered with v is told to do. */
  function RepairOf(key: Text, high: Value, v: Value): seq<Instruction> {
    if high.content.kind == StringValue then
      if Equal(high.content, v.content) then [] else [SetTo(key, high.content)]
    else if v == high then [] else [DeleteAt(key, high.content)]
  }

  method Reconcile(key: Text, values: seq<Value>) returns (high: Value?, r: Repair, ghost h: nat)
    ensures values == [] ==> r.Failed?
    ensures |values| == 1 ==> r == Repaired([]) && high == values[0] && h == 0
    ensures |values| > 1 ==> (r.Panics? <==> forall i :: 0 <= i < |values| ==> InstantOf(values[i].content.time) <= 0)
    ensures |values| > 1 && !r.Panics? ==> IsHighest(values, h)
    ensures |values| > 1 && !r.Panics? ==> (r.Failed? <==> values[h].content.kind == BoolValue)
    ensures |values| > 1 && r.Repaired? ==> high == values[h] && |r.instructions| == |values|
    ensures |values| > 1 && r.Repaired? ==>
      forall i :: 0 <= i < |values| ==> r.instructions[i] == RepairOf(key, values[h], values[i])
  {
    h := 0;
    if values == [] {
      return null, Failed, h;
    } else if |values| == 1 {
      return values[0], Repaired([]), h;
    }
    high, h := GetHighValue(values);
    if high == null {
      return null, Panics, h;
    }
    match high.content.kind
    case StringValue =>
      var instructions := ReconcileString(key, high, values);
      r := Repaired(instructions);
    case TombstoneValue =>
      var instructions := ReconcileTombstone(key, high, values);
      r := Repaired(instructions);
    case BoolValue =>
      return null, Failed, h;
  }

  method ReconcileString(key: Text, high: Value, values: seq<Value>) returns (instructions: seq<seq<Instruction>>)
    requires high.content.kind == StringValue
    ensures |instructions| == |values|
    ensures forall i :: 0 <= i < |values| ==> instructions[i] == RepairOf(key, high, values[i])
  {
    instructions := [];
    for k := 0 to |values|
      invariant |instructions| == k
      invariant forall i :: 0 <= i < k ==> instructions[i] == RepairOf(key, high, values[i])
    {
      var list: seq<Instruction> := [];
      if !Equal(high.content, values[k].content) {
        list := [Instruction(SET, key, [high.content.text], high.content.time)];
      }
      instructions := instructions + [list];
    }
  }

  method ReconcileTombstone(key: Text, high: Value, values: seq<Value>) returns (instructions: seq<seq<Instruction>>)
    requires high.content.kind == TombstoneValue
    ensures |instructions| == |values|
    ensures forall i :: 0 <= i < |values| ==> instructions[i] == RepairOf(key, high, values[i])
  {
    instructions := [];
    for k := 0 to |values|
      invariant |instructions| == k
      invariant forall i :: 0 <= i < k ==> instructions[i] == RepairOf(key, high, values[i])
    {
      var list: seq<Instruction> := [];
      if values[k] != high {
        list := [Instruction(DEL, key, [], high.content.time)];
      }
      instructions := instructions + [list];
    }
  }

  lemma RunOne(s: Store, i: Instruction)
    ensures RunAll(s, [i]) == Run(s, i) && RunAll(s, []) == s
  {
    assert |[i][..0]| == 0;
  }

  /** A replica is sent nothing exactly when it needs nothing: for a string, when
      it answered with the same text and time; for a tombstone, when it answered
      with the very object that won. */
  lemma RepairOnlyWhereNeeded(key: Text, high: Value, v: Value)
    requires high.content.kind != BoolValue
    ensures high.content.kind == StringValue ==>
      (RepairOf(key, high, v) == [] <==> v.content.kind == StringValue && v.content.time == high.content.time && v.content.text == high.content.text)
    ensures high.content.kind == TombstoneValue ==> (RepairOf(key, high, v) == [] <==> v == high)
  {
  }

  /** Read repair converges: when every replica runs the instructions it is
      sent, each one that held one of the reconciled values under the key ends
      up with the kind, the time and the text of the latest of them, which is
      the one returned. */
  lemma RepairConverges(key: Text, values: seq<Value>, h: nat, i: nat, s: Store)
    requires IsHighest(values, h) && values[h].content.kind != BoolValue
    requires i < |values| && key in s && s[key] == values[i].content
    ensures var s' := RunAll(s, RepairOf(key, values[h], values[i]));
      && key in s' && s'[key].kind == values[h].content.kind && s'[key].time == values[h].content.time
      && (values[h].content.kind == StringValue ==> s'[key].text == values[h].content.text)
      && InstantOf(values[i].content.time) <= InstantOf(s'[key].time)
      && (forall k :: k != key ==> (k in s' <==> k in s) && (k in s ==> s'[k] == s[k]))
  {
    RunOne(s, SetTo(key, values[h].content));
    RunOne(s, DeleteAt(key, values[h].content));
  }
}
