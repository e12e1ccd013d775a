/** The write-once name registry: a dictionary that refuses to rebind a key.
    Parameter classes are stored in one under their class names. */
module Registry {
  import opened Wrappers

  /** `registry[key] = value`. Binding a fresh key stores the value; binding a
      key that is already present raises and leaves the registry as it was. */
  function Set<V>(reg: map<string, V>, key: string, value: V): (r: Step<map<string, V>>)
    ensures r.Succeeded() <==> key !in reg
    ensures !r.Succeeded() ==> r.error == Some(AlreadyRegistered(key)) && r.state == reg
    ensures r.Succeeded() ==> key in r.state && r.state[key] == value
    ensures r.Succeeded() ==> r.state.Keys == reg.Keys + {key} && |r.state| == |reg| + 1
    ensures forall k :: k in reg ==> k in r.state && r.state[k] == reg[k]
  {
    if key in reg then
      Step(reg, Some(AlreadyRegistered(key)))
    else
      var s := reg[key := value];
      assert s.Keys == reg.Keys + {key};
      Step(s, None)
  }

  /** A run of assignments, each one attempted in turn; an assignment that
      raises is abandoned and the run carries on with the next one. */
  function SetAll<V>(reg: map<string, V>, assignments: seq<(string, V)>): map<string, V>
    decreases |assignments|
  {
    if assignments == [] then reg
    else SetAll(Set(reg, assignments[0].0, assignments[0].1).state, assignments[1..])
  }

  /** The first value a run of assignments gives to `key`, if any. */
  function FirstAssigned<V>(assignments: seq<(string, V)>, key: string): Option<V>
    decreases |assignments|
  {
    if assignments == [] then None
    else if assignments[0].0 == key then Some(assignments[0].1)
    else FirstAssigned(assignments[1..], key)
  }

  /** Over any run of assignments every key keeps the first value it was
      given: the value it already had, or else the first one assigned to it. */
  lemma {:induction false} SetAllKeepsFirstValue<V>(reg: map<string, V>, assignments: seq<(string, V)>, key: string)
    ensures key in reg ==> key in SetAll(reg, assignments) && SetAll(reg, assignments)[key] == reg[key]
    ensures key !in reg ==> (key in SetAll(reg, assignments) <==> FirstAssigned(assignments, key).Some?)
    ensures key !in reg && FirstAssigned(assignments, key).Some? ==>
              SetAll(reg, assignments)[key] == FirstAssigned(assignments, key).value
    decreases |assignments|
  {
    if assignments != [] {
      var next := Set(reg, assignments[0].0, assignments[0].1).state;
      SetAllKeepsFirstValue(next, assignments[1..], key);
      if key !in reg && assignments[0].0 == key {
        assert next[key] == assignments[0].1;
      }
    }
  }
}
