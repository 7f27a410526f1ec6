/**
 * The variable-assigner node, version 1: it resolves a target variable in the
 * pool, computes its new value according to the write mode, writes the
 * replacement back into the pool and, for a conversation-scoped target,
 * pushes it through the durable-store port (one update, one flush).
 */
module AssignerV1 {
  import opened Wrappers
  import opened Variables
  import opened Pool
  import opened ConversationUpdater

  datatype WriteMode = OverWrite | Append | Clear

  /** The node's configuration block. */
  datatype NodeData = NodeData(
    title: string,
    assignedVariableSelector: Selector,
    writeMode: WriteMode,
    inputVariableSelector: Selector)

  /** Why a run fails; a failed run touches neither the pool nor the store. */
  datatype AssignError =
    | TargetNotFound
    | InputNotFound
    | AppendOnNonArray
    | AppendItemNotString

  /**
   * The new value for `target` under `mode`, given the resolved input
   * (`None` when the input selector did not resolve or was not read).
   * Clear never looks at the input.
   */
  function WriteValue(mode: WriteMode, target: Variable, input: Option<Variable>): (r: Result<Value, AssignError>)
    ensures r.Failure? ==> r.error != TargetNotFound
    ensures mode.Clear? ==> r.Success? && TypeOf(r.value) == target.valueType && IsEmpty(r.value)
    ensures mode.OverWrite? ==> (r.Success? <==> input.Some?)
    ensures mode.Append? ==>
      (r.Success? <==> input.Some? && target.value.ArrStr? && input.value.value.Str?)
    ensures mode.OverWrite? && r.Success? ==> r.value == input.value.value
    ensures mode.Append? && r.Success? ==>
      r.value == ArrStr(target.value.items + [input.value.value.s])
  {
    match mode
    case OverWrite =>
      if input.None? then Failure(InputNotFound) else Success(input.value.value)
    case Append =>
      if input.None? then Failure(InputNotFound)
      else if !target.value.ArrStr? then Failure(AppendOnNonArray)
      else if !input.value.value.Str? then Failure(AppendItemNotString)
      else Success(ArrStr(target.value.items + [input.value.value.s]))
    case Clear =>
      Success(ZeroValue(target.valueType))
  }

  /** The input a run reads: none for Clear, otherwise the input selector's entry. */
  function InputOf(data: NodeData, variables: map<Selector, Variable>): Option<Variable>
  {
    if data.writeMode.Clear? then None else Lookup(variables, data.inputVariableSelector)
  }

  /**
   * The whole computation of one run over the pool's mapping `variables`:
   * the replacement for the target variable, or why there is none.
   */
  function Assign(data: NodeData, variables: map<Selector, Variable>): (r: Result<Variable, AssignError>)
    ensures r == Failure(TargetNotFound) <==> data.assignedVariableSelector !in variables
    ensures r.Success? ==>
      data.assignedVariableSelector in variables &&
      SameIdentity(r.value, variables[data.assignedVariableSelector])
  {
    match Lookup(variables, data.assignedVariableSelector)
    case None => Failure(TargetNotFound)
    case Some(target) =>
      match WriteValue(data.writeMode, target, InputOf(data, variables))
      case Failure(e) => Failure(e)
      case Success(v) => Success(WithValue(target, v))
  }

  /**
   * A run fails exactly when the target is missing, when a mode that reads
   * the input finds it missing, or when an append has no array to extend or
   * no string to add.
   */
  lemma AssignFailsIff(data: NodeData, variables: map<Selector, Variable>)
    ensures var target := data.assignedVariableSelector;
            var input := data.inputVariableSelector;
      Assign(data, variables).Failure? <==>
        || target !in variables
        || (!data.writeMode.Clear? && input !in variables)
        || (data.writeMode.Append? &&
              (!variables[target].value.ArrStr? || !variables[input].value.Str?))
  {
  }

  /** Overwrite keeps the target's identity fields and takes the input's value as is. */
  lemma OverwriteTakesInput(data: NodeData, variables: map<Selector, Variable>)
    requires data.writeMode.OverWrite?
    requires data.assignedVariableSelector in variables && data.inputVariableSelector in variables
    ensures var r := Assign(data, variables);
      && r.Success?
      && SameIdentity(r.value, variables[data.assignedVariableSelector])
      && r.value.value == variables[data.inputVariableSelector].value
  {
  }

  /**
   * Append on an array target extends it by the input string at the end:
   * one element longer, earlier elements unchanged and in order.
   */
  lemma AppendAddsAtEnd(data: NodeData, variables: map<Selector, Variable>, items: seq<string>, s: string)
    requires data.writeMode.Append?
    requires data.assignedVariableSelector in variables && data.inputVariableSelector in variables
    requires variables[data.assignedVariableSelector].value == ArrStr(items)
    requires variables[data.inputVariableSelector].value == Str(s)
    ensures var r := Assign(data, variables);
      && r.Success?
      && SameIdentity(r.value, variables[data.assignedVariableSelector])
      && r.value.value.ArrStr?
      && |r.value.value.items| == |items| + 1
      && r.value.value.items[..|items|] == items
      && r.value.value.items[|items|] == s
  {
  }

  /**
   * Clear empties the target whatever it held, keeps its identity fields,
   * and gives the same result whatever the input selector is.
   */
  lemma ClearEmpties(data: NodeData, variables: map<Selector, Variable>, otherInput: Selector)
    requires data.writeMode.Clear?
    requires data.assignedVariableSelector in variables
    ensures var r := Assign(data, variables);
            var target := variables[data.assignedVariableSelector];
      && r.Success?
      && SameIdentity(r.value, target)
      && r.value.value == ZeroValue(target.valueType)
      && (target.valueType == ArrayStringType ==> r.value.value == ArrStr([]))
      && Assign(data.(inputVariableSelector := otherInput), variables) == r
  {
  }

  /**
   * Append and clear keep a well-typed target well typed; overwrite does so
   * exactly when the input's value has the target's declared type, because
   * overwrite does not compare the two types.
   */
  lemma AssignTyping(data: NodeData, variables: map<Selector, Variable>)
    requires Assign(data, variables).Success?
    requires WellTyped(variables[data.assignedVariableSelector])
    ensures var target := variables[data.assignedVariableSelector];
      WellTyped(Assign(data, variables).value) <==>
        (data.writeMode.OverWrite? ==>
           TypeOf(variables[data.inputVariableSelector].value) == target.valueType)
  {
  }

  class VariableAssignerNode {
    const id: string
    const data: NodeData
    /** The run's shared pool, reached through the runtime state. */
    const pool: VariablePool
    /** Produces the durable-store port, once per execution that needs it. */
    const factory: UpdaterFactory

    constructor (id: string, data: NodeData, pool: VariablePool, factory: UpdaterFactory)
      ensures this.id == id && this.data == data && this.pool == pool && this.factory == factory
    {
      this.id := id;
      this.data := data;
      this.pool := pool;
      this.factory := factory;
    }

    /**
     * One execution. The pool and the store are only touched once the new
     * value is computed; a conversation-scoped target is then pushed through
     * the port with one update (carrying the run's conversation id and the
     * full replacement) followed by one flush.
     */
    method Run() returns (r: Result<Variable, AssignError>)
      modifies pool, factory, factory.updater
      ensures r == Assign(data, old(pool.variables))
      ensures r.Failure? ==>
        pool.variables == old(pool.variables) && unchanged(factory, factory.updater)
      ensures r.Success? ==>
        pool.variables == old(pool.variables)[data.assignedVariableSelector := r.value]
      ensures r.Success? && !IsConversationScoped(data.assignedVariableSelector) ==>
        unchanged(factory, factory.updater)
      ensures r.Success? && IsConversationScoped(data.assignedVariableSelector) ==>
        var cid := pool.systemVariables.conversationId;
        var u := factory.updater;
        && factory.created == old(factory.created) + 1
        && u.calls == old(u.calls) + [UpdateCall(cid, r.value), FlushCall]
        && UpdateCount(u.calls) == old(UpdateCount(u.calls)) + 1
        && FlushCount(u.calls) == old(FlushCount(u.calls)) + 1
        && u.pending == map[]
        && u.committed == old(u.committed) + old(u.pending)[StoreKey(cid, r.value.id) := r.value]
        && u.committed[StoreKey(cid, r.value.id)] == pool.variables[data.assignedVariableSelector]
    {
      var selector := data.assignedVariableSelector;
      var original := pool.Get(selector);
      if original.None? {
        return Failure(TargetNotFound);
      }
      var income: Option<Variable> := None;
      if !data.writeMode.Clear? {
        income := pool.Get(data.inputVariableSelector);
      }
      var value := WriteValue(data.writeMode, original.value, income);
      if value.Failure? {
        return Failure(value.error);
      }
      var updated := WithValue(original.value, value.value);
      pool.Add(selector, updated);
      if IsConversationScoped(selector) {
        var updater := factory.Create();
        ghost var log := updater.calls;
        updater.Update(pool.systemVariables.conversationId, updated);
        updater.Flush();
        CommitCallsOnce(log, pool.systemVariables.conversationId, updated);
      }
      r := Success(updated);
    }
  }
}
