/**
 * The three runs of the v1 assigner node that the unit tests pin down, as
 * client methods: each builds the pool and the node from the specifications
 * alone, runs it once, and states what the durable-store port received and
 * what the pool then resolves. Generated ids are parameters.
 */
module AssignerV1Scenarios {
  import opened Wrappers
  import opened Variables
  import opened Pool
  import opened ConversationUpdater
  import opened AssignerV1

  const DefaultNodeId: string := "node_id"
  const ConversationVariableName: string := "test_conversation_variable"
  const InputVariableName: string := "test_string_variable"

  /** Overwriting a conversation string variable with another string variable's value. */
  method OverwriteStringVariable(nodeId: string, conversationVariableId: string, inputVariableId: string,
                                 conversationId: string)
    returns (got: Option<Variable>, ghost calls: seq<UpdaterCall>)
    ensures got.Some? && got.value.value == Str("the second value")
    ensures got.value == StringVariable(conversationVariableId, ConversationVariableName, "the second value")
    ensures calls == [UpdateCall(conversationId, got.value), FlushCall]
    ensures UpdateCount(calls) == 1 && FlushCount(calls) == 1
  {
    var conversationVariable := StringVariable(conversationVariableId, ConversationVariableName, "the first value");
    var inputVariable := StringVariable(inputVariableId, InputVariableName, "the second value");
    var pool := new VariablePool(SystemVariable(conversationId), [], [conversationVariable]);
    pool.Add([DefaultNodeId, inputVariable.name], inputVariable);
    var updater := new ConversationVariableUpdater(map[]);
    var factory := new UpdaterFactory(updater);
    var data := NodeData("test", [ConversationScope, conversationVariable.name], OverWrite,
                         [DefaultNodeId, inputVariable.name]);
    var node := new VariableAssignerNode(nodeId, data, pool, factory);
    var _ := node.Run();
    calls := updater.calls;
    got := pool.Get([ConversationScope, ConversationVariableName]);
  }

  /** Appending a string variable's value to a conversation array-of-string variable. */
  method AppendVariableToArray(nodeId: string, conversationVariableId: string, inputVariableId: string,
                               conversationId: string)
    returns (got: Option<Variable>, ghost calls: seq<UpdaterCall>)
    ensures got.Some? && got.value.value == ArrStr(["the first value", "the second value"])
    ensures got.value ==
      ArrayStringVariable(conversationVariableId, ConversationVariableName, ["the first value", "the second value"])
    ensures calls == [UpdateCall(conversationId, got.value), FlushCall]
    ensures UpdateCount(calls) == 1 && FlushCount(calls) == 1
  {
    var conversationVariable := ArrayStringVariable(conversationVariableId, ConversationVariableName, ["the first value"]);
    var inputVariable := StringVariable(inputVariableId, InputVariableName, "the second value");
    var pool := new VariablePool(SystemVariable(conversationId), [], [conversationVariable]);
    pool.Add([DefaultNodeId, inputVariable.name], inputVariable);
    var updater := new ConversationVariableUpdater(map[]);
    var factory := new UpdaterFactory(updater);
    var data := NodeData("test", [ConversationScope, conversationVariable.name], Append,
                         [DefaultNodeId, inputVariable.name]);
    var node := new VariableAssignerNode(nodeId, data, pool, factory);
    var _ := node.Run();
    calls := updater.calls;
    got := pool.Get([ConversationScope, ConversationVariableName]);
  }

  /** Clearing a conversation array-of-string variable, with an empty input selector. */
  method ClearArray(nodeId: string, conversationVariableId: string, conversationId: string)
    returns (got: Option<Variable>, ghost calls: seq<UpdaterCall>)
    ensures got.Some? && got.value.value == ArrStr([])
    ensures got.value == ArrayStringVariable(conversationVariableId, ConversationVariableName, [])
    ensures calls == [UpdateCall(conversationId, got.value), FlushCall]
    ensures UpdateCount(calls) == 1 && FlushCount(calls) == 1
  {
    var conversationVariable := ArrayStringVariable(conversationVariableId, ConversationVariableName, ["the first value"]);
    var pool := new VariablePool(SystemVariable(conversationId), [], [conversationVariable]);
    var updater := new ConversationVariableUpdater(map[]);
    var factory := new UpdaterFactory(updater);
    var data := NodeData("test", [ConversationScope, conversationVariable.name], Clear, []);
    var node := new VariableAssignerNode(nodeId, data, pool, factory);
    var _ := node.Run();
    calls := updater.calls;
    got := pool.Get([ConversationScope, ConversationVariableName]);
  }
}
