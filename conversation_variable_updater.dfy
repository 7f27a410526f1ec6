/**
 * The durable-store port a conversation-scoped write goes through, and the
 * factory that hands one out per node execution. The store behind the port
 * is abstracted as a committed mapping plus the updates not yet flushed;
 * every call is recorded in a ghost log so that call counts can be stated.
 */
module ConversationUpdater {
  import opened Variables

  /** A durable conversation variable is keyed by its conversation and its id. */
  datatype StoreKey = StoreKey(conversationId: string, variableId: string)

  /** One call made on the port. */
  datatype UpdaterCall = UpdateCall(conversationId: string, variable: Variable) | FlushCall

  /** How many `update` calls a log holds. */
  function UpdateCount(calls: seq<UpdaterCall>): nat
  {
    if calls == [] then 0 else (if calls[0].UpdateCall? then 1 else 0) + UpdateCount(calls[1..])
  }

  /** How many `flush` calls a log holds. */
  function FlushCount(calls: seq<UpdaterCall>): nat
  {
    if calls == [] then 0 else (if calls[0].FlushCall? then 1 else 0) + FlushCount(calls[1..])
  }

  /** Counting distributes over concatenating two logs. */
  lemma {:induction false} CountsOfConcat(a: seq<UpdaterCall>, b: seq<UpdaterCall>)
    ensures UpdateCount(a + b) == UpdateCount(a) + UpdateCount(b)
    ensures FlushCount(a + b) == FlushCount(a) + FlushCount(b)
  {
    if a == [] {
      assert a + b == b;
    } else {
      assert (a + b)[1..] == a[1..] + b;
      CountsOfConcat(a[1..], b);
    }
  }

  /** One commit (an update followed by a flush) adds exactly one of each call. */
  lemma CommitCallsOnce(log: seq<UpdaterCall>, conversationId: string, variable: Variable)
    ensures UpdateCount(log + [UpdateCall(conversationId, variable), FlushCall]) == UpdateCount(log) + 1
    ensures FlushCount(log + [UpdateCall(conversationId, variable), FlushCall]) == FlushCount(log) + 1
  {
    var commit := [UpdateCall(conversationId, variable), FlushCall];
    CountsOfConcat(log, commit);
    assert commit[1..] == [FlushCall] && [FlushCall][1..] == [];
    assert UpdateCount([FlushCall]) == 0 && FlushCount([FlushCall]) == 1;
    assert UpdateCount(commit) == 1 && FlushCount(commit) == 1;
  }

  class ConversationVariableUpdater {
    /** Updates received and not yet flushed. */
    var pending: map<StoreKey, Variable>
    /** The durable view: what earlier flushes committed. */
    var committed: map<StoreKey, Variable>
    /** Every call made on this port, oldest first. */
    ghost var calls: seq<UpdaterCall>

    constructor (durable: map<StoreKey, Variable>)
      ensures pending == map[] && committed == durable && calls == []
    {
      pending := map[];
      committed := durable;
      calls := [];
    }

    /** Upserts `variable` as the conversation variable of `conversationId`, pending a flush. */
    method Update(conversationId: string, variable: Variable)
      modifies this
      ensures pending == old(pending)[StoreKey(conversationId, variable.id) := variable]
      ensures committed == old(committed)
      ensures calls == old(calls) + [UpdateCall(conversationId, variable)]
    {
      pending := pending[StoreKey(conversationId, variable.id) := variable];
      calls := calls + [UpdateCall(conversationId, variable)];
    }

    /** Commits every pending update to the durable view. */
    method Flush()
      modifies this
      ensures committed == old(committed) + old(pending)
      ensures pending == map[]
      ensures calls == old(calls) + [FlushCall]
    {
      committed := committed + pending;
      pending := map[];
      calls := calls + [FlushCall];
    }
  }

  /** The injected zero-argument factory; it hands out the updater it was built with. */
  class UpdaterFactory {
    const updater: ConversationVariableUpdater
    /** How many times the factory was invoked. */
    ghost var created: nat

    constructor (updater: ConversationVariableUpdater)
      ensures this.updater == updater && created == 0
    {
      this.updater := updater;
      created := 0;
    }

    method Create() returns (u: ConversationVariableUpdater)
      modifies this
      ensures u == updater && created == old(created) + 1
    {
      u := updater;
      created := created + 1;
    }
  }
}
