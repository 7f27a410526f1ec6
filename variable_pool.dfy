/**
 * The selector-keyed variable pool shared by every node of one workflow run.
 * Lookups are by exact selector; a write to an existing selector replaces
 * the variable that was there.
 */
module Pool {
  import opened Wrappers
  import opened Variables

  /** Reserved first segment of conversation-scoped selectors. */
  const ConversationScope: string := "conversation"
  /** Reserved first segment of environment-scoped selectors. */
  const EnvironmentScope: string := "env"

  /** Run-level facts the engine provides; read-only once the pool exists. */
  datatype SystemVariable = SystemVariable(conversationId: string)

  /** A selector whose scope is the conversation scope. */
  predicate IsConversationScoped(selector: Selector)
  {
    |selector| > 0 && selector[0] == ConversationScope
  }

  /** Exact-match lookup in a pool's mapping. */
  function Lookup(variables: map<Selector, Variable>, selector: Selector): Option<Variable>
  {
    if selector in variables then Some(variables[selector]) else None
  }

  /** The selectors that seeding `vars` into `scope` creates. */
  ghost function ScopeKeys(scope: string, vars: seq<Variable>): set<Selector>
  {
    set v | v in vars :: [scope, v.name]
  }

  /**
   * `m` with every variable of `vars` added, in order, under `[scope, name]`;
   * a later variable with the same name replaces an earlier one.
   */
  function Seed(m: map<Selector, Variable>, scope: string, vars: seq<Variable>): (r: map<Selector, Variable>)
    ensures r.Keys == m.Keys + ScopeKeys(scope, vars)
    decreases |vars|
  {
    if vars == [] then m
    else
      var last := vars[|vars| - 1];
      var r' := Seed(m, scope, vars[..|vars| - 1]);
      assert ScopeKeys(scope, vars) == ScopeKeys(scope, vars[..|vars| - 1]) + {[scope, last.name]} by {
        assert vars == vars[..|vars| - 1] + [last];
      }
      r'[[scope, last.name] := last]
  }

  /** The last variable of `vars` called `name`, if there is one. */
  function LastNamed(vars: seq<Variable>, name: string): (r: Option<Variable>)
    ensures r.None? <==> forall i :: 0 <= i < |vars| ==> vars[i].name != name
    ensures r.Some? ==> exists i :: 0 <= i < |vars| && vars[i] == r.value && r.value.name == name &&
                                     forall j :: i < j < |vars| ==> vars[j].name != name
    decreases |vars|
  {
    if vars == [] then None
    else if vars[|vars| - 1].name == name then Some(vars[|vars| - 1])
    else
      var r := LastNamed(vars[..|vars| - 1], name);
      assert forall i :: 0 <= i < |vars| - 1 ==> vars[..|vars| - 1][i] == vars[i];
      r
  }

  /** With pairwise distinct names, each variable is the last one of its name. */
  lemma UniqueNamesResolve(vars: seq<Variable>, k: nat)
    requires k < |vars|
    requires forall i, j :: 0 <= i < j < |vars| ==> vars[i].name != vars[j].name
    ensures LastNamed(vars, vars[k].name) == Some(vars[k])
  {
  }

  /**
   * After seeding, `[scope, name]` resolves to the last variable of that name,
   * and every selector outside what was seeded keeps its entry in `m`.
   */
  lemma {:induction false} SeedLookup(m: map<Selector, Variable>, scope: string, vars: seq<Variable>, selector: Selector)
    ensures var r := Seed(m, scope, vars);
      if |selector| == 2 && selector[0] == scope && LastNamed(vars, selector[1]).Some?
      then Lookup(r, selector) == LastNamed(vars, selector[1])
      else Lookup(r, selector) == Lookup(m, selector)
    decreases |vars|
  {
    if vars != [] {
      SeedLookup(m, scope, vars[..|vars| - 1], selector);
      if |selector| == 2 && selector[0] == scope {
        assert selector == [scope, selector[1]];
      }
    }
  }

  /** The mapping a freshly constructed pool holds: environment, then conversation variables. */
  function SeededVariables(environmentVariables: seq<Variable>, conversationVariables: seq<Variable>): map<Selector, Variable>
  {
    Seed(Seed(map[], EnvironmentScope, environmentVariables), ConversationScope, conversationVariables)
  }

  /**
   * A fresh pool resolves `["conversation", name]` to the last conversation
   * variable of that name and `["env", name]` to the last environment
   * variable of that name, and nothing else.
   */
  lemma SeededPoolResolves(environmentVariables: seq<Variable>, conversationVariables: seq<Variable>, selector: Selector)
    ensures var m := SeededVariables(environmentVariables, conversationVariables);
      && (|selector| == 2 && selector[0] == ConversationScope ==>
            Lookup(m, selector) == LastNamed(conversationVariables, selector[1]))
      && (|selector| == 2 && selector[0] == EnvironmentScope ==>
            Lookup(m, selector) == LastNamed(environmentVariables, selector[1]))
      && (|selector| != 2 || (selector[0] != ConversationScope && selector[0] != EnvironmentScope) ==>
            Lookup(m, selector) == None)
  {
    var env := Seed(map[], EnvironmentScope, environmentVariables);
    SeedLookup(map[], EnvironmentScope, environmentVariables, selector);
    SeedLookup(env, ConversationScope, conversationVariables, selector);
  }

  class VariablePool {
    /** Every variable of the run, keyed by its selector. */
    var variables: map<Selector, Variable>
    const systemVariables: SystemVariable

    /** Seeds environment variables under "env" and conversation variables under "conversation". */
    constructor (systemVariables: SystemVariable, environmentVariables: seq<Variable>, conversationVariables: seq<Variable>)
      ensures this.systemVariables == systemVariables
      ensures variables == SeededVariables(environmentVariables, conversationVariables)
    {
      this.systemVariables := systemVariables;
      var m: map<Selector, Variable> := map[];
      for i := 0 to |environmentVariables|
        invariant m == Seed(map[], EnvironmentScope, environmentVariables[..i])
      {
        var v := environmentVariables[i];
        assert environmentVariables[..i + 1][..i] == environmentVariables[..i];
        m := m[[EnvironmentScope, v.name] := v];
      }
      assert environmentVariables[..|environmentVariables|] == environmentVariables;
      var env := m;
      for i := 0 to |conversationVariables|
        invariant m == Seed(env, ConversationScope, conversationVariables[..i])
      {
        var v := conversationVariables[i];
        assert conversationVariables[..i + 1][..i] == conversationVariables[..i];
        m := m[[ConversationScope, v.name] := v];
      }
      assert conversationVariables[..|conversationVariables|] == conversationVariables;
      variables := m;
    }

    /** Inserts `variable` at `selector`, replacing what was there; nothing else changes. */
    method Add(selector: Selector, variable: Variable)
      modifies this
      ensures variables == old(variables)[selector := variable]
    {
      variables := variables[selector := variable];
    }

    /** Exact-match lookup; absence is a `None`, not an error. */
    method Get(selector: Selector) returns (r: Option<Variable>)
      ensures r.Some? <==> selector in variables
      ensures r.Some? ==> r.value == variables[selector]
    {
      if selector in variables {
        r := Some(variables[selector]);
      } else {
        r := None;
      }
    }
  }
}
