/**
 * env.cpp: name lookup in the environment chain.
 */
module Environment {

  import opened Syntax
  import opened Outcomes

  /** `Env::empty`: the one shared empty environment. */
  const Empty: Env := EmptyEnv

  /** The message of the `runtime_error` a failed lookup throws. */
  function FreeVariable(name: string): string
  {
    "free variable: " + name
  }

  /**
   * `EmptyEnv::lookup` and `ExtendedEnv::lookup`. The extended case does not
   * recurse into an empty `rest`: it throws the same message itself.
   */
  function Lookup(env: Env, findName: string): (r: Result<Val>)
    ensures r.Ok? || r == Fail(FreeVariable(findName))
  {
    match env
    case EmptyEnv => Fail(FreeVariable(findName))
    case ExtendedEnv(rest, name, val) =>
      if findName == name then Ok(val)
      else if !rest.ExtendedEnv? then Fail(FreeVariable(findName))
      else Lookup(rest, findName)
  }

  /** The environment read as a finite map: an inner binding overrides the outer ones. */
  function Bindings(env: Env): map<string, Val>
  {
    match env
    case EmptyEnv => map[]
    case ExtendedEnv(rest, name, val) => Bindings(rest)[name := val]
  }

  /** Lookup is exactly the map reading: found iff bound, and then the innermost value. */
  lemma {:induction false} LookupIsBindings(env: Env, x: string)
    ensures Lookup(env, x) == if x in Bindings(env) then Ok(Bindings(env)[x]) else Fail(FreeVariable(x))
  {
    match env
    case EmptyEnv =>
    case ExtendedEnv(rest, name, val) =>
      if x != name {
        LookupIsBindings(rest, x);
        if rest.EmptyEnv? {
          assert Bindings(rest) == map[];
        }
      }
  }

  /** Looking anything up in the empty environment fails. */
  lemma LookupEmpty(x: string)
    ensures Lookup(Empty, x) == Fail("free variable: " + x)
  {
  }

  /** Shadowing: the innermost binding of a name wins; a miss continues in `rest`, unchanged. */
  lemma LookupExtended(rest: Env, name: string, val: Val, x: string)
    ensures Lookup(ExtendedEnv(rest, name, val), x) == if x == name then Ok(val) else Lookup(rest, x)
  {
    LookupIsBindings(rest, x);
    LookupIsBindings(ExtendedEnv(rest, name, val), x);
  }
}
