/** Value resolution for one field: the `get` function of env.go:217-251.
    The key is the prefix followed by the `env` tag; a present variable beats
    the `envDefault` tag, which beats the empty string; a missing required
    variable and a malformed `required` tag are errors; expansion is applied
    last when `envExpand` lower-cases to "true". */
module Resolve {
  import opened Wrappers
  import opened Text
  import opened Errors
  import opened Strconv
  import opened Descriptor

  /** The environment variable a field reads. */
  function Key(f: Field, prefix: string): string {
    prefix + TagGet(f.tags, "env")
  }

  /** The field has a `required` tag that is not a boolean literal. */
  predicate RequiredTagMalformed(f: Field) {
    "required" in f.tags && !ParseBool(f.tags["required"]).Ok()
  }

  /** The field has a `required` tag that reads as true. */
  predicate RequiredTagTrue(f: Field) {
    "required" in f.tags && ParseBool(f.tags["required"]) == Parsed(true, None)
  }

  /** The field asks for variable expansion. */
  predicate Expands(f: Field) {
    ToLower(TagGet(f.tags, "envExpand")) == "true"
  }

  /** The value before expansion: the variable if present, else the default
      tag, else "". */
  function Unexpanded(f: Field, prefix: string, env: Env): string {
    var key := Key(f, prefix);
    if key in env then env[key] else TagGet(f.tags, "envDefault")
  }

  /** get (env.go:217-251). */
  function Get(f: Field, prefix: string, env: Env, svc: Services): (r: Result<string, Error>)
    ensures r.Failure? <==> RequiredTagMalformed(f) || (Key(f, prefix) !in env && RequiredTagTrue(f))
    ensures RequiredTagMalformed(f) ==>
      r == Failure(InvalidRequiredTag(f.tags["required"], NumError("ParseBool", f.tags["required"], ErrSyntax)))
    ensures !RequiredTagMalformed(f) && Key(f, prefix) !in env && RequiredTagTrue(f) ==>
      r == Failure(MissingRequired(Key(f, prefix)))
    ensures r.Success? && !Expands(f) ==> r.value == Unexpanded(f, prefix, env)
    ensures r.Success? && Expands(f) ==> r.value == svc.expandEnv(env, Unexpanded(f, prefix, env))
  {
    var key := prefix + TagGet(f.tags, "env");
    var required :=
      if "required" in f.tags then ParseBool(f.tags["required"]) else Parsed(false, None);
    if required.err.Some? then
      Failure(InvalidRequiredTag(f.tags["required"], required.err.value))
    else
      var found := key in env;
      if !found && required.value then
        Failure(MissingRequired(key))
      else
        var value := if found then env[key] else TagGet(f.tags, "envDefault");
        if ToLower(TagGet(f.tags, "envExpand")) == "true" then Success(svc.expandEnv(env, value))
        else Success(value)
  }

  /** The environment as seen through a prefix: every variable whose name
      starts with `prefix`, renamed without it. */
  function Unprefixed(env: Env, prefix: string): (e: Env)
    ensures forall k :: k in e <==> prefix + k in env
    ensures forall k :: k in e ==> e[k] == env[prefix + k]
  {
    var names := set k | k in env && |prefix| <= |k| && k[..|prefix|] == prefix :: k[|prefix|..];
    assert forall k :: prefix + k in env ==> k in names by {
      forall k | prefix + k in env ensures k in names {
        var full := prefix + k;
        assert full[..|prefix|] == prefix && full[|prefix|..] == k;
      }
    }
    assert forall k :: k in names ==> prefix + k in env by {
      forall k | k in names ensures prefix + k in env {
        var full :| full in env && |prefix| <= |full| && full[..|prefix|] == prefix && full[|prefix|..] == k;
        assert full == prefix + k;
      }
    }
    map k | k in names :: env[prefix + k]
  }

  /** Without expansion, resolving under a prefix is resolving without one in
      the environment seen through that prefix: the prefix only renames the
      variables read, and the error for a missing variable names the full
      key. */
  lemma GetUnderPrefix(f: Field, prefix: string, env: Env, svc: Services)
    requires !Expands(f)
    ensures Get(f, prefix, env, svc).Success? <==> Get(f, "", Unprefixed(env, prefix), svc).Success?
    ensures Get(f, prefix, env, svc).Success? ==>
      Get(f, prefix, env, svc).value == Get(f, "", Unprefixed(env, prefix), svc).value
  {
    var e := Unprefixed(env, prefix);
    var tag := TagGet(f.tags, "env");
    assert Key(f, "") == tag;
    assert (Key(f, prefix) in env) <==> (tag in e);
  }
}
