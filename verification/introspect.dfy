/** Introspection of the destination structure without reading values:
    VarInfo, GetAllVars, GetRequiredVars, ValidateRequired and collectVars
    (env.go:577-747). */
module Introspect {
  import opened Wrappers
  import opened Text
  import opened Errors
  import opened Strconv
  import opened Descriptor
  import opened Resolve
  import opened Walker

  /** What the parser would read for one tagged field. */
  datatype VarInfo = VarInfo(
    name: string,
    fieldName: string,
    fieldPath: string,
    required: bool,
    default: string,
    typeName: string,
    hasDefault: bool)

  /** The `required` tag as introspection reads it: a non-empty tag that
      reads as true. A tag that is not a boolean literal counts as not
      required here, although the parser itself rejects it. */
  predicate InfoRequired(f: Field) {
    var tag := TagGet(f.tags, "required");
    tag != "" && ParseBool(tag) == Parsed(true, None)
  }

  /** The record collectVars appends for a tagged field found at `path`. */
  function Info(f: Field, path: string, prefix: string): (v: VarInfo)
    ensures v.name == Key(f, prefix) && v.fieldName == f.name && v.fieldPath == path
    ensures v.required <==> InfoRequired(f)
    ensures v.hasDefault <==> v.default != ""
  {
    var default := TagGet(f.tags, "envDefault");
    VarInfo(prefix + TagGet(f.tags, "env"), f.name, path, InfoRequired(f), default, f.typeId, default != "")
  }

  /** collectVars (env.go:691-747) over fields `i..`: tagged fields in
      declaration order, each followed by the fields of its structure, and
      the fields of untagged structures in place. Pointers are not
      followed. */
  function CollectFields(fs: seq<Field>, i: nat, path: string, prefix: string): seq<VarInfo>
    requires i <= |fs|
    decreases fs, 1, |fs| - i
  {
    if i == |fs| then []
    else CollectField(fs[i], path, prefix) + CollectFields(fs, i + 1, path, prefix)
  }

  /** One iteration of collectVars. */
  function CollectField(f: Field, path: string, prefix: string): seq<VarInfo>
    decreases f, 0
  {
    var here := JoinPath(path, f.name);
    var nested := if f.kind.StructKind? then CollectFields(f.kind.fields, 0, here, prefix) else [];
    if TagGet(f.tags, "env") == "" then nested
    else [Info(f, here, prefix)] + nested
  }

  /** Every field of the tree below fields `i..`, each with its dotted path,
      in pre-order: a field comes before the fields of its structure.
      Only structure values are descended into, never pointers. */
  function Walk(fs: seq<Field>, i: nat, path: string): seq<(Field, string)>
    requires i <= |fs|
    decreases fs, 1, |fs| - i
  {
    if i == |fs| then []
    else WalkField(fs[i], path) + Walk(fs, i + 1, path)
  }

  function WalkField(f: Field, path: string): seq<(Field, string)>
    decreases f, 0
  {
    var here := JoinPath(path, f.name);
    [(f, here)] + (if f.kind.StructKind? then Walk(f.kind.fields, 0, here) else [])
  }

  predicate EnvTagged(f: Field) {
    TagGet(f.tags, "env") != ""
  }

  /** The walked fields that carry an `env` tag, in walk order. */
  function TaggedOnly(ws: seq<(Field, string)>): (r: seq<(Field, string)>)
    ensures forall w :: w in r <==> w in ws && EnvTagged(w.0)
  {
    if |ws| == 0 then []
    else (if EnvTagged(ws[0].0) then [ws[0]] else []) + TaggedOnly(ws[1..])
  }

  lemma {:induction false} TaggedOnlyAppend(a: seq<(Field, string)>, b: seq<(Field, string)>)
    ensures TaggedOnly(a + b) == TaggedOnly(a) + TaggedOnly(b)
    decreases |a|
  {
    if |a| > 0 {
      assert (a + b)[1..] == a[1..] + b;
      TaggedOnlyAppend(a[1..], b);
    } else {
      assert a + b == b;
    }
  }

  /** One record per walked field. */
  function Infos(ws: seq<(Field, string)>, prefix: string): (r: seq<VarInfo>)
    ensures |r| == |ws|
    ensures forall k :: 0 <= k < |ws| ==> r[k] == Info(ws[k].0, ws[k].1, prefix)
  {
    seq(|ws|, k requires 0 <= k < |ws| => Info(ws[k].0, ws[k].1, prefix))
  }

  lemma InfosAppend(a: seq<(Field, string)>, b: seq<(Field, string)>, prefix: string)
    ensures Infos(a + b, prefix) == Infos(a, prefix) + Infos(b, prefix)
  {
  }

  /** collectVars lists exactly the env-tagged fields of a pre-order walk of
      the structure tree, one record each, in walk order: the interleaving
      of appends and recursive calls flattens to a filter. */
  lemma {:induction false} CollectFieldsWalk(fs: seq<Field>, i: nat, path: string, prefix: string)
    requires i <= |fs|
    ensures CollectFields(fs, i, path, prefix) == Infos(TaggedOnly(Walk(fs, i, path)), prefix)
    decreases fs, 1, |fs| - i
  {
    if i < |fs| {
      CollectFieldWalk(fs[i], path, prefix);
      CollectFieldsWalk(fs, i + 1, path, prefix);
      TaggedOnlyAppend(WalkField(fs[i], path), Walk(fs, i + 1, path));
      InfosAppend(TaggedOnly(WalkField(fs[i], path)), TaggedOnly(Walk(fs, i + 1, path)), prefix);
    }
  }

  lemma {:induction false} CollectFieldWalk(f: Field, path: string, prefix: string)
    ensures CollectField(f, path, prefix) == Infos(TaggedOnly(WalkField(f, path)), prefix)
    decreases f, 0
  {
    var here := JoinPath(path, f.name);
    var below := if f.kind.StructKind? then Walk(f.kind.fields, 0, here) else [];
    if f.kind.StructKind? {
      CollectFieldsWalk(f.kind.fields, 0, here, prefix);
    }
    var top := if EnvTagged(f) then [(f, here)] else [];
    TaggedOnlyAppend([(f, here)], below);
    TaggedOnlyOne((f, here));
    InfosAppend(top, TaggedOnly(below), prefix);
    assert Infos(top, prefix) == if EnvTagged(f) then [Info(f, here, prefix)] else [];
  }

  lemma TaggedOnlyOne(w: (Field, string))
    ensures TaggedOnly([w]) == if EnvTagged(w.0) then [w] else []
  {
    assert [w][1..] == [];
  }

  /** GetAllVars (env.go:613-626). Unlike the parser it accepts any prefix. */
  function GetAllVars(v: Kind, prefix: string): (r: Result<seq<VarInfo>, Error>)
    ensures r.Failure? <==> !IsStructPtr(v)
    ensures r.Failure? ==> r.error == NotAStructPtr
  {
    if IsStructPtr(v) then Success(CollectFields(v.target.value.fields, 0, "", prefix))
    else Failure(NotAStructPtr)
  }

  /** GetAllVars describes the env-tagged fields of the walk from the top
      structure, one record each, in walk order. */
  lemma GetAllVarsIsTaggedWalk(v: Kind, prefix: string)
    requires IsStructPtr(v)
    ensures GetAllVars(v, prefix).value == Infos(TaggedOnly(Walk(v.target.value.fields, 0, "")), prefix)
  {
    CollectFieldsWalk(v.target.value.fields, 0, "", prefix);
  }

  /** A record is listed exactly when it describes some env-tagged field of
      the walk, at any depth. */
  lemma ListedIffTagged(v: Kind, prefix: string, x: VarInfo)
    requires IsStructPtr(v)
    ensures x in GetAllVars(v, prefix).value <==>
      exists w :: w in Walk(v.target.value.fields, 0, "") && EnvTagged(w.0) && x == Info(w.0, w.1, prefix)
  {
    GetAllVarsIsTaggedWalk(v, prefix);
    InfosMember(TaggedOnly(Walk(v.target.value.fields, 0, "")), prefix, x);
  }

  lemma InfosMember(ws: seq<(Field, string)>, prefix: string, x: VarInfo)
    ensures x in Infos(ws, prefix) <==> exists w :: w in ws && x == Info(w.0, w.1, prefix)
  {
    if x in Infos(ws, prefix) {
      var k :| 0 <= k < |ws| && Infos(ws, prefix)[k] == x;
      assert ws[k] in ws;
    }
  }

  /** The walk reaches every field of fields `i..` under its own path and,
      below a structure field, everything the walk of that structure
      reaches, so nesting composes to any depth. */
  lemma {:induction false} WalkReaches(fs: seq<Field>, i: nat, j: nat, path: string)
    requires i <= j < |fs|
    ensures (fs[j], JoinPath(path, fs[j].name)) in Walk(fs, i, path)
    ensures fs[j].kind.StructKind? ==>
      forall w :: w in Walk(fs[j].kind.fields, 0, JoinPath(path, fs[j].name)) ==> w in Walk(fs, i, path)
    decreases |fs| - i
  {
    if i < j {
      WalkReaches(fs, i + 1, j, path);
    } else {
      assert WalkField(fs[j], path)[0] == (fs[j], JoinPath(path, fs[j].name));
    }
  }

  /** The names of the required variables, in order. */
  function RequiredNames(vars: seq<VarInfo>): (names: seq<string>)
    ensures |names| <= |vars|
  {
    if |vars| == 0 then []
    else (if vars[0].required then [vars[0].name] else []) + RequiredNames(vars[1..])
  }

  /** A name is listed exactly when some required record carries it. */
  lemma {:induction false} RequiredNamesMembers(vars: seq<VarInfo>, n: string)
    ensures n in RequiredNames(vars) <==> exists i :: 0 <= i < |vars| && vars[i].required && vars[i].name == n
  {
    if |vars| > 0 {
      RequiredNamesMembers(vars[1..], n);
      if n in RequiredNames(vars[1..]) {
        var i :| 0 <= i < |vars[1..]| && vars[1..][i].required && vars[1..][i].name == n;
        assert vars[i + 1] == vars[1..][i];
      }
      if exists i :: 0 <= i < |vars| && vars[i].required && vars[i].name == n {
        var i :| 0 <= i < |vars| && vars[i].required && vars[i].name == n;
        if i > 0 {
          assert vars[1..][i - 1] == vars[i];
        }
      }
    }
  }

  /** Filtering distributes over concatenation, so the list keeps the
      declaration order. */
  lemma {:induction false} RequiredNamesAppend(a: seq<VarInfo>, b: seq<VarInfo>)
    ensures RequiredNames(a + b) == RequiredNames(a) + RequiredNames(b)
    decreases |a|
  {
    if |a| > 0 {
      assert (a + b)[1..] == a[1..] + b;
      RequiredNamesAppend(a[1..], b);
    } else {
      assert a + b == b;
    }
  }

  /** GetRequiredVars (env.go:644-659). */
  function GetRequiredVars(v: Kind, prefix: string): (r: Result<seq<string>, Error>)
    ensures r.Failure? <==> !IsStructPtr(v)
    ensures r.Success? ==> r.value == RequiredNames(GetAllVars(v, prefix).value)
    ensures r.Success? ==> forall n :: n in r.value <==>
      (exists i :: 0 <= i < |GetAllVars(v, prefix).value| &&
        GetAllVars(v, prefix).value[i].required && GetAllVars(v, prefix).value[i].name == n)
  {
    match GetAllVars(v, prefix)
    case Failure(e) => Failure(e)
    case Success(vars) =>
      assert forall n :: n in RequiredNames(vars) <==>
        exists i :: 0 <= i < |vars| && vars[i].required && vars[i].name == n by {
        forall n { RequiredNamesMembers(vars, n); }
      }
      Success(RequiredNames(vars))
  }

  /** The names absent from the environment, in order. */
  function Absent(names: seq<string>, env: Env): (missing: seq<string>)
    ensures forall n :: n in missing <==> n in names && n !in env
  {
    MissingMembers(names, env);
    Missing(names, env)
  }

  /** The loop of ValidateRequired over the required names. */
  function Missing(names: seq<string>, env: Env): seq<string> {
    if |names| == 0 then []
    else (if names[0] !in env then [names[0]] else []) + Missing(names[1..], env)
  }

  lemma {:induction false} MissingMembers(names: seq<string>, env: Env)
    ensures forall n :: n in Missing(names, env) <==> n in names && n !in env
  {
    if |names| > 0 {
      MissingMembers(names[1..], env);
      assert names == [names[0]] + names[1..];
    }
  }

  lemma {:induction false} MissingAppend(a: seq<string>, b: seq<string>, env: Env)
    ensures Missing(a + b, env) == Missing(a, env) + Missing(b, env)
    decreases |a|
  {
    if |a| > 0 {
      assert (a + b)[1..] == a[1..] + b;
      MissingAppend(a[1..], b, env);
    } else {
      assert a + b == b;
    }
  }

  /** The missing list keeps the order of the required names and their
      duplicates: it distributes over concatenation, and a single name is
      listed exactly when absent. */
  lemma AbsentAppend(a: seq<string>, b: seq<string>, env: Env)
    ensures Absent(a + b, env) == Absent(a, env) + Absent(b, env)
    ensures |a| == 1 ==> Absent(a, env) == if a[0] in env then [] else [a[0]]
  {
    MissingAppend(a, b, env);
    if |a| == 1 {
      assert Missing(a[1..], env) == [];
    }
  }

  /** ValidateRequired (env.go:672-689). */
  function ValidateRequired(v: Kind, prefix: string, env: Env): (r: Option<Error>)
    ensures r.None? <==> IsStructPtr(v) && forall n :: n in GetRequiredVars(v, prefix).value ==> n in env
    ensures r.Some? && IsStructPtr(v) ==>
      r.value.MissingVars? &&
      forall n :: n in r.value.names <==> n in GetRequiredVars(v, prefix).value && n !in env
    ensures !IsStructPtr(v) ==> r == Some(NotAStructPtr)
    ensures r.Some? && IsStructPtr(v) ==> r.value.names == Absent(GetRequiredVars(v, prefix).value, env)
  {
    match GetRequiredVars(v, prefix)
    case Failure(e) => Some(e)
    case Success(names) =>
      var missing := Absent(names, env);
      if |missing| > 0 then
        assert missing[0] in names && missing[0] !in env;
        Some(MissingVars(missing))
      else None
  }

  /** Every tagged field among fields `i..` has its record in the list. */
  lemma {:induction false} TaggedFieldListed(fs: seq<Field>, i: nat, j: nat, path: string, prefix: string)
    requires i <= j < |fs| && TagGet(fs[j].tags, "env") != ""
    ensures Info(fs[j], JoinPath(path, fs[j].name), prefix) in CollectFields(fs, i, path, prefix)
    decreases |fs| - i
  {
    if i < j {
      TaggedFieldListed(fs, i + 1, j, path, prefix);
    }
  }

  /** Passing ValidateRequired rules out the parser's missing-variable error
      for every tagged top-level field: a field the parser treats as
      required is listed as required, and its variable is present. */
  lemma ValidatedFieldNotMissing(v: Kind, j: nat, prefix: string, env: Env, svc: Services)
    requires IsStructPtr(v) && j < |v.target.value.fields|
    requires TagGet(v.target.value.fields[j].tags, "env") != ""
    requires ValidateRequired(v, prefix, env).None?
    ensures Get(v.target.value.fields[j], prefix, env, svc) != Failure(MissingRequired(Key(v.target.value.fields[j], prefix)))
  {
    var fs := v.target.value.fields;
    var f := fs[j];
    TaggedFieldListed(fs, 0, j, "", prefix);
    var vars := GetAllVars(v, prefix).value;
    var info := Info(f, JoinPath("", f.name), prefix);
    if RequiredTagTrue(f) {
      var k :| 0 <= k < |vars| && vars[k] == info;
      assert info.required;
      assert Key(f, prefix) in GetRequiredVars(v, prefix).value;
    }
  }

  /** The records with every name renamed by a prefix. */
  function Prefixed(vars: seq<VarInfo>, prefix: string): (r: seq<VarInfo>)
    ensures |r| == |vars|
    ensures forall i :: 0 <= i < |vars| ==> r[i] == vars[i].(name := prefix + vars[i].name)
  {
    seq(|vars|, i requires 0 <= i < |vars| => vars[i].(name := prefix + vars[i].name))
  }

  lemma PrefixedAppend(a: seq<VarInfo>, b: seq<VarInfo>, prefix: string)
    ensures Prefixed(a + b, prefix) == Prefixed(a, prefix) + Prefixed(b, prefix)
  {
  }

  /** A prefix changes nothing but the names, each of which it prepends. */
  lemma {:induction false} CollectFieldsPrefix(fs: seq<Field>, i: nat, path: string, prefix: string)
    requires i <= |fs|
    ensures CollectFields(fs, i, path, prefix) == Prefixed(CollectFields(fs, i, path, ""), prefix)
    decreases fs, 1, |fs| - i
  {
    if i < |fs| {
      CollectFieldPrefix(fs[i], path, prefix);
      CollectFieldsPrefix(fs, i + 1, path, prefix);
      PrefixedAppend(CollectField(fs[i], path, ""), CollectFields(fs, i + 1, path, ""), prefix);
    }
  }

  lemma {:induction false} CollectFieldPrefix(f: Field, path: string, prefix: string)
    ensures CollectField(f, path, prefix) == Prefixed(CollectField(f, path, ""), prefix)
    decreases f, 0
  {
    var here := JoinPath(path, f.name);
    if f.kind.StructKind? {
      CollectFieldsPrefix(f.kind.fields, 0, here, prefix);
    }
    if TagGet(f.tags, "env") != "" {
      assert "" + TagGet(f.tags, "env") == TagGet(f.tags, "env");
      assert Info(f, here, prefix) == Info(f, here, "").(name := prefix + Info(f, here, "").name);
      var nested := if f.kind.StructKind? then CollectFields(f.kind.fields, 0, here, "") else [];
      PrefixedAppend([Info(f, here, "")], nested, prefix);
    }
  }

  /** GetAllVars under a prefix lists the same records as without one, with
      the prefix prepended to each name. */
  lemma GetAllVarsPrefix(v: Kind, prefix: string)
    requires IsStructPtr(v)
    ensures GetAllVars(v, prefix).value == Prefixed(GetAllVars(v, "").value, prefix)
  {
    CollectFieldsPrefix(v.target.value.fields, 0, "", prefix);
  }

  /** A configuration with a tagged field and an untagged nested structure
      holding one tagged field. */
  function NestedConfig(): Kind {
    var inner := Field("NestedValue", true, "string", false, map["env" := "NESTED_VALUE"], StringKind);
    var top := Field("TopValue", true, "string", false, map["env" := "TOP_VALUE"], StringKind);
    var nested := Field("Nested", true, "NestedConfig", false, map[], StructKind("NestedConfig", [inner]));
    PtrKind(Some(StructKind("Config", [top, nested])))
  }

  /** An untagged structure field contributes its own tagged fields, with
      the field path running through it. */
  lemma NestedExample()
    ensures GetAllVars(NestedConfig(), "") == Success([
      VarInfo("TOP_VALUE", "TopValue", "TopValue", false, "", "string", false),
      VarInfo("NESTED_VALUE", "NestedValue", "Nested.NestedValue", false, "", "string", false)])
  {
    var fs := NestedConfig().target.value.fields;
    var top := fs[0];
    var nested := fs[1];
    var inner := nested.kind.fields[0];
    assert JoinPath("Nested", "NestedValue") == "Nested.NestedValue";
    assert JoinPath("", "TopValue") == "TopValue";
    assert TagGet(inner.tags, "env") == "NESTED_VALUE" && TagGet(top.tags, "env") == "TOP_VALUE";
    assert TagGet(inner.tags, "required") == "" && TagGet(top.tags, "required") == "";
    assert TagGet(inner.tags, "envDefault") == "" && TagGet(top.tags, "envDefault") == "";
    assert Info(inner, "Nested.NestedValue", "") ==
      VarInfo("NESTED_VALUE", "NestedValue", "Nested.NestedValue", false, "", "string", false);
    assert Info(top, "TopValue", "") == VarInfo("TOP_VALUE", "TopValue", "TopValue", false, "", "string", false);
    assert TagGet(nested.tags, "env") == "";
    assert CollectField(inner, "Nested", "") ==
      [VarInfo("NESTED_VALUE", "NestedValue", "Nested.NestedValue", false, "", "string", false)];
    assert CollectFields([inner], 0, "Nested", "") == CollectField(inner, "Nested", "");
    assert CollectField(top, "", "") == [VarInfo("TOP_VALUE", "TopValue", "TopValue", false, "", "string", false)];
    assert JoinPath("", "Nested") == "Nested";
    assert CollectField(nested, "", "") == CollectFields([inner], 0, "Nested", "");
    assert CollectFields(fs, 2, "", "") == [];
    assert CollectFields(fs, 1, "", "") == CollectField(nested, "", "");
    assert CollectFields(fs, 0, "", "") == CollectField(top, "", "") + CollectFields(fs, 1, "", "");
    assert CollectFields(fs, 0, "", "") == [
      VarInfo("TOP_VALUE", "TopValue", "TopValue", false, "", "string", false),
      VarInfo("NESTED_VALUE", "NestedValue", "Nested.NestedValue", false, "", "string", false)];
    assert IsStructPtr(NestedConfig());
    assert GetAllVars(NestedConfig(), "") == Success(CollectFields(fs, 0, "", ""));
  }
}
