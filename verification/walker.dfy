/** The reflective walk over the destination structure: the Parse family,
    ParseWithPrefixFuncs and doParse of env.go:102-215. Instead of mutating
    the structure the walk returns the assignments it makes, in order; each
    one is also the call the OnEnvVarSet callback would receive.

    The walk is stated over its two per-field steps, get (env.go:217-251)
    and set (env.go:253-335), passed in a `Steps` record, so that what is
    proved about the walk holds whatever those steps do; `StepsFor` supplies
    the package's own Get and Set, and the public entry points use it. */
module Walker {
  import opened Wrappers
  import opened Text
  import opened Errors
  import opened Strconv
  import opened Descriptor
  import opened Resolve
  import opened Convert

  /** One assignment: the field names leading from the target structure to
      the field (through followed pointers), the raw string and the value. */
  datatype Write = Write(loc: seq<string>, raw: string, value: Value)

  /** Where a walk over some fields stands: errors collected so far, or an
      error that ended the whole parse. */
  datatype Status = Collected(errs: seq<Error>) | Aborted(err: Error)

  datatype Walked = Walked(status: Status, writes: seq<Write>)

  /** What a parse call returns (the error, nil as None) together with the
      assignments it made before returning. */
  datatype Outcome = Outcome(err: Option<Error>, writes: seq<Write>)

  /** The prefix of the parse and the two per-field steps of doParse: the
      raw value of a field, and its conversion from a non-empty string. */
  datatype Steps = Steps(prefix: string,
                         read: Field -> Result<string, Error>,
                         convert: (Field, string) -> Result<Value, Error>)

  /** The steps of a parse with the given prefix, variables, custom parsers
      and services: Resolve.Get and Convert.Set. */
  function StepsFor(prefix: string, env: Env, funcs: CustomParsers, svc: Services): (st: Steps)
    ensures st.prefix == prefix
    ensures forall f :: st.read(f) == Get(f, prefix, env, svc)
    ensures forall f, value :: st.convert(f, value) == Set(f, value, funcs, svc)
  {
    Steps(prefix, f => Get(f, prefix, env, svc), (f, value) => Set(f, value, funcs, svc))
  }

  /** A prefix is accepted when empty or ending in an underscore. */
  predicate ValidPrefix(prefix: string) {
    prefix == "" || HasSuffix(prefix, "_")
  }

  /** The target is a non-nil pointer to a structure. */
  predicate IsStructPtr(v: Kind) {
    v.PtrKind? && v.target.Some? && v.target.value.StructKind?
  }

  /** The field is a non-nil, settable pointer, which the walk follows as a
      parse of its own instead of reading a variable for it. */
  predicate Follows(f: Field) {
    f.kind.PtrKind? && f.kind.target.Some? && f.exported
  }

  /** The dotted path of a field under its parent's path. */
  function JoinPath(parent: string, name: string): string {
    if parent == "" then name else parent + "." + name
  }

  /** `a` is a location strictly inside `b`. */
  predicate Under(a: seq<string>, b: seq<string>) {
    |b| < |a| && a[..|b|] == b
  }

  predicate WritesUnder(ws: seq<Write>, loc: seq<string>) {
    forall i :: 0 <= i < |ws| ==> Under(ws[i].loc, loc)
  }

  /** The shape of every error a walk reports: a failure wrapped with its
      field's path and structure, the struct-pointer error of a followed
      pointer, or a non-empty list of such errors from a nested walk. */
  predicate Reported(e: Error)
    decreases e
  {
    match e
    case FieldError(_, _, _) => true
    case NotAStructPtr => true
    case ParseErrors(errs) => |errs| >= 1 && forall i :: 0 <= i < |errs| ==> Reported(errs[i])
    case _ => false
  }

  predicate StatusReported(s: Status) {
    match s
    case Aborted(e) => Reported(e)
    case Collected(errs) => forall i :: 0 <= i < |errs| ==> Reported(errs[i])
  }

  /** ParseWithPrefixFuncs (env.go:142-156) on a target `v` found at `loc`. */
  function ParseTarget(v: Kind, loc: seq<string>, st: Steps): (o: Outcome)
    ensures !ValidPrefix(st.prefix) ==> o == Outcome(Some(InvalidPrefix(st.prefix)), [])
    ensures ValidPrefix(st.prefix) && !IsStructPtr(v) ==> o == Outcome(Some(NotAStructPtr), [])
    ensures ValidPrefix(st.prefix) && o.err.Some? ==> Reported(o.err.value)
    ensures WritesUnder(o.writes, loc)
    decreases v, 0
  {
    if !ValidPrefix(st.prefix) then Outcome(Some(InvalidPrefix(st.prefix)), [])
    else match v
      case PtrKind(Some(StructKind(name, fs))) => DoParse(fs, name, "", loc, st)
      case _ => Outcome(Some(NotAStructPtr), [])
  }

  /** doParse (env.go:158-215): nil when every field went through, the
      collected errors as ParseErrors otherwise, or the error of a followed
      pointer, which discards everything collected before it. */
  function DoParse(fs: seq<Field>, structName: string, path: string, loc: seq<string>,
                   st: Steps): (o: Outcome)
    ensures ValidPrefix(st.prefix) && o.err.Some? ==> Reported(o.err.value)
    ensures WritesUnder(o.writes, loc)
    decreases fs, 2
  {
    var w := WalkFields(fs, 0, structName, path, loc, st);
    match w.status
    case Aborted(e) => Outcome(Some(e), w.writes)
    case Collected(errs) => Outcome(if |errs| == 0 then None else Some(ParseErrors(errs)), w.writes)
  }

  /** The loop of doParse over fields `i..`. */
  function WalkFields(fs: seq<Field>, i: nat, structName: string, path: string, loc: seq<string>,
                      st: Steps): (w: Walked)
    requires i <= |fs|
    ensures ValidPrefix(st.prefix) ==> StatusReported(w.status)
    ensures WritesUnder(w.writes, loc)
    decreases fs, 1, |fs| - i
  {
    if i == |fs| then Walked(Collected([]), [])
    else
      var h := VisitField(fs[i], structName, path, loc, st);
      if h.status.Aborted? then h
      else
        var t := WalkFields(fs, i + 1, structName, path, loc, st);
        var status := if t.status.Aborted? then t.status else Collected(h.status.errs + t.status.errs);
        Walked(status, h.writes + t.writes)
  }

  /** One iteration of the loop of doParse. */
  function VisitField(f: Field, structName: string, path: string, loc: seq<string>,
                      st: Steps): (w: Walked)
    ensures w.status.Aborted? ==> Follows(f)
    ensures ValidPrefix(st.prefix) ==> StatusReported(w.status)
    ensures WritesUnder(w.writes, loc)
    decreases f, 0
  {
    var here := JoinPath(path, f.name);
    var at := loc + [f.name];
    if Follows(f) then
      var o := ParseTarget(f.kind, at, st);
      PrefixOfLonger(o.writes, at, loc);
      Walked(if o.err.Some? then Aborted(o.err.value) else Collected([]), o.writes)
    else match st.read(f)
      case Failure(e) => Walked(Collected([FieldError(here, structName, e)]), [])
      case Success(value) =>
        if value == "" then
          match f.kind
          case StructKind(name, nested) =>
            var o := DoParse(nested, name, here, at, st);
            PrefixOfLonger(o.writes, at, loc);
            Walked(Collected(if o.err.Some? then [o.err.value] else []), o.writes)
          case _ => Walked(Collected([]), [])
        else match st.convert(f, value)
          case Failure(e) => Walked(Collected([FieldError(here, structName, e)]), [])
          case Success(x) => Walked(Collected([]), [Write(at, value, x)])
  }

  /** Locations inside `loc + [n]` are inside `loc`. */
  lemma PrefixOfLonger(ws: seq<Write>, at: seq<string>, loc: seq<string>)
    requires Under(at, loc)
    requires WritesUnder(ws, at)
    ensures WritesUnder(ws, loc)
  {
    forall i | 0 <= i < |ws| ensures Under(ws[i].loc, loc) {
      assert ws[i].loc[..|loc|] == ws[i].loc[..|at|][..|loc|];
    }
  }

  /** Parse (env.go:102-104). */
  function Parse(v: Kind, env: Env, svc: Services): (o: Outcome)
    ensures !IsStructPtr(v) ==> o == Outcome(Some(NotAStructPtr), [])
    ensures o.err.Some? ==> Reported(o.err.value)
  {
    ParseTarget(v, [], StepsFor("", env, map[], svc))
  }

  /** ParseWithPrefix (env.go:115-120). */
  function ParseWithPrefix(v: Kind, prefix: string, env: Env, svc: Services): (o: Outcome)
    ensures !ValidPrefix(prefix) ==> o == Outcome(Some(InvalidPrefix(prefix)), [])
    ensures ValidPrefix(prefix) && !IsStructPtr(v) ==> o == Outcome(Some(NotAStructPtr), [])
  {
    if prefix != "" && !HasSuffix(prefix, "_") then Outcome(Some(InvalidPrefix(prefix)), [])
    else ParseTarget(v, [], StepsFor(prefix, env, map[], svc))
  }

  /** ParseWithFuncs (env.go:129-131). */
  function ParseWithFuncs(v: Kind, funcs: CustomParsers, env: Env, svc: Services): (o: Outcome)
    ensures !IsStructPtr(v) ==> o == Outcome(Some(NotAStructPtr), [])
    ensures o.err.Some? ==> Reported(o.err.value)
  {
    ParseTarget(v, [], StepsFor("", env, funcs, svc))
  }

  /** ParseWithPrefixFuncs (env.go:142-156). */
  function ParseWithPrefixFuncs(v: Kind, prefix: string, funcs: CustomParsers, env: Env,
                                svc: Services): (o: Outcome)
    ensures !ValidPrefix(prefix) ==> o == Outcome(Some(InvalidPrefix(prefix)), [])
    ensures ValidPrefix(prefix) && !IsStructPtr(v) ==> o == Outcome(Some(NotAStructPtr), [])
    ensures ValidPrefix(prefix) && o.err.Some? ==> Reported(o.err.value)
  {
    ParseTarget(v, [], StepsFor(prefix, env, funcs, svc))
  }

  /* ---------------------------------------------------------------------
     A reference definition of success, field by field, independent of how
     the walk accumulates errors. */

  /** Every field of the list goes through. */
  predicate FieldsOk(fs: seq<Field>, st: Steps)
    decreases fs, 1
  {
    forall i :: 0 <= i < |fs| ==> FieldOk(fs[i], st)
  }

  /** A field goes through: a followed pointer leads to a structure whose
      fields go through; otherwise the value resolves, and either converts
      or is empty, in which case a structure's own fields must go through. */
  predicate FieldOk(f: Field, st: Steps)
    decreases f, 0
  {
    if Follows(f) then
      f.kind.target.value.StructKind? && FieldsOk(f.kind.target.value.fields, st)
    else match st.read(f)
      case Failure(_) => false
      case Success(value) =>
        if value == "" then f.kind.StructKind? ==> FieldsOk(f.kind.fields, st)
        else st.convert(f, value).Success?
  }

  /** A parse with a valid prefix of a pointer to a structure reports no
      error exactly when every field, nested ones included, goes through. */
  lemma {:induction false} ParseTargetOk(v: Kind, loc: seq<string>, st: Steps)
    requires ValidPrefix(st.prefix) && IsStructPtr(v)
    ensures ParseTarget(v, loc, st).err.None? <==> FieldsOk(v.target.value.fields, st)
    decreases v, 0
  {
    var s := v.target.value;
    DoParseOk(s.fields, s.structName, "", loc, st);
  }

  lemma {:induction false} DoParseOk(fs: seq<Field>, structName: string, path: string,
                                     loc: seq<string>, st: Steps)
    requires ValidPrefix(st.prefix)
    ensures DoParse(fs, structName, path, loc, st).err.None? <==> FieldsOk(fs, st)
    decreases fs, 2
  {
    WalkFieldsOk(fs, 0, structName, path, loc, st);
  }

  lemma {:induction false} WalkFieldsOk(fs: seq<Field>, i: nat, structName: string, path: string,
                                        loc: seq<string>, st: Steps)
    requires ValidPrefix(st.prefix) && i <= |fs|
    ensures WalkFields(fs, i, structName, path, loc, st).status == Collected([]) <==>
      forall j :: i <= j < |fs| ==> FieldOk(fs[j], st)
    decreases fs, 1, |fs| - i
  {
    if i < |fs| {
      VisitFieldOk(fs[i], structName, path, loc, st);
      WalkFieldsOk(fs, i + 1, structName, path, loc, st);
    }
  }

  lemma {:induction false} VisitFieldOk(f: Field, structName: string, path: string,
                                        loc: seq<string>, st: Steps)
    requires ValidPrefix(st.prefix)
    ensures VisitField(f, structName, path, loc, st).status == Collected([]) <==> FieldOk(f, st)
    decreases f, 0
  {
    var here := JoinPath(path, f.name);
    var at := loc + [f.name];
    if Follows(f) {
      if IsStructPtr(f.kind) {
        ParseTargetOk(f.kind, at, st);
      }
    } else if st.read(f).Success? && st.read(f).value == "" && f.kind.StructKind? {
      DoParseOk(f.kind.fields, f.kind.structName, here, at, st);
    }
  }

  /** A field that resolves to a non-empty value which converts is assigned,
      at its own location, unless an earlier field ended the parse. */
  lemma {:induction false} ConvertedFieldIsWritten(fs: seq<Field>, i: nat, j: nat, structName: string,
                                                   path: string, loc: seq<string>, st: Steps)
    requires i <= j < |fs|
    requires forall k :: i <= k < j ==> !VisitField(fs[k], structName, path, loc, st).status.Aborted?
    requires !Follows(fs[j])
    requires st.read(fs[j]).Success? && st.read(fs[j]).value != ""
    requires st.convert(fs[j], st.read(fs[j]).value).Success?
    ensures Write(loc + [fs[j].name], st.read(fs[j]).value, st.convert(fs[j], st.read(fs[j]).value).value)
      in WalkFields(fs, i, structName, path, loc, st).writes
    decreases |fs| - i
  {
    if i < j {
      ConvertedFieldIsWritten(fs, i + 1, j, structName, path, loc, st);
    }
  }

  /** A field that is not a followed pointer or a structure and resolves to
      "" is left as it is, and reports nothing. */
  lemma EmptyValueLeavesField(f: Field, structName: string, path: string, loc: seq<string>, st: Steps)
    requires !Follows(f) && !f.kind.StructKind?
    requires st.read(f) == Success("")
    ensures VisitField(f, structName, path, loc, st) == Walked(Collected([]), [])
  {
  }

  /** A structure field that resolves to "" is walked in turn under the
      dotted path `path.Name`, writing inside its own location; the nested
      walk's error, if any, joins the list as one element, not flattened. */
  lemma NestedStructField(f: Field, structName: string, path: string, loc: seq<string>, st: Steps)
    requires !Follows(f) && f.kind.StructKind? && st.read(f) == Success("")
    ensures var o := DoParse(f.kind.fields, f.kind.structName, JoinPath(path, f.name), loc + [f.name], st);
      VisitField(f, structName, path, loc, st) ==
        Walked(Collected(if o.err.Some? then [o.err.value] else []), o.writes)
  {
  }

  /** A failing field `g` inside such a structure field reaches the outer
      list inside that one element, as a field error naming the nested
      dotted path `path.Name.G` and the nested structure. */
  lemma NestedFailureReported(f: Field, j: nat, structName: string, path: string, loc: seq<string>,
                              st: Steps, e: Error)
    requires !Follows(f) && f.kind.StructKind? && st.read(f) == Success("")
    requires j < |f.kind.fields|
    requires NoneAbort(f.kind.fields, 0, f.kind.structName, JoinPath(path, f.name), loc + [f.name], st)
    requires FieldFails(f.kind.fields[j], st, e)
    ensures var errs := VisitField(f, structName, path, loc, st).status.errs;
      && VisitField(f, structName, path, loc, st).status.Collected?
      && |errs| == 1 && errs[0].ParseErrors?
      && FieldError(JoinPath(JoinPath(path, f.name), f.kind.fields[j].name), f.kind.structName, e)
           in errs[0].errs
  {
    NestedStructField(f, structName, path, loc, st);
    DoParseReportsFailedField(f.kind.fields, j, f.kind.structName, JoinPath(path, f.name), loc + [f.name], st, e);
  }

  /** A field without `env`, `envDefault`, `required` and `envExpand` tags
      reads the variable named by the prefix alone, so when that is absent the
      field keeps its zero value. */
  lemma UntaggedFieldUntouched(f: Field, structName: string, path: string, loc: seq<string>,
                               prefix: string, env: Env, funcs: CustomParsers, svc: Services)
    requires !Follows(f) && !f.kind.StructKind?
    requires "env" !in f.tags && "envDefault" !in f.tags && "required" !in f.tags && "envExpand" !in f.tags
    requires prefix !in env
    ensures VisitField(f, structName, path, loc, StepsFor(prefix, env, funcs, svc)) == Walked(Collected([]), [])
  {
    assert Key(f, prefix) == prefix;
    assert ToLower("") == "";
    assert Get(f, prefix, env, svc) == Success("");
  }

  /** A field whose value does not resolve or does not convert is not
      assigned: it reports one error naming its dotted path and structure. */
  lemma FailedFieldNotWritten(f: Field, structName: string, path: string, loc: seq<string>, st: Steps)
    requires !Follows(f)
    requires st.read(f).Failure? || (st.read(f).value != "" && st.convert(f, st.read(f).value).Failure?)
    ensures VisitField(f, structName, path, loc, st).writes == []
    ensures |VisitField(f, structName, path, loc, st).status.errs| == 1
    ensures VisitField(f, structName, path, loc, st).status.errs[0].path == JoinPath(path, f.name)
    ensures VisitField(f, structName, path, loc, st).status.errs[0].structName == structName
    ensures VisitField(f, structName, path, loc, st).status.errs[0].cause ==
      if st.read(f).Failure? then st.read(f).error else st.convert(f, st.read(f).value).error
  {
  }

  /** The field is not followed and fails with `e`: its value does not
      resolve, or it is non-empty and does not convert. */
  predicate FieldFails(f: Field, st: Steps, e: Error) {
    && !Follows(f)
    && (|| st.read(f) == Failure(e)
        || (st.read(f).Success? && st.read(f).value != "" && st.convert(f, st.read(f).value) == Failure(e)))
  }

  /** No field among `i..` is a followed pointer whose parse fails. */
  predicate NoneAbort(fs: seq<Field>, i: nat, structName: string, path: string, loc: seq<string>, st: Steps) {
    forall k :: i <= k < |fs| ==> !VisitField(fs[k], structName, path, loc, st).status.Aborted?
  }

  /** A failing field reports exactly its own wrapped error. */
  lemma FailingFieldError(f: Field, structName: string, path: string, loc: seq<string>, st: Steps, e: Error)
    requires FieldFails(f, st, e)
    ensures VisitField(f, structName, path, loc, st) ==
      Walked(Collected([FieldError(JoinPath(path, f.name), structName, e)]), [])
  {
  }

  /** Without an aborting pointer the loop runs to the end, keeping the
      errors of each field in front of those of the fields after it. */
  lemma {:induction false} WalkCollects(fs: seq<Field>, i: nat, structName: string, path: string,
                                        loc: seq<string>, st: Steps)
    requires i < |fs| && NoneAbort(fs, i, structName, path, loc, st)
    ensures WalkFields(fs, i + 1, structName, path, loc, st).status.Collected?
    ensures WalkFields(fs, i, structName, path, loc, st).status ==
      Collected(VisitField(fs[i], structName, path, loc, st).status.errs +
                WalkFields(fs, i + 1, structName, path, loc, st).status.errs)
    decreases |fs| - i
  {
    if i + 1 < |fs| {
      WalkCollects(fs, i + 1, structName, path, loc, st);
    }
  }

  /** The loop does not stop at a failing field: unless a followed pointer
      aborts, the error of every failing field, wrapped with its dotted path
      and structure, is in the collected list. */
  lemma {:induction false} FailedFieldCollected(fs: seq<Field>, i: nat, j: nat, structName: string,
                                                path: string, loc: seq<string>, st: Steps, e: Error)
    requires i <= j < |fs| && NoneAbort(fs, i, structName, path, loc, st)
    requires FieldFails(fs[j], st, e)
    ensures WalkFields(fs, i, structName, path, loc, st).status.Collected?
    ensures FieldError(JoinPath(path, fs[j].name), structName, e) in
      WalkFields(fs, i, structName, path, loc, st).status.errs
    decreases |fs| - i
  {
    WalkCollects(fs, i, structName, path, loc, st);
    if i < j {
      FailedFieldCollected(fs, i + 1, j, structName, path, loc, st, e);
    } else {
      FailingFieldError(fs[j], structName, path, loc, st, e);
    }
  }

  /** `x` occurs in `errs` at an earlier position than `y`. */
  predicate Precedes(errs: seq<Error>, x: Error, y: Error) {
    exists a, b :: 0 <= a < b < |errs| && errs[a] == x && errs[b] == y
  }

  lemma PrecedesAfter(head: seq<Error>, rest: seq<Error>, x: Error, y: Error)
    requires Precedes(rest, x, y)
    ensures Precedes(head + rest, x, y)
  {
    var a, b :| 0 <= a < b < |rest| && rest[a] == x && rest[b] == y;
    assert (head + rest)[|head| + a] == x && (head + rest)[|head| + b] == y;
  }

  lemma PrecedesFirst(x: Error, rest: seq<Error>, y: Error)
    requires y in rest
    ensures Precedes([x] + rest, x, y)
  {
    var b :| 0 <= b < |rest| && rest[b] == y;
    assert ([x] + rest)[0] == x && ([x] + rest)[b + 1] == y;
  }

  /** The collected errors follow field order: of two failing fields, the
      earlier one's error comes first. */
  lemma {:induction false} FailedFieldsInOrder(fs: seq<Field>, i: nat, j: nat, j': nat, structName: string,
                                               path: string, loc: seq<string>, st: Steps, e: Error, e': Error)
    requires i <= j < j' < |fs| && NoneAbort(fs, i, structName, path, loc, st)
    requires FieldFails(fs[j], st, e) && FieldFails(fs[j'], st, e')
    ensures WalkFields(fs, i, structName, path, loc, st).status.Collected?
    ensures Precedes(WalkFields(fs, i, structName, path, loc, st).status.errs,
                     FieldError(JoinPath(path, fs[j].name), structName, e),
                     FieldError(JoinPath(path, fs[j'].name), structName, e'))
    decreases |fs| - i
  {
    var x := FieldError(JoinPath(path, fs[j].name), structName, e);
    var y := FieldError(JoinPath(path, fs[j'].name), structName, e');
    WalkCollects(fs, i, structName, path, loc, st);
    var head := VisitField(fs[i], structName, path, loc, st).status.errs;
    var rest := WalkFields(fs, i + 1, structName, path, loc, st).status.errs;
    assert WalkFields(fs, i, structName, path, loc, st).status.errs == head + rest;
    if i < j {
      FailedFieldsInOrder(fs, i + 1, j, j', structName, path, loc, st, e, e');
      PrecedesAfter(head, rest, x, y);
    } else {
      FailingFieldError(fs[j], structName, path, loc, st, e);
      FailedFieldCollected(fs, i + 1, j', structName, path, loc, st, e');
      PrecedesFirst(x, rest, y);
    }
  }

  /** doParse reports a failing field inside its ParseErrors list unless a
      followed pointer aborts the parse. */
  lemma DoParseReportsFailedField(fs: seq<Field>, j: nat, structName: string, path: string,
                                  loc: seq<string>, st: Steps, e: Error)
    requires j < |fs| && NoneAbort(fs, 0, structName, path, loc, st)
    requires FieldFails(fs[j], st, e)
    ensures DoParse(fs, structName, path, loc, st).err.Some?
    ensures DoParse(fs, structName, path, loc, st).err.value.ParseErrors?
    ensures FieldError(JoinPath(path, fs[j].name), structName, e) in
      DoParse(fs, structName, path, loc, st).err.value.errs
  {
    FailedFieldCollected(fs, 0, j, structName, path, loc, st, e);
  }

  /** The first field whose followed pointer fails ends the parse with that
      pointer's error alone: the errors collected from earlier fields are
      dropped. */
  lemma {:induction false} PointerFailureAborts(fs: seq<Field>, i: nat, j: nat, structName: string,
                                                path: string, loc: seq<string>, st: Steps)
    requires i <= j < |fs|
    requires forall k :: i <= k < j ==> !VisitField(fs[k], structName, path, loc, st).status.Aborted?
    requires Follows(fs[j])
    requires ParseTarget(fs[j].kind, loc + [fs[j].name], st).err.Some?
    ensures WalkFields(fs, i, structName, path, loc, st).status ==
      Aborted(ParseTarget(fs[j].kind, loc + [fs[j].name], st).err.value)
    decreases |fs| - i
  {
    if i < j {
      PointerFailureAborts(fs, i + 1, j, structName, path, loc, st);
    }
  }

  /** The structure of the example below: two required variables and an
      integer. */
  function ExampleFields(): seq<Field> {
    [Field("RequiredVar1", true, "string", false, map["env" := "REQUIRED_VAR1", "required" := "true"], StringKind),
     Field("RequiredVar2", true, "int", false, map["env" := "REQUIRED_VAR2", "required" := "true"], IntKind),
     Field("BadInt", true, "int", false, map["env" := "BAD_INT_VAR"], IntKind)]
  }

  /** The variables of the example below: only the integer is set, to letters. */
  function ExampleEnv(): Env {
    map["BAD_INT_VAR" := "not_a_number"]
  }

  lemma ExampleReads(svc: Services)
    ensures Get(ExampleFields()[0], "", ExampleEnv(), svc) == Failure(MissingRequired("REQUIRED_VAR1"))
    ensures Get(ExampleFields()[1], "", ExampleEnv(), svc) == Failure(MissingRequired("REQUIRED_VAR2"))
    ensures Get(ExampleFields()[2], "", ExampleEnv(), svc) == Success("not_a_number")
  {
    var fs := ExampleFields();
    assert Key(fs[0], "") == "REQUIRED_VAR1" && Key(fs[1], "") == "REQUIRED_VAR2";
    assert Key(fs[2], "") == "BAD_INT_VAR";
    assert "REQUIRED_VAR1" !in ExampleEnv() && "REQUIRED_VAR2" !in ExampleEnv();
  }

  lemma ExampleConversion(svc: Services)
    ensures Set(ExampleFields()[2], "not_a_number", map[], svc) ==
      Failure(NumError("ParseInt", "not_a_number", ErrSyntax))
  {
    assert !IsDigit("not_a_number"[0]);
    assert ParseInt("not_a_number", W32) == Parsed(0, Some(NumError("ParseInt", "not_a_number", ErrSyntax)));
  }

  /** The walk of the example below, for any steps that fail on its three
      fields the way the package's own steps do. */
  lemma ThreeErrorsWalk(st: Steps)
    requires st.prefix == ""
    requires st.read(ExampleFields()[0]) == Failure(MissingRequired("REQUIRED_VAR1"))
    requires st.read(ExampleFields()[1]) == Failure(MissingRequired("REQUIRED_VAR2"))
    requires st.read(ExampleFields()[2]) == Success("not_a_number")
    requires st.convert(ExampleFields()[2], "not_a_number") == Failure(NumError("ParseInt", "not_a_number", ErrSyntax))
    ensures ParseTarget(PtrKind(Some(StructKind("config", ExampleFields()))), [], st) ==
      Outcome(Some(ParseErrors([
        FieldError("RequiredVar1", "config", MissingRequired("REQUIRED_VAR1")),
        FieldError("RequiredVar2", "config", MissingRequired("REQUIRED_VAR2")),
        FieldError("BadInt", "config", NumError("ParseInt", "not_a_number", ErrSyntax))])), [])
  {
    var fs := ExampleFields();
    var e1 := FieldError("RequiredVar1", "config", MissingRequired("REQUIRED_VAR1"));
    var e2 := FieldError("RequiredVar2", "config", MissingRequired("REQUIRED_VAR2"));
    var e3 := FieldError("BadInt", "config", NumError("ParseInt", "not_a_number", ErrSyntax));
    assert VisitField(fs[0], "config", "", [], st) == Walked(Collected([e1]), []);
    assert VisitField(fs[1], "config", "", [], st) == Walked(Collected([e2]), []);
    assert VisitField(fs[2], "config", "", [], st) == Walked(Collected([e3]), []);
    assert WalkFields(fs, 3, "config", "", [], st) == Walked(Collected([]), []);
    assert WalkFields(fs, 2, "config", "", [], st) == Walked(Collected([e3]), []);
    assert WalkFields(fs, 1, "config", "", [], st) == Walked(Collected([e2, e3]), []);
    assert WalkFields(fs, 0, "config", "", [], st) == Walked(Collected([e1, e2, e3]), []);
  }

  /** Two absent required variables and an integer field holding letters
      give three errors, reported in field order, and no assignment. */
  lemma ThreeErrorsExample(svc: Services)
    ensures Parse(PtrKind(Some(StructKind("config", ExampleFields()))), ExampleEnv(), svc) ==
      Outcome(Some(ParseErrors([
        FieldError("RequiredVar1", "config", MissingRequired("REQUIRED_VAR1")),
        FieldError("RequiredVar2", "config", MissingRequired("REQUIRED_VAR2")),
        FieldError("BadInt", "config", NumError("ParseInt", "not_a_number", ErrSyntax))])), [])
  {
    ExampleReads(svc);
    ExampleConversion(svc);
    ThreeErrorsWalk(StepsFor("", ExampleEnv(), map[], svc));
  }
}
