/** The typed getters of util.go: reading one variable and converting it,
    with a fallback (GetOr*) or a panic (MustGet*) when it is absent or does
    not convert. A panic is modelled as a failure carrying the panic
    message. */
module Getters {
  import opened Wrappers
  import opened Text
  import opened Errors
  import opened Strconv
  import opened Descriptor

  /** A value, or the message a call panics with. */
  type Returned<T> = Result<T, string>

  /* ---------------------------------------------------------------------
     Variable names (util.go:12-23). */

  predicate IsUpper(c: char) {
    'A' <= c <= 'Z'
  }

  /** The characters the name pattern allows after the first. */
  predicate NameChar(c: char) {
    IsUpper(c) || IsDigit(c) || c == '_'
  }

  /** The pattern ^[A-Z_][A-Z0-9_]*$: an upper-case letter or underscore,
      then upper-case letters, digits and underscores. */
  predicate ValidKey(key: string) {
    |key| >= 1 && (IsUpper(key[0]) || key[0] == '_') &&
    forall i :: 1 <= i < |key| ==> NameChar(key[i])
  }

  /** isValidEnvVarKey (util.go:18-23), scanning the name once. */
  method IsValidEnvVarKey(key: string) returns (ok: bool)
    ensures ok <==> ValidKey(key)
  {
    if key == "" {
      return false;
    }
    if !(IsUpper(key[0]) || key[0] == '_') {
      return false;
    }
    var i := 1;
    while i < |key|
      invariant 1 <= i <= |key|
      invariant forall k :: 1 <= k < i ==> NameChar(key[k])
    {
      if !NameChar(key[i]) {
        return false;
      }
      i := i + 1;
    }
    return true;
  }

  /** The names the pattern accepts and refuses, one per rule: a leading
      digit, a hyphen, a dot, a space, lower case, mixed case and a symbol
      are each refused, as is the empty name. */
  lemma ValidKeyExamples()
    ensures ValidKey("TEST_VAR") && ValidKey("_PRIVATE_VAR") && ValidKey("VAR123")
    ensures ValidKey("MY_APP_CONFIG") && ValidKey("A") && ValidKey("_")
    ensures !ValidKey("") && !ValidKey("123VAR") && !ValidKey("my-var") && !ValidKey("my.var")
    ensures !ValidKey("my var") && !ValidKey("myvar") && !ValidKey("My_Var") && !ValidKey("VAR!")
  {
    assert !NameChar("My_Var"[1]);
    assert !NameChar("VAR!"[3]);
  }

  /* ---------------------------------------------------------------------
     The generic getters (util.go:28-59). */

  /** os.Getenv: the value, or "" when absent. */
  function Getenv(env: Env, key: string): string {
    if key in env then env[key] else ""
  }

  /** The panic message of MustGet* for an absent variable. */
  function MissingMessage(key: string): string {
    "expected environment variable " + Quote(key) + " does not exist"
  }

  /** The panic message of MustGet* for a value that does not convert. */
  function ConvertMessage(key: string, typeName: string): string {
    "environment variable " + Quote(key) + " could not be converted to " + typeName
  }

  /** GetParsed (util.go:31-34): an absent variable is converted as "". */
  function GetParsed<T>(env: Env, key: string, parser: string -> Parsed<T>): (r: Parsed<T>)
    ensures key !in env ==> r == parser("")
    ensures key in env ==> r == parser(env[key])
  {
    parser(Getenv(env, key))
  }

  /** GetOrParsed (util.go:37-45). */
  function GetOrParsed<T>(env: Env, key: string, default: T, parser: string -> Parsed<T>): (r: T)
    ensures key in env && parser(env[key]).Ok() ==> r == parser(env[key]).value
    ensures !(key in env && parser(env[key]).Ok()) ==> r == default
  {
    if key in env then
      var p := parser(env[key]);
      if p.err.None? then p.value else default
    else default
  }

  /** MustGetParsed (util.go:48-58). */
  function MustGetParsed<T>(env: Env, key: string, parser: string -> Parsed<T>, typeName: string): (r: Returned<T>)
    ensures r.Success? <==> key in env && parser(env[key]).Ok()
    ensures r.Success? ==> r.value == parser(env[key]).value
    ensures key !in env ==> r == Failure(MissingMessage(key))
    ensures key in env && !parser(env[key]).Ok() ==> r == Failure(ConvertMessage(key, typeName))
  {
    if key in env then
      var p := parser(env[key]);
      if p.err.None? then Success(p.value) else Failure(ConvertMessage(key, typeName))
    else Failure(MissingMessage(key))
  }

  /** The fallback getter returns what the panicking getter returns when that
      one does not panic, and the default exactly when it does. */
  lemma GetOrAgreesWithMustGet<T>(env: Env, key: string, default: T, parser: string -> Parsed<T>, typeName: string)
    ensures MustGetParsed(env, key, parser, typeName).Success? ==>
      GetOrParsed(env, key, default, parser) == MustGetParsed(env, key, parser, typeName).value
    ensures MustGetParsed(env, key, parser, typeName).Failure? ==>
      GetOrParsed(env, key, default, parser) == default
  {
  }

  /** GetParsed cannot tell an absent variable from an empty one, whereas
      GetOrParsed falls back to the default only for the absent one. */
  lemma AbsentVersusEmpty<T>(env: Env, key: string, default: T, parser: string -> Parsed<T>)
    ensures GetParsed(env - {key}, key, parser) == GetParsed(env[key := ""], key, parser)
    ensures GetOrParsed(env - {key}, key, default, parser) == default
    ensures parser("").Ok() ==> GetOrParsed(env[key := ""], key, default, parser) == parser("").value
  {
  }

  /* ---------------------------------------------------------------------
     The string getters (util.go:104-124). */

  /** The parser that accepts every string as itself. */
  function Verbatim(s: string): Parsed<string> {
    Parsed(s, None)
  }

  /** Get (util.go:105-107). */
  function Get(env: Env, key: string): (r: string)
    ensures key in env ==> r == env[key]
    ensures key !in env ==> r == ""
  {
    Getenv(env, key)
  }

  /** GetOr (util.go:110-116). */
  function GetOr(env: Env, key: string, default: string): (r: string)
    ensures key in env ==> r == env[key]
    ensures key !in env ==> r == default
  {
    if key in env then env[key] else default
  }

  /** MustGet (util.go:119-125). */
  function MustGet(env: Env, key: string): (r: Returned<string>)
    ensures r.Success? <==> key in env
    ensures r.Success? ==> r.value == env[key]
    ensures r.Failure? ==> r.error == MissingMessage(key)
  {
    if key in env then Success(env[key]) else Failure(MissingMessage(key))
  }

  /** The string getters are the generic ones with a parser that never
      fails: the conversion panic cannot happen for them. */
  lemma StringGettersAreGeneric(env: Env, key: string, default: string)
    ensures Get(env, key) == GetParsed(env, key, Verbatim).value
    ensures GetOr(env, key, default) == GetOrParsed(env, key, default, Verbatim)
    ensures MustGet(env, key) == MustGetParsed(env, key, Verbatim, "string")
  {
  }

  /* ---------------------------------------------------------------------
     The typed getters (util.go:127-263). */

  /** GetBool (util.go:128-130): absent reads as "", which is not a literal. */
  function GetBool(env: Env, key: string): (r: Parsed<bool>)
    ensures r.Ok() <==> key in env && env[key] in TrueLiterals + FalseLiterals
    ensures r.Ok() ==> (r.value <==> env[key] in TrueLiterals)
    ensures key !in env ==> r == Parsed(false, Some(NumError("ParseBool", "", ErrSyntax)))
  {
    GetParsed(env, key, ParseBool)
  }

  /** GetOrBool (util.go:132-134). */
  function GetOrBool(env: Env, key: string, default: bool): (r: bool)
    ensures key in env && env[key] in TrueLiterals ==> r
    ensures key in env && env[key] in FalseLiterals ==> !r
    ensures !(key in env && env[key] in TrueLiterals + FalseLiterals) ==> r == default
  {
    GetOrParsed(env, key, default, ParseBool)
  }

  /** MustGetBool (util.go:136-138). */
  function MustGetBool(env: Env, key: string): (r: Returned<bool>)
    ensures r.Success? <==> key in env && env[key] in TrueLiterals + FalseLiterals
    ensures r.Success? ==> (r.value <==> env[key] in TrueLiterals)
    ensures key in env && env[key] !in TrueLiterals + FalseLiterals ==> r == Failure(ConvertMessage(key, "bool"))
    ensures key !in env ==> r == Failure(MissingMessage(key))
  {
    MustGetParsed(env, key, ParseBool, "bool")
  }

  /** GetInt (util.go:141-143): 32-bit decimal. */
  function GetInt(env: Env, key: string): (r: Parsed<int>)
    ensures r.Ok() <==> key in env && IntLiteral(env[key], W32)
    ensures r.Ok() ==> r.value == SignedValue(env[key])
    ensures key !in env ==> r == Parsed(0, Some(NumError("ParseInt", "", ErrSyntax)))
  {
    ParseIntSpec(Getenv(env, key), W32);
    GetParsed(env, key, ParseInt32)
  }

  /** GetOrInt (util.go:145-147). */
  function GetOrInt(env: Env, key: string, default: int): (r: int)
    ensures key in env && IntLiteral(env[key], W32) ==> r == SignedValue(env[key])
    ensures !(key in env && IntLiteral(env[key], W32)) ==> r == default
  {
    ParseIntSpec(Getenv(env, key), W32);
    GetOrParsed(env, key, default, ParseInt32)
  }

  /** MustGetInt (util.go:149-151). */
  function MustGetInt(env: Env, key: string): (r: Returned<int>)
    ensures r.Success? <==> key in env && IntLiteral(env[key], W32)
    ensures r.Success? ==> r.value == SignedValue(env[key])
    ensures key in env && !IntLiteral(env[key], W32) ==> r == Failure(ConvertMessage(key, "int"))
    ensures key !in env ==> r == Failure(MissingMessage(key))
  {
    ParseIntSpec(Getenv(env, key), W32);
    MustGetParsed(env, key, ParseInt32, "int")
  }

  /** GetUint (util.go:154-156): 32-bit unsigned decimal. */
  function GetUint(env: Env, key: string): (r: Parsed<nat>)
    ensures r.Ok() <==> key in env && UintLiteral(env[key], W32)
    ensures r.Ok() ==> r.value == DecimalValue(env[key])
    ensures key !in env ==> r == Parsed(0, Some(NumError("ParseUint", "", ErrSyntax)))
  {
    ParseUintSpec(Getenv(env, key), W32);
    GetParsed(env, key, ParseUint32)
  }

  /** GetOrUint (util.go:158-160). */
  function GetOrUint(env: Env, key: string, default: nat): (r: nat)
    ensures key in env && UintLiteral(env[key], W32) ==> r == DecimalValue(env[key])
    ensures !(key in env && UintLiteral(env[key], W32)) ==> r == default
  {
    ParseUintSpec(Getenv(env, key), W32);
    GetOrParsed(env, key, default, ParseUint32)
  }

  /** MustGetUint (util.go:162-164). */
  function MustGetUint(env: Env, key: string): (r: Returned<nat>)
    ensures r.Success? <==> key in env && UintLiteral(env[key], W32)
    ensures r.Success? ==> r.value == DecimalValue(env[key])
    ensures key in env && !UintLiteral(env[key], W32) ==> r == Failure(ConvertMessage(key, "uint"))
    ensures key !in env ==> r == Failure(MissingMessage(key))
  {
    ParseUintSpec(Getenv(env, key), W32);
    MustGetParsed(env, key, ParseUint32, "uint")
  }

  /** GetInt64 (util.go:193-195). */
  function GetInt64(env: Env, key: string): (r: Parsed<int>)
    ensures r.Ok() <==> key in env && IntLiteral(env[key], W64)
    ensures r.Ok() ==> r.value == SignedValue(env[key])
    ensures key !in env ==> r == Parsed(0, Some(NumError("ParseInt", "", ErrSyntax)))
  {
    ParseIntSpec(Getenv(env, key), W64);
    GetParsed(env, key, ParseInt64)
  }

  /** GetOrInt64 (util.go:197-199). */
  function GetOrInt64(env: Env, key: string, default: int): (r: int)
    ensures key in env && IntLiteral(env[key], W64) ==> r == SignedValue(env[key])
    ensures !(key in env && IntLiteral(env[key], W64)) ==> r == default
  {
    ParseIntSpec(Getenv(env, key), W64);
    GetOrParsed(env, key, default, ParseInt64)
  }

  /** MustGetInt64 (util.go:201-203). */
  function MustGetInt64(env: Env, key: string): (r: Returned<int>)
    ensures r.Success? <==> key in env && IntLiteral(env[key], W64)
    ensures r.Success? ==> r.value == SignedValue(env[key])
    ensures key in env && !IntLiteral(env[key], W64) ==> r == Failure(ConvertMessage(key, "int64"))
    ensures key !in env ==> r == Failure(MissingMessage(key))
  {
    ParseIntSpec(Getenv(env, key), W64);
    MustGetParsed(env, key, ParseInt64, "int64")
  }

  /** GetUint64 (util.go:206-208). */
  function GetUint64(env: Env, key: string): (r: Parsed<nat>)
    ensures r.Ok() <==> key in env && UintLiteral(env[key], W64)
    ensures r.Ok() ==> r.value == DecimalValue(env[key])
    ensures key !in env ==> r == Parsed(0, Some(NumError("ParseUint", "", ErrSyntax)))
  {
    ParseUintSpec(Getenv(env, key), W64);
    GetParsed(env, key, ParseUint64)
  }

  /** GetOrUint64 (util.go:210-212). */
  function GetOrUint64(env: Env, key: string, default: nat): (r: nat)
    ensures key in env && UintLiteral(env[key], W64) ==> r == DecimalValue(env[key])
    ensures !(key in env && UintLiteral(env[key], W64)) ==> r == default
  {
    ParseUintSpec(Getenv(env, key), W64);
    GetOrParsed(env, key, default, ParseUint64)
  }

  /** MustGetUint64 (util.go:214-216). */
  function MustGetUint64(env: Env, key: string): (r: Returned<nat>)
    ensures r.Success? <==> key in env && UintLiteral(env[key], W64)
    ensures r.Success? ==> r.value == DecimalValue(env[key])
    ensures key in env && !UintLiteral(env[key], W64) ==> r == Failure(ConvertMessage(key, "uint64"))
    ensures key !in env ==> r == Failure(MissingMessage(key))
  {
    ParseUintSpec(Getenv(env, key), W64);
    MustGetParsed(env, key, ParseUint64, "uint64")
  }

  /** GetDuration (util.go:219-221). */
  function GetDuration(env: Env, key: string, svc: Services): (r: Parsed<int>)
    ensures key !in env ==> r == svc.parseDuration("")
    ensures key in env ==> r == svc.parseDuration(env[key])
  {
    GetParsed(env, key, svc.parseDuration)
  }

  /** The panic message of GetOrDuration for a default that does not parse. */
  function DefaultDurationMessage(default: string): string {
    "default duration " + Quote(default) + " could not be converted to time.Duration"
  }

  /** GetOrDuration (util.go:223-236): the default is a string, parsed only
      when the variable is absent or does not parse, and a default that does
      not parse then panics. */
  function GetOrDuration(env: Env, key: string, default: string, svc: Services): (r: Returned<int>)
    ensures r.Failure? <==> !(key in env && svc.parseDuration(env[key]).Ok()) && !svc.parseDuration(default).Ok()
    ensures r.Failure? ==> r.error == DefaultDurationMessage(default)
    ensures svc.parseDuration(default).Ok() ==>
      r == Success(GetOrParsed(env, key, svc.parseDuration(default).value, svc.parseDuration))
    ensures key in env && svc.parseDuration(env[key]).Ok() ==>
      r == MustGetParsed(env, key, svc.parseDuration, "time.Duration")
  {
    if key in env && svc.parseDuration(env[key]).err.None? then Success(svc.parseDuration(env[key]).value)
    else
      var d := svc.parseDuration(default);
      if d.err.Some? then Failure(DefaultDurationMessage(default)) else Success(d.value)
  }

  /** MustGetDuration (util.go:238-240). */
  function MustGetDuration(env: Env, key: string, svc: Services): (r: Returned<int>)
    ensures r.Success? <==> key in env && svc.parseDuration(env[key]).Ok()
    ensures r.Success? ==> r.value == svc.parseDuration(env[key]).value
    ensures key in env && !svc.parseDuration(env[key]).Ok() ==> r == Failure(ConvertMessage(key, "time.Duration"))
    ensures key !in env ==> r == Failure(MissingMessage(key))
  {
    MustGetParsed(env, key, svc.parseDuration, "time.Duration")
  }

  /** GetUrl (util.go:243-245): the request-URI parser, not url.Parse. */
  function GetUrl(env: Env, key: string, svc: Services): (r: Parsed<Opaque>)
    ensures key !in env ==> r == svc.parseRequestUri("")
    ensures key in env ==> r == svc.parseRequestUri(env[key])
  {
    GetParsed(env, key, svc.parseRequestUri)
  }

  /** The panic message of GetOrUrl for a default that does not parse. */
  function DefaultUrlMessage(default: string): string {
    "default url " + Quote(default) + " could not be converted to url.URL"
  }

  /** GetOrUrl (util.go:247-260), shaped like GetOrDuration. */
  function GetOrUrl(env: Env, key: string, default: string, svc: Services): (r: Returned<Opaque>)
    ensures r.Failure? <==> !(key in env && svc.parseRequestUri(env[key]).Ok()) && !svc.parseRequestUri(default).Ok()
    ensures r.Failure? ==> r.error == DefaultUrlMessage(default)
    ensures svc.parseRequestUri(default).Ok() ==>
      r == Success(GetOrParsed(env, key, svc.parseRequestUri(default).value, svc.parseRequestUri))
    ensures key in env && svc.parseRequestUri(env[key]).Ok() ==>
      r == MustGetParsed(env, key, svc.parseRequestUri, "url.URL")
  {
    if key in env && svc.parseRequestUri(env[key]).err.None? then Success(svc.parseRequestUri(env[key]).value)
    else
      var u := svc.parseRequestUri(default);
      if u.err.Some? then Failure(DefaultUrlMessage(default)) else Success(u.value)
  }

  /** MustGetUrl (util.go:262-264). */
  function MustGetUrl(env: Env, key: string, svc: Services): (r: Returned<Opaque>)
    ensures r.Success? <==> key in env && svc.parseRequestUri(env[key]).Ok()
    ensures r.Success? ==> r.value == svc.parseRequestUri(env[key]).value
    ensures key in env && !svc.parseRequestUri(env[key]).Ok() ==> r == Failure(ConvertMessage(key, "url.URL"))
    ensures key !in env ==> r == Failure(MissingMessage(key))
  {
    MustGetParsed(env, key, svc.parseRequestUri, "url.URL")
  }

  /** A getter reads back what FormatBool and decimal formatting write. */
  lemma TypedGettersReadFormatted(env: Env, key: string, b: bool, n: nat)
    requires n < Cutoff(W32)
    ensures MustGetBool(env[key := FormatBool(b)], key) == Success(b)
    ensures MustGetInt(env[key := NatToString(n)], key) == Success(n)
    ensures MustGetInt(env[key := "-" + NatToString(n)], key) == Success(-(n as int))
    ensures MustGetUint(env[key := NatToString(n)], key) == Success(n)
  {
    ParseIntFormat(n, W32);
    ParseIntFormatNegative(n, W32);
    ParseUintFormat(n, W32);
  }
}
