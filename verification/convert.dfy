/** Conversion of a resolved string to a field's declared type: `set`,
    `handleSlice`, `handleTextUnmarshaler` and the element parsers of
    env.go:253-558. Dispatch order: a caller-supplied converter for the
    exact declared type, then url.URL, then the built-in kinds, then the
    TextUnmarshaler capability, else ErrUnsupportedType. */
module Convert {
  import opened Wrappers
  import opened Text
  import opened Errors
  import opened Strconv
  import opened Descriptor

  /** Converts every piece in order, stopping at the first failure (the
      shared shape of parseInts, parseInt64s, parseUint64s, parseBools,
      parseDurations, parseUrls and parseTextUnmarshalers). */
  function ParseEach<T>(pieces: seq<string>, parse: string -> Parsed<T>): (r: Result<seq<T>, Error>)
    ensures r.Success? <==> forall i :: 0 <= i < |pieces| ==> parse(pieces[i]).Ok()
    ensures r.Success? ==> |r.value| == |pieces|
    ensures r.Success? ==> forall i :: 0 <= i < |pieces| ==> r.value[i] == parse(pieces[i]).value
    ensures r.Failure? ==>
      exists i :: 0 <= i < |pieces| && parse(pieces[i]).err == Some(r.error) &&
        forall j :: 0 <= j < i ==> parse(pieces[j]).Ok()
  {
    if |pieces| == 0 then Success([])
    else
      var first := parse(pieces[0]);
      if first.err.Some? then Failure(first.err.value)
      else match ParseEach(pieces[1..], parse)
        case Failure(e) =>
          assert forall j :: 1 <= j < |pieces| ==> pieces[1..][j - 1] == pieces[j];
          Failure(e)
        case Success(rest) =>
          assert forall j :: 1 <= j < |pieces| ==> pieces[1..][j - 1] == pieces[j];
          Success([first.value] + rest)
  }

  /** Wraps a successful element list with the constructor of its slice type. */
  function Wrap<T>(r: Result<seq<T>, Error>, make: seq<T> -> Value): Result<Value, Error> {
    match r
    case Success(vs) => Success(make(vs))
    case Failure(e) => Failure(e)
  }

  /** The separator a slice field uses: its `envSeparator` tag (env.go:277),
      or "," when that is empty (env.go:338-340). */
  function Separator(f: Field): (sep: string)
    ensures |sep| > 0
    ensures TagGet(f.tags, "envSeparator") == "" ==> sep == ","
    ensures TagGet(f.tags, "envSeparator") != "" ==> sep == TagGet(f.tags, "envSeparator")
  {
    var tag := TagGet(f.tags, "envSeparator");
    if tag == "" then "," else tag
  }

  /** The pieces handleSlice splits a slice field's value into. */
  function Pieces(f: Field, value: string): seq<string> {
    Split(value, Separator(f))
  }

  /** The conversion handleSlice applies to one piece, its result given as
      the scalar value of the element type: the parser of parseInts,
      parseInt64s, parseUint64s, parseBools, parseDurations, parseUrls or
      parseTextUnmarshalers. */
  function ElemParse(elem: ElemType, s: string, svc: Services): Parsed<Value> {
    match elem
    case StringElem => Parsed(StringVal(s), None)
    case IntElem => var p := ParseInt32(s); Parsed(IntVal(p.value), p.err)
    case Int64Elem => var p := ParseInt64(s); Parsed(IntVal(p.value), p.err)
    case Uint64Elem => var p := ParseUint64(s); Parsed(UintVal(p.value), p.err)
    case BoolElem => var p := ParseBool(s); Parsed(BoolVal(p.value), p.err)
    case DurationElem => var p := svc.parseDuration(s); Parsed(DurationVal(p.value), p.err)
    case UrlElem => var p := svc.parseUrl(s); Parsed(UrlVal(p.value), p.err)
    case OtherElem(t, _) => var p := svc.unmarshalText(t, s); Parsed(TextVal(p.value), p.err)
  }

  /** The slice values a field of element type `elem` can hold. */
  predicate SliceOf(elem: ElemType, v: Value) {
    match elem
    case StringElem => v.StringsVal?
    case IntElem => v.IntsVal?
    case Int64Elem => v.IntsVal?
    case Uint64Elem => v.UintsVal?
    case BoolElem => v.BoolsVal?
    case DurationElem => v.DurationsVal?
    case UrlElem => v.UrlsVal?
    case OtherElem(_, _) => v.TextsVal?
  }

  /** The elements of a slice value as scalar values, in order. */
  function Elements(v: Value): seq<Value> {
    match v
    case StringsVal(ss) => seq(|ss|, i requires 0 <= i < |ss| => StringVal(ss[i]))
    case IntsVal(ns) => seq(|ns|, i requires 0 <= i < |ns| => IntVal(ns[i]))
    case UintsVal(ns) => seq(|ns|, i requires 0 <= i < |ns| => UintVal(ns[i]))
    case BoolsVal(bs) => seq(|bs|, i requires 0 <= i < |bs| => BoolVal(bs[i]))
    case DurationsVal(ds) => seq(|ds|, i requires 0 <= i < |ds| => DurationVal(ds[i]))
    case UrlsVal(us) => seq(|us|, i requires 0 <= i < |us| => UrlVal(us[i]))
    case TextsVal(ts) => seq(|ts|, i requires 0 <= i < |ts| => TextVal(ts[i]))
    case _ => []
  }

  /** A slice of an element type that cannot unmarshal text, which
      handleSlice refuses outright (env.go:401-403). */
  predicate Unsupported(elem: ElemType) {
    elem.OtherElem? && !elem.unmarshalsText
  }

  /** handleSlice (env.go:337-408), given the separator already defaulted.
      Floating-point slices are not modelled. */
  function HandleSlice(value: string, sep: string, elem: ElemType, svc: Services): (r: Result<Value, Error>)
    requires |sep| > 0
    ensures Unsupported(elem) ==> r == Failure(UnsupportedSliceType)
    ensures r.Success? ==> SliceOf(elem, r.value)
  {
    var pieces := Split(value, sep);
    match elem
    case StringElem => Success(StringsVal(pieces))
    case IntElem => Wrap(ParseEach(pieces, ParseInt32), vs => IntsVal(vs))
    case Int64Elem => Wrap(ParseEach(pieces, ParseInt64), vs => IntsVal(vs))
    case Uint64Elem => Wrap(ParseEach(pieces, ParseUint64), vs => UintsVal(vs))
    case BoolElem => Wrap(ParseEach(pieces, ParseBool), vs => BoolsVal(vs))
    case DurationElem => Wrap(ParseEach(pieces, svc.parseDuration), vs => DurationsVal(vs))
    case UrlElem => Wrap(ParseEach(pieces, svc.parseUrl), vs => UrlsVal(vs))
    case OtherElem(t, unmarshals) =>
      if !unmarshals then Failure(UnsupportedSliceType)
      else Wrap(ParseEach(pieces, s => svc.unmarshalText(t, s)), vs => TextsVal(vs))
  }

  /** What each element parser accepts and yields: the strconv parsers at the
      widths the source names, and the collaborators' results passed through
      with their errors unwrapped (env.go:427-558). */
  lemma ElemParseSpec(elem: ElemType, s: string, svc: Services)
    ensures elem == StringElem ==> ElemParse(elem, s, svc) == Parsed(StringVal(s), None)
    ensures elem == IntElem ==>
      (ElemParse(elem, s, svc).Ok() <==> IntLiteral(s, W32)) &&
      (ElemParse(elem, s, svc).Ok() ==> ElemParse(elem, s, svc).value == IntVal(SignedValue(s)))
    ensures elem == Int64Elem ==>
      (ElemParse(elem, s, svc).Ok() <==> IntLiteral(s, W64)) &&
      (ElemParse(elem, s, svc).Ok() ==> ElemParse(elem, s, svc).value == IntVal(SignedValue(s)))
    ensures elem == Uint64Elem ==>
      (ElemParse(elem, s, svc).Ok() <==> UintLiteral(s, W64)) &&
      (ElemParse(elem, s, svc).Ok() ==> ElemParse(elem, s, svc).value == UintVal(DecimalValue(s)))
    ensures elem == BoolElem ==>
      (ElemParse(elem, s, svc).Ok() <==> s in TrueLiterals + FalseLiterals) &&
      (ElemParse(elem, s, svc).Ok() ==> ElemParse(elem, s, svc).value == BoolVal(s in TrueLiterals))
    ensures elem == DurationElem ==>
      ElemParse(elem, s, svc).err == svc.parseDuration(s).err &&
      (ElemParse(elem, s, svc).Ok() ==> ElemParse(elem, s, svc).value == DurationVal(svc.parseDuration(s).value))
    ensures elem == UrlElem ==>
      ElemParse(elem, s, svc).err == svc.parseUrl(s).err &&
      (ElemParse(elem, s, svc).Ok() ==> ElemParse(elem, s, svc).value == UrlVal(svc.parseUrl(s).value))
    ensures elem.OtherElem? ==>
      ElemParse(elem, s, svc).err == svc.unmarshalText(elem.typeId, s).err &&
      (ElemParse(elem, s, svc).Ok() ==> ElemParse(elem, s, svc).value == TextVal(svc.unmarshalText(elem.typeId, s).value))
  {
    if elem == IntElem || elem == Int64Elem {
      ParseIntSpec(s, if elem == IntElem then W32 else W64);
    } else if elem == Uint64Elem {
      ParseUintSpec(s, W64);
    }
  }

  /** `r` is what converting `pieces` one at a time gives: success exactly
      when every piece converts, the elements then in order, and otherwise
      the first failing piece's own error, unwrapped. */
  predicate ConvertsEach(r: Result<Value, Error>, pieces: seq<string>, elem: ElemType, svc: Services) {
    && (r.Success? <==> forall k :: 0 <= k < |pieces| ==> ElemParse(elem, pieces[k], svc).Ok())
    && (r.Success? ==> |Elements(r.value)| == |pieces|)
    && (r.Success? ==>
          forall k :: 0 <= k < |pieces| ==> Elements(r.value)[k] == ElemParse(elem, pieces[k], svc).value)
    && (r.Failure? ==>
          exists k :: 0 <= k < |pieces| && ElemParse(elem, pieces[k], svc).err == Some(r.error) &&
                      forall j :: 0 <= j < k ==> ElemParse(elem, pieces[j], svc).Ok())
  }

  /** ParseEach over a parser, seen through a conversion `conv` that yields
      the same errors and wraps the same results with `make`. */
  lemma EachAsElems<T>(pieces: seq<string>, parse: string -> Parsed<T>, make: T -> Value,
                       conv: string -> Parsed<Value>)
    requires forall s :: conv(s) == Parsed(make(parse(s).value), parse(s).err)
    ensures ParseEach(pieces, parse).Success? <==> forall k :: 0 <= k < |pieces| ==> conv(pieces[k]).Ok()
    ensures ParseEach(pieces, parse).Success? ==>
      forall k :: 0 <= k < |pieces| ==> make(ParseEach(pieces, parse).value[k]) == conv(pieces[k]).value
    ensures ParseEach(pieces, parse).Failure? ==>
      exists k :: 0 <= k < |pieces| && conv(pieces[k]).err == Some(ParseEach(pieces, parse).error) &&
                  forall j :: 0 <= j < k ==> conv(pieces[j]).Ok()
  {
    var each := ParseEach(pieces, parse);
    if each.Failure? {
      var k :| 0 <= k < |pieces| && parse(pieces[k]).err == Some(each.error) &&
        forall j :: 0 <= j < k ==> parse(pieces[j]).Ok();
      assert conv(pieces[k]).err == Some(each.error);
    }
  }

  // One lemma per element type of handleSlice's switch, each the
  // element-wise reading of its branch.

  lemma StringsConvertEach(value: string, sep: string, svc: Services)
    requires |sep| > 0
    ensures ConvertsEach(HandleSlice(value, sep, StringElem, svc), Split(value, sep), StringElem, svc)
  {
  }

  lemma IntsConvertEach(value: string, sep: string, svc: Services)
    requires |sep| > 0
    ensures ConvertsEach(HandleSlice(value, sep, IntElem, svc), Split(value, sep), IntElem, svc)
  {
    var pieces := Split(value, sep);
    EachAsElems(Split(value, sep), ParseInt32, i => IntVal(i), s => ElemParse(IntElem, s, svc));
  }

  lemma Int64sConvertEach(value: string, sep: string, svc: Services)
    requires |sep| > 0
    ensures ConvertsEach(HandleSlice(value, sep, Int64Elem, svc), Split(value, sep), Int64Elem, svc)
  {
    var pieces := Split(value, sep);
    EachAsElems(Split(value, sep), ParseInt64, i => IntVal(i), s => ElemParse(Int64Elem, s, svc));
  }

  lemma Uint64sConvertEach(value: string, sep: string, svc: Services)
    requires |sep| > 0
    ensures ConvertsEach(HandleSlice(value, sep, Uint64Elem, svc), Split(value, sep), Uint64Elem, svc)
  {
    var pieces := Split(value, sep);
    EachAsElems(Split(value, sep), ParseUint64, n => UintVal(n), s => ElemParse(Uint64Elem, s, svc));
  }

  lemma BoolsConvertEach(value: string, sep: string, svc: Services)
    requires |sep| > 0
    ensures ConvertsEach(HandleSlice(value, sep, BoolElem, svc), Split(value, sep), BoolElem, svc)
  {
    WrapConvertsEach(Split(value, sep), ParseBool, b => BoolVal(b), vs => BoolsVal(vs), BoolElem, svc);
  }

  /** A slice built by wrapping ParseEach converts piece by piece when the
      element conversion is the parser seen through `make` and the slice's
      elements are its values seen through `make`. */
  lemma WrapConvertsEach<T>(pieces: seq<string>, parse: string -> Parsed<T>, make: T -> Value,
                            build: seq<T> -> Value, elem: ElemType, svc: Services)
    requires forall s :: ElemParse(elem, s, svc) == Parsed(make(parse(s).value), parse(s).err)
    requires ParseEach(pieces, parse).Success? ==>
      var vs := ParseEach(pieces, parse).value;
      |Elements(build(vs))| == |vs| && forall k :: 0 <= k < |vs| ==> Elements(build(vs))[k] == make(vs[k])
    ensures ConvertsEach(Wrap(ParseEach(pieces, parse), build), pieces, elem, svc)
  {
    var each := ParseEach(pieces, parse);
    EachAsElems(pieces, parse, make, s => ElemParse(elem, s, svc));
    if each.Success? {
      var es := Elements(build(each.value));
      assert |es| == |pieces|;
      forall k | 0 <= k < |pieces|
        ensures es[k] == ElemParse(elem, pieces[k], svc).value
      {
        assert es[k] == make(each.value[k]);
      }
    } else {
      var k :| 0 <= k < |pieces| && ElemParse(elem, pieces[k], svc).err == Some(each.error) &&
        forall j :: 0 <= j < k ==> ElemParse(elem, pieces[j], svc).Ok();
    }
  }

  lemma DurationsConvertEach(value: string, sep: string, svc: Services)
    requires |sep| > 0
    ensures ConvertsEach(HandleSlice(value, sep, DurationElem, svc), Split(value, sep), DurationElem, svc)
  {
    var pieces := Split(value, sep);
    EachAsElems(Split(value, sep), svc.parseDuration, d => DurationVal(d), s => ElemParse(DurationElem, s, svc));
  }

  lemma UrlsConvertEach(value: string, sep: string, svc: Services)
    requires |sep| > 0
    ensures ConvertsEach(HandleSlice(value, sep, UrlElem, svc), Split(value, sep), UrlElem, svc)
  {
    var pieces := Split(value, sep);
    EachAsElems(Split(value, sep), svc.parseUrl, u => UrlVal(u), s => ElemParse(UrlElem, s, svc));
  }

  lemma TextsConvertEach(value: string, sep: string, t: TypeId, svc: Services)
    requires |sep| > 0
    ensures ConvertsEach(HandleSlice(value, sep, OtherElem(t, true), svc), Split(value, sep), OtherElem(t, true), svc)
  {
    var pieces := Split(value, sep);
    EachAsElems(Split(value, sep), s => svc.unmarshalText(t, s), x => TextVal(x), s => ElemParse(OtherElem(t, true), s, svc));
  }

  /** handleSlice converts piece by piece: the field is set exactly when
      every piece converts, and then holds the pieces' values in order;
      otherwise the error is the first failing piece's own, unwrapped. */
  lemma HandleSliceElementwise(value: string, sep: string, elem: ElemType, svc: Services)
    requires |sep| > 0 && !Unsupported(elem)
    ensures ConvertsEach(HandleSlice(value, sep, elem, svc), Split(value, sep), elem, svc)
  {
    match elem
    case StringElem => StringsConvertEach(value, sep, svc);
    case IntElem => IntsConvertEach(value, sep, svc);
    case Int64Elem => Int64sConvertEach(value, sep, svc);
    case Uint64Elem => Uint64sConvertEach(value, sep, svc);
    case BoolElem => BoolsConvertEach(value, sep, svc);
    case DurationElem => DurationsConvertEach(value, sep, svc);
    case UrlElem => UrlsConvertEach(value, sep, svc);
    case OtherElem(t, _) => TextsConvertEach(value, sep, t, svc);
  }

  /** handleTextUnmarshaler (env.go:410-425): without the capability the
      field is unsupported; with it, the result is UnmarshalText's, its error
      returned unwrapped. */
  function HandleTextUnmarshaler(f: Field, value: string, svc: Services): (r: Result<Value, Error>)
    ensures !f.unmarshalsText ==> r == Failure(UnsupportedType)
    ensures f.unmarshalsText ==> (r.Success? <==> svc.unmarshalText(f.typeId, value).Ok())
    ensures f.unmarshalsText && r.Failure? ==> Some(r.error) == svc.unmarshalText(f.typeId, value).err
    ensures r.Success? ==> r.value == TextVal(svc.unmarshalText(f.typeId, value).value)
  {
    if !f.unmarshalsText then Failure(UnsupportedType)
    else
      var p := svc.unmarshalText(f.typeId, value);
      if p.err.Some? then Failure(p.err.value) else Success(TextVal(p.value))
  }

  /** Turns a parser's pair into a result. */
  function Lift<T>(p: Parsed<T>, make: T -> Value): Result<Value, Error> {
    if p.err.Some? then Failure(p.err.value) else Success(make(p.value))
  }

  /** set (env.go:253-335). Floating-point kinds are not modelled. */
  function Set(f: Field, value: string, funcs: CustomParsers, svc: Services): (r: Result<Value, Error>)
    ensures f.typeId in funcs ==>
      (r.Success? <==> funcs[f.typeId](value).Ok()) &&
      (r.Success? ==> r.value == funcs[f.typeId](value).value) &&
      (r.Failure? ==> r.error == CustomParserError(funcs[f.typeId](value).err.value))
    ensures f.typeId !in funcs && f.typeId == UrlType ==>
      (r.Success? <==> svc.parseUrl(value).Ok()) &&
      (r.Failure? ==> r.error == UrlParseError(svc.parseUrl(value).err.value))
  {
    if f.typeId in funcs then
      var p := funcs[f.typeId](value);
      if p.err.Some? then Failure(CustomParserError(p.err.value)) else Success(p.value)
    else if f.typeId == UrlType then
      var u := svc.parseUrl(value);
      if u.err.Some? then Failure(UrlParseError(u.err.value)) else Success(UrlVal(u.value))
    else match f.kind
      case SliceKind(elem) => HandleSlice(value, Separator(f), elem, svc)
      case StringKind => Success(StringVal(value))
      case BoolKind => Lift(ParseBool(value), b => BoolVal(b))
      case IntKind => Lift(ParseInt(value, W32), i => IntVal(i))
      case UintKind => Lift(ParseUint(value, W32), n => UintVal(n))
      case Int64Kind =>
        if f.typeId == DurationType then Lift(svc.parseDuration(value), d => DurationVal(d))
        else Lift(ParseInt(value, W64), i => IntVal(i))
      case Uint64Kind => Lift(ParseUint(value, W64), n => UintVal(n))
      case _ => HandleTextUnmarshaler(f, value, svc)
  }

  /** The built-in conversion applies: no caller-supplied converter for the
      type, and the type is not url.URL. */
  predicate BuiltIn(f: Field, funcs: CustomParsers) {
    f.typeId !in funcs && f.typeId != UrlType
  }

  /** A caller-supplied converter takes precedence over everything else: the
      field's kind and capabilities do not matter. */
  lemma CustomParserFirst(f: Field, kind: Kind, unmarshals: bool, value: string,
                          funcs: CustomParsers, svc: Services)
    requires f.typeId in funcs
    ensures Set(f, value, funcs, svc) == Set(f.(kind := kind, unmarshalsText := unmarshals), value, funcs, svc)
  {
  }

  /** int fields accept exactly the optionally signed decimal numbers within
      the 32-bit signed range, and int64 fields (other than durations) those
      within the 64-bit range; the field receives the number. */
  lemma SignedFieldRange(f: Field, value: string, w: Width, funcs: CustomParsers, svc: Services)
    requires BuiltIn(f, funcs)
    requires (w == W32 && f.kind == IntKind) || (w == W64 && f.kind == Int64Kind && f.typeId != DurationType)
    ensures Set(f, value, funcs, svc).Success? <==> IntLiteral(value, w)
    ensures Set(f, value, funcs, svc).Success? ==> Set(f, value, funcs, svc).value == IntVal(SignedValue(value))
  {
    ParseIntSpec(value, w);
  }

  /** uint fields accept exactly the decimal digit strings within the 32-bit
      unsigned range, and uint64 fields those within the 64-bit range; the
      field receives the number, and a leading minus sign is always refused. */
  lemma UnsignedFieldRange(f: Field, value: string, w: Width, funcs: CustomParsers, svc: Services)
    requires BuiltIn(f, funcs)
    requires (w == W32 && f.kind == UintKind) || (w == W64 && f.kind == Uint64Kind)
    ensures Set(f, value, funcs, svc).Success? <==> UintLiteral(value, w)
    ensures Set(f, value, funcs, svc).Success? ==> Set(f, value, funcs, svc).value == UintVal(DecimalValue(value))
    ensures |value| > 0 && value[0] == '-' ==> Set(f, value, funcs, svc).Failure?
  {
    ParseUintSpec(value, w);
  }

  /** Fields of any other kind fall back to the TextUnmarshaler capability
      and are unsupported without it. */
  lemma FallbackToTextUnmarshaler(f: Field, value: string, funcs: CustomParsers, svc: Services)
    requires BuiltIn(f, funcs)
    requires f.kind.StructKind? || f.kind.PtrKind? || f.kind.OtherKind?
    ensures !f.unmarshalsText ==> Set(f, value, funcs, svc) == Failure(UnsupportedType)
    ensures f.unmarshalsText ==>
      (Set(f, value, funcs, svc).Success? <==> svc.unmarshalText(f.typeId, value).Ok())
  {
  }

  /** string fields receive the value verbatim. */
  lemma StringFieldVerbatim(f: Field, value: string, funcs: CustomParsers, svc: Services)
    requires BuiltIn(f, funcs) && f.kind == StringKind
    ensures Set(f, value, funcs, svc) == Success(StringVal(value))
  {
  }

  /** bool fields accept exactly strconv.ParseBool's literals and receive
      whether the literal is a true one; anything else fails with
      ParseBool's own syntax error, unwrapped. */
  lemma BoolField(f: Field, value: string, funcs: CustomParsers, svc: Services)
    requires BuiltIn(f, funcs) && f.kind == BoolKind
    ensures Set(f, value, funcs, svc).Success? <==> value in TrueLiterals + FalseLiterals
    ensures Set(f, value, funcs, svc).Success? ==> Set(f, value, funcs, svc).value == BoolVal(value in TrueLiterals)
    ensures Set(f, value, funcs, svc).Failure? ==>
      Set(f, value, funcs, svc).error == NumError("ParseBool", value, ErrSyntax)
  {
  }

  /** time.Duration fields (int64 kind) go through time.ParseDuration rather
      than ParseInt, and its error is returned unwrapped. */
  lemma DurationField(f: Field, value: string, funcs: CustomParsers, svc: Services)
    requires BuiltIn(f, funcs) && f.kind == Int64Kind && f.typeId == DurationType
    ensures Set(f, value, funcs, svc).Success? <==> svc.parseDuration(value).Ok()
    ensures Set(f, value, funcs, svc).Success? ==>
      Set(f, value, funcs, svc).value == DurationVal(svc.parseDuration(value).value)
    ensures Set(f, value, funcs, svc).Failure? ==> Some(Set(f, value, funcs, svc).error) == svc.parseDuration(value).err
  {
  }

  /** A slice field goes through handleSlice with its defaulted separator:
      it is converted piece by piece, with the first failing piece's error
      returned unwrapped. */
  lemma SliceFieldElementwise(f: Field, value: string, funcs: CustomParsers, svc: Services)
    requires BuiltIn(f, funcs) && f.kind.SliceKind? && !Unsupported(f.kind.elem)
    ensures Set(f, value, funcs, svc).Success? ==> SliceOf(f.kind.elem, Set(f, value, funcs, svc).value)
    ensures ConvertsEach(Set(f, value, funcs, svc), Pieces(f, value), f.kind.elem, svc)
  {
    assert Set(f, value, funcs, svc) == HandleSlice(value, Separator(f), f.kind.elem, svc);
    HandleSliceElementwise(value, Separator(f), f.kind.elem, svc);
  }

  /** A []string field receives exactly the pieces of the split at its
      separator. */
  lemma StringSliceSet(f: Field, value: string, funcs: CustomParsers, svc: Services)
    requires BuiltIn(f, funcs) && f.kind == SliceKind(StringElem)
    ensures Set(f, value, funcs, svc) == Success(StringsVal(Split(value, Separator(f))))
  {
    assert Set(f, value, funcs, svc) == HandleSlice(value, Separator(f), StringElem, svc);
  }

  /** A []string field receives the pieces verbatim: joining them with the
      separator gives back the value, and none contains the separator. */
  lemma StringSliceIsSplit(f: Field, value: string, funcs: CustomParsers, svc: Services)
    requires BuiltIn(f, funcs) && f.kind == SliceKind(StringElem)
    ensures Set(f, value, funcs, svc).Success?
    ensures Set(f, value, funcs, svc).value.StringsVal?
    ensures Join(Set(f, value, funcs, svc).value.ss, Separator(f)) == value
    ensures forall k :: 0 <= k < |Set(f, value, funcs, svc).value.ss| ==>
      !Contains(Set(f, value, funcs, svc).value.ss[k], Separator(f))
    ensures LeftmostPieces(Set(f, value, funcs, svc).value.ss, Separator(f))
    ensures |Separator(f)| == 1 ==>
      |Set(f, value, funcs, svc).value.ss| == multiset(value)[Separator(f)[0]] + 1
  {
    StringSliceSet(f, value, funcs, svc);
    JoinSplit(value, Separator(f));
    SplitPiecesAvoidSep(value, Separator(f));
    SplitLeftmost(value, Separator(f));
    if |Separator(f)| == 1 {
      assert Separator(f) == [Separator(f)[0]];
      SplitCountChar(value, Separator(f)[0]);
    }
  }

  /** Any pieces the split could have produced (each free of the separator
      even when followed by all but its last character) come back unchanged
      from their join, whatever the separator's length. */
  lemma StringSliceJoinRoundTrip(f: Field, pieces: seq<string>, funcs: CustomParsers, svc: Services)
    requires BuiltIn(f, funcs) && f.kind == SliceKind(StringElem)
    requires LeftmostPieces(pieces, Separator(f))
    ensures Set(f, Join(pieces, Separator(f)), funcs, svc) == Success(StringsVal(pieces))
  {
    StringSliceSet(f, Join(pieces, Separator(f)), funcs, svc);
    SplitJoin(pieces, Separator(f));
  }

  /** With a one-character separator a slice of k+1 pieces comes from a value
      with k separators, and any pieces free of the separator come back
      unchanged from their join. */
  lemma StringSliceRoundTrip(f: Field, pieces: seq<string>, c: char, funcs: CustomParsers, svc: Services)
    requires BuiltIn(f, funcs) && f.kind == SliceKind(StringElem) && Separator(f) == [c]
    requires |pieces| >= 1 && forall k :: 0 <= k < |pieces| ==> c !in pieces[k]
    ensures Set(f, Join(pieces, [c]), funcs, svc) == Success(StringsVal(pieces))
    ensures multiset(Join(pieces, [c]))[c] + 1 == |pieces|
  {
    LeftmostPiecesChar(pieces, c);
    StringSliceJoinRoundTrip(f, pieces, funcs, svc);
    SplitJoinChar(pieces, c);
    SplitCountChar(Join(pieces, [c]), c);
  }

  /** A []int field succeeds exactly when every piece is a 32-bit decimal
      (a []int64 field: a 64-bit one), and then holds the pieces' values in
      order; one bad piece fails the whole field with that piece's ParseInt
      error. */
  lemma IntSliceAllOrNothing(f: Field, value: string, w: Width, funcs: CustomParsers, svc: Services)
    requires BuiltIn(f, funcs)
    requires (w == W32 && f.kind == SliceKind(IntElem)) || (w == W64 && f.kind == SliceKind(Int64Elem))
    ensures Set(f, value, funcs, svc).Success? <==>
      forall k :: 0 <= k < |Pieces(f, value)| ==> IntLiteral(Pieces(f, value)[k], w)
    ensures Set(f, value, funcs, svc).Success? ==>
      Set(f, value, funcs, svc).value.IntsVal? &&
      |Set(f, value, funcs, svc).value.ints| == |Pieces(f, value)|
    ensures Set(f, value, funcs, svc).Success? ==>
      forall k :: 0 <= k < |Pieces(f, value)| ==>
        Set(f, value, funcs, svc).value.ints[k] == SignedValue(Pieces(f, value)[k])
    ensures Set(f, value, funcs, svc).Failure? ==>
      exists k :: 0 <= k < |Pieces(f, value)| &&
        ParseInt(Pieces(f, value)[k], w).err == Some(Set(f, value, funcs, svc).error)
  {
    var pieces := Pieces(f, value);
    var r := Set(f, value, funcs, svc);
    var elem := f.kind.elem;
    SliceFieldElementwise(f, value, funcs, svc);
    assert r.Success? <==> forall k :: 0 <= k < |pieces| ==> ElemParse(elem, pieces[k], svc).Ok();
    forall k | 0 <= k < |pieces|
      ensures ElemParse(elem, pieces[k], svc).Ok() <==> IntLiteral(pieces[k], w)
      ensures ElemParse(elem, pieces[k], svc).Ok() ==> ElemParse(elem, pieces[k], svc).value == IntVal(SignedValue(pieces[k]))
      ensures ElemParse(elem, pieces[k], svc).err == ParseInt(pieces[k], w).err
    {
      ElemParseSpec(elem, pieces[k], svc);
    }
    if r.Success? {
      forall k | 0 <= k < |pieces| ensures r.value.ints[k] == SignedValue(pieces[k]) {
        assert Elements(r.value)[k] == IntVal(r.value.ints[k]);
      }
    }
  }
  /** A []uint64 field succeeds exactly when every piece is a decimal digit
      string within 64 bits, and then holds the pieces' values in order. */
  lemma Uint64SliceAllOrNothing(f: Field, value: string, funcs: CustomParsers, svc: Services)
    requires BuiltIn(f, funcs) && f.kind == SliceKind(Uint64Elem)
    ensures Set(f, value, funcs, svc).Success? <==>
      forall k :: 0 <= k < |Pieces(f, value)| ==> UintLiteral(Pieces(f, value)[k], W64)
    ensures Set(f, value, funcs, svc).Success? ==>
      Set(f, value, funcs, svc).value.UintsVal? &&
      |Set(f, value, funcs, svc).value.ns| == |Pieces(f, value)| &&
      forall k :: 0 <= k < |Pieces(f, value)| ==>
        Set(f, value, funcs, svc).value.ns[k] == DecimalValue(Pieces(f, value)[k])
  {
    var pieces := Pieces(f, value);
    var r := Set(f, value, funcs, svc);
    var elem := f.kind.elem;
    SliceFieldElementwise(f, value, funcs, svc);
    assert r.Success? <==> forall k :: 0 <= k < |pieces| ==> ElemParse(elem, pieces[k], svc).Ok();
    forall k | 0 <= k < |pieces|
      ensures ElemParse(Uint64Elem, pieces[k], svc).Ok() <==> UintLiteral(pieces[k], W64)
      ensures ElemParse(Uint64Elem, pieces[k], svc).Ok() ==>
        ElemParse(Uint64Elem, pieces[k], svc).value == UintVal(DecimalValue(pieces[k]))
    {
      ElemParseSpec(Uint64Elem, pieces[k], svc);
    }
    if r.Success? {
      forall k | 0 <= k < |pieces| ensures r.value.ns[k] == DecimalValue(pieces[k]) {
        assert Elements(r.value)[k] == UintVal(r.value.ns[k]);
      }
    }
  }

  /** A []bool field succeeds exactly when every piece is a ParseBool
      literal, and then holds which pieces are true literals. */
  lemma BoolSliceAllOrNothing(f: Field, value: string, funcs: CustomParsers, svc: Services)
    requires BuiltIn(f, funcs) && f.kind == SliceKind(BoolElem)
    ensures Set(f, value, funcs, svc).Success? <==>
      forall k :: 0 <= k < |Pieces(f, value)| ==> Pieces(f, value)[k] in TrueLiterals + FalseLiterals
    ensures Set(f, value, funcs, svc).Success? ==>
      Set(f, value, funcs, svc).value.BoolsVal? &&
      |Set(f, value, funcs, svc).value.bs| == |Pieces(f, value)| &&
      forall k :: 0 <= k < |Pieces(f, value)| ==>
        (Set(f, value, funcs, svc).value.bs[k] <==> Pieces(f, value)[k] in TrueLiterals)
  {
    var pieces := Pieces(f, value);
    var r := Set(f, value, funcs, svc);
    var elem := f.kind.elem;
    SliceFieldElementwise(f, value, funcs, svc);
    assert r.Success? <==> forall k :: 0 <= k < |pieces| ==> ElemParse(elem, pieces[k], svc).Ok();
    forall k | 0 <= k < |pieces|
      ensures ElemParse(BoolElem, pieces[k], svc).Ok() <==> pieces[k] in TrueLiterals + FalseLiterals
      ensures ElemParse(BoolElem, pieces[k], svc).Ok() ==>
        ElemParse(BoolElem, pieces[k], svc).value == BoolVal(pieces[k] in TrueLiterals)
    {
      ElemParseSpec(BoolElem, pieces[k], svc);
    }
    if r.Success? {
      forall k | 0 <= k < |pieces| ensures r.value.bs[k] <==> pieces[k] in TrueLiterals {
        assert Elements(r.value)[k] == BoolVal(r.value.bs[k]);
      }
    }
  }

  /** Slices of durations, URLs and text-unmarshalling elements hold what the
      collaborator returned for each piece, in order, and fail with the first
      failing piece's own error, unwrapped. */
  lemma CollaboratorSlices(f: Field, value: string, funcs: CustomParsers, svc: Services)
    requires BuiltIn(f, funcs)
    requires f.kind == SliceKind(DurationElem) || f.kind == SliceKind(UrlElem) ||
      (f.kind.SliceKind? && f.kind.elem.OtherElem? && f.kind.elem.unmarshalsText)
    ensures f.kind.elem == DurationElem && Set(f, value, funcs, svc).Success? ==>
      Set(f, value, funcs, svc).value.DurationsVal? &&
      |Set(f, value, funcs, svc).value.ds| == |Pieces(f, value)| &&
      forall k :: 0 <= k < |Pieces(f, value)| ==>
        Set(f, value, funcs, svc).value.ds[k] == svc.parseDuration(Pieces(f, value)[k]).value
    ensures f.kind.elem == UrlElem && Set(f, value, funcs, svc).Success? ==>
      Set(f, value, funcs, svc).value.UrlsVal? &&
      |Set(f, value, funcs, svc).value.us| == |Pieces(f, value)| &&
      forall k :: 0 <= k < |Pieces(f, value)| ==>
        Set(f, value, funcs, svc).value.us[k] == svc.parseUrl(Pieces(f, value)[k]).value
    ensures f.kind.elem.OtherElem? && Set(f, value, funcs, svc).Success? ==>
      Set(f, value, funcs, svc).value.TextsVal? &&
      |Set(f, value, funcs, svc).value.ts| == |Pieces(f, value)| &&
      forall k :: 0 <= k < |Pieces(f, value)| ==>
        Set(f, value, funcs, svc).value.ts[k] == svc.unmarshalText(f.kind.elem.typeId, Pieces(f, value)[k]).value
    ensures f.kind.elem == DurationElem && Set(f, value, funcs, svc).Failure? ==>
      exists k :: 0 <= k < |Pieces(f, value)| &&
        svc.parseDuration(Pieces(f, value)[k]).err == Some(Set(f, value, funcs, svc).error)
    ensures f.kind.elem == UrlElem && Set(f, value, funcs, svc).Failure? ==>
      exists k :: 0 <= k < |Pieces(f, value)| &&
        svc.parseUrl(Pieces(f, value)[k]).err == Some(Set(f, value, funcs, svc).error)
    ensures f.kind.elem.OtherElem? && Set(f, value, funcs, svc).Failure? ==>
      exists k :: 0 <= k < |Pieces(f, value)| &&
        svc.unmarshalText(f.kind.elem.typeId, Pieces(f, value)[k]).err == Some(Set(f, value, funcs, svc).error)
  {
    var pieces := Pieces(f, value);
    var r := Set(f, value, funcs, svc);
    var elem := f.kind.elem;
    SliceFieldElementwise(f, value, funcs, svc);
    assert r.Success? <==> forall k :: 0 <= k < |pieces| ==> ElemParse(elem, pieces[k], svc).Ok();
    forall k | 0 <= k < |pieces|
      ensures elem == DurationElem ==> ElemParse(elem, pieces[k], svc) == Parsed(DurationVal(svc.parseDuration(pieces[k]).value), svc.parseDuration(pieces[k]).err)
      ensures elem == UrlElem ==> ElemParse(elem, pieces[k], svc) == Parsed(UrlVal(svc.parseUrl(pieces[k]).value), svc.parseUrl(pieces[k]).err)
      ensures elem.OtherElem? ==>
        ElemParse(elem, pieces[k], svc) ==
          Parsed(TextVal(svc.unmarshalText(elem.typeId, pieces[k]).value), svc.unmarshalText(elem.typeId, pieces[k]).err)
    {
    }
    if r.Success? {
      forall k | 0 <= k < |pieces|
        ensures elem == DurationElem ==> r.value.ds[k] == svc.parseDuration(pieces[k]).value
        ensures elem == UrlElem ==> r.value.us[k] == svc.parseUrl(pieces[k]).value
        ensures elem.OtherElem? ==> r.value.ts[k] == svc.unmarshalText(elem.typeId, pieces[k]).value
      {
        assert Elements(r.value)[k] == ElemParse(elem, pieces[k], svc).value;
      }
    }
  }

  /** A slice of an element type the converter does not know fails with
      ErrUnsupportedSliceType unless the element type can unmarshal text. */
  lemma UnsupportedSliceElement(f: Field, value: string, t: TypeId, funcs: CustomParsers, svc: Services)
    requires BuiltIn(f, funcs) && f.kind == SliceKind(OtherElem(t, false))
    ensures Set(f, value, funcs, svc) == Failure(UnsupportedSliceType)
  {
  }

  /** With the separator ":" the value "a:b:c" gives three strings. */
  lemma CustomSeparatorExample(f: Field, funcs: CustomParsers, svc: Services)
    requires BuiltIn(f, funcs) && f.kind == SliceKind(StringElem) && TagGet(f.tags, "envSeparator") == ":"
    ensures Set(f, "a:b:c", funcs, svc) == Success(StringsVal(["a", "b", "c"]))
  {
    assert Join(["a", "b", "c"], ":") == "a:b:c";
    StringSliceRoundTrip(f, ["a", "b", "c"], ':', funcs, svc);
  }

  /** The default separator leaves "1:2:3" whole, so a []int field fails on
      it. */
  lemma DefaultSeparatorExample(g: Field, funcs: CustomParsers, svc: Services)
    requires BuiltIn(g, funcs) && g.kind == SliceKind(IntElem) && TagGet(g.tags, "envSeparator") == ""
    ensures Set(g, "1:2:3", funcs, svc).Failure?
  {
    assert Join(["1:2:3"], ",") == "1:2:3";
    SplitJoinChar(["1:2:3"], ',');
    assert !IsDigit("1:2:3"[1]);
    IntSliceAllOrNothing(g, "1:2:3", W32, funcs, svc);
  }
}
