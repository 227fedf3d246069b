/** The errors the parser and the getters can report, and their rendering as
    Go error strings (env.go:24-52 and the fmt.Errorf calls of env.go). */
module Errors {
  import opened Wrappers
  import opened Text

  /** The two failures strconv distinguishes. */
  datatype NumFailure = ErrSyntax | ErrRange

  datatype Error =
      /** strconv.NumError: the function name, the input and the failure. */
    | NumError(func: string, num: string, failure: NumFailure)
      /** An error from a collaborator this model does not interpret
          (duration or URL syntax, a TextUnmarshaler, a custom parser). */
    | Foreign(msg: string)
      /** A non-empty key prefix that does not end in an underscore. */
    | InvalidPrefix(prefix: string)
      /** ErrNotAStructPtr. */
    | NotAStructPtr
      /** A `required` tag whose value is not a boolean literal. */
    | InvalidRequiredTag(tag: string, cause: Error)
      /** A required variable that is absent from the environment. */
    | MissingRequired(key: string)
      /** A failure reported by a caller-supplied converter. */
    | CustomParserError(cause: Error)
      /** A failure of url.Parse for a field of type url.URL. */
    | UrlParseError(cause: Error)
      /** ErrUnsupportedType. */
    | UnsupportedType
      /** ErrUnsupportedSliceType. */
    | UnsupportedSliceType
      /** A field-level failure wrapped with the field's dotted path and the
          name of the structure that declares it. */
    | FieldError(path: string, structName: string, cause: Error)
      /** ParseErrors: every failure collected by one walk, in order. */
    | ParseErrors(errs: seq<Error>)
      /** The failure of ValidateRequired, listing the absent names. */
    | MissingVars(names: seq<string>)

  /** Go's `(value, error)` pair: the value is still defined on error (the
      getters of util.go hand it back to their callers). */
  datatype Parsed<+T> = Parsed(value: T, err: Option<Error>) {
    predicate Ok() {
      err.None?
    }
  }

  function NumFailureText(f: NumFailure): string {
    match f
    case ErrSyntax => "invalid syntax"
    case ErrRange => "value out of range"
  }

  /** The string `Error()` returns for each error. */
  function Message(e: Error): string
    decreases e, 0
  {
    match e
    case NumError(func, num, failure) =>
      "strconv." + func + ": parsing " + Quote(num) + ": " + NumFailureText(failure)
    case Foreign(msg) => msg
    case InvalidPrefix(prefix) => "prefix must end with underscore, got: " + Quote(prefix)
    case NotAStructPtr => "expected a pointer to a Struct"
    case InvalidRequiredTag(_, cause) => WrapHead(e) + ": " + Message(cause)
    case MissingRequired(key) => "env var " + key + " was missing and is required"
    case CustomParserError(cause) => WrapHead(e) + ": " + Message(cause)
    case UrlParseError(cause) => WrapHead(e) + ": " + Message(cause)
    case UnsupportedType => "type is not supported"
    case UnsupportedSliceType => "unsupported slice type"
    case FieldError(_, _, cause) => WrapHead(e) + ": " + Message(cause)
    case ParseErrors(errs) => RenderErrors(errs)
    case MissingVars(names) => MissingVarsHead + Join(names, " ") + "]"
  }

  /** The text before the bracketed list of ValidateRequired's error. */
  const MissingVarsHead := "missing required environment variables: ["

  /** The errors built with a `%w` or `%v` of another error. */
  predicate Wraps(e: Error) {
    e.InvalidRequiredTag? || e.CustomParserError? || e.UrlParseError? || e.FieldError?
  }

  /** The context a wrapping error writes before its cause's message. */
  function WrapHead(e: Error): (head: string)
    requires Wraps(e)
    ensures |head| > 0
  {
    match e
    case InvalidRequiredTag(tag, _) => "invalid required tag " + Quote(tag)
    case CustomParserError(_) => "custom parser error"
    case UrlParseError(_) => "unable to complete URL parse"
    case FieldError(path, structName, _) => "field '" + path + "' in " + structName
  }

  /** Wrapping keeps the cause's message verbatim at the end, after a colon,
      and adds context in front of it. */
  lemma WrappedMessageEndsWithCause(e: Error)
    requires Wraps(e)
    ensures HasSuffix(Message(e), ": " + Message(e.cause))
    ensures |Message(e)| > |Message(e.cause)| + 2
  {
    assert Message(e) == WrapHead(e) + (": " + Message(e.cause));
    EndsWith(WrapHead(e), ": " + Message(e.cause));
  }

  lemma EndsWith(a: string, b: string)
    requires |a| > 0
    ensures HasSuffix(a + b, b) && |a + b| > |b|
  {
    assert (a + b)[|a|..] == b;
  }

  /** A field error names its field: the dotted path stands between the
      first two quotes, provided it holds no quote itself. */
  lemma FieldErrorPath(path: string, structName: string, cause: Error)
    requires '\'' !in path
    ensures Message(FieldError(path, structName, cause))[..7] == "field '"
    ensures IndexOf(Message(FieldError(path, structName, cause))[7..], "'") == Some(|path|)
    ensures Message(FieldError(path, structName, cause))[7..7 + |path|] == path
  {
    var e := FieldError(path, structName, cause);
    assert Message(e) == WrapHead(e) + ": " + Message(cause);
    FieldText(path, structName, Message(cause));
  }

  lemma FieldText(path: string, structName: string, msg: string)
    requires '\'' !in path
    ensures ("field '" + path + "' in " + structName + ": " + msg)[..7] == "field '"
    ensures IndexOf(("field '" + path + "' in " + structName + ": " + msg)[7..], "'") == Some(|path|)
    ensures ("field '" + path + "' in " + structName + ": " + msg)[7..7 + |path|] == path
  {
    var tail := "' in " + structName + ": " + msg;
    assert "field '" + path + "' in " + structName + ": " + msg == "field '" + path + tail;
    QuotedFirst("field '", path, tail);
  }

  /** In `head + path + tail`, where `tail` opens with a quote and `path`
      holds none, the first quote after `head` ends `path`. */
  lemma QuotedFirst(head: string, path: string, tail: string)
    requires '\'' !in path && |tail| > 0 && tail[0] == '\''
    ensures (head + path + tail)[..|head|] == head
    ensures IndexOf((head + path + tail)[|head|..], "'") == Some(|path|)
    ensures (head + path + tail)[|head|..|head| + |path|] == path
  {
    var m := head + path + tail;
    var rest := m[|head|..];
    assert rest == path + tail;
    assert rest[|path|..|path| + 1] == "'";
    assert OccursAt(rest, "'", |path|);
    forall j | 0 <= j < |path| ensures !OccursAt(rest, "'", j) {
      assert rest[j] == path[j];
    }
    IndexOfAt(rest, "'", |path|);
  }

  /** The missing names can be read back from the error text: the bracketed
      list, split at its spaces, is the list of names, provided there is at
      least one and none holds a space. */
  lemma MissingVarsNames(names: seq<string>)
    requires |names| >= 1
    requires forall k :: 0 <= k < |names| ==> ' ' !in names[k]
    ensures |Message(MissingVars(names))| > |MissingVarsHead|
    ensures Message(MissingVars(names))[..|MissingVarsHead|] == MissingVarsHead
    ensures Message(MissingVars(names))[|Message(MissingVars(names))| - 1] == ']'
    ensures Split(Message(MissingVars(names))[|MissingVarsHead|..|Message(MissingVars(names))| - 1], " ") == names
  {
    var m := Message(MissingVars(names));
    var list := Join(names, " ");
    assert m == MissingVarsHead + list + "]";
    assert m[|MissingVarsHead|..|m| - 1] == list;
    SplitJoinChar(names, ' ');
  }

  /** The first line of a multi-error report. */
  function Header(n: nat): string {
    "multiple parsing errors (" + NatToString(n) + "):"
  }

  /** The line reporting the `i`-th error (counting from 1). */
  function ItemLine(i: nat, msg: string): string {
    "  " + NatToString(i) + ". " + msg
  }

  /** The messages of a list of errors, in order. */
  function Messages(errs: seq<Error>): (msgs: seq<string>)
    ensures |msgs| == |errs|
    decreases errs, 1
  {
    seq(|errs|, i requires 0 <= i < |errs| => Message(errs[i]))
  }

  /** ParseErrors.Error (env.go:38-52). */
  function RenderErrors(errs: seq<Error>): (r: string)
    ensures |errs| == 0 ==> r == ""
    ensures |errs| == 1 ==> r == Message(errs[0])
    decreases errs, 2
  {
    Render(Messages(errs))
  }

  /** The report for a list of messages: nothing for none, the message
      itself for one, otherwise a header and one numbered line per message. */
  function Render(msgs: seq<string>): string {
    if |msgs| == 0 then ""
    else if |msgs| == 1 then msgs[0]
    else Header(|msgs|) + Listing(msgs, 0)
  }

  /** The numbered lines for messages `i..` of the report, each preceded by
      a newline. */
  function Listing(msgs: seq<string>, i: nat): string
    requires i <= |msgs|
    decreases |msgs| - i
  {
    if i == |msgs| then ""
    else "\n" + ItemLine(i + 1, msgs[i]) + Listing(msgs, i + 1)
  }

  /** The numbered lines of a report, one per message, in list order. */
  function ItemLines(msgs: seq<string>): (lines: seq<string>)
    ensures |lines| == |msgs|
  {
    seq(|msgs|, i requires 0 <= i < |msgs| => ItemLine(i + 1, msgs[i]))
  }

  lemma {:induction false} ListingIsJoin(msgs: seq<string>, i: nat)
    requires i < |msgs|
    ensures Listing(msgs, i) == "\n" + Join(ItemLines(msgs)[i..], "\n")
    decreases |msgs| - i
  {
    var lines := ItemLines(msgs);
    var line := ItemLine(i + 1, msgs[i]);
    assert lines[i] == line;
    if i + 1 == |msgs| {
      assert lines[i..] == [line];
      assert Listing(msgs, i + 1) == "";
    } else {
      ListingIsJoin(msgs, i + 1);
      var rest := Join(lines[i + 1..], "\n");
      assert Listing(msgs, i + 1) == "\n" + rest;
      assert lines[i..] == [line] + lines[i + 1..];
      JoinCons(line, lines[i + 1..], "\n");
      assert Listing(msgs, i) == "\n" + line + ("\n" + rest);
    }
  }

  lemma NatToStringHasNoNewline(n: nat)
    ensures '\n' !in NatToString(n)
  {
  }

  lemma HeaderHasNoNewline(n: nat)
    ensures '\n' !in Header(n)
  {
    NatToStringHasNoNewline(n);
  }

  lemma ItemLinesHaveNoNewline(msgs: seq<string>)
    requires forall i :: 0 <= i < |msgs| ==> '\n' !in msgs[i]
    ensures forall k :: 0 <= k < |msgs| ==> '\n' !in ItemLines(msgs)[k]
  {
    forall k | 0 <= k < |msgs| ensures '\n' !in ItemLines(msgs)[k] {
      NatToStringHasNoNewline(k + 1);
    }
  }

  /** A report of two or more messages is its header and its numbered lines
      joined with newlines. */
  lemma RenderIsJoin(msgs: seq<string>)
    requires |msgs| >= 2
    ensures Render(msgs) == Join([Header(|msgs|)] + ItemLines(msgs), "\n")
  {
    var lines := ItemLines(msgs);
    var all := [Header(|msgs|)] + lines;
    ListingIsJoin(msgs, 0);
    assert lines[0..] == lines;
    assert all[1..] == lines;
  }

  /** A report of two or more single-line messages, split at its newlines,
      is the header followed by one numbered line per message. */
  lemma RenderedMessageLines(msgs: seq<string>)
    requires |msgs| >= 2
    requires forall i :: 0 <= i < |msgs| ==> '\n' !in msgs[i]
    ensures Split(Render(msgs), "\n") == [Header(|msgs|)] + ItemLines(msgs)
  {
    var lines := ItemLines(msgs);
    var all := [Header(|msgs|)] + lines;
    RenderIsJoin(msgs);
    HeaderHasNoNewline(|msgs|);
    ItemLinesHaveNoNewline(msgs);
    forall k | 0 <= k < |all| ensures '\n' !in all[k] {
      if k > 0 {
        assert all[k] == lines[k - 1];
      }
    }
    SplitJoinChar(all, '\n');
  }

  /** A report of two or more errors, split at its newlines, is the header
      followed by one numbered line per error in list order, provided no
      message itself spans several lines. */
  lemma RenderedLines(errs: seq<Error>)
    requires |errs| >= 2
    requires forall i :: 0 <= i < |errs| ==> '\n' !in Message(errs[i])
    ensures Split(RenderErrors(errs), "\n") == [Header(|errs|)] + ItemLines(Messages(errs))
  {
    RenderedMessageLines(Messages(errs));
  }

  /** Three errors render as the header and three numbered lines, joined
      with newlines. */
  lemma ThreeMessagesExample(a: string, b: string, c: string)
    ensures RenderErrors([Foreign(a), Foreign(b), Foreign(c)]) ==
      Join(["multiple parsing errors (3):", "  1. " + a, "  2. " + b, "  3. " + c], "\n")
  {
    var msgs := Messages([Foreign(a), Foreign(b), Foreign(c)]);
    assert Message(Foreign(a)) == a && Message(Foreign(b)) == b && Message(Foreign(c)) == c;
    assert msgs == [a, b, c];
    assert NatToString(1) == "1" && NatToString(2) == "2" && NatToString(3) == "3";
    var lines := ItemLines(msgs);
    assert lines[0] == "  1. " + a && lines[1] == "  2. " + b && lines[2] == "  3. " + c;
    assert lines == ["  1. " + a, "  2. " + b, "  3. " + c];
    RenderIsJoin(msgs);
  }
}
