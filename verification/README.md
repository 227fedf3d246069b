# env: a Dafny model of struct-tag configuration loading

This project models the core of the Go package `env` (lindenlab/env). The
package fills the fields of a Go structure from environment variables named
by struct tags. It also offers a family of typed getters for single
variables. The model covers both parts:

- **Parsing a structure.** This covers `Parse`, `ParseWithPrefix`,
  `ParseWithFuncs`, `ParseWithPrefixFuncs`, `doParse`, `get`, `set`,
  `handleSlice`, `handleTextUnmarshaler` and the element parsers.
  - Go reflection is replaced by a descriptor tree (`Descriptor.Kind`,
    `Descriptor.Field`). The process environment is a map.
  - A parse does not mutate anything. It returns its error (`None` for nil)
    together with the list of assignments it made, in order. Each assignment
    is also the call that the `OnEnvVarSet` callback receives.
  - The walk (`Walker`) is written over its two per-field steps, value
    resolution and conversion, passed as function values in `Walker.Steps`.
    Its properties therefore hold for any resolver and converter.
    `Walker.StepsFor` plugs in the package's own `get` (`Resolve.Get`) and
    `set` (`Convert.Set`), and the public entry points use it.
- **Introspection.** This covers `VarInfo`, `GetAllVars`, `GetRequiredVars`,
  `ValidateRequired` and `collectVars`.
- **The getters of util.go.** This covers `GetParsed`, `GetOrParsed`,
  `MustGetParsed`, the string getters, the typed getters for bool, int, uint,
  int64, uint64, `time.Duration` and `*url.URL`, and `isValidEnvVarKey`.
  - A panic is modelled as a `Failure` that carries the panic message.
- **Error messages.** The error strings of the package are modelled
  exactly. This includes the numbered multi-error report of `ParseErrors`.
- **The strconv functions.** `ParseBool`, and `ParseInt`/`ParseUint` in
  base 10 at 32 and 64 bits, are modelled exactly:
  - a syntax error gives 0;
  - a range error gives the nearest bound;
  - the error names the function and the input.

Other collaborators are passed in as function values in
`Descriptor.Services`: `os.ExpandEnv`, `time.ParseDuration`, `url.Parse`,
`url.ParseRequestURI`, `UnmarshalText`, and the caller's custom parsers. The
model does not interpret their syntax.

Modules, one per file:

| module | file |
|---|---|
| `Wrappers` (Option, Result) | `wrappers.dfy` |
| `Text` (Index, Split, Join, ToLower, decimal formatting) | `text.dfy` |
| `Errors` | `errors.dfy` |
| `Strconv` | `strconv.dfy` |
| `Descriptor` | `descriptor.dfy` |
| `Resolve` (`get`) | `resolve.dfy` |
| `Convert` (`set` and slices) | `convert.dfy` |
| `Walker` (the Parse family and `doParse`) | `walker.dfy` |
| `Introspect` | `introspect.dfy` |
| `Getters` (util.go) | `util.dfy` |

## Model

| member | source | states |
|---|---|---|
| Text.ToLower | env.go:245-246 | Lower-cases ASCII letters and keeps every other character, position by position; the length is unchanged. |
| Text.JoinSplit | env.go:342 | Joining the pieces of strings.Split with the same separator gives back the original value. |
| Text.SplitPiecesAvoidSep | env.go:342 | No piece produced by strings.Split contains the separator. |
| Text.SplitCountChar | env.go:342 | Splitting on a one-character separator yields exactly one more piece than the separator occurs in the value. |
| Text.SplitJoinChar | env.go:342 | Splitting the join of separator-free pieces on a one-character separator gives back those pieces. |
| Text.IndexOfSpec | env.go:342 | strings.Index finds the leftmost occurrence of the separator, and finds nothing exactly when the separator does not occur. |
| Text.SplitLeftmost | env.go:342 | For a separator of any length, each piece but the last holds no occurrence of the separator, even when followed by all but the separator's last character; the split always cuts at the leftmost occurrence. |
| Text.SplitJoin | env.go:342 | For a separator of any length, splitting the join of pieces with that leftmost-cut property gives back exactly those pieces. |
| Text.LeftmostPiecesChar | env.go:342 | For a one-character separator, the leftmost-cut property is exactly that no piece contains the character. |
| Text.DecimalOfNatToString | env.go:47-49 | The decimal numeral used for error counts and item numbers reads back as the number. |
| Text.NatToStringInjective | env.go:47-49 | Different counts render as different numerals. |
| Errors.RenderErrors | env.go:38-44 | An empty error list renders as "", and a single error as that error's own message. |
| Errors.ListingIsJoin | env.go:48-50 | The numbered lines after the header are the item lines joined by newlines, each preceded by one newline. |
| Errors.RenderIsJoin | env.go:46-51 | A report of two or more messages is the header line and one numbered line per message, joined with newlines. |
| Errors.RenderedMessageLines | env.go:46-51 | Splitting such a report at newlines recovers the header and the numbered lines, provided no message spans lines. |
| Errors.RenderedLines | env.go:38-52 | For two or more single-line errors, the report's lines are the header followed by "  i. message" for each error in list order. |
| Errors.ThreeMessagesExample | env.go:38-52 | Three errors render as "multiple parsing errors (3):" followed by the lines numbered 1 to 3. |
| Errors.WrappedMessageEndsWithCause | env.go:183-268 | A field error, an invalid required tag, a custom parser error and a URL parse error each end with ": " followed by the message of the error they wrap, after non-empty context. |
| Errors.FieldErrorPath | env.go:183 | A field error's message starts with "field '", and the first quote after that ends the dotted path, which can therefore be read back when it holds no quote. |
| Errors.MissingVarsNames | env.go:685-687 | ValidateRequired's error starts with "missing required environment variables: [" and ends with "]"; the text between, split at spaces, is the list of missing names, when there is at least one and none holds a space. |
| Strconv.ParseBool | env.go:225 | Accepts exactly the six true and six false literals and returns the matching boolean; anything else is a ParseBool syntax error on that input. |
| Strconv.ScanDecimalSpec | env.go:294 | The digit loop succeeds exactly on digit strings whose value fits the bound, reports syntax only for a non-digit, and returns the value. |
| Strconv.ParseUintSpec | env.go:294 | ParseUint accepts exactly non-empty digit strings within the width's unsigned range and returns their value; an out-of-range digit string yields the maximum with a range error naming ParseUint and the input. |
| Strconv.ParseUintRejectsMinus | env.go:293-298 | The unsigned parser refuses a leading minus sign. |
| Strconv.ParseUintFormat | util.go:69-72 | ParseUint reads back every decimal rendering within range. |
| Strconv.ParseIntSpec | env.go:288 | ParseInt accepts exactly an optionally signed digit string within the width's signed range and returns its value; a well-formed value out of range yields the nearest bound; errors name ParseInt and the input. |
| Strconv.ParseIntFormat | util.go:65-68 | ParseInt reads back every non-negative decimal rendering within range. |
| Strconv.ParseIntFormatNegative | util.go:65-68 | ParseInt reads back a minus sign followed by a decimal rendering down to the minimum. |
| Resolve.Get | env.go:217-251 | A malformed `required` tag is an error carrying ParseBool's error, and so is a missing variable whose `required` tag reads true; otherwise the result is the prefixed variable if present, else the `envDefault` tag, else "", expanded when `envExpand` lower-cases to "true". |
| Resolve.Unprefixed | env.go:218 | The environment seen through a prefix holds exactly the variables whose names start with it, renamed without it. |
| Resolve.GetUnderPrefix | env.go:218-243 | Without expansion, resolving under a prefix succeeds and yields the same value as resolving without prefix in the environment seen through that prefix. |
| Convert.ParseEach | env.go:427-438 | The element loop succeeds exactly when every piece parses, returning one value per piece in order; otherwise it returns the error of the first failing piece. |
| Convert.Separator | env.go:337-340 | The separator is the `envSeparator` tag when that is non-empty and "," otherwise, so it is never empty. |
| Convert.HandleSlice | env.go:337-408 | A slice whose element type is neither known nor a TextUnmarshaler fails with ErrUnsupportedSliceType; a successful result is a slice of the element type. |
| Convert.ElemParseSpec | env.go:427-558 | Per element type: a string piece is kept verbatim; int, int64 and uint64 pieces are accepted exactly in their decimal ranges with their values; bool pieces exactly on the twelve literals; duration, URL and TextUnmarshaler pieces exactly when the collaborator accepts them, with its error. |
| Convert.HandleSliceElementwise | env.go:342-404 | For any supported element type, the slice succeeds exactly when every piece converts, then holds one converted value per piece in order; otherwise it fails with the error of the first failing piece. |
| Convert.HandleTextUnmarshaler | env.go:410-425 | A type without UnmarshalText is ErrUnsupportedType; otherwise the conversion succeeds exactly when UnmarshalText does, with its value, and fails with its error. |
| Convert.Set | env.go:253-272 | A custom parser for the declared type decides the outcome, and its error is wrapped as a custom parser error; otherwise a url.URL field uses url.Parse, with its error wrapped. |
| Convert.CustomParserFirst | env.go:254-263 | With a custom parser for the type, the field's kind and TextUnmarshaler capability do not affect the conversion. |
| Convert.SignedFieldRange | env.go:287-292 | An int field accepts exactly the decimals in the 32-bit signed range, and an int64 field that is not a duration those in the 64-bit range; the field receives the number. |
| Convert.UnsignedFieldRange | env.go:293-298 | A uint field accepts exactly the digit strings in the 32-bit unsigned range, and a uint64 field those in the 64-bit range; a leading minus always fails. |
| Convert.StringFieldVerbatim | env.go:279-280 | A string field receives the value unchanged and never fails. |
| Convert.BoolField | env.go:281-286 | A bool field accepts exactly the twelve boolean literals and receives whether the value is a true literal; anything else is a ParseBool syntax error on the value. |
| Convert.DurationField | env.go:311-317 | An int64 field of type time.Duration succeeds exactly when the duration parser accepts the value, receives the parsed duration, and otherwise fails with the parser's error. |
| Convert.SliceFieldElementwise | env.go:276-278 | A slice field of a supported element type is converted piece by piece over the split at its separator, as HandleSliceElementwise states. |
| Convert.FallbackToTextUnmarshaler | env.go:331-332 | Any other kind is unsupported unless it implements TextUnmarshaler, in which case the conversion succeeds exactly when UnmarshalText does. |
| Convert.StringSliceSet | env.go:342-346 | A []string field always succeeds and receives exactly the pieces of strings.Split at its separator. |
| Convert.StringSliceIsSplit | env.go:342-346 | A []string field always succeeds with separator-free pieces whose join is the value; with a one-character separator there is one piece more than separators. |
| Convert.StringSliceJoinRoundTrip | env.go:342-346 | For a separator of any length, pieces with the leftmost-cut property joined with it convert back to exactly those pieces. |
| Convert.StringSliceRoundTrip | env.go:342-346 | Separator-free pieces joined with a one-character separator convert back to exactly those pieces. |
| Convert.IntSliceAllOrNothing | env.go:347-358 | A []int field succeeds exactly when every piece is a 32-bit decimal (a []int64 field: a 64-bit one), and then holds the pieces' values in order; otherwise it fails with the ParseInt error of some piece. |
| Convert.Uint64SliceAllOrNothing | env.go:359-364 | A []uint64 field succeeds exactly when every piece is a 64-bit unsigned decimal, then holds their values in order; otherwise it fails with the ParseUint error of some piece. |
| Convert.BoolSliceAllOrNothing | env.go:377-382 | A []bool field succeeds exactly when every piece is a boolean literal, then holds whether each is a true literal; otherwise it fails with the ParseBool error of some piece. |
| Convert.CollaboratorSlices | env.go:383-404 | Slices of durations, URLs and TextUnmarshalers succeed exactly when the collaborator accepts every piece, hold its values in order, and otherwise fail with its error for some piece. |
| Convert.UnsupportedSliceElement | env.go:395-403 | A slice of an unknown element type without TextUnmarshaler fails with ErrUnsupportedSliceType. |
| Convert.CustomSeparatorExample | env.go:337-346 | With `envSeparator:":"`, the value "a:b:c" gives the strings a, b and c. |
| Convert.DefaultSeparatorExample | env.go:338-352 | Without a separator tag, "1:2:3" stays one piece, so a []int field fails on it. |
| Walker.ParseTarget | env.go:142-156 | An invalid prefix is refused before anything is read; a target that is not a non-nil pointer to a structure is ErrNotAStructPtr; every other error is a field error, a struct-pointer error, or a non-empty list of these; every assignment lies inside the target. |
| Walker.DoParse | env.go:158-215 | Every error doParse returns has one of the reported shapes, and every assignment lies inside the structure walked. |
| Walker.WalkFields | env.go:162-210 | The collected and aborting errors of the field loop have the reported shapes, and the assignments lie inside the structure. |
| Walker.VisitField | env.go:163-199 | Only a followed pointer can end the loop early; the errors of one field have the reported shapes, and its assignments lie inside the structure. |
| Walker.Parse | env.go:102-104 | A target that is not a pointer to a structure fails with ErrNotAStructPtr and no assignment; every error has a reported shape. |
| Walker.ParseWithPrefix | env.go:115-120 | A non-empty prefix without a trailing underscore is refused with no assignment, before the target is examined. |
| Walker.ParseWithFuncs | env.go:129-131 | Same guarantees as Parse, with custom parsers. |
| Walker.ParseWithPrefixFuncs | env.go:142-156 | Prefix validation comes first, then the struct-pointer check; every error has a reported shape. |
| Walker.ParseTargetOk | env.go:142-215 | With a valid prefix, a parse of a structure pointer returns nil exactly when every field, nested ones included, goes through by the field-by-field definition `FieldsOk`. |
| Walker.DoParseOk | env.go:158-215 | doParse returns nil exactly when every field goes through. |
| Walker.WalkFieldsOk | env.go:162-214 | The loop collects nothing exactly when every remaining field goes through. |
| Walker.VisitFieldOk | env.go:172-199 | One field contributes no error exactly when it goes through. |
| Walker.ConvertedFieldIsWritten | env.go:195-209 | A field that resolves to a non-empty value that converts is assigned that value at its own location, with the raw string, unless an earlier field ended the parse. |
| Walker.EmptyValueLeavesField | env.go:186-194 | A field that resolves to "" and is neither a followed pointer nor a structure is left unassigned and reports nothing. |
| Walker.NestedStructField | env.go:186-194 | A structure field that resolves to "" is walked in turn under the dotted path `parent.Field` at its own location; the nested error, if any, is appended to the list as one element, not flattened, and the nested assignments are kept. |
| Walker.NestedFailureReported | env.go:162-214 | When no nested field aborts, a failing field inside a structure field that resolves to "" reaches the outer list inside that single ParseErrors element, as a field error with the nested dotted path and the nested structure's name. |
| Walker.UntaggedFieldUntouched | env.go:217-243 | A field without env-related tags, when the bare prefix is not a variable, is left unassigned and reports nothing. |
| Walker.FailedFieldNotWritten | env.go:180-199 | A field whose value does not resolve, or does not convert, is not assigned and reports exactly one error naming its dotted path and its structure, wrapping the resolution or conversion error as its cause. |
| Walker.FailingFieldError | env.go:180-199 | A field that fails with cause e contributes exactly the field error for its dotted path, structure and e, and no assignment. |
| Walker.WalkCollects | env.go:162-214 | When no remaining field aborts, the loop collects; the errors of a field come before those of every later field. |
| Walker.FailedFieldCollected | env.go:162-214 | When no field aborts, any failing field's error, with its cause, is in the collected list; the loop does not stop at the first error. |
| Walker.FailedFieldsInOrder | env.go:162-214 | For two failing fields, the earlier field's error precedes the later one's in the collected list. |
| Walker.DoParseReportsFailedField | env.go:158-215 | When no field aborts, doParse returns ParseErrors containing the error of every failing field. |
| Walker.PointerFailureAborts | env.go:172-177 | The first followed pointer that fails ends the walk with that pointer's error alone; errors collected before it are dropped. |
| Walker.ExampleReads | env.go:235-238 | Two absent required variables are missing-variable errors, and a present variable is read verbatim. |
| Walker.ExampleConversion | env.go:287-292 | Letters in an int field are a ParseInt syntax error. |
| Walker.ThreeErrorsWalk | env.go:162-214 | For any steps that fail that way, the three field errors are collected in field order into ParseErrors, with no assignment. |
| Walker.ThreeErrorsExample | env.go:102-104 | Parse reports the two missing variables and the bad integer together, in field order. |
| Introspect.Info | env.go:714-740 | A record names the prefixed variable, the field and its path; it is required exactly when the tag is non-empty and reads true; it has a default exactly when the default is non-empty. |
| Introspect.GetAllVars | env.go:613-626 | Fails, with ErrNotAStructPtr only, exactly when the target is not a non-nil pointer to a structure. |
| Introspect.CollectFieldsWalk | env.go:691-747 | collectVars over a list of fields yields exactly one record per env-tagged field of the pre-order walk of the structure tree (a field before the fields of its structure, dotted paths, pointers not followed), in walk order. |
| Introspect.CollectFieldWalk | env.go:694-745 | The same for one field: its own record if tagged, followed by the records of its structure's fields. |
| Introspect.GetAllVarsIsTaggedWalk | env.go:613-626 | GetAllVars lists exactly the records of the walk's env-tagged fields, in walk order, from the top structure with an empty path. |
| Introspect.ListedIffTagged | env.go:691-747 | A record is listed exactly when it describes an env-tagged field reached by the walk, at any depth. |
| Introspect.WalkReaches | env.go:694-711 | The walk reaches every field under its dotted path and, below a structure field, everything the walk of that structure reaches. |
| Introspect.RequiredNamesMembers | env.go:650-655 | A name is listed exactly when some required record carries it. |
| Introspect.RequiredNamesAppend | env.go:650-655 | Filtering required names keeps record order: it distributes over concatenation. |
| Introspect.GetRequiredVars | env.go:644-657 | Fails exactly when GetAllVars does; otherwise it is the names of the required records in record order, duplicates kept, and a name is listed exactly when some required record carries it. |
| Introspect.Absent | env.go:678-683 | The missing list holds exactly the required names absent from the environment. |
| Introspect.AbsentAppend | env.go:678-683 | The missing list keeps the order of the required names and repeats duplicates: it distributes over concatenation, and a single name is listed exactly when absent. |
| Introspect.ValidateRequired | env.go:672-689 | Returns nil exactly for a structure pointer whose required variables are all present; otherwise it names exactly the absent ones, in required-name order with duplicates kept, or fails with ErrNotAStructPtr. |
| Introspect.TaggedFieldListed | env.go:694-740 | Every tagged field among the fields walked at one level has its record in the collected list. |
| Introspect.ValidatedFieldNotMissing | env.go:672-689 | After ValidateRequired passes, get never reports a tagged top-level field's variable as missing. |
| Introspect.CollectFieldsPrefix | env.go:727 | Collecting under a prefix gives the same records as without one, with the prefix prepended to each name. |
| Introspect.CollectFieldPrefix | env.go:727 | The same, for one field and its nested structure. |
| Introspect.GetAllVarsPrefix | env.go:613-626 | GetAllVars under a prefix is GetAllVars without one, renamed. |
| Introspect.NestedExample | env.go:704-711 | An untagged nested structure contributes its own tagged fields, with a dotted path running through it. |
| Getters.IsValidEnvVarKey | util.go:14-23 | Accepts exactly names of an upper-case letter or underscore followed by upper-case letters, digits and underscores. |
| Getters.ValidKeyExamples | util_test.go:274-292 | The names the package's key validation test accepts (TEST_VAR, _PRIVATE_VAR, VAR123, MY_APP_CONFIG, A, _) are valid, and those it rejects (empty, leading digit, dash, dot, space, lower case, mixed case, punctuation) are not. |
| Getters.GetParsed | util.go:31-34 | An absent variable is converted as "", and a present one as its value. |
| Getters.GetOrParsed | util.go:37-45 | The converted value when the variable is present and converts, the default otherwise. |
| Getters.MustGetParsed | util.go:48-58 | Returns the converted value exactly when the variable is present and converts; panics with the missing message when absent and the conversion message when it does not convert. |
| Getters.GetOrAgreesWithMustGet | util.go:37-58 | GetOr returns MustGet's value when MustGet does not panic, and the default exactly when it does. |
| Getters.AbsentVersusEmpty | util.go:31-45 | GetParsed cannot tell an absent variable from an empty one; GetOrParsed falls back to the default only for the absent one. |
| Getters.Get | util.go:105-107 | The variable's value, or "" when absent. |
| Getters.GetOr | util.go:110-116 | The variable's value, or the default when absent. |
| Getters.MustGet | util.go:119-125 | The variable's value exactly when present, else the missing-variable panic. |
| Getters.StringGettersAreGeneric | util.go:104-125 | The string getters are the generic getters with a parser that never fails. |
| Getters.GetBool | util.go:128-130 | Succeeds exactly on a present boolean literal and returns whether it is a true literal; absent is a syntax error on "". |
| Getters.GetOrBool | util.go:132-134 | True for a true literal, false for a false literal, the default otherwise. |
| Getters.MustGetBool | util.go:136-138 | Succeeds exactly on a present boolean literal; an absent variable panics with the missing-variable message and a present non-literal with the bool conversion message. |
| Getters.GetInt | util.go:141-143 | Succeeds exactly on a present decimal in the 32-bit signed range, returning its value; absent is a ParseInt syntax error on "". |
| Getters.GetOrInt | util.go:145-147 | The value of a present 32-bit decimal, the default otherwise. |
| Getters.MustGetInt | util.go:149-151 | Succeeds exactly on a present 32-bit decimal, returning its value; an absent variable panics with the missing-variable message and a present non-number with the int conversion message. |
| Getters.GetUint | util.go:154-156 | Succeeds exactly on a present digit string in the 32-bit unsigned range; absent is a ParseUint syntax error on "". |
| Getters.GetOrUint | util.go:158-160 | The value of a present 32-bit unsigned decimal, the default otherwise. |
| Getters.MustGetUint | util.go:162-164 | Succeeds exactly on a present 32-bit unsigned decimal, returning its value; an absent variable panics with the missing-variable message and any other failure with the uint conversion message. |
| Getters.GetInt64 | util.go:193-195 | As GetInt, in the 64-bit signed range. |
| Getters.GetOrInt64 | util.go:197-199 | As GetOrInt, in the 64-bit signed range. |
| Getters.MustGetInt64 | util.go:201-203 | As MustGetInt, in the 64-bit signed range, with the int64 conversion message; an absent variable panics with the missing-variable message. |
| Getters.GetUint64 | util.go:206-208 | As GetUint, in the 64-bit unsigned range. |
| Getters.GetOrUint64 | util.go:210-212 | As GetOrUint, in the 64-bit unsigned range. |
| Getters.MustGetUint64 | util.go:214-216 | As MustGetUint, in the 64-bit unsigned range, with the uint64 conversion message; an absent variable panics with the missing-variable message. |
| Getters.GetDuration | util.go:219-221 | The duration parser applied to the value, or to "" when absent. |
| Getters.GetOrDuration | util.go:223-236 | The parsed variable when present and valid; otherwise the parsed default string, and a panic exactly when that default does not parse either. |
| Getters.MustGetDuration | util.go:238-240 | Succeeds exactly on a present, parseable duration, returning the parsed duration; an absent variable panics with the missing-variable message and an unparseable one with the time.Duration conversion message. |
| Getters.GetUrl | util.go:243-245 | The request-URI parser (not url.Parse) applied to the value, or to "" when absent. |
| Getters.GetOrUrl | util.go:247-260 | The parsed variable when present and valid; otherwise the parsed default string, and a panic exactly when that default does not parse either. |
| Getters.MustGetUrl | util.go:262-264 | Succeeds exactly on a present, parseable request URI, returning the parsed URL; an absent variable panics with the missing-variable message and an unparseable one with the url.URL conversion message. |
| Getters.TypedGettersReadFormatted | util.go:136-164 | MustGetBool, MustGetInt and MustGetUint read back formatted booleans and decimals, including negative ones for int. |

## Left out

- Floating-point kinds are not modelled: float32 and float64 fields and slices, `ParseFloat32`/`ParseFloat64` and `GetFloat32`/`GetFloat64`/their GetOr and MustGet forms. Dafny has no IEEE arithmetic to state their conversions against.
- Only the base-10 branch of strconv's integer parsing is modelled. That is the only base the package passes. Underscores and base prefixes therefore never arise.
- The syntax of `os.ExpandEnv`, `time.ParseDuration`, `url.Parse`, `url.ParseRequestURI`, `UnmarshalText` and caller-supplied parsers is not modelled. They are parameters (`Descriptor.Services`, `Descriptor.CustomParsers`), and the contracts hold for every choice of them.
- `Set`, `Unset` and `Clearenv` of util.go, and `.env` loading, are not modelled. They only mutate the process environment, which here is an immutable map.
- `DebugLogger`/`EnableDebugLogging` are not modelled, because they only log. The `OnEnvVarSet` callback is represented by the assignment list that each parse returns.
- Reflection panics are not modelled: assigning to an unexported field, or storing a custom parser's value of the wrong type. The walk treats such assignments as successful.
- `handleTextUnmarshaler` allocates a nil pointer field before an unmarshal that may fail or be unsupported. That side effect is not modelled.
- Named slice types are treated by their element type, whereas the source compares exact slice types.
- Struct tags are given as a map, so `Lookup` is map membership and `Get` is `Descriptor.TagGet`. The raw tag syntax is not modelled.
- Go's `int` is taken to be 64 bits wide, so the `int(v)` and `int64(v)` conversions are identities.
- Errors.Message: `%q` is modelled as plain double quotes without Go's escaping of special characters.
- Text.ToLower: only ASCII letters are lowered. Unicode case mapping is not modelled.
- Text.Split: its own contract only says that there is at least one piece. The content of the pieces is stated by JoinSplit, SplitPiecesAvoidSep, SplitLeftmost, SplitJoin, SplitCountChar and SplitJoinChar.
- Introspect.RequiredNames: its own contract only bounds the length. Membership and order are stated by RequiredNamesMembers and RequiredNamesAppend.
- Introspect.TaggedFieldListed: it covers one level of fields and one direction only. Nested fields and the converse direction are stated by ListedIffTagged and WalkReaches.
- Types are identified by their `String()` form (`Descriptor.TypeId`), whereas the source compares `reflect.Type` values when it looks up custom parsers and checks for url.URL (env.go:255 and 265). Two distinct Go types with the same string form, such as identically named types from different packages, are therefore one type here. Only the time.Duration check (env.go:312) compares the string form, as the model does.
- Getters.GetDuration and Getters.GetUrl: their contracts relate the result to the parser only, because duration and URL syntax are not modelled.
- Walker.ParseTarget: when a followed pointer's target fails, the error comes back without the enclosing field's path, exactly as in the source. No property about the path of such errors is stated.
