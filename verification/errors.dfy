/**
 * Error values of the JFR reader: nom's three-way parse outcome, the
 * crate's `NomParseError` payload and the crate-level `Error` enum, with the
 * conversions between them (jfr-reader/src/error.rs).
 */
module Errors {
  import opened Ints

  datatype Option<+T> = None | Some(value: T)

  /** nom's `Needed`: how many more bytes a streaming parser wants. */
  datatype Needed = Unknown | Size(n: nat)

  /** nom's `Needed::new`: zero extra bytes is reported as `Unknown`. */
  function NeededNew(n: nat): (r: Needed)
    ensures r.Size? <==> n > 0
    ensures r.Size? ==> r.n == n
  {
    if n == 0 then Unknown else Size(n)
  }

  /** The nom error kinds this crate can observe. */
  datatype ErrorKind = Tag | Eof | Count | Fail

  datatype StringResolveError =
    | UnknownStringEncoding(tag: Byte)
    | InvalidCharacterArray
    | InvalidUtf8String

  /** The crate's nom error payload. `contexts` lists labels innermost first. */
  datatype NomParseError = NomParseError(
    input: seq<Byte>,
    kind: ErrorKind,
    contexts: seq<string>,
    stringResolve: Option<StringResolveError>)

  /** nom's `Err`: Error is recoverable, Failure is not, Incomplete asks for more input. */
  datatype NomErr =
    | Incomplete(needed: Needed)
    | Error(e: NomParseError)
    | Failure(e: NomParseError)

  /** `ParseError::from_error_kind`: a fresh error at `input`. */
  function FromErrorKind(input: seq<Byte>, kind: ErrorKind): (r: NomParseError)
    ensures r.input == input && r.kind == kind
    ensures r.contexts == [] && r.stringResolve == None
  {
    NomParseError(input, kind, [], None)
  }

  /** `ParseError::append`: the location of the outer combinator is dropped. */
  function Append(input: seq<Byte>, kind: ErrorKind, other: NomParseError): (r: NomParseError)
    ensures r == other
  {
    other
  }

  /** `ContextError::add_context`: exactly one label is pushed at the end. */
  function AddContext(ctx: string, other: NomParseError): (r: NomParseError)
    ensures r.contexts == other.contexts + [ctx]
    ensures |r.contexts| == |other.contexts| + 1
    ensures r.input == other.input && r.kind == other.kind
    ensures r.stringResolve == other.stringResolve
  {
    other.(contexts := other.contexts + [ctx])
  }

  /** `NomParseError::new_string_resolve`. */
  function NewStringResolve(input: seq<Byte>, cause: StringResolveError): (r: NomParseError)
    ensures r.kind == Fail && r.stringResolve == Some(cause)
    ensures r.input == input && r.contexts == []
  {
    NomParseError(input, Fail, [], Some(cause))
  }

  /** Outcome of a nom parser over a byte slice: a value and the unconsumed rest, or an error. */
  datatype PResult<+T> = POk(value: T, rest: seq<Byte>) | PErr(err: NomErr) {
    predicate IsFailure() { PErr? }
    function PropagateFailure<U>(): PResult<U> requires PErr? { PErr(err) }
    function Extract(): (T, seq<Byte>) requires POk? { (value, rest) }
  }

  /** nom's `context(label, parser)` applied to a parser outcome. */
  function Context<T>(ctx: string, r: PResult<T>): (c: PResult<T>)
    ensures r.POk? ==> c == r
    ensures r.PErr? && r.err.Incomplete? ==> c == r
    ensures r.PErr? && r.err.Error? ==> c == PErr(Error(AddContext(ctx, r.err.e)))
    ensures r.PErr? && r.err.Failure? ==> c == PErr(Failure(AddContext(ctx, r.err.e)))
  {
    match r
    case POk(_, _) => r
    case PErr(Incomplete(_)) => r
    case PErr(Error(e)) => PErr(Error(AddContext(ctx, e)))
    case PErr(Failure(e)) => PErr(Failure(AddContext(ctx, e)))
  }

  /**
   * The crate's error enum. `Deserialize` is used by the resolver although
   * its declaration is not part of this model; `Panic` stands for a Rust panic
   * (slice out of range, capacity overflow, integer underflow) so that the
   * model stays total.
   */
  datatype Error =
    | ParseIncomplete(needed: Needed)
    | ParseError(parse: NomParseError)
    | ParseFailure(parse: NomParseError)
    | Io(message: string)
    | StringTableUnknownIndex(index: U64)
    | ElementNoName
    | ElementNameUnknown(name: string)
    | ElementConstructLogic(message: string)
    | ClassNotFound(classId: I64)
    | ConstantNotFound(classId: I64, constantIndex: I64)
    | EventParse(message: string)
    | AnnotationParse(message: string)
    | SettingParse(message: string)
    | Deserialize(message: string)
    | Panic(reason: string)

  datatype Result<+T> = Ok(value: T) | Err(error: Error) {
    predicate IsFailure() { Err? }
    function PropagateFailure<U>(): Result<U> requires Err? { Err(error) }
    function Extract(): T requires Ok? { value }
  }

  /** `impl From<nom::Err<NomParseError>> for Error`. */
  function FromNom(e: NomErr): (r: Error)
    ensures e.Incomplete? <==> r.ParseIncomplete?
    ensures e.Error? <==> r.ParseError?
    ensures e.Failure? <==> r.ParseFailure?
    ensures ToNom(r) == Some(e)
  {
    match e
    case Incomplete(n) => ParseIncomplete(n)
    case Error(p) => ParseError(p)
    case Failure(p) => ParseFailure(p)
  }

  /** The partial inverse of `FromNom`: recovers the nom error a crate error wraps. */
  function ToNom(e: Error): (r: Option<NomErr>)
    ensures r.Some? <==> (e.ParseIncomplete? || e.ParseError? || e.ParseFailure?)
    ensures e.ParseIncomplete? ==> r == Some(Incomplete(e.needed))
    ensures e.ParseError? ==> r == Some(Error(e.parse))
    ensures e.ParseFailure? ==> r == Some(Failure(e.parse))
  {
    match e
    case ParseIncomplete(n) => Some(Incomplete(n))
    case ParseError(p) => Some(Error(p))
    case ParseFailure(p) => Some(Failure(p))
    case _ => None
  }

  /** `?` on a nom outcome inside a function returning the crate `Result`. */
  function Lift<T>(r: PResult<T>): (out: Result<(T, seq<Byte>)>)
    ensures r.POk? <==> out.Ok?
    ensures r.POk? ==> out.value == (r.value, r.rest)
    ensures r.PErr? ==> out.error == FromNom(r.err)
  {
    match r
    case POk(v, rest) => Ok((v, rest))
    case PErr(e) => Err(FromNom(e))
  }

  /**
   * `iter.map(f).collect::<Result<Vec<_>>>()`: every item converted in
   * order, or the error of the first item that fails.
   */
  function Collect<A, B>(f: A -> Result<B>, xs: seq<A>): (r: Result<seq<B>>)
    ensures r.Ok? <==> forall i :: 0 <= i < |xs| ==> f(xs[i]).Ok?
    ensures r.Ok? ==> |r.value| == |xs| && forall i :: 0 <= i < |xs| ==> f(xs[i]) == Ok(r.value[i])
    ensures r.Err? ==> exists i :: 0 <= i < |xs| && f(xs[i]) == Err(r.error) && forall j :: 0 <= j < i ==> f(xs[j]).Ok?
    decreases |xs|
  {
    if |xs| == 0 then Ok([])
    else
      match f(xs[0])
      case Err(e) => Err(e)
      case Ok(y) =>
        match Collect(f, xs[1..])
        case Err(e) =>
          assert forall j :: 0 <= j < |xs| - 1 ==> xs[1..][j] == xs[j + 1];
          Err(e)
        case Ok(ys) => Ok([y] + ys)
  }
}
