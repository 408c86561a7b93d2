/** Application errors and the gRPC statuses they become (errs/errs.go), with as much of the grpc status
    package as they need. Metadata values have a type V of their own; `format` is how %v prints one. */
module Errs {
  type Code = c: int | 0 <= c < 0x1_0000_0000

  const OK: Code := 0
  const UNKNOWN: Code := 2
  const INVALID_ARGUMENT: Code := 3
  const INTERNAL: Code := 13

  datatype FieldViolation = FieldViolation(field: string, description: string)

  datatype Detail =
    | ErrorInfo(reason: string, domain: string, metadata: map<string, string>)
    | BadRequest(violations: seq<FieldViolation>)
    | DebugInfo(entries: seq<string>, detail: string)
    | OtherDetail

  datatype Status = Status(code: Code, message: string, details: seq<Detail>)

  /** What Go code holds as an error: nothing, an application error, the error of a status, some other
      error, or an error wrapped with a text of its own. */
  datatype Cause<A> =
    | NoError
    | App(err: A)
    | StatusError(status: Status)
    | Plain(text: string)
    | Wrapped(text: string, inner: Cause<A>)
  {
    /** The error at the bottom of the chain of wrappings. */
    function Root(): (r: Cause<A>)
      ensures !r.Wrapped?
    {
      if Wrapped? then inner.Root() else this
    }

    /** The same wrappings around another error. */
    function WithRoot<B>(root: Cause<B>): Cause<B> {
      if Wrapped? then Wrapped(text, inner.WithRoot(root)) else root
    }
  }

  /** The fields of an application error. */
  datatype Fields<V> = Fields(statusCode: Code, code: string, message: string, metadata: map<string, V>)

  class Error<V> {
    var statusCode: Code
    var code: string
    var message: string
    var metadata: map<string, V>

    constructor (statusCode: Code, code: string, message: string)
      ensures Value() == Fields(statusCode, code, message, map[])
    {
      this.statusCode := statusCode;
      this.code := code;
      this.message := message;
      metadata := map[];
    }

    function Value(): Fields<V>
      reads this
    {
      Fields(statusCode, code, message, metadata)
    }

    method WithMetadata(key: string, value: V) returns (e: Error<V>)
      modifies this`metadata
      ensures e == this
      ensures Value() == old(Value()).(metadata := old(metadata)[key := value])
    {
      metadata := metadata[key := value];
      e := this;
    }
  }

  /** The application error that errors.As finds. */
  function Objects<V>(e: Cause<Error<V>>): set<Error<V>> {
    if e.Root().App? then {e.Root().err} else {}
  }

  function ReadRoot<V>(root: Cause<Error<V>>): Cause<Fields<V>>
    requires !root.Wrapped?
    reads if root.App? then {root.err} else {}
  {
    match root
    case NoError => NoError
    case App(err) => App(err.Value())
    case StatusError(s) => StatusError(s)
    case Plain(text) => Plain(text)
  }

  /** The error with the present fields of the object at its root. */
  function Read<V>(e: Cause<Error<V>>): Cause<Fields<V>>
    reads Objects(e)
  {
    e.WithRoot(ReadRoot(e.Root()))
  }

  lemma RootOfRead<V>(e: Cause<Error<V>>)
    ensures Read(e).Root() == ReadRoot(e.Root())
  {
  }

  lemma {:induction false} RootOfWithRoot<A, B>(e: Cause<A>, root: Cause<B>)
    requires !root.Wrapped?
    ensures e.WithRoot(root).Root() == root
  {
    if e.Wrapped? { RootOfWithRoot(e.inner, root); }
  }

  lemma {:induction false} WithRootTwice<A, B, C>(e: Cause<A>, root: Cause<B>, root': Cause<C>)
    requires !root.Wrapped?
    ensures e.WithRoot(root).WithRoot(root') == e.WithRoot(root')
  {
    if e.Wrapped? { WithRootTwice(e.inner, root, root'); }
  }

  // ---- Statuses ----

  function Stringified<V>(metadata: map<string, V>, format: V -> string): map<string, string> {
    map key | key in metadata :: format(metadata[key])
  }

  method ToStringMap<V>(metadata: map<string, V>, format: V -> string) returns (out: map<string, string>)
    ensures out == Stringified(metadata, format)
    ensures out.Keys == metadata.Keys && forall key :: key in metadata ==> out[key] == format(metadata[key])
  {
    out := map[];
    var todo := metadata.Keys;
    while todo != {}
      invariant todo <= metadata.Keys
      invariant forall key :: key in out <==> key in metadata && key !in todo
      invariant forall key :: key in out ==> out[key] == format(metadata[key])
      decreases todo
    {
      var key :| key in todo;
      todo := todo - {key};
      out := out[key := format(metadata[key])];
    }
  }

  /** Details can be attached to any status but OK. */
  function WithDetails(s: Status, d: Detail): Status {
    if s.code == OK then s else s.(details := s.details + [d])
  }

  function GRPCStatus<V>(e: Fields<V>, domain: string, format: V -> string): Status {
    WithDetails(Status(e.statusCode, e.message, []), ErrorInfo(e.code, domain, Stringified(e.metadata, format)))
  }

  /** The error of a status: none when it is OK. */
  function ErrOf<A>(s: Status): Cause<A> {
    if s.code == OK then NoError else StatusError(s)
  }

  datatype Found = Found(status: Status, ok: bool)

  /** The status an error has or wraps; a wrapper puts its own text in. */
  function FromError<V>(e: Cause<Fields<V>>, domain: string, format: V -> string): Found {
    match e
    case NoError => Found(Status(OK, "", []), true)
    case App(err) => Found(GRPCStatus(err, domain, format), true)
    case StatusError(s) => Found(s, true)
    case Plain(text) => Found(Status(UNKNOWN, text, []), false)
    case Wrapped(text, inner) =>
      match inner.Root()
      case App(err) => Found(GRPCStatus(err, domain, format).(message := text), true)
      case StatusError(s) => Found(s.(message := text), true)
      case _ => Found(Status(UNKNOWN, text, []), false)
  }

  // ---- Validation errors ----

  /** One violation for each field. */
  ghost predicate Lists(list: seq<FieldViolation>, violations: map<string, string>) {
    && (forall i :: 0 <= i < |list| ==> list[i].field in violations && violations[list[i].field] == list[i].description)
    && (forall i, j :: 0 <= i < j < |list| ==> list[i].field != list[j].field)
    && (forall field :: field in violations ==> FieldViolation(field, violations[field]) in list)
  }

  /** Visits the map in any order. */
  method Validation(msg: string, violations: map<string, string>) returns (s: Status)
    ensures s.code == 3 && s.message == msg
    ensures exists list :: Lists(list, violations) && s.details == [BadRequest(list)]
  {
    var list: seq<FieldViolation> := [];
    var todo := violations.Keys;
    while todo != {}
      invariant todo <= violations.Keys
      invariant forall i :: 0 <= i < |list| ==> list[i].field in violations && list[i].field !in todo
      invariant Lists(list, violations - todo)
      decreases todo
    {
      ghost var before, left := list, todo;
      var field :| field in todo;
      todo := todo - {field};
      list := list + [FieldViolation(field, violations[field])];
      forall f | f in violations && f !in todo ensures FieldViolation(f, violations[f]) in list {
        if f == field {
          assert list[|before|] == FieldViolation(f, violations[f]);
        } else {
          assert f in violations - left && (violations - left)[f] == violations[f];
          assert FieldViolation(f, violations[f]) in before;
        }
      }
    }
    assert violations - todo == violations;
    s := WithDetails(Status(INVALID_ARGUMENT, msg, []), BadRequest(list));
  }

  // ---- Parsing ----

  datatype Parsed = Nothing | Parsed(code: string, metadata: map<string, string>)

  function FirstInfo(details: seq<Detail>): Parsed {
    if details == [] then Nothing
    else if details[0].ErrorInfo? then Parsed(details[0].reason, details[0].metadata)
    else FirstInfo(details[1..])
  }

  function ParsedFrom<V>(e: Cause<Fields<V>>, domain: string, format: V -> string): Parsed {
    var found := FromError(e, domain, format);
    if found.ok then FirstInfo(found.status.details) else Nothing
  }

  method Parse<V>(err: Cause<Error<V>>, domain: string, format: V -> string) returns (parsed: Parsed)
    ensures parsed == ParsedFrom(Read(err), domain, format)
  {
    var found := FromError(Read(err), domain, format);
    if !found.ok {
      return Nothing;
    }
    var details := found.status.details;
    var i := 0;
    while i < |details|
      invariant i <= |details| && FirstInfo(details[i..]) == FirstInfo(details)
    {
      if details[i].ErrorInfo? {
        return Parsed(details[i].reason, details[i].metadata);
      }
      assert details[i..][1..] == details[i + 1..];
      i := i + 1;
    }
    parsed := Nothing;
  }

  /** The text of each value, under its key, and nothing else. */
  ghost predicate AsText<V>(metadata: map<string, V>, format: V -> string, out: map<string, string>) {
    out.Keys == metadata.Keys && forall key :: key in metadata ==> out[key] == format(metadata[key])
  }

  /** The status of an application error: its own code and message, and one detail with its own code, the domain
      and its metadata as text; a status OK takes no detail. */
  lemma GRPCStatusIs<V>(e: Fields<V>, domain: string, format: V -> string)
    ensures var s := GRPCStatus(e, domain, format);
            && s.code == e.statusCode && s.message == e.message
            && (e.statusCode == 0 ==> s.details == [])
            && (e.statusCode != 0 ==>
                  && |s.details| == 1 && s.details[0].ErrorInfo?
                  && s.details[0].reason == e.code && s.details[0].domain == domain
                  && AsText(e.metadata, format, s.details[0].metadata))
  {
  }

  /** What is parsed from each kind of error: from an application error its own code and metadata, from a status
      error those of the first ErrorInfo among its details, from a wrapping what is parsed from the error inside,
      and nothing from any other, from a status OK or without ErrorInfo. */
  lemma ParsedIs<V>(e: Cause<Fields<V>>, domain: string, format: V -> string)
    ensures var p := ParsedFrom(e, domain, format);
            match e
            case Wrapped(_, inner) => p == ParsedFrom(inner, domain, format)
            case App(err) =>
              if err.statusCode == 0 then p.Nothing?
              else p.Parsed? && p.code == err.code && AsText(err.metadata, format, p.metadata)
            case StatusError(s) =>
              && (p.Nothing? <==> forall i :: 0 <= i < |s.details| ==> !s.details[i].ErrorInfo?)
              && (forall i :: 0 <= i < |s.details| && s.details[i].ErrorInfo?
                              && (forall j :: 0 <= j < i ==> !s.details[j].ErrorInfo?) ==>
                    p == Parsed(s.details[i].reason, s.details[i].metadata))
            case _ => p.Nothing?
  {
    match e {
      case Wrapped(_, inner) =>
        WrappingInvisibleToParse(e, domain, format);
        WrappingInvisibleToParse(inner, domain, format);
      case StatusError(s) =>
        FirstInfoIs(s.details);
        forall i | 0 <= i < |s.details| && s.details[i].ErrorInfo?
                   && (forall j :: 0 <= j < i ==> !s.details[j].ErrorInfo?)
          ensures ParsedFrom(e, domain, format) == Parsed(s.details[i].reason, s.details[i].metadata)
        {
          assert IsFirstInfo(s.details, i);
        }
      case _ =>
    }
  }

  /** However deep an error is wrapped, the same code and metadata are parsed from it. */
  lemma WrappingInvisibleToParse<V>(e: Cause<Fields<V>>, domain: string, format: V -> string)
    ensures ParsedFrom(e, domain, format) == ParsedFrom(e.Root(), domain, format)
    ensures e.Root().App? && e.Root().err.statusCode != OK ==>
              ParsedFrom(e, domain, format) == Parsed(e.Root().err.code, Stringified(e.Root().err.metadata, format))
    ensures e.Root().Plain? ==> ParsedFrom(e, domain, format) == Nothing
  {
  }

  /** The first ErrorInfo of the details tells the code and the metadata; without one there is nothing. */
  lemma {:induction false} FirstInfoIs(details: seq<Detail>)
    ensures FirstInfo(details).Nothing? <==> forall i :: 0 <= i < |details| ==> !details[i].ErrorInfo?
    ensures forall i :: 0 <= i < |details| && IsFirstInfo(details, i) ==>
              FirstInfo(details) == Parsed(details[i].reason, details[i].metadata)
  {
    if details != [] && !details[0].ErrorInfo? {
      var rest := details[1..];
      FirstInfoIs(rest);
      forall i | 0 <= i < |details| && IsFirstInfo(details, i)
        ensures FirstInfo(details) == Parsed(details[i].reason, details[i].metadata)
      {
        assert rest[i - 1] == details[i] && IsFirstInfo(rest, i - 1);
      }
      if forall i :: 0 <= i < |rest| ==> !rest[i].ErrorInfo? {
        assert forall i :: 1 <= i < |details| ==> details[i] == rest[i - 1];
      }
    }
  }

  predicate IsFirstInfo(details: seq<Detail>, i: nat)
    requires i < |details|
  {
    details[i].ErrorInfo? && forall j :: 0 <= j < i ==> !details[j].ErrorInfo?
  }
}
