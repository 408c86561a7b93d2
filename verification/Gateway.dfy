/** The JSON body the gateway makes of an error, and the error pipeline from end to end
    (server/gateway.go). A body without metadata entries has no metadata field. */
module Gateway {
  import opened Errs
  import opened ErrorPipeline

  datatype ErrorMessage = ErrorMessage(code: string, message: string, metadata: map<string, string>)

  const VALIDATION_ERROR := "VALIDATION_ERROR"

  /** The violations as a map; a later one for the same field replaces an earlier one. */
  function FieldMap(violations: seq<FieldViolation>): map<string, string> {
    if violations == [] then map[]
    else
      var last := violations[|violations| - 1];
      FieldMap(violations[..|violations| - 1])[last.field := last.description]
  }

  function Fold(m: ErrorMessage, d: Detail): ErrorMessage {
    match d
    case ErrorInfo(reason, _, metadata) =>
      m.(code := reason, metadata := if |metadata| > 0 then metadata else m.metadata)
    case BadRequest(violations) => m.(code := VALIDATION_ERROR, metadata := FieldMap(violations))
    case _ => m
  }

  function Body(s: Status): ErrorMessage {
    Folded(ErrorMessage("UNKNOWN_ERROR", s.message, map[]), s.details)
  }

  function Folded(m: ErrorMessage, details: seq<Detail>): ErrorMessage {
    FoldedFirst(m, details, |details|)
  }

  /** After the first n details. */
  function FoldedFirst(m: ErrorMessage, details: seq<Detail>, n: nat): ErrorMessage
    requires n <= |details|
  {
    if n == 0 then m else Fold(FoldedFirst(m, details, n - 1), details[n - 1])
  }

  method ErrorHandler(s: Status) returns (errMessage: ErrorMessage)
    ensures errMessage == Body(s)
  {
    errMessage := ErrorMessage("UNKNOWN_ERROR", s.message, map[]);
    ghost var start := errMessage;
    var i := 0;
    while i < |s.details|
      invariant i <= |s.details| && errMessage == FoldedFirst(start, s.details, i)
    {
      match s.details[i] {
        case ErrorInfo(reason, _, metadata) =>
          errMessage := errMessage.(code := reason);
          if |metadata| > 0 {
            errMessage := errMessage.(metadata := metadata);
          }
        case BadRequest(violations) =>
          errMessage := errMessage.(code := VALIDATION_ERROR);
          var fields: map<string, string> := map[];
          var j := 0;
          while j < |violations|
            invariant j <= |violations| && fields == FieldMap(violations[..j])
          {
            assert violations[..j + 1][..j] == violations[..j];
            fields := fields[violations[j].field := violations[j].description];
            j := j + 1;
          }
          assert violations[..j] == violations;
          errMessage := errMessage.(metadata := fields);
        case _ =>
      }
      i := i + 1;
    }
  }

  // ---- Which details decide ----

  predicate SetsCode(d: Detail) {
    d.ErrorInfo? || d.BadRequest?
  }

  predicate SetsMetadata(d: Detail) {
    d.BadRequest? || (d.ErrorInfo? && d.metadata != map[])
  }

  function CodeFrom(d: Detail): string
    requires SetsCode(d)
  {
    if d.ErrorInfo? then d.reason else VALIDATION_ERROR
  }

  function MetadataFrom(d: Detail): map<string, string>
    requires SetsMetadata(d)
  {
    if d.ErrorInfo? then d.metadata else FieldMap(d.violations)
  }

  /** Position i holds the last detail that sets the code. */
  ghost predicate LastForCode(details: seq<Detail>, i: nat)
    requires i < |details|
  {
    SetsCode(details[i]) && forall j :: i < j < |details| ==> !SetsCode(details[j])
  }

  ghost predicate LastForMetadata(details: seq<Detail>, i: nat)
    requires i < |details|
  {
    SetsMetadata(details[i]) && forall j :: i < j < |details| ==> !SetsMetadata(details[j])
  }

  lemma FoldCode(m: ErrorMessage, d: Detail)
    ensures Fold(m, d).code == if SetsCode(d) then CodeFrom(d) else m.code
    ensures Fold(m, d).message == m.message
  {
  }

  lemma {:induction false} CodeKept(m: ErrorMessage, details: seq<Detail>, lo: nat, n: nat)
    requires lo <= n <= |details| && forall j :: lo <= j < n ==> !SetsCode(details[j])
    ensures FoldedFirst(m, details, n).code == FoldedFirst(m, details, lo).code
  {
    if lo < n {
      CodeKept(m, details, lo, n - 1);
      FoldCode(FoldedFirst(m, details, n - 1), details[n - 1]);
    }
  }

  lemma {:induction false} MessageKept(m: ErrorMessage, details: seq<Detail>, n: nat)
    requires n <= |details|
    ensures FoldedFirst(m, details, n).message == m.message
  {
    if n > 0 {
      MessageKept(m, details, n - 1);
      FoldCode(FoldedFirst(m, details, n - 1), details[n - 1]);
    }
  }

  /** The code is told by the last ErrorInfo or BadRequest, and the message stays. */
  lemma LastCodeDecides(m: ErrorMessage, details: seq<Detail>)
    ensures Folded(m, details).message == m.message
    ensures (forall i :: 0 <= i < |details| ==> !SetsCode(details[i])) ==> Folded(m, details).code == m.code
    ensures forall i :: 0 <= i < |details| && LastForCode(details, i) ==>
              Folded(m, details).code == CodeFrom(details[i])
  {
    MessageKept(m, details, |details|);
    if forall i :: 0 <= i < |details| ==> !SetsCode(details[i]) { CodeKept(m, details, 0, |details|); }
    forall i | 0 <= i < |details| && LastForCode(details, i)
      ensures Folded(m, details).code == CodeFrom(details[i])
    {
      FoldCode(FoldedFirst(m, details, i), details[i]);
      CodeKept(m, details, i + 1, |details|);
    }
  }

  lemma FoldMetadata(m: ErrorMessage, d: Detail)
    ensures Fold(m, d).metadata == if SetsMetadata(d) then MetadataFrom(d) else m.metadata
  {
  }

  lemma {:induction false} MetadataKept(m: ErrorMessage, details: seq<Detail>, lo: nat, n: nat)
    requires lo <= n <= |details| && forall j :: lo <= j < n ==> !SetsMetadata(details[j])
    ensures FoldedFirst(m, details, n).metadata == FoldedFirst(m, details, lo).metadata
  {
    if lo < n {
      MetadataKept(m, details, lo, n - 1);
      FoldMetadata(FoldedFirst(m, details, n - 1), details[n - 1]);
    }
  }

  /** The metadata is told by the last BadRequest or ErrorInfo with metadata of its own. */
  lemma LastMetadataDecides(m: ErrorMessage, details: seq<Detail>)
    ensures (forall i :: 0 <= i < |details| ==> !SetsMetadata(details[i])) ==>
              Folded(m, details).metadata == m.metadata
    ensures forall i :: 0 <= i < |details| && LastForMetadata(details, i) ==>
              Folded(m, details).metadata == MetadataFrom(details[i])
  {
    if forall i :: 0 <= i < |details| ==> !SetsMetadata(details[i]) { MetadataKept(m, details, 0, |details|); }
    forall i | 0 <= i < |details| && LastForMetadata(details, i)
      ensures Folded(m, details).metadata == MetadataFrom(details[i])
    {
      FoldMetadata(FoldedFirst(m, details, i), details[i]);
      MetadataKept(m, details, i + 1, |details|);
    }
  }

  /** The map has the fields of the violations, each with the description of its last violation. */
  ghost predicate MapsFields(violations: seq<FieldViolation>, m: map<string, string>) {
    && (forall f :: f in m ==> exists i :: 0 <= i < |violations| && violations[i].field == f)
    && (forall i :: 0 <= i < |violations| ==> violations[i].field in m)
    && (forall i :: 0 <= i < |violations|
                    && (forall j :: i < j < |violations| ==> violations[j].field != violations[i].field) ==>
          m[violations[i].field] == violations[i].description)
  }

  lemma {:induction false} FieldMapIs(violations: seq<FieldViolation>)
    ensures MapsFields(violations, FieldMap(violations))
  {
    if violations != [] {
      var front, last := violations[..|violations| - 1], violations[|violations| - 1];
      assert violations == front + [last];
      FieldMapIs(front);
      OneFieldMore(front, FieldMap(front), last);
    }
  }

  lemma OneFieldMore(front: seq<FieldViolation>, m: map<string, string>, last: FieldViolation)
    requires MapsFields(front, m)
    ensures MapsFields(front + [last], m[last.field := last.description])
  {
    var all, m' := front + [last], m[last.field := last.description];
    forall f | f in m' ensures exists i :: 0 <= i < |all| && all[i].field == f {
      if f == last.field {
        assert all[|front|].field == f;
      } else {
        var i :| 0 <= i < |front| && front[i].field == f;
        assert all[i].field == f;
      }
    }
    forall i | 0 <= i < |all| && (forall j :: i < j < |all| ==> all[j].field != all[i].field)
      ensures m'[all[i].field] == all[i].description
    {
      if i < |front| {
        assert all[|front|].field != all[i].field;
        forall j | i < j < |front| ensures front[j].field != front[i].field { assert all[j].field != all[i].field; }
      }
    }
  }

  /** The body of any status: its message; the code of the last ErrorInfo or BadRequest, or UNKNOWN_ERROR without
      one; and the metadata of the last BadRequest or ErrorInfo with metadata, or none without one. */
  lemma BodyIs(s: Status)
    ensures Body(s).message == s.message
    ensures (forall i :: 0 <= i < |s.details| ==> !s.details[i].ErrorInfo? && !s.details[i].BadRequest?) ==>
              Body(s).code == "UNKNOWN_ERROR"
    ensures forall i :: 0 <= i < |s.details| && (s.details[i].ErrorInfo? || s.details[i].BadRequest?)
                        && (forall j :: i < j < |s.details| ==>
                              !s.details[j].ErrorInfo? && !s.details[j].BadRequest?) ==>
              Body(s).code == if s.details[i].ErrorInfo? then s.details[i].reason else "VALIDATION_ERROR"
    ensures (forall i :: 0 <= i < |s.details| ==>
               !s.details[i].BadRequest? && (s.details[i].ErrorInfo? ==> s.details[i].metadata == map[])) ==>
              Body(s).metadata == map[]
    ensures forall i :: 0 <= i < |s.details|
                        && (s.details[i].BadRequest? || (s.details[i].ErrorInfo? && s.details[i].metadata != map[]))
                        && (forall j :: i < j < |s.details| ==>
                              !s.details[j].BadRequest?
                              && (s.details[j].ErrorInfo? ==> s.details[j].metadata == map[])) ==>
              if s.details[i].ErrorInfo? then Body(s).metadata == s.details[i].metadata
              else MapsFields(s.details[i].violations, Body(s).metadata)
  {
    var m := ErrorMessage("UNKNOWN_ERROR", s.message, map[]);
    LastCodeDecides(m, s.details);
    LastMetadataDecides(m, s.details);
    forall i | 0 <= i < |s.details| && (s.details[i].ErrorInfo? || s.details[i].BadRequest?)
               && (forall j :: i < j < |s.details| ==> !s.details[j].ErrorInfo? && !s.details[j].BadRequest?)
      ensures Body(s).code == CodeFrom(s.details[i])
    {
      assert LastForCode(s.details, i);
    }
    forall i | 0 <= i < |s.details|
               && (s.details[i].BadRequest? || (s.details[i].ErrorInfo? && s.details[i].metadata != map[]))
               && (forall j :: i < j < |s.details| ==>
                     !s.details[j].BadRequest? && (s.details[j].ErrorInfo? ==> s.details[j].metadata == map[]))
      ensures Body(s).metadata == MetadataFrom(s.details[i])
      ensures s.details[i].BadRequest? ==> MapsFields(s.details[i].violations, MetadataFrom(s.details[i]))
    {
      assert LastForMetadata(s.details, i);
      if s.details[i].BadRequest? { FieldMapIs(s.details[i].violations); }
    }
  }

  // ---- From end to end ----

  /** An application error, wrapped or not, whose status is neither OK (0) nor Internal (13): the client gets its
      code, its message in the request's language, English when that is not given, or else as it was, and its
      metadata as text; and another service parses the same code and metadata from it. */
  lemma AppErrorEndToEnd<V>(cfg: Config<V>, lang: string, cause: Cause<Fields<V>>, e: Fields<V>)
    requires cause.Root() == App(e) && e.statusCode != 0 && e.statusCode != 13
    ensures var converted := Convert(cfg, lang, cause);
            var text := cfg.localize(e.code, e.metadata, if lang == "" then "en" else lang);
            && converted.StatusError? && converted.status.code == e.statusCode
            && var body := Body(converted.status);
               var parsed := ParsedFrom(converted, cfg.domain, cfg.format);
            && body.code == e.code && body.message == (if text != e.code then text else e.message)
            && AsText(e.metadata, cfg.format, body.metadata)
            && parsed.Parsed? && parsed.code == e.code && AsText(e.metadata, cfg.format, parsed.metadata)
  {
    ConvertedAppIs(cfg, lang, cause, e);
    var s := ConvertedStatus(cfg, lang, cause);
    assert s.details == [s.details[0]];
    OneInfo(s, s.details[0]);
  }

  lemma OneInfo(s: Status, info: Detail)
    requires info.ErrorInfo? && s.details == [info]
    ensures Body(s) == ErrorMessage(info.reason, s.message, info.metadata)
  {
    var m := ErrorMessage("UNKNOWN_ERROR", s.message, map[]);
    assert FoldedFirst(m, s.details, 0) == m;
    assert Folded(m, s.details) == Fold(m, s.details[0]);
  }

  /** Nothing of an internal or foreign error reaches the client: its body is the fallback's, whatever
      the error says. */
  lemma InternalsHidden<V>(cfg: Config<V>, lang: string, cause: Cause<Fields<V>>)
    requires !cfg.debug
    requires var root := cause.Root();
             || (root.App? && root.err.statusCode == INTERNAL)
             || (root.StatusError? && (root.status.code == INTERNAL || root.status.code == UNKNOWN))
             || root.Plain?
    ensures var converted := Convert(cfg, lang, cause);
            && converted == StatusError(Fallback(cfg, lang))
            && var text := cfg.localize("INTERNAL_SERVER_ERROR", map[], if lang == "" then "en" else lang);
               Body(converted.status)
                 == ErrorMessage("INTERNAL_SERVER_ERROR",
                                 if text != "INTERNAL_SERVER_ERROR" then text else "internal_server_error", map[])
  {
    FallbackIs(cfg, lang);
    var f := Fallback(cfg, lang);
    assert FoldedFirst(ErrorMessage("UNKNOWN_ERROR", f.message, map[]), f.details, 0).metadata == map[];
  }

  lemma {:induction false} FoldedPrefix(m: ErrorMessage, details: seq<Detail>, d: Detail, n: nat)
    requires n <= |details|
    ensures FoldedFirst(m, details + [d], n) == FoldedFirst(m, details, n)
  {
    if n > 0 { FoldedPrefix(m, details, d, n - 1); }
  }

  /** The error is neither an application error nor the error of a status other than Unknown. */
  predicate Unhandled<V>(cause: Cause<Fields<V>>) {
    var root := cause.Root();
    root.Plain? || (root.StatusError? && root.status.code == UNKNOWN) || (root.NoError? && cause.Wrapped?)
  }

  lemma DebugStatus<V>(cfg: Config<V>, lang: string, cause: Cause<Fields<V>>)
    ensures var on := ConvertedStatus(cfg.(debug := true), lang, cause);
            var off := ConvertedStatus(cfg.(debug := false), lang, cause);
            on == if Unhandled(cause)
                  then off.(details := off.details + [DebugInfo(cfg.stack, ErrorText(cfg, cause))]) else off
    ensures Unhandled(cause) ==> ConvertedStatus(cfg.(debug := false), lang, cause) == Fallback(cfg, lang)
  {
  }

  /** Debugging adds a detail to the status exactly of an error that is not handled, which is the fallback's
      otherwise, and nothing to the body. */
  lemma DebugInvisibleInBody<V>(cfg: Config<V>, lang: string, cause: Cause<Fields<V>>)
    ensures var on := ConvertedStatus(cfg.(debug := true), lang, cause);
            var off := ConvertedStatus(cfg.(debug := false), lang, cause);
            && Body(on) == Body(off)
            && (on != off <==> Unhandled(cause))
            && (Unhandled(cause) ==>
                  && off == Fallback(cfg, lang)
                  && on == off.(details := off.details + [DebugInfo(cfg.stack, ErrorText(cfg, cause))]))
  {
    DebugStatus(cfg, lang, cause);
    var off := ConvertedStatus(cfg.(debug := false), lang, cause);
    var m := ErrorMessage("UNKNOWN_ERROR", off.message, map[]);
    var d := DebugInfo(cfg.stack, ErrorText(cfg, cause));
    assert |off.details + [d]| == |off.details| + 1;
    FoldedPrefix(m, off.details, d, |off.details|);
  }

  /** A validation error arrives as exactly the violations it was made of, in whatever order they were
      listed. */
  lemma ValidationEndToEnd<V>(cfg: Config<V>, lang: string, msg: string, violations: map<string, string>,
                              list: seq<FieldViolation>)
    requires Lists(list, violations)
    ensures var s := Status(3, msg, [BadRequest(list)]);
            && Convert(cfg, lang, StatusError(s)) == StatusError(s)
            && Body(s) == ErrorMessage("VALIDATION_ERROR", msg, violations)
  {
    var s := Status(INVALID_ARGUMENT, msg, [BadRequest(list)]);
    FieldMapIs(list);
    var fields := FieldMap(list);
    forall f ensures f in fields <==> f in violations {
      if f in violations {
        var i :| 0 <= i < |list| && list[i] == FieldViolation(f, violations[f]);
        assert list[i].field in fields;
      }
    }
    forall f | f in fields ensures fields[f] == violations[f] {
      var i :| 0 <= i < |list| && list[i].field == f;
      assert forall j :: i < j < |list| ==> list[j].field != list[i].field;
    }
    assert fields == violations;
    var m := ErrorMessage("UNKNOWN_ERROR", msg, map[]);
    assert FoldedFirst(m, s.details, 0) == m && Folded(m, s.details) == Fold(m, s.details[0]);
  }
}
