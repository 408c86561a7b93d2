/** One error object returned to several requests at the same time (grpc/middleware/error.go): converting it
    writes the localised message into the object and then reads the object's fields, without a lock. */
module ErrorSharing {
  import opened Errs
  import opened ErrorPipeline

  /** Where a request stands: about to localise the error, about to read it, or answered with what it read. */
  datatype Phase = Localising | Reading | Answered(message: string)

  datatype Request = Request(lang: string, phase: Phase)

  /** The message the error object has, and the requests it was returned to. */
  datatype Shared = Shared(message: string, requests: map<nat, Request>)

  datatype Move =
    | Arrive(r: nat, lang: string)
    | Localise(r: nat)
    | Read(r: nat)

  /** A move that is not possible does nothing, so every schedule is a sequence of moves. */
  function Moved<V>(cfg: Config<V>, e: Fields<V>, s: Shared, m: Move): Shared {
    match m
    case Arrive(r, lang) =>
      if r in s.requests then s else s.(requests := s.requests[r := Request(lang, Localising)])
    case Localise(r) =>
      if r in s.requests && s.requests[r].phase.Localising? then
        var lang := s.requests[r].lang;
        Shared(if Translates(cfg, e, lang) then Translation(cfg, e, lang) else s.message,
               s.requests[r := Request(lang, Reading)])
      else s
    case Read(r) =>
      if r in s.requests && s.requests[r].phase.Reading? then
        s.(requests := s.requests[r := Request(s.requests[r].lang, Answered(s.message))])
      else s
  }

  /** After the first n moves. */
  function After<V>(cfg: Config<V>, e: Fields<V>, moves: seq<Move>, n: nat): Shared
    requires n <= |moves|
  {
    if n == 0 then Shared(e.message, map[]) else Moved(cfg, e, After(cfg, e, moves, n - 1), moves[n - 1])
  }

  /** The response made of the fields read. */
  function Response<V>(cfg: Config<V>, lang: string, e: Fields<V>, message: string): Cause<Fields<V>> {
    var stt := GRPCStatus(e.(message := message), cfg.domain, cfg.format);
    ErrOf(if stt.code == INTERNAL then Fallback(cfg, lang) else stt)
  }

  /** A request on its own gets what the conversion gives. */
  lemma ResponseAlone<V>(cfg: Config<V>, lang: string, e: Fields<V>)
    ensures Response(cfg, lang, e, Localised(cfg, e, lang).message) == Convert(cfg, lang, App(e))
  {
  }

  /** Whatever other requests have left in the object, a request that localises and reads with nothing in between
      is answered as the conversion of that. */
  lemma AnsweredAlone<V>(cfg: Config<V>, e: Fields<V>, s: Shared, r: nat)
    requires r in s.requests && s.requests[r].phase.Localising?
    ensures var s' := Moved(cfg, e, Moved(cfg, e, s, Localise(r)), Read(r));
            var lang := s.requests[r].lang;
            && r in s'.requests && s'.requests[r].lang == lang && s'.requests[r].phase.Answered?
            && Response(cfg, lang, e, s'.requests[r].phase.message)
                 == Convert(cfg, lang, App(e.(message := s.message)))
  {
  }

  // ---- Whose translation a response has ----

  /** The move writes a translation into the object. */
  predicate WritesIn<V>(cfg: Config<V>, e: Fields<V>, s: Shared, m: Move) {
    && m.Localise? && m.r in s.requests && s.requests[m.r].phase.Localising?
    && Translates(cfg, e, s.requests[m.r].lang)
  }

  predicate Writes<V>(cfg: Config<V>, e: Fields<V>, moves: seq<Move>, n: nat)
    requires n < |moves|
  {
    WritesIn(cfg, e, After(cfg, e, moves, n), moves[n])
  }

  lemma {:induction false} MessageKept<V>(cfg: Config<V>, e: Fields<V>, moves: seq<Move>, lo: nat, n: nat)
    requires lo <= n <= |moves| && forall i :: lo <= i < n ==> !Writes(cfg, e, moves, i)
    ensures After(cfg, e, moves, n).message == After(cfg, e, moves, lo).message
  {
    if lo < n {
      MessageKept(cfg, e, moves, lo, n - 1);
      assert !Writes(cfg, e, moves, n - 1);
    }
  }

  predicate Reads<V>(cfg: Config<V>, e: Fields<V>, moves: seq<Move>, n: nat)
    requires n < |moves|
  {
    var s := After(cfg, e, moves, n);
    moves[n].Read? && moves[n].r in s.requests && s.requests[moves[n].r].phase.Reading?
  }

  /** Move i is the latest before n that writes. */
  ghost predicate LatestWrite<V>(cfg: Config<V>, e: Fields<V>, moves: seq<Move>, n: nat, i: nat)
    requires i < n <= |moves|
  {
    Writes(cfg, e, moves, i) && forall j :: i < j < n ==> !Writes(cfg, e, moves, j)
  }

  lemma {:induction false} AnswerStays<V>(cfg: Config<V>, e: Fields<V>, moves: seq<Move>, r: nat, n: nat, m: nat)
    requires n <= m <= |moves|
    requires r in After(cfg, e, moves, n).requests && After(cfg, e, moves, n).requests[r].phase.Answered?
    ensures r in After(cfg, e, moves, m).requests
    ensures After(cfg, e, moves, m).requests[r] == After(cfg, e, moves, n).requests[r]
  {
    if n < m { AnswerStays(cfg, e, moves, r, n, m - 1); }
  }

  /** A request is answered with the translation that was written last before it reads, whoever wrote it, and
      with the original message when none was. */
  lemma AnsweredWithLatest<V>(cfg: Config<V>, e: Fields<V>, moves: seq<Move>, n: nat, m: nat)
    requires n < m <= |moves| && Reads(cfg, e, moves, n)
    ensures var answered := After(cfg, e, moves, m).requests;
            && moves[n].r in answered && answered[moves[n].r].phase.Answered?
            && ((forall i :: 0 <= i < n ==> !Writes(cfg, e, moves, i)) ==>
                  answered[moves[n].r].phase.message == e.message)
            && (forall i :: 0 <= i < n && LatestWrite(cfg, e, moves, n, i) ==>
                  var writer := After(cfg, e, moves, i).requests[moves[i].r];
                  answered[moves[n].r].phase.message == Translation(cfg, e, writer.lang))
  {
    AnswerStays(cfg, e, moves, moves[n].r, n + 1, m);
    if forall i :: 0 <= i < n ==> !Writes(cfg, e, moves, i) { MessageKept(cfg, e, moves, 0, n); }
    forall i | 0 <= i < n && LatestWrite(cfg, e, moves, n, i)
      ensures After(cfg, e, moves, n).message == Translation(cfg, e, After(cfg, e, moves, i).requests[moves[i].r].lang)
    {
      MessageKept(cfg, e, moves, i + 1, n);
    }
  }

  // ---- When requests do not notice each other ----

  /** The request has its answer, and it is not the one it would get if the error were its own. */
  ghost predicate Disturbed<V>(cfg: Config<V>, e: Fields<V>, q: Request) {
    q.phase.Answered? && Response(cfg, q.lang, e, q.phase.message) != Convert(cfg, q.lang, App(e))
  }

  /** No schedule gives a request in `lang` another answer than it would get if the error were its own. */
  ghost predicate Undisturbed<V>(cfg: Config<V>, e: Fields<V>, lang: string) {
    forall moves: seq<Move>, r ::
      r in After(cfg, e, moves, |moves|).requests && After(cfg, e, moves, |moves|).requests[r].lang == lang ==>
        !Disturbed(cfg, e, After(cfg, e, moves, |moves|).requests[r])
  }

  /** No other language would put another message in. */
  ghost predicate OneMessage<V>(cfg: Config<V>, e: Fields<V>, lang: string) {
    forall other :: Translates(cfg, e, other) ==> Translation(cfg, e, other) == Localised(cfg, e, lang).message
  }

  /** With one message for `lang`, the object has it from the first request in `lang` on that has localised. */
  ghost predicate Settled<V>(cfg: Config<V>, e: Fields<V>, lang: string, s: Shared) {
    var own := Localised(cfg, e, lang).message;
    && (s.message == e.message || s.message == own)
    && (forall r :: r in s.requests && s.requests[r].lang == lang && s.requests[r].phase.Reading? ==> s.message == own)
    && (forall r :: r in s.requests && s.requests[r].lang == lang && s.requests[r].phase.Answered? ==>
          s.requests[r].phase.message == own)
  }

  lemma SettledStep<V>(cfg: Config<V>, e: Fields<V>, lang: string, s: Shared, m: Move)
    requires OneMessage(cfg, e, lang) && Settled(cfg, e, lang, s)
    ensures Settled(cfg, e, lang, Moved(cfg, e, s, m))
  {
  }

  lemma {:induction false} AlwaysSettled<V>(cfg: Config<V>, e: Fields<V>, lang: string, moves: seq<Move>, n: nat)
    requires OneMessage(cfg, e, lang) && n <= |moves|
    ensures Settled(cfg, e, lang, After(cfg, e, moves, n))
  {
    if n > 0 {
      AlwaysSettled(cfg, e, lang, moves, n - 1);
      SettledStep(cfg, e, lang, After(cfg, e, moves, n - 1), moves[n - 1]);
    }
  }

  /** The schedule in which another request writes between a request's writing and its reading. */
  function Race(lang: string, other: string): seq<Move> {
    [Arrive(0, lang), Arrive(1, other), Localise(0), Localise(1), Read(0)]
  }

  /** In it a request gets the translation for the other's language. */
  lemma RaceLeaks<V>(cfg: Config<V>, e: Fields<V>, lang: string, other: string)
    requires Translates(cfg, e, other)
    ensures var s := After(cfg, e, Race(lang, other), 5);
            0 in s.requests && s.requests[0] == Request(lang, Answered(Translation(cfg, e, other)))
  {
    var moves := Race(lang, other);
    var s2 := After(cfg, e, moves, 2);
    assert After(cfg, e, moves, 1) == Shared(e.message, map[0 := Request(lang, Localising)]) by {
      assert After(cfg, e, moves, 0) == Shared(e.message, map[]);
    }
    assert s2.requests[0] == Request(lang, Localising) && s2.requests[1] == Request(other, Localising);
    var s3 := After(cfg, e, moves, 3);
    assert s3.requests[0] == Request(lang, Reading) && s3.requests[1] == Request(other, Localising);
    var s4 := After(cfg, e, moves, 4);
    assert s4.requests[0] == Request(lang, Reading) && s4.message == Translation(cfg, e, other);
  }

  lemma OtherMessageShows<V>(cfg: Config<V>, lang: string, e: Fields<V>, message: string)
    requires e.statusCode != OK && e.statusCode != INTERNAL && message != Localised(cfg, e, lang).message
    ensures Response(cfg, lang, e, message) != Convert(cfg, lang, App(e))
  {
    ResponseAlone(cfg, lang, e);
  }

  /** Concurrent requests cannot disturb one in `lang` exactly when no language puts another message in than its
      own, or the message is not sent at all. That its own language has a translation is not enough, as it is
      for requests one after the other. */
  lemma UndisturbedIff<V>(cfg: Config<V>, e: Fields<V>, lang: string)
    ensures Undisturbed(cfg, e, lang) <==>
              e.statusCode == OK || e.statusCode == INTERNAL || OneMessage(cfg, e, lang)
  {
    if e.statusCode == OK || e.statusCode == INTERNAL || OneMessage(cfg, e, lang) {
      forall moves: seq<Move>, r |
        r in After(cfg, e, moves, |moves|).requests && After(cfg, e, moves, |moves|).requests[r].lang == lang
        ensures !Disturbed(cfg, e, After(cfg, e, moves, |moves|).requests[r])
      {
        ResponseAlone(cfg, lang, e);
        if OneMessage(cfg, e, lang) { AlwaysSettled(cfg, e, lang, moves, |moves|); }
      }
    } else {
      var other :| Translates(cfg, e, other) && Translation(cfg, e, other) != Localised(cfg, e, lang).message;
      RaceLeaks(cfg, e, lang, other);
      OtherMessageShows(cfg, lang, e, Translation(cfg, e, other));
      var moves := Race(lang, other);
      assert Disturbed(cfg, e, After(cfg, e, moves, |moves|).requests[0]);
    }
  }
}
