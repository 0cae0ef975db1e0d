/**
 * The time context of documents/retrospection.py: the instant a thread
 * currently works at (the `dt` attribute of a thread-local object), how
 * now(), set_now(), current_time() and with_real_time() read and pin it,
 * and the decisions RetrospectionMiddleware takes on each request.
 *
 * The wall clock is a parameter, the session value is its stored text, and
 * strptime/strftime are the functions `parse` (None on a ValueError) and
 * `format`.
 */
module Retrospection {
  import opened Wrappers

  /** What now(request) returns: an instant, or the session's text itself
      when it is stored but does not parse. */
  datatype Reading = Instant(t: int) | Text(s: string)

  /** How a block run under current_time() ends: with a value, or by raising. */
  datatype Exit<T> = Returned(value: T) | Raised

  /** The parts of a request the middleware looks at: the session's
      RETROSPECTION_DATETIME entry, whether it is a POST and carries
      post_in_retrospection, whether GET has exit_retrospection, and the
      value of enter_retrospection in GET. */
  datatype Request = Request(session: Option<string>, isPost: bool, postInRetrospection: bool, exit: bool, enter: Option<string>)

  /** process_request returns a redirect, or None to let the view run. */
  datatype Decision = Redirect | Proceed

  /** What process_request leaves: its answer, the session entry and the pin. */
  datatype Handled = Handled(decision: Decision, session: Option<string>, pin: Option<int>)

  /** A session value counts only when it is a non-empty string. */
  predicate InRetrospection(session: Option<string>) {
    session.Some? && session.value != []
  }

  /** RetrospectionMiddleware.process_request. */
  function HandleRequest(pin: Option<int>, req: Request, parse: string -> Option<int>, format: int -> string, clock: int): Handled {
    if InRetrospection(req.session) then
      if req.isPost && !req.postInRetrospection then Handled(Redirect, req.session, pin)
      else if req.exit then Handled(Proceed, None, None)
      else Handled(Proceed, req.session, parse(req.session.value))
    else if req.enter.Some? then
      var t := parse(req.enter.value).GetOr(clock);
      Handled(Proceed, Some(format(t)), Some(t))
    else Handled(Proceed, req.session, pin)
  }

  /** Retrospection mode is read-only: a POST without post_in_retrospection
      is redirected and changes neither the session nor the pin. */
  lemma PostRefused(pin: Option<int>, req: Request, parse: string -> Option<int>, format: int -> string, clock: int)
    requires InRetrospection(req.session) && req.isPost && !req.postInRetrospection
    ensures HandleRequest(pin, req, parse, format, clock) == Handled(Redirect, req.session, pin)
  {
  }

  /** In retrospection mode the session entry changes only by leaving it,
      and every request that goes through pins the session's instant, or
      nothing when it does not parse or the request leaves. */
  lemma RetrospectionPins(pin: Option<int>, req: Request, parse: string -> Option<int>, format: int -> string, clock: int)
    requires InRetrospection(req.session)
    ensures var h := HandleRequest(pin, req, parse, format, clock);
            (h.session == req.session || (req.exit && h.session == None)) &&
            (h.decision == Proceed ==> h.pin == if req.exit then None else parse(req.session.value))
  {
  }

  /** Outside retrospection mode, a request without enter_retrospection
      changes nothing, and one with it stores the instant in the session
      (the wall clock when it does not parse) and pins it. */
  lemma EnterPins(pin: Option<int>, req: Request, parse: string -> Option<int>, format: int -> string, clock: int)
    requires !InRetrospection(req.session)
    ensures var h := HandleRequest(pin, req, parse, format, clock);
            h.decision == Proceed &&
            (req.enter.None? ==> h == Handled(Proceed, req.session, pin)) &&
            (req.enter.Some? ==>
               var t := parse(req.enter.value).GetOr(clock);
               h.session == Some(format(t)) && h.pin == Some(t))
  {
  }

  /** Entering retrospection at an instant that survives formatting and
      parsing, the next request that goes through works at that same
      instant, whatever the pin was in between. */
  lemma EnterThenBrowse(pin: Option<int>, other: Option<int>, enter: string, t: int,
                        next: Request, parse: string -> Option<int>, format: int -> string, clock: int, later: int)
    requires parse(enter) == Some(t) && parse(format(t)) == Some(t) && format(t) != []
    requires !(next.isPost && !next.postInRetrospection) && !next.exit
    ensures var h := HandleRequest(pin, Request(None, false, false, false, Some(enter)), parse, format, clock);
            h.pin == Some(t) &&
            HandleRequest(other, next.(session := h.session), parse, format, later).pin == Some(t)
  {
  }

  /**
   * The thread-local holder of the current instant.
   */
  class TimeContext {
    var dt: Option<int>

    constructor ()
      ensures dt == None
    {
      dt := None;
    }

    /** now(): the pinned instant, or the wall clock, which it then pins. */
    method Now(clock: int) returns (t: int)
      modifies this
      ensures old(dt).Some? ==> t == old(dt).value && dt == old(dt)
      ensures old(dt).None? ==> t == clock && dt == Some(clock)
    {
      if dt.None? {
        dt := Some(clock);
      }
      t := dt.value;
    }

    /** now(request): a session instant that parses is returned without
        touching the pin; a session value that does not parse is returned
        as it is; with no session value the wall clock is pinned and
        returned (whatever was pinned before). */
    method NowFor(session: Option<string>, parse: string -> Option<int>, clock: int) returns (r: Reading)
      modifies this
      ensures InRetrospection(session) && parse(session.value).Some? ==>
                r == Instant(parse(session.value).value) && dt == old(dt)
      ensures session.Some? && !(InRetrospection(session) && parse(session.value).Some?) ==>
                r == Text(session.value) && dt == old(dt)
      ensures session.None? ==> r == Instant(clock) && dt == Some(clock)
    {
      var v: Option<Reading> := if session.Some? then Some(Text(session.value)) else None;
      if InRetrospection(session) {
        var p := parse(session.value);
        if p.Some? {
          return Instant(p.value);
        }
      }
      if v.None? {
        dt := Some(clock);
        v := Some(Instant(clock));
      }
      r := v.value;
    }

    /** set_now(dt): pin `t`, or the wall clock when it is absent. */
    method SetNow(t: Option<int>, clock: int)
      modifies this
      ensures dt == Some(t.GetOr(clock))
    {
      dt := Some(t.GetOr(clock));
    }

    /** current_time(dt) around a block: the prior instant is read with
        now() (at wall clock `clock`, pinning it if nothing was), `t` (or the
        wall clock `later`) is pinned for the block, and the prior instant
        is pinned again however the block ends. `body` maps the pin the
        block starts with to the pin it leaves and how it ends. */
    method CurrentTime<T>(t: Option<int>, clock: int, later: int, body: Option<int> -> (Option<int>, Exit<T>))
        returns (x: Exit<T>)
      modifies this
      ensures x == body(Some(t.GetOr(later))).1
      ensures dt == Some(old(dt).GetOr(clock))
    {
      var saved := Now(clock);
      SetNow(t, later);
      var run := body(dt);
      dt := run.0;
      SetNow(Some(saved), later);
      x := run.1;
    }

    /** with_real_time(f): run `f` at the wall clock and return its result;
        afterwards the prior instant is pinned. */
    method WithRealTime<T>(clock: int, later: int, f: Option<int> -> (Option<int>, Exit<T>)) returns (x: Exit<T>)
      modifies this
      ensures x == f(Some(later)).1
      ensures dt == Some(old(dt).GetOr(clock))
    {
      x := CurrentTime(None, clock, later, f);
    }

    /** RetrospectionMiddleware.process_request: returns the decision and the
        session entry afterwards. */
    method ProcessRequest(req: Request, parse: string -> Option<int>, format: int -> string, clock: int)
        returns (d: Decision, session: Option<string>)
      modifies this
      ensures Handled(d, session, dt) == HandleRequest(old(dt), req, parse, format, clock)
    {
      session := req.session;
      if InRetrospection(req.session) {
        if req.isPost && !req.postInRetrospection {
          return Redirect, session;
        }
        if req.exit {
          session := None;
          dt := None;
        } else {
          dt := parse(req.session.value);
        }
      } else if req.enter.Some? {
        var t := parse(req.enter.value).GetOr(clock);
        session := Some(format(t));
        dt := Some(t);
      }
      d := Proceed;
    }

    /** RetrospectionMiddleware.process_response: the pin never outlives the request. */
    method ProcessResponse()
      modifies this
      ensures dt == None
    {
      dt := None;
    }
  }

  /** set_now(t) followed by now() reads `t`, and a second now() reads the
      same instant again. */
  method SetNowThenNow(ctx: TimeContext, t: int, c1: int, c2: int, c3: int) returns (a: int, b: int)
    modifies ctx
    ensures a == t && b == t && ctx.dt == Some(t)
  {
    ctx.SetNow(Some(t), c1);
    a := ctx.Now(c2);
    b := ctx.Now(c3);
  }
}
