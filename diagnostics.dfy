/**
 * The protocol the checker and the repair commands write
 * (documents/management/commands/documentscheck.py): every message has a
 * level, `info` lines reach the protocol stream only at verbosity above
 * one, `warning` lines at any non-zero verbosity, and `error` lines always
 * reach the error stream and, at non-zero verbosity, the protocol too.
 *
 * A message is kept as what it reports rather than as its text.
 */
module Diagnostics {

  datatype Level = Info | Warning | Error

  /** What a line reports. The arguments are those the text formats in. */
  datatype Message =
    // documentscheck
    | CheckingModel
    | StartingInFuture(n: nat)
    | NoneStartingInFuture
    | EndingInFuture(n: nat)
    | NoneEndingInFuture
    | EndingAfterMax(n: nat)
    | NoneEndingAfterMax
    | StartAfterEnd(docId: nat, id: nat)
    | StartAfterEndTotal(n: nat)
    | NoStartAfterEnd
    | Phantoms(n: nat)
    | NoPhantoms
    | OverlappedNow(docId: nat, prevId: nat, id: nat, since: int)
    | OverlappedInPast(docId: nat, prevId: nat, id: nat, from: int, until: int)
    | HoleBetween(docId: nat, prevId: nat, id: nat)
    | PastOverlapsTotal(n: nat, from: int, until: int)
    | NoPastOverlaps
    | ActiveOverlapsTotal(n: nat, since: int)
    | NoActiveOverlaps
    | HolesTotal(n: nat)
    | NoHoles
    // the repair commands
    | FixingModel
    | NewOverlapRemoved(docId: nat, id: nat)
    | OldOverlapTruncated(docId: nat, id: nat)
    | OverlapRemoved(docId: nat, id: nat)
    | EndsFixed(n: nat)
    | NoEndsToFix
    | PhantomsRemoved(n: nat)
    | NoPhantomsFound
    | RecordsTotal(n: nat)
    | DocumentsRemoved(n: nat)
    | NoDocumentsRemoved

  datatype Line = Line(level: Level, msg: Message)

  /** Whether a line reaches OUT at this verbosity. */
  predicate Shown(l: Line, verbosity: int) {
    if l.level == Info then verbosity > 1 else verbosity != 0
  }

  /** The part of `lines` that reaches OUT at this verbosity. */
  function ToOut(lines: seq<Line>, verbosity: int): seq<Line> {
    if lines == [] then []
    else
      var l := lines[|lines| - 1];
      ToOut(lines[..|lines| - 1], verbosity) + (if Shown(l, verbosity) then [l] else [])
  }

  /** The part of `lines` that reaches ERR. */
  function ToErr(lines: seq<Line>): seq<Line> {
    if lines == [] then []
    else
      var l := lines[|lines| - 1];
      ToErr(lines[..|lines| - 1]) + (if l.level == Error then [l] else [])
  }


  /** Filtering a protocol piecewise is filtering it whole. */
  lemma {:induction false} ToOutAppend(a: seq<Line>, b: seq<Line>, verbosity: int)
    ensures ToOut(a + b, verbosity) == ToOut(a, verbosity) + ToOut(b, verbosity)
    ensures ToErr(a + b) == ToErr(a) + ToErr(b)
  {
    if b == [] {
      assert a + b == a;
    } else {
      ToOutAppend(a, b[..|b| - 1], verbosity);
      assert (a + b)[..|a + b| - 1] == a + b[..|b| - 1];
      assert (a + b)[|a + b| - 1] == b[|b| - 1];
    }
  }

  /** At verbosity 0 only the error stream is written, and it receives
      every error and nothing else; at verbosity 1 and above everything
      but info lines reaches OUT, and at verbosity 2 and above everything. */
  lemma {:induction false} StreamsByVerbosity(lines: seq<Line>, verbosity: int)
    ensures verbosity == 0 ==> ToOut(lines, verbosity) == []
    ensures verbosity > 1 ==> ToOut(lines, verbosity) == lines
    ensures forall l :: l in ToErr(lines) <==> l in lines && l.level == Error
    ensures forall l :: l in ToOut(lines, verbosity) <==> l in lines && Shown(l, verbosity)
  {
    if lines != [] {
      var front := lines[..|lines| - 1];
      StreamsByVerbosity(front, verbosity);
      assert lines == front + [lines[|lines| - 1]];
    }
  }

  /** Appending one line to the protocol adds it to OUT when it is shown at
      this verbosity: an info line above verbosity 1, a warning or an error
      at any non-zero verbosity; and adds it to ERR when it is an error. */
  lemma {:induction false} WriteReaches(lines: seq<Line>, l: Line, verbosity: int)
    ensures ToOut(lines + [l], verbosity) ==
            ToOut(lines, verbosity) + (if (l.level == Info && verbosity > 1) || (l.level != Info && verbosity != 0) then [l] else [])
    ensures ToErr(lines + [l]) == ToErr(lines) + (if l.level == Error then [l] else [])
  {
    assert (lines + [l])[..|lines|] == lines;
  }

  /**
   * The protocol a command writes through info, warning and error, with
   * the verbosity set_options installs. The verbosity is fixed for a run,
   * so the two streams are the protocol filtered: OUT is ToOut(lines,
   * verbosity) and ERR is ToErr(lines).
   */
  class Log {
    const verbosity: int
    var lines: seq<Line>

    /** set_options: fresh streams and the verbosity option. */
    constructor (verbosity: int)
      ensures this.verbosity == verbosity && lines == []
    {
      this.verbosity := verbosity;
      lines := [];
    }

    /** What has reached OUT. */
    function Out(): seq<Line>
      reads this
    {
      ToOut(lines, verbosity)
    }

    /** What has reached ERR. */
    function Err(): seq<Line>
      reads this
    {
      ToErr(lines)
    }

    /** info(message) */
    method Info(m: Message)
      modifies this
      ensures lines == old(lines) + [Line(Level.Info, m)]
    {
      lines := lines + [Line(Level.Info, m)];
    }

    /** warning(message) */
    method Warning(m: Message)
      modifies this
      ensures lines == old(lines) + [Line(Level.Warning, m)]
    {
      lines := lines + [Line(Level.Warning, m)];
    }

    /** error(message) */
    method Error(m: Message)
      modifies this
      ensures lines == old(lines) + [Line(Level.Error, m)]
    {
      lines := lines + [Line(Level.Error, m)];
    }
  }
}
