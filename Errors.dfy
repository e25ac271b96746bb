/** Errors and the severity-prioritised error accumulator (ErrorsReporter). */
module ErrorReporting {

  datatype Option<T> = None | Some(value: T)

  /** The five recoverable-or-fatal error classes plus the "no error" sentinel. */
  datatype Error = InvalidInput | DuplicatePair | TooManyChildren | CycleDetected | MultipleRoots | NoErrors

  /** The enum's numeric value: a lower level is a more severe error. */
  function Level(e: Error): nat
  {
    match e
    case InvalidInput => 1
    case DuplicatePair => 2
    case TooManyChildren => 3
    case CycleDetected => 4
    case MultipleRoots => 5
    case NoErrors => 999
  }

  /** The textual code of an error: "E" followed by the digit of its level. */
  function Code(e: Error): (code: string)
    requires e != NoErrors
    ensures |code| == 2 && code[0] == 'E'
    ensures code[1] as int - '0' as int == Level(e)
  {
    match e
    case InvalidInput => "E1"
    case DuplicatePair => "E2"
    case TooManyChildren => "E3"
    case CycleDetected => "E4"
    case MultipleRoots => "E5"
  }

  /** Distinct errors have distinct codes, so the code identifies the error. */
  lemma CodeIdentifiesError(a: Error, b: Error)
    requires a != NoErrors && b != NoErrors && Code(a) == Code(b)
    ensures a == b
  {
    assert Level(a) == Code(a)[1] as int - '0' as int == Level(b);
  }

  /** The level kept after a recoverable error e is reported: the more severe of the two. */
  function Record(current: Error, e: Error): (r: Error)
    ensures r == current || r == e
    ensures Level(r) <= Level(current) && Level(r) <= Level(e)
  {
    if Level(e) < Level(current) then e else current
  }

  /** The level after a whole sequence of recoverable reports, in order. */
  function RecordAll(current: Error, reports: seq<Error>): Error
  {
    if reports == [] then current
    else Record(RecordAll(current, reports[..|reports| - 1]), reports[|reports| - 1])
  }

  /** Reporting one sequence after another is reporting their concatenation. */
  lemma {:induction false} RecordAllAppend(current: Error, a: seq<Error>, b: seq<Error>)
    ensures RecordAll(current, a + b) == RecordAll(RecordAll(current, a), b)
  {
    if b == [] {
      assert a + b == a;
    } else {
      assert (a + b)[..|a + b| - 1] == a + b[..|b| - 1];
      RecordAllAppend(current, a, b[..|b| - 1]);
    }
  }

  /** Reporting one more error records it on top of the level reached so far. */
  lemma RecordAllSnoc(current: Error, reports: seq<Error>, e: Error)
    ensures RecordAll(current, reports + [e]) == Record(RecordAll(current, reports), e)
  {
    assert (reports + [e])[..|reports|] == reports;
  }

  /** The accumulated level is the most severe of the initial level and every report. */
  lemma {:induction false} RecordAllIsMostSevere(current: Error, reports: seq<Error>)
    ensures RecordAll(current, reports) == current || RecordAll(current, reports) in reports
    ensures Level(RecordAll(current, reports)) <= Level(current)
    ensures forall e :: e in reports ==> Level(RecordAll(current, reports)) <= Level(e)
  {
    if reports != [] {
      var init := reports[..|reports| - 1];
      RecordAllIsMostSevere(current, init);
      assert reports == init + [reports[|reports| - 1]];
    }
  }

  /** Only the most severe error survives, whatever the order of the reports. */
  lemma RecordAllOrderIndependent(current: Error, a: seq<Error>, b: seq<Error>)
    requires multiset(a) == multiset(b)
    ensures RecordAll(current, a) == RecordAll(current, b)
  {
    RecordAllIsMostSevere(current, a);
    RecordAllIsMostSevere(current, b);
    var ra, rb := RecordAll(current, a), RecordAll(current, b);
    assert ra in b || ra == current by {
      if ra != current { assert ra in multiset(a); }
    }
    assert rb in a || rb == current by {
      if rb != current { assert rb in multiset(b); }
    }
    assert Level(ra) == Level(rb);
  }

  /** Once an error at least as severe as e has been recorded, the final level stays at least that severe. */
  lemma RecordAllKeepsSeverity(current: Error, reports: seq<Error>, e: Error)
    requires e in reports && e != NoErrors
    ensures Level(RecordAll(current, reports)) <= Level(e)
    ensures RecordAll(current, reports) != NoErrors
  {
    RecordAllIsMostSevere(current, reports);
  }

  /** ErrorsReporter: keeps the single most severe error reported so far. */
  class ErrorsReporter {
    var level: Error

    constructor ()
      ensures level == NoErrors
    {
      level := NoErrors;
    }

    /** InvalidInput aborts with its code (the source throws); any other error is recorded by severity. */
    method Report(e: Error) returns (abort: Option<string>)
      modifies this
      ensures e == InvalidInput ==> abort == Some(Code(InvalidInput)) && level == old(level)
      ensures e != InvalidInput ==> abort == None && level == Record(old(level), e)
    {
      if e == InvalidInput {
        return Some(Code(e));
      }
      if Level(e) < Level(level) {
        level := e;
      }
      abort := None;
    }

    /** Whether any error was recorded, and if so the code of the most severe one. */
    method ErrorsOccurred() returns (occurred: bool, code: string)
      ensures occurred <==> level != NoErrors
      ensures occurred ==> code == Code(level)
      ensures !occurred ==> code == ""
    {
      code := "";
      if level != NoErrors {
        code := Code(level);
        return true, code;
      }
      return false, code;
    }
  }
}
