/**
 * `save`, identical in both variants: check that the bot may edit, then try
 * up to `max_retry_times` saves. An edit conflict refetches the page and
 * tries again; a protected page, an AbuseFilter refusal, a spam-blacklisted
 * URL or a blacklisted title stops the attempts; any other error propagates.
 *
 * The wiki is an input: `respond(k)` is its answer to the k-th save
 * attempt, and an edit conflict carries the page text refetched after it.
 * With `add`, an existing page gets the message appended to its current
 * text (`textlib.add_text`, left abstract as `Append`); otherwise its text
 * is replaced.
 */
module SaveRetry {

  /** The wiki's answer to one `page.save` call. */
  datatype Response =
    | Saved
    | EditConflict(latest: string)
    | Locked
    | AbuseFilterDisallowed
    | SpamBlacklisted
    | TitleBlacklisted
    | OtherError

  /** The four refusals that end the attempts without retrying. */
  predicate Refusal(r: Response) {
    r.Locked? || r.AbuseFilterDisallowed? || r.SpamBlacklisted? || r.TitleBlacklisted?
  }

  /** The text one attempt submits: the message appended to `base`, or the message alone. */
  datatype Edit = Append(base: string, addition: string) | Replace(text: string)

  /** How `save` ends: it returns a boolean or raises. */
  datatype SaveResult = Returned(ok: bool) | Raised

  /** How the attempts ended. */
  datatype Ending = NotAllowed | Succeeded | Refused | Errored | OutOfRetries

  /** The edits submitted, in order, and how the attempts ended. */
  datatype Run = Run(edits: seq<Edit>, ending: Ending)

  function EditFor(add: bool, pageExists: bool, base: string, text: string): Edit {
    if add && pageExists then Append(base, text) else Replace(text)
  }

  /** The attempts numbered `k` onwards, `remaining` of them at most, each on top of `base`. */
  function Attempts(add: bool, pageExists: bool, base: string, text: string, k: nat, remaining: nat,
                    respond: nat -> Response): Run
    decreases remaining
  {
    if remaining == 0 then Run([], OutOfRetries)
    else
      var edit := EditFor(add, pageExists, base, text);
      match respond(k)
      case Saved => Run([edit], Succeeded)
      case EditConflict(latest) =>
        var rest := Attempts(add, pageExists, latest, text, k + 1, remaining - 1, respond);
        Run([edit] + rest.edits, rest.ending)
      case OtherError => Run([edit], Errored)
      case _ => Run([edit], Refused)
  }

  /** `range(max_retry_times)` is empty for a negative count. */
  function RetryCount(maxRetry: int): nat {
    if maxRetry < 0 then 0 else maxRetry
  }

  /** The whole call: nothing when the bot may not edit; otherwise the attempts, starting from the current text when appending. */
  function SaveRun(mayEdit: bool, add: bool, pageExists: bool, current: string, text: string, maxRetry: int,
                   respond: nat -> Response): Run
  {
    if !mayEdit then Run([], NotAllowed)
    else Attempts(add, pageExists, if add && pageExists then current else "", text, 0, RetryCount(maxRetry), respond)
  }

  /**
   * Some `except ... as e` handler ran: a refusal, or at least one edit
   * conflict before the retries ran out. Python unbinds `e` when such a
   * handler ends.
   */
  predicate HandlerRan(run: Run) {
    run.ending == Refused || (run.ending == OutOfRetries && run.edits != [])
  }

  /**
   * The result as written: after the loop the final message formats `e`,
   * which raises `UnboundLocalError` once a handler has unbound it.
   */
  function AsWrittenResult(run: Run): SaveResult {
    match run.ending
    case Succeeded => Returned(true)
    case Errored => Raised
    case _ => if HandlerRan(run) then Raised else Returned(false)
  }

  /**
   * The evidently intended result: a refusal or running out of retries
   * returns false. It differs from the program as written exactly where an
   * `except ... as e` handler ran, and there the program raises instead.
   */
  function IntendedResult(run: Run): (r: SaveResult)
    ensures !HandlerRan(run) ==> r == AsWrittenResult(run)
    ensures HandlerRan(run) ==> r == Returned(false) && AsWrittenResult(run) == Raised
  {
    match run.ending
    case Succeeded => Returned(true)
    case Errored => Raised
    case _ => Returned(false)
  }

  // ---------------------------------------------------------------------------
  // The retry loop
  // ---------------------------------------------------------------------------

  /** `save` as written. */
  method Save(mayEdit: bool, add: bool, pageExists: bool, current: string, text: string, maxRetry: int,
              respond: nat -> Response) returns (result: SaveResult, edits: seq<Edit>)
    ensures edits == SaveRun(mayEdit, add, pageExists, current, text, maxRetry, respond).edits
    ensures result == AsWrittenResult(SaveRun(mayEdit, add, pageExists, current, text, maxRetry, respond))
  {
    edits := [];
    if !mayEdit {
      return Returned(false), edits;
    }
    var unbound := false;
    var original := "";
    if add && pageExists {
      original := current;
    }
    ghost var n := RetryCount(maxRetry);
    var i := 0;
    while i < maxRetry
      invariant i <= n && |edits| == i && (unbound <==> i > 0)
      invariant SaveRun(mayEdit, add, pageExists, current, text, maxRetry, respond)
             == After(edits, Attempts(add, pageExists, original, text, i, n - i, respond))
    {
      var edit := if add && pageExists then Append(original, text) else Replace(text);
      AttemptStep(edits, add, pageExists, original, text, i, n - i, respond);
      edits := edits + [edit];
      match respond(i) {
        case Saved =>
          return Returned(true), edits;
        case OtherError =>
          return Raised, edits;
        case EditConflict(latest) =>
          unbound := true;
          original := latest;
        case _ =>
          unbound := true;
          break;
      }
      i := i + 1;
    }
    if unbound {
      result := Raised;
    } else {
      result := Returned(false);
    }
  }

  /** The edits already made, followed by a run of further attempts. */
  function After(made: seq<Edit>, run: Run): Run {
    Run(made + run.edits, run.ending)
  }

  /** One more attempt: its edit joins those already made, and its answer decides whether the run goes on. */
  lemma AttemptStep(made: seq<Edit>, add: bool, pageExists: bool, base: string, text: string, k: nat, remaining: nat,
                    respond: nat -> Response)
    requires remaining > 0
    ensures var made' := made + [EditFor(add, pageExists, base, text)];
      After(made, Attempts(add, pageExists, base, text, k, remaining, respond))
      == match respond(k)
         case Saved => Run(made', Succeeded)
         case EditConflict(latest) => After(made', Attempts(add, pageExists, latest, text, k + 1, remaining - 1, respond))
         case OtherError => Run(made', Errored)
         case _ => Run(made', Refused)
  {
    if respond(k).EditConflict? {
      var rest := Attempts(add, pageExists, respond(k).latest, text, k + 1, remaining - 1, respond);
      assert made + ([EditFor(add, pageExists, base, text)] + rest.edits)
          == (made + [EditFor(add, pageExists, base, text)]) + rest.edits;
    }
  }

  // ---------------------------------------------------------------------------
  // Properties
  // ---------------------------------------------------------------------------

  /** The answers to attempts `from` up to, not including, `to` are all edit conflicts. */
  predicate AllConflicts(respond: nat -> Response, from: nat, to: nat) {
    forall i: nat :: from <= i < to ==> respond(i).EditConflict?
  }

  /**
   * How a run of attempts from `k` ends: it runs out exactly when every
   * allowed attempt meets an edit conflict; otherwise its last attempt is
   * the first answer that is not a conflict, and that answer decides the
   * ending.
   */
  lemma {:induction false} AttemptsShape(add: bool, pageExists: bool, base: string, text: string, k: nat, remaining: nat,
                                         respond: nat -> Response)
    ensures var r := Attempts(add, pageExists, base, text, k, remaining, respond);
      && |r.edits| <= remaining
      && r.ending != NotAllowed
      && (r.ending == OutOfRetries <==> |r.edits| == remaining && AllConflicts(respond, k, k + remaining))
      && (r.ending != OutOfRetries ==>
            && |r.edits| >= 1
            && AllConflicts(respond, k, k + |r.edits| - 1)
            && (r.ending == Succeeded <==> respond(k + |r.edits| - 1) == Saved)
            && (r.ending == Errored <==> respond(k + |r.edits| - 1) == OtherError)
            && (r.ending == Refused <==> Refusal(respond(k + |r.edits| - 1))))
    decreases remaining
  {
    if remaining > 0 {
      if respond(k).EditConflict? {
        AttemptsShape(add, pageExists, respond(k).latest, text, k + 1, remaining - 1, respond);
      } else {
        assert !AllConflicts(respond, k, k + remaining) by { assert !respond(k).EditConflict?; }
      }
    }
  }

  /**
   * Each attempt submits the message on top of the latest text: the first
   * on top of the text fetched before the loop, each later one on top of
   * the text refetched after the previous edit conflict.
   */
  lemma {:induction false} AttemptsEdits(add: bool, pageExists: bool, base: string, text: string, k: nat, remaining: nat,
                                         respond: nat -> Response, j: nat)
    requires j < |Attempts(add, pageExists, base, text, k, remaining, respond).edits|
    requires 0 < j ==> respond(k + j - 1).EditConflict?
    ensures Attempts(add, pageExists, base, text, k, remaining, respond).edits[j]
         == EditFor(add, pageExists, if j == 0 then base else respond(k + j - 1).latest, text)
    decreases remaining
  {
    if j > 0 {
      AttemptsEdits(add, pageExists, respond(k).latest, text, k + 1, remaining - 1, respond, j - 1);
    }
  }

  /**
   * As written, `save` returns false only when the bot may not edit or no
   * attempt is allowed: when the bot may edit and at least one attempt is
   * allowed, it returns true or raises.
   */
  lemma AsWrittenNeverReturnsFalse(mayEdit: bool, add: bool, pageExists: bool, current: string, text: string,
                                   maxRetry: int, respond: nat -> Response)
    ensures AsWrittenResult(SaveRun(mayEdit, add, pageExists, current, text, maxRetry, respond)) == Returned(false)
        <==> !mayEdit || maxRetry <= 0
  {
    if mayEdit {
      AttemptsShape(add, pageExists, if add && pageExists then current else "", text, 0, RetryCount(maxRetry), respond);
    }
  }

  /** A concrete case: a protected talk page makes `save` raise instead of returning false. */
  lemma LockedPageRaisesAsWritten(text: string)
    ensures AsWrittenResult(SaveRun(true, true, true, "", text, 3, _ => Locked)) == Raised
    ensures IntendedResult(SaveRun(true, true, true, "", text, 3, _ => Locked)) == Returned(false)
  {
  }

  /**
   * The intended result, against the first decisive answer: `save` returns
   * true exactly when some attempt within the retry budget is saved after
   * nothing but edit conflicts, and raises exactly when such an attempt
   * meets another error; otherwise it returns false.
   */
  lemma IntendedSaveResult(mayEdit: bool, add: bool, pageExists: bool, current: string, text: string,
                           maxRetry: int, respond: nat -> Response)
    ensures var r := IntendedResult(SaveRun(mayEdit, add, pageExists, current, text, maxRetry, respond));
      && (r == Returned(true) <==> mayEdit && exists j: nat :: j < maxRetry && respond(j) == Saved && AllConflicts(respond, 0, j))
      && (r == Raised <==> mayEdit && exists j: nat :: j < maxRetry && respond(j) == OtherError && AllConflicts(respond, 0, j))
  {
    if mayEdit {
      var run := SaveRun(mayEdit, add, pageExists, current, text, maxRetry, respond);
      AttemptsShape(add, pageExists, if add && pageExists then current else "", text, 0, RetryCount(maxRetry), respond);
      if run.ending != OutOfRetries {
        var last := |run.edits| - 1;
        forall j: nat | j < maxRetry && AllConflicts(respond, 0, j) && !respond(j).EditConflict?
          ensures j == last
        {
        }
      } else {
        forall j: nat | j < maxRetry ensures respond(j).EditConflict? { }
      }
    }
  }

}
