/**
 * The poll step of subscribe-tool.py (`check_subscribed_pages`): sections
 * are keyed by (heading, level), the last old section with a subscribed key
 * gives the baseline, and a page that no longer exists is skipped.
 *
 * Everything the step asks of the outside world is an input (`Env`): what
 * the wiki answers for each page, the section splitter, the user-name
 * pattern of `rx2`, and which notices `send_message` raises on. A page
 * whose fetch raises, or whose notice raises, is abandoned by the per-page
 * `except`: its state is not updated and the pass goes on. `run`
 * (subscribe-tool.py:110-120) calls the step once per user and process,
 * so what a later poll of the same state would do is stated here only as a
 * property of the step.
 */
module SectionPoll {
  import opened Signatures
  import opened Detection
  import OwnNames

  /** A subscribed section as the configuration names it. */
  datatype SectionKey = SectionKey(heading: string, level: int)

  /** One section of a page text, as the section splitter returns it. */
  datatype Section = Section(heading: string, level: int, content: string) {
    function Key(): SectionKey { SectionKey(heading, level) }
  }

  /** The stored state of one watched page: the last seen text and revision id, and the subscribed sections. */
  datatype PageState = PageState(latestRevision: string, latestRevisionId: int, sectionNames: seq<SectionKey>)

  /**
   * The inputs of one call: the subscriber, the wiki's answers, the section
   * splitter, the user-name part of `rx2`, and the notices whose sending
   * raises.
   */
  datatype Env = Env(user: string, wiki: map<string, Remote>, split: string -> seq<Section>,
                     ownName: seq<NameAtom>, raises: Notice -> bool)

  // ---------------------------------------------------------------------------
  // Specification
  // ---------------------------------------------------------------------------

  /**
   * The signatures recorded for each subscribed section of the old text:
   * the sections are visited in order and a later section with the same key
   * overwrites an earlier one.
   */
  function Baseline(sectionsThen: seq<Section>, names: seq<SectionKey>): map<SectionKey, seq<string>>
    decreases |sectionsThen|
  {
    if sectionsThen == [] then map[]
    else
      var last := sectionsThen[|sectionsThen| - 1];
      var b := Baseline(sectionsThen[..|sectionsThen| - 1], names);
      if last.Key() in names then b[last.Key() := FindAll(last.content)] else b
  }

  /** A section of the new text triggers a notice: it has a baseline and a signature that is neither in it nor the subscriber's own. */
  predicate Fires(s: Section, baseline: map<SectionKey, seq<string>>, ownName: seq<NameAtom>) {
    s.Key() in baseline && HasFresh(FindAll(s.content), baseline[s.Key()], FindOwn(s.content, ownName))
  }

  /** The notices due for the sections of the new text, in order: one per section that fires. */
  function Notices(user: string, page: string, now: seq<Section>,
                   baseline: map<SectionKey, seq<string>>, ownName: seq<NameAtom>): seq<Notice>
    decreases |now|
  {
    if now == [] then []
    else
      var last := now[|now| - 1];
      Notices(user, page, now[..|now| - 1], baseline, ownName)
        + (if Fires(last, baseline, ownName) then [Notice(user, page, last.heading)] else [])
  }

  /** The notices due when `page` moves from its stored text to `text`. */
  function PageNotices(env: Env, page: string, st: PageState, text: string): seq<Notice> {
    Notices(env.user, page, env.split(text), Baseline(env.split(st.latestRevision), st.sectionNames), env.ownName)
  }

  /** The outcome of polling one page: its new state, the notices sent, and whether its text was fetched. */
  datatype Step = Step(state: PageState, notices: seq<Notice>, fetched: bool)

  function PollPage(env: Env, page: string, st: PageState): Step {
    match RemoteOf(env.wiki, page)
    case Missing => Step(st, [], false)
    case Unreadable(_) => Step(st, [], false)
    case Live(id, text) =>
      if id == st.latestRevisionId then Step(st, [], true)
      else
        var d := Deliver(PageNotices(env, page, st, text), env.raises);
        Step(if d.raised then st else PageState(text, id, st.sectionNames), d.sent, true)
  }

  /** What one pass over the watched pages leaves: the new page states, the notices sent and the pages fetched, in order. */
  datatype Pass = Pass(pages: map<string, PageState>, notices: seq<Notice>, fetched: seq<string>)

  /** Polling the pages `names` in order, each from its state in `pages`. */
  function RunPass(env: Env, names: seq<string>, pages: map<string, PageState>): (r: Pass)
    requires forall n :: n in names ==> n in pages
    ensures r.pages.Keys == pages.Keys
    decreases |names|
  {
    if names == [] then Pass(pages, [], [])
    else
      var n := names[|names| - 1];
      Extend(RunPass(env, names[..|names| - 1], pages), n, PollPage(env, n, pages[n]))
  }

  /** The pass so far, followed by the poll of page `n`. */
  function Extend(before: Pass, n: string, step: Step): (r: Pass)
    ensures r.pages.Keys == before.pages.Keys + {n}
  {
    Pass(before.pages[n := step.state], before.notices + step.notices,
         before.fetched + (if step.fetched then [n] else []))
  }

  /** The pass over distinct pages, one page further: the next page is polled from the state it had before the pass. */
  lemma PassNext(env: Env, names: seq<string>, i: nat, pages: map<string, PageState>)
    requires i < |names| && forall n :: n in names ==> n in pages
    requires Distinct(names)
    ensures var before := RunPass(env, names[..i], pages);
      && before.pages[names[i]] == pages[names[i]]
      && RunPass(env, names[..i + 1], pages) == Extend(before, names[i], PollPage(env, names[i], pages[names[i]]))
  {
    assert names[i] !in names[..i];
    RunPassUntouched(env, names[..i], pages, names[i]);
    assert names[..i + 1][..i] == names[..i];
  }

  /** A page the pass does not visit keeps its state. */
  lemma {:induction false} RunPassUntouched(env: Env, names: seq<string>, pages: map<string, PageState>, n: string)
    requires forall m :: m in names ==> m in pages
    requires n in pages && n !in names
    ensures RunPass(env, names, pages).pages[n] == pages[n]
    decreases |names|
  {
    if names != [] {
      var init := names[..|names| - 1];
      assert names == init + [names[|names| - 1]];
      RunPassUntouched(env, init, pages, n);
    }
  }

  /**
   * After a pass over distinct pages, each polled page holds the state its
   * own poll produced and every other page is untouched.
   */
  lemma {:induction false} RunPassPage(env: Env, names: seq<string>, pages: map<string, PageState>, n: string)
    requires forall m :: m in names ==> m in pages
    requires Distinct(names)
    requires n in pages
    ensures RunPass(env, names, pages).pages[n] == if n in names then PollPage(env, n, pages[n]).state else pages[n]
    decreases |names|
  {
    if names != [] {
      var init := names[..|names| - 1];
      assert names == init + [names[|names| - 1]];
      RunPassPage(env, init, pages, n);
    }
  }

  // ---------------------------------------------------------------------------
  // The poll step
  // ---------------------------------------------------------------------------

  /** The nested loops that record the signatures of each subscribed section of the old text. */
  method BuildBaseline(sectionsThen: seq<Section>, names: seq<SectionKey>) returns (b: map<SectionKey, seq<string>>)
    ensures b == Baseline(sectionsThen, names)
  {
    b := map[];
    for i := 0 to |sectionsThen|
      invariant b == Baseline(sectionsThen[..i], names)
    {
      assert sectionsThen[..i + 1][..i] == sectionsThen[..i];
      var s := sectionsThen[i];
      ghost var before := b;
      var j := 0;
      while j < |names|
        invariant j <= |names| && b == before
        invariant forall k :: 0 <= k < j ==> names[k] != s.Key()
      {
        if s.heading == names[j].heading && s.level == names[j].level {
          b := b[s.Key() := FindAll(s.content)];
          break;
        }
        j := j + 1;
      }
    }
    assert sectionsThen[..|sectionsThen|] == sectionsThen;
  }

  /**
   * The loop over the sections of the new text: at most one notice per
   * section with a baseline, and a notice whose sending raises ends the
   * loop.
   */
  method ExamineSections(user: string, page: string, now: seq<Section>, baseline: map<SectionKey, seq<string>>,
                         ownName: seq<NameAtom>, raises: Notice -> bool)
    returns (sent: seq<Notice>, raised: bool)
    ensures Delivery(sent, raised) == Deliver(Notices(user, page, now, baseline, ownName), raises)
  {
    sent, raised := [], false;
    for i := 0 to |now|
      invariant sent == Notices(user, page, now[..i], baseline, ownName)
      invariant !Deliver(sent, raises).raised
    {
      NoticesNext(user, page, now, i, baseline, ownName);
      var s := now[i];
      if s.Key() in baseline {
        var found, _ := FirstFresh(FindAll(s.content), baseline[s.Key()], FindOwn(s.content, ownName));
        if found {
          var notice := Notice(user, page, s.heading);
          DeliverSnoc(sent, notice, raises);
          sent := sent + [notice];
          if raises(notice) {
            raised := true;
            RaiseEndsExamine(user, page, now, i, baseline, ownName, raises);
            return;
          }
        }
      }
    }
    assert now[..|now|] == now;
    DeliverStopsAtFirstRaise(sent, raises);
  }

  /** The notices of the first `i + 1` sections: those of the first `i`, then the one for section `i` if it fires. */
  lemma NoticesNext(user: string, page: string, now: seq<Section>, i: nat,
                    baseline: map<SectionKey, seq<string>>, ownName: seq<NameAtom>)
    requires i < |now|
    ensures Notices(user, page, now[..i + 1], baseline, ownName)
         == Notices(user, page, now[..i], baseline, ownName)
            + (if Fires(now[i], baseline, ownName) then [Notice(user, page, now[i].heading)] else [])
  {
    assert now[..i + 1][..i] == now[..i];
  }

  /** Once a send for the first `i + 1` sections raises, the later sections send nothing. */
  lemma RaiseEndsExamine(user: string, page: string, now: seq<Section>, i: nat,
                         baseline: map<SectionKey, seq<string>>, ownName: seq<NameAtom>, raises: Notice -> bool)
    requires i < |now|
    requires Deliver(Notices(user, page, now[..i + 1], baseline, ownName), raises).raised
    ensures Deliver(Notices(user, page, now, baseline, ownName), raises)
         == Deliver(Notices(user, page, now[..i + 1], baseline, ownName), raises)
  {
    NoticesAppend(user, page, now[..i + 1], now[i + 1..], baseline, ownName);
    assert now[..i + 1] + now[i + 1..] == now;
    DeliverAppend(Notices(user, page, now[..i + 1], baseline, ownName), Notices(user, page, now[i + 1..], baseline, ownName), raises);
  }

  /** The body of the per-page loop, inside its `try`. */
  method ProcessPage(env: Env, page: string, st: PageState) returns (step: Step)
    ensures step == PollPage(env, page, st)
  {
    match RemoteOf(env.wiki, page)
    case Missing =>
      step := Step(st, [], false);
    case Unreadable(_) =>
      step := Step(st, [], false);
    case Live(id, text) =>
      if id != st.latestRevisionId {
        var baseline := BuildBaseline(env.split(st.latestRevision), st.sectionNames);
        var sent, raised := ExamineSections(env.user, page, env.split(text), baseline, env.ownName, env.raises);
        if raised {
          step := Step(st, sent, true);
        } else {
          step := Step(st.(latestRevision := text, latestRevisionId := id), sent, true);
        }
      } else {
        step := Step(st, [], true);
      }
  }

  /** One subscriber's watched pages, in the order they were loaded. */
  class Watchlist {
    var order: seq<string>
    var pages: map<string, PageState>

    ghost predicate Valid()
      reads this
    {
      && (forall n :: n in pages <==> n in order)
      && Distinct(order)
    }

    constructor (order: seq<string>, pages: map<string, PageState>)
      requires forall n :: n in pages <==> n in order
      requires Distinct(order)
      ensures Valid() && this.order == order && this.pages == pages
    {
      this.order := order;
      this.pages := pages;
    }

    /**
     * `check_subscribed_pages`: polls every page once, in order. Each page's
     * new state depends only on its own old state and the inputs.
     */
    method CheckSubscribedPages(env: Env) returns (notices: seq<Notice>, fetched: seq<string>)
      requires Valid()
      modifies this
      ensures Valid() && order == old(order)
      ensures Pass(pages, notices, fetched) == RunPass(env, order, old(pages))
      ensures forall n :: n in pages ==> pages[n] == PollPage(env, n, old(pages)[n]).state
    {
      ghost var names := order;
      ghost var before := pages;
      assert Distinct(names);
      notices, fetched := [], [];
      for i := 0 to |order|
        invariant order == names && pages.Keys == before.Keys
        invariant Pass(pages, notices, fetched) == RunPass(env, names[..i], before)
      {
        var name := order[i];
        PassNext(env, names, i, before);
        var step := ProcessPage(env, name, pages[name]);
        pages, notices, fetched :=
          pages[name := step.state], notices + step.notices, fetched + (if step.fetched then [name] else []);
      }
      assert names[..|names|] == names;
      forall n | n in pages ensures pages[n] == PollPage(env, n, before[n]).state {
        RunPassPage(env, names, before, n);
      }
    }
  }

  // ---------------------------------------------------------------------------
  // Properties
  // ---------------------------------------------------------------------------

  /** A key has a baseline exactly when it is subscribed and some old section carries it. */
  lemma {:induction false} BaselineKeys(sectionsThen: seq<Section>, names: seq<SectionKey>, key: SectionKey)
    ensures key in Baseline(sectionsThen, names)
        <==> key in names && exists i :: 0 <= i < |sectionsThen| && sectionsThen[i].Key() == key
    decreases |sectionsThen|
  {
    if sectionsThen != [] {
      var init := sectionsThen[..|sectionsThen| - 1];
      BaselineKeys(init, names, key);
      if exists i :: 0 <= i < |sectionsThen| && sectionsThen[i].Key() == key {
        var i :| 0 <= i < |sectionsThen| && sectionsThen[i].Key() == key;
        if i < |sectionsThen| - 1 { assert init[i] == sectionsThen[i]; }
      }
      if exists i :: 0 <= i < |init| && init[i].Key() == key {
        var i :| 0 <= i < |init| && init[i].Key() == key;
        assert sectionsThen[i] == init[i];
      }
    }
  }

  /**
   * When a subscribed key occurs more than once in the old text, the
   * baseline holds the signatures of its last occurrence.
   */
  lemma {:induction false} BaselineLastWins(sectionsThen: seq<Section>, names: seq<SectionKey>, i: nat)
    requires i < |sectionsThen| && sectionsThen[i].Key() in names
    requires forall j :: i < j < |sectionsThen| ==> sectionsThen[j].Key() != sectionsThen[i].Key()
    ensures sectionsThen[i].Key() in Baseline(sectionsThen, names)
    ensures Baseline(sectionsThen, names)[sectionsThen[i].Key()] == FindAll(sectionsThen[i].content)
    decreases |sectionsThen|
  {
    var init := sectionsThen[..|sectionsThen| - 1];
    if i < |sectionsThen| - 1 {
      forall j | i < j < |init| ensures init[j].Key() != init[i].Key() {
        assert init[j] == sectionsThen[j];
      }
      BaselineLastWins(init, names, i);
      assert init[i] == sectionsThen[i];
    }
  }

  /** Polling sections one block after another yields the notices of each block in turn. */
  lemma {:induction false} NoticesAppend(user: string, page: string, a: seq<Section>, b: seq<Section>,
                                         baseline: map<SectionKey, seq<string>>, ownName: seq<NameAtom>)
    ensures Notices(user, page, a + b, baseline, ownName)
         == Notices(user, page, a, baseline, ownName) + Notices(user, page, b, baseline, ownName)
    decreases |b|
  {
    if b == [] {
      assert a + b == a;
    } else {
      var init := b[..|b| - 1];
      assert (a + b)[..|a + b| - 1] == a + init;
      NoticesAppend(user, page, a, init, baseline, ownName);
    }
  }

  /**
   * Each section of the new text contributes one notice if it fires and
   * none otherwise, however many fresh signatures it holds.
   */
  lemma AtMostOnePerSection(user: string, page: string, pre: seq<Section>, s: Section, post: seq<Section>,
                            baseline: map<SectionKey, seq<string>>, ownName: seq<NameAtom>)
    ensures Notices(user, page, pre + [s] + post, baseline, ownName)
         == Notices(user, page, pre, baseline, ownName)
            + (if Fires(s, baseline, ownName) then [Notice(user, page, s.heading)] else [])
            + Notices(user, page, post, baseline, ownName)
  {
    NoticesAppend(user, page, pre + [s], post, baseline, ownName);
    NoticesAppend(user, page, pre, [s], baseline, ownName);
    assert [s][..0] == [];
  }

  /** Every notice names a section of the new text that fires; there are no more notices than sections. */
  lemma {:induction false} NoticesComeFromFiringSections(user: string, page: string, now: seq<Section>,
                                                         baseline: map<SectionKey, seq<string>>, ownName: seq<NameAtom>)
    ensures |Notices(user, page, now, baseline, ownName)| <= |now|
    ensures forall m :: m in Notices(user, page, now, baseline, ownName) ==>
      m.user == user && m.page == page &&
      exists i :: 0 <= i < |now| && now[i].heading == m.section && Fires(now[i], baseline, ownName)
    decreases |now|
  {
    if now != [] {
      var init := now[..|now| - 1];
      NoticesComeFromFiringSections(user, page, init, baseline, ownName);
      forall i | 0 <= i < |init| ensures init[i] == now[i] { }
    }
  }

  /** A section with no fresh signature (all in the baseline or the subscriber's own) never fires. */
  lemma AcknowledgedNeverFires(s: Section, baseline: map<SectionKey, seq<string>>, ownName: seq<NameAtom>)
    requires s.Key() in baseline
    requires forall sig :: sig in FindAll(s.content) ==>
      Acknowledged(sig, baseline[s.Key()], FindOwn(s.content, ownName))
    ensures !Fires(s, baseline, ownName)
  {
  }

  /** A section of the new text whose key no old section carried has no baseline, so it never fires. */
  lemma NewSectionNeverFires(s: Section, sectionsThen: seq<Section>, names: seq<SectionKey>, ownName: seq<NameAtom>)
    requires forall i :: 0 <= i < |sectionsThen| ==> sectionsThen[i].Key() != s.Key()
    ensures !Fires(s, Baseline(sectionsThen, names), ownName)
  {
    BaselineKeys(sectionsThen, names, s.Key());
  }

  /** A section whose key is not subscribed never fires. */
  lemma UnsubscribedNeverFires(s: Section, sectionsThen: seq<Section>, names: seq<SectionKey>, ownName: seq<NameAtom>)
    requires s.Key() !in names
    ensures !Fires(s, Baseline(sectionsThen, names), ownName)
  {
    BaselineKeys(sectionsThen, names, s.Key());
  }

  /**
   * A section that was subscribed and present before fires exactly when a
   * signature in it is neither one of the last old occurrence's nor the
   * subscriber's own.
   */
  lemma SubscribedSectionFires(s: Section, sectionsThen: seq<Section>, names: seq<SectionKey>,
                               ownName: seq<NameAtom>, i: nat)
    requires i < |sectionsThen| && sectionsThen[i].Key() == s.Key() && s.Key() in names
    requires forall j :: i < j < |sectionsThen| ==> sectionsThen[j].Key() != s.Key()
    ensures Fires(s, Baseline(sectionsThen, names), ownName)
        <==> exists k :: 0 <= k < |FindAll(s.content)| &&
               FindAll(s.content)[k] !in FindAll(sectionsThen[i].content) &&
               FindAll(s.content)[k] !in FindOwn(s.content, ownName)
  {
    BaselineLastWins(sectionsThen, names, i);
  }

  /** If the stored revision id is current, nothing is compared or sent and the state is unchanged. */
  lemma UnchangedRevisionIsNoOp(env: Env, page: string, st: PageState, text: string)
    requires RemoteOf(env.wiki, page) == Live(st.latestRevisionId, text)
    ensures PollPage(env, page, st) == Step(st, [], true)
  {
  }

  /** A page that no longer exists, or cannot be read, keeps its stored state and sends nothing. */
  lemma AbsentPageSkipped(env: Env, page: string, st: PageState)
    requires !RemoteOf(env.wiki, page).Live?
    ensures PollPage(env, page, st) == Step(st, [], false)
  {
  }

  /**
   * A changed page is committed, text and revision id together, exactly
   * when no notice send raises; then every due notice has been sent, and a
   * second poll of the same revision is a no-op. A send that returns
   * without raising counts as delivered whatever it returned.
   */
  lemma ChangedPageCommits(env: Env, page: string, st: PageState, id: int, text: string)
    requires RemoteOf(env.wiki, page) == Live(id, text) && id != st.latestRevisionId
    ensures var r := PollPage(env, page, st);
      && (r.state == PageState(text, id, st.sectionNames)
          <==> !AnyRaises(PageNotices(env, page, st, text), env.raises))
      && (r.state == PageState(text, id, st.sectionNames) ==>
            r.notices == PageNotices(env, page, st, text) && PollPage(env, page, r.state) == Step(r.state, [], true))
  {
    DeliverRaisesIffAny(PageNotices(env, page, st, text), env.raises);
  }

  /**
   * A changed page whose notice send raises keeps its old state. Polling the
   * same dictionary again at the same revision would therefore try the same
   * due notices again, whichever of them raise that time (`env'` may differ
   * from `env` in `raises` only).
   */
  lemma RaisedSendRepeats(env: Env, env': Env, page: string, st: PageState, id: int, text: string)
    requires RemoteOf(env.wiki, page) == Live(id, text) && id != st.latestRevisionId
    requires Deliver(PageNotices(env, page, st, text), env.raises).raised
    requires env'.user == env.user && env'.wiki == env.wiki && env'.split == env.split && env'.ownName == env.ownName
    ensures PollPage(env, page, st).state == st
    ensures PollPage(env', page, PollPage(env, page, st).state).notices
            == Deliver(PageNotices(env, page, st, text), env'.raises).sent
  {
  }

  /** A subscriber whose name has a space, as in the sample signature of "A B". */
  const SampleUser := "A B"

  /**
   * As written in subscribe-tool.py, the subscriber "A B" is notified of a
   * reply that is their own: the escaped name pattern does not recognise it.
   */
  lemma SelfNotificationAsWritten()
    ensures Fires(Section("Talk", 2, OwnNames.SampleSignature), map[SectionKey("Talk", 2) := []],
                  OwnNames.EscapedName(SampleUser))
  {
    var s := Section("Talk", 2, OwnNames.SampleSignature);
    OwnNames.SampleIsSignature();
    OwnNames.SampleMissedAsWritten();
    assert !Acknowledged(FindAll(s.content)[0], [], FindOwn(s.content, OwnNames.EscapedName(SampleUser)));
  }

  /** With the corrected name pattern the same reply is recognised as the subscriber's own and sends nothing. */
  lemma NoSelfNotificationCorrected()
    ensures !Fires(Section("Talk", 2, OwnNames.SampleSignature), map[SectionKey("Talk", 2) := []],
                   OwnNames.SpacedName(SampleUser))
  {
    OwnNames.SampleIsSignature();
    OwnNames.SampleFoundCorrected();
  }

}
