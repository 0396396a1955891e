/**
 * The poll step of Subscribe_tool.py (`check_subscribed_pages`): sections
 * are keyed by their title, the first old section with a subscribed title
 * gives the baseline, and the stored revision id is compared before the
 * text is fetched.
 *
 * This variant has no `try` around a page: asking a page that no longer
 * exists for its revision id, a fetch that raises, or a notice whose
 * sending raises ends the whole pass. Pages polled before it keep their new
 * state, the page being polled keeps its old one, and later pages are not
 * polled. The module-level loop that calls the step (Subscribe_tool.py:96-100)
 * has no `try` either, so the exception goes on to stop the bot; that loop
 * is not part of this model.
 */
module TitlePoll {
  import opened Signatures
  import opened Detection

  /** One section of a page text, as the section splitter returns it: its title and its text. */
  datatype TitledSection = TitledSection(title: string, content: string)

  /** The stored state of one watched page, with the subscribed section titles. */
  datatype TitledPageState = TitledPageState(latestRevision: string, latestRevisionId: int, sectionNames: seq<string>)

  /**
   * The inputs of one call: the subscriber, the wiki's answers, the section
   * splitter, the user-name part of `rx2`, and the notices whose sending
   * raises.
   */
  datatype TitledEnv = TitledEnv(user: string, wiki: map<string, Remote>, split: string -> seq<TitledSection>,
                                 ownName: seq<NameAtom>, raises: Notice -> bool)

  // ---------------------------------------------------------------------------
  // Specification
  // ---------------------------------------------------------------------------

  /**
   * The signatures recorded for each subscribed title of the old text: a
   * title already recorded is not recorded again, so the first section with
   * that title wins.
   */
  function FirstBaseline(sectionsThen: seq<TitledSection>, names: seq<string>): map<string, seq<string>>
    decreases |sectionsThen|
  {
    if sectionsThen == [] then map[]
    else
      var last := sectionsThen[|sectionsThen| - 1];
      var b := FirstBaseline(sectionsThen[..|sectionsThen| - 1], names);
      if last.title in names && last.title !in b then b[last.title := FindAll(last.content)] else b
  }

  /** A section of the new text triggers a notice: its title has a baseline and it has a fresh signature. */
  predicate TitleFires(s: TitledSection, baseline: map<string, seq<string>>, ownName: seq<NameAtom>) {
    s.title in baseline && HasFresh(FindAll(s.content), baseline[s.title], FindOwn(s.content, ownName))
  }

  /** The notices sent for the sections of the new text, in order. */
  function TitledNotices(user: string, page: string, now: seq<TitledSection>,
                         baseline: map<string, seq<string>>, ownName: seq<NameAtom>): seq<Notice>
    decreases |now|
  {
    if now == [] then []
    else
      var last := now[|now| - 1];
      TitledNotices(user, page, now[..|now| - 1], baseline, ownName)
        + (if TitleFires(last, baseline, ownName) then [Notice(user, page, last.title)] else [])
  }

  /** The notices due when `page` moves from its stored text to `text`. */
  function TitledPageNotices(env: TitledEnv, page: string, st: TitledPageState, text: string): seq<Notice> {
    TitledNotices(env.user, page, env.split(text), FirstBaseline(env.split(st.latestRevision), st.sectionNames), env.ownName)
  }

  /** The outcome of polling one page: its new state, the notices sent, and whether the poll raised. */
  datatype TitledStep = TitledStep(state: TitledPageState, notices: seq<Notice>, raised: bool)

  function PollTitled(env: TitledEnv, page: string, st: TitledPageState): TitledStep {
    match RemoteOf(env.wiki, page)
    case Missing => TitledStep(st, [], true)
    case Unreadable(id) =>
      if id == st.latestRevisionId then TitledStep(st, [], false) else TitledStep(st, [], true)
    case Live(id, text) =>
      if id == st.latestRevisionId then TitledStep(st, [], false)
      else
        var d := Deliver(TitledPageNotices(env, page, st, text), env.raises);
        TitledStep(if d.raised then st else TitledPageState(text, id, st.sectionNames), d.sent, d.raised)
  }

  /** What a pass leaves: the page states, the notices sent, and whether it ended by raising. */
  datatype TitledPass = TitledPass(pages: map<string, TitledPageState>, notices: seq<Notice>, raised: bool)

  /** Polling `names` in order until one raises. */
  function RunTitledPass(env: TitledEnv, names: seq<string>, pages: map<string, TitledPageState>): (r: TitledPass)
    requires forall n :: n in names ==> n in pages
    ensures r.pages.Keys == pages.Keys
    decreases |names|
  {
    if names == [] then TitledPass(pages, [], false)
    else
      var n := names[|names| - 1];
      var before := RunTitledPass(env, names[..|names| - 1], pages);
      if before.raised then before
      else ExtendTitled(before, n, PollTitled(env, n, pages[n]))
  }

  /** The pass so far, followed by the poll of page `n`. */
  function ExtendTitled(before: TitledPass, n: string, step: TitledStep): (r: TitledPass)
    ensures r.pages.Keys == before.pages.Keys + {n}
  {
    TitledPass(before.pages[n := step.state], before.notices + step.notices, step.raised)
  }

  lemma TitledPassPrefix(env: TitledEnv, names: seq<string>, i: nat, pages: map<string, TitledPageState>)
    requires i < |names| && forall n :: n in names ==> n in pages
    ensures var before := RunTitledPass(env, names[..i], pages);
      RunTitledPass(env, names[..i + 1], pages)
      == if before.raised then before
         else ExtendTitled(before, names[i], PollTitled(env, names[i], pages[names[i]]))
  {
    assert names[..i + 1][..i] == names[..i];
  }

  /** The pass over distinct pages, one page further: the next page is polled from the state it had before the pass. */
  lemma TitledPassNext(env: TitledEnv, names: seq<string>, i: nat, pages: map<string, TitledPageState>)
    requires i < |names| && forall n :: n in names ==> n in pages
    requires Distinct(names)
    requires !RunTitledPass(env, names[..i], pages).raised
    ensures var before := RunTitledPass(env, names[..i], pages);
      && before.pages[names[i]] == pages[names[i]]
      && RunTitledPass(env, names[..i + 1], pages) == ExtendTitled(before, names[i], PollTitled(env, names[i], pages[names[i]]))
  {
    assert names[i] !in names[..i];
    TitledPassUntouched(env, names[..i], pages, names[i]);
    TitledPassPrefix(env, names, i, pages);
  }

  /** A page the pass does not reach keeps its state. */
  lemma {:induction false} TitledPassUntouched(env: TitledEnv, names: seq<string>, pages: map<string, TitledPageState>, n: string)
    requires forall m :: m in names ==> m in pages
    requires n in pages && n !in names
    ensures RunTitledPass(env, names, pages).pages[n] == pages[n]
    decreases |names|
  {
    if names != [] {
      var init := names[..|names| - 1];
      assert names == init + [names[|names| - 1]];
      TitledPassUntouched(env, init, pages, n);
    }
  }

  // ---------------------------------------------------------------------------
  // The poll step
  // ---------------------------------------------------------------------------

  /** The loop that records, for each subscribed title, the signatures of its first old section. */
  method BuildFirstBaseline(sectionsThen: seq<TitledSection>, names: seq<string>) returns (b: map<string, seq<string>>)
    ensures b == FirstBaseline(sectionsThen, names)
  {
    b := map[];
    for i := 0 to |sectionsThen|
      invariant b == FirstBaseline(sectionsThen[..i], names)
    {
      assert sectionsThen[..i + 1][..i] == sectionsThen[..i];
      var s := sectionsThen[i];
      if s.title in names && s.title !in b {
        b := b[s.title := FindAll(s.content)];
      }
    }
    assert sectionsThen[..|sectionsThen|] == sectionsThen;
  }

  /**
   * The loop over the sections of the new text: at most one notice per
   * section whose title has a baseline, and a notice whose sending raises
   * ends the loop.
   */
  method ExamineTitledSections(user: string, page: string, now: seq<TitledSection>,
                               baseline: map<string, seq<string>>, ownName: seq<NameAtom>, raises: Notice -> bool)
    returns (sent: seq<Notice>, raised: bool)
    ensures Delivery(sent, raised) == Deliver(TitledNotices(user, page, now, baseline, ownName), raises)
  {
    sent, raised := [], false;
    for i := 0 to |now|
      invariant sent == TitledNotices(user, page, now[..i], baseline, ownName)
      invariant !Deliver(sent, raises).raised
    {
      TitledNoticesNext(user, page, now, i, baseline, ownName);
      var s := now[i];
      if s.title in baseline {
        var found, _ := FirstFresh(FindAll(s.content), baseline[s.title], FindOwn(s.content, ownName));
        if found {
          var notice := Notice(user, page, s.title);
          DeliverSnoc(sent, notice, raises);
          sent := sent + [notice];
          if raises(notice) {
            raised := true;
            RaiseEndsTitledExamine(user, page, now, i, baseline, ownName, raises);
            return;
          }
        }
      }
    }
    assert now[..|now|] == now;
    DeliverStopsAtFirstRaise(sent, raises);
  }

  /** The notices of the first `i + 1` sections: those of the first `i`, then the one for section `i` if it fires. */
  lemma TitledNoticesNext(user: string, page: string, now: seq<TitledSection>, i: nat,
                          baseline: map<string, seq<string>>, ownName: seq<NameAtom>)
    requires i < |now|
    ensures TitledNotices(user, page, now[..i + 1], baseline, ownName)
         == TitledNotices(user, page, now[..i], baseline, ownName)
            + (if TitleFires(now[i], baseline, ownName) then [Notice(user, page, now[i].title)] else [])
  {
    assert now[..i + 1][..i] == now[..i];
  }

  /** Polling sections one block after another yields the notices of each block in turn. */
  lemma {:induction false} TitledNoticesAppend(user: string, page: string, a: seq<TitledSection>, b: seq<TitledSection>,
                                               baseline: map<string, seq<string>>, ownName: seq<NameAtom>)
    ensures TitledNotices(user, page, a + b, baseline, ownName)
         == TitledNotices(user, page, a, baseline, ownName) + TitledNotices(user, page, b, baseline, ownName)
    decreases |b|
  {
    if b == [] {
      assert a + b == a;
    } else {
      var init := b[..|b| - 1];
      assert (a + b)[..|a + b| - 1] == a + init;
      TitledNoticesAppend(user, page, a, init, baseline, ownName);
    }
  }

  /** Once a send for the first `i + 1` sections raises, the later sections send nothing. */
  lemma RaiseEndsTitledExamine(user: string, page: string, now: seq<TitledSection>, i: nat,
                               baseline: map<string, seq<string>>, ownName: seq<NameAtom>, raises: Notice -> bool)
    requires i < |now|
    requires Deliver(TitledNotices(user, page, now[..i + 1], baseline, ownName), raises).raised
    ensures Deliver(TitledNotices(user, page, now, baseline, ownName), raises)
         == Deliver(TitledNotices(user, page, now[..i + 1], baseline, ownName), raises)
  {
    TitledNoticesAppend(user, page, now[..i + 1], now[i + 1..], baseline, ownName);
    assert now[..i + 1] + now[i + 1..] == now;
    DeliverAppend(TitledNotices(user, page, now[..i + 1], baseline, ownName),
                  TitledNotices(user, page, now[i + 1..], baseline, ownName), raises);
  }

  /** The body of the per-page loop: the revision id first, the text only when it changed. */
  method ProcessTitledPage(env: TitledEnv, page: string, st: TitledPageState) returns (step: TitledStep)
    ensures step == PollTitled(env, page, st)
  {
    var remote := RemoteOf(env.wiki, page);
    if remote.Missing? {
      step := TitledStep(st, [], true);
      return;
    }
    var id := remote.revisionId;
    if id == st.latestRevisionId {
      step := TitledStep(st, [], false);
    } else if remote.Unreadable? {
      step := TitledStep(st, [], true);
    } else {
      var text := remote.text;
      var baseline := BuildFirstBaseline(env.split(st.latestRevision), st.sectionNames);
      var sent, raised := ExamineTitledSections(env.user, page, env.split(text), baseline, env.ownName, env.raises);
      if raised {
        step := TitledStep(st, sent, true);
      } else {
        step := TitledStep(st.(latestRevisionId := id, latestRevision := text), sent, false);
      }
    }
  }

  /** One subscriber's watched pages, keyed by title, in the order they were loaded. */
  class TitledWatchlist {
    var order: seq<string>
    var pages: map<string, TitledPageState>

    ghost predicate Valid()
      reads this
    {
      && (forall n :: n in pages <==> n in order)
      && Distinct(order)
    }

    constructor (order: seq<string>, pages: map<string, TitledPageState>)
      requires forall n :: n in pages <==> n in order
      requires Distinct(order)
      ensures Valid() && this.order == order && this.pages == pages
    {
      this.order := order;
      this.pages := pages;
    }

    /**
     * `check_subscribed_pages`: polls the pages in order and stops at the
     * first one that raises, reporting `raised`.
     */
    method CheckSubscribedPages(env: TitledEnv) returns (notices: seq<Notice>, raised: bool)
      requires Valid()
      modifies this
      ensures Valid() && order == old(order)
      ensures TitledPass(pages, notices, raised) == RunTitledPass(env, order, old(pages))
    {
      ghost var names := order;
      ghost var before := pages;
      assert Distinct(names);
      notices, raised := [], false;
      var i := 0;
      while i < |order| && !raised
        invariant order == names && pages.Keys == before.Keys
        invariant PassReached(env, names, i, before, TitledPass(pages, notices, raised))
      {
        var name := order[i];
        var step := ProcessTitledPage(env, name, pages[name]);
        PassReachedNext(env, names, i, before, TitledPass(pages, notices, raised), step);
        pages, notices, raised := pages[name := step.state], notices + step.notices, step.raised;
        i := i + 1;
      }
      PassReachedEnd(env, names, i, before, TitledPass(pages, notices, raised));
    }
  }

  /** `p` is what the pass leaves after polling the first `i` pages of `names`. */
  ghost predicate PassReached(env: TitledEnv, names: seq<string>, i: nat, before: map<string, TitledPageState>, p: TitledPass) {
    && i <= |names|
    && (forall n :: n in names ==> n in before)
    && p == RunTitledPass(env, names[..i], before)
  }

  /** Polling the next page of distinct `names` extends the pass, unless it has already raised. */
  lemma PassReachedNext(env: TitledEnv, names: seq<string>, i: nat, before: map<string, TitledPageState>,
                        p: TitledPass, step: TitledStep)
    requires PassReached(env, names, i, before, p) && i < |names| && Distinct(names) && !p.raised
    requires names[i] in p.pages && step == PollTitled(env, names[i], p.pages[names[i]])
    ensures PassReached(env, names, i + 1, before, ExtendTitled(p, names[i], step))
  {
    TitledPassNext(env, names, i, before);
  }

  /** A pass that has raised, or has polled every page, is the whole pass. */
  lemma PassReachedEnd(env: TitledEnv, names: seq<string>, i: nat, before: map<string, TitledPageState>, p: TitledPass)
    requires PassReached(env, names, i, before, p) && (i == |names| || p.raised)
    ensures p == RunTitledPass(env, names, before)
  {
    if p.raised {
      RaisedPassStops(env, names, i, before);
    } else {
      assert names[..|names|] == names;
    }
  }

  // ---------------------------------------------------------------------------
  // Properties
  // ---------------------------------------------------------------------------

  /** Once a pass has raised, polling more pages changes nothing. */
  lemma {:induction false} RaisedPassStops(env: TitledEnv, names: seq<string>, i: nat, pages: map<string, TitledPageState>)
    requires i <= |names| && forall n :: n in names ==> n in pages
    requires RunTitledPass(env, names[..i], pages).raised
    ensures RunTitledPass(env, names, pages) == RunTitledPass(env, names[..i], pages)
    decreases |names| - i
  {
    if i < |names| {
      TitledPassPrefix(env, names, i, pages);
      RaisedPassStops(env, names, i + 1, pages);
    } else {
      assert names[..i] == names;
    }
  }

  /** A pass raises exactly when it reaches a broken page. */
  lemma {:induction false} RaisesOnlyOnBrokenPage(env: TitledEnv, names: seq<string>, pages: map<string, TitledPageState>)
    requires forall n :: n in names ==> n in pages
    ensures RunTitledPass(env, names, pages).raised <==> BrokenAmong(env, names, pages)
    decreases |names|
  {
    if names != [] {
      var init := names[..|names| - 1];
      RaisesOnlyOnBrokenPage(env, init, pages);
      var n := names[|names| - 1];
      PollRaisesIffBroken(env, n, pages[n]);
      BrokenAmongSnoc(env, names, pages);
    }
  }

  /** Some page of `names` is broken at its state in `pages`. */
  predicate BrokenAmong(env: TitledEnv, names: seq<string>, pages: map<string, TitledPageState>)
    requires forall n :: n in names ==> n in pages
  {
    exists k :: 0 <= k < |names| && Broken(env, names[k], pages[names[k]])
  }

  lemma BrokenAmongSnoc(env: TitledEnv, names: seq<string>, pages: map<string, TitledPageState>)
    requires names != [] && forall n :: n in names ==> n in pages
    ensures var n := names[|names| - 1];
      BrokenAmong(env, names, pages) <==> BrokenAmong(env, names[..|names| - 1], pages) || Broken(env, n, pages[n])
  {
    var init := names[..|names| - 1];
    if BrokenAmong(env, init, pages) {
      var k :| 0 <= k < |init| && Broken(env, init[k], pages[init[k]]);
      assert names[k] == init[k];
    }
    if BrokenAmong(env, names, pages) {
      var k :| 0 <= k < |names| && Broken(env, names[k], pages[names[k]]);
      if k < |init| { assert init[k] == names[k]; }
    }
  }

  /**
   * A page whose poll raises: it is missing, it cannot be read at a new
   * revision id, or one of the notices due at its new revision raises when
   * sent.
   */
  predicate Broken(env: TitledEnv, page: string, st: TitledPageState) {
    match RemoteOf(env.wiki, page)
    case Missing => true
    case Unreadable(id) => id != st.latestRevisionId
    case Live(id, text) =>
      id != st.latestRevisionId && AnyRaises(TitledPageNotices(env, page, st, text), env.raises)
  }

  /** The poll of one page raises exactly when the page is broken, and then leaves its state as it was. */
  lemma PollRaisesIffBroken(env: TitledEnv, page: string, st: TitledPageState)
    ensures PollTitled(env, page, st).raised <==> Broken(env, page, st)
    ensures Broken(env, page, st) ==> PollTitled(env, page, st).state == st
  {
    if RemoteOf(env.wiki, page).Live? {
      var notices := TitledPageNotices(env, page, st, RemoteOf(env.wiki, page).text);
      DeliverRaisesIffAny(notices, env.raises);
    }
  }

  /**
   * The revision id is compared first: at an unchanged id the page is not
   * fetched, so even a page whose text cannot be read passes without effect.
   */
  lemma UnchangedRevisionNotFetched(env: TitledEnv, page: string, st: TitledPageState)
    requires !RemoteOf(env.wiki, page).Missing? && RemoteOf(env.wiki, page).revisionId == st.latestRevisionId
    ensures PollTitled(env, page, st) == TitledStep(st, [], false)
  {
  }

  /** A title has a baseline exactly when it is subscribed and some old section has it. */
  lemma {:induction false} FirstBaselineKeys(sectionsThen: seq<TitledSection>, names: seq<string>, title: string)
    ensures title in FirstBaseline(sectionsThen, names) <==> title in names && exists i :: 0 <= i < |sectionsThen| && sectionsThen[i].title == title
    decreases |sectionsThen|
  {
    if sectionsThen != [] {
      var init := sectionsThen[..|sectionsThen| - 1];
      FirstBaselineKeys(init, names, title);
      if exists i :: 0 <= i < |sectionsThen| && sectionsThen[i].title == title {
        var i :| 0 <= i < |sectionsThen| && sectionsThen[i].title == title;
        if i < |sectionsThen| - 1 { assert init[i] == sectionsThen[i]; }
      }
      if exists i :: 0 <= i < |init| && init[i].title == title {
        var i :| 0 <= i < |init| && init[i].title == title;
        assert sectionsThen[i] == init[i];
      }
    }
  }

  /**
   * When a subscribed title occurs more than once in the old text, the
   * baseline holds the signatures of its first occurrence.
   */
  lemma {:induction false} FirstBaselineFirstWins(sectionsThen: seq<TitledSection>, names: seq<string>, i: nat)
    requires i < |sectionsThen| && sectionsThen[i].title in names
    requires forall j :: 0 <= j < i ==> sectionsThen[j].title != sectionsThen[i].title
    ensures sectionsThen[i].title in FirstBaseline(sectionsThen, names)
    ensures FirstBaseline(sectionsThen, names)[sectionsThen[i].title] == FindAll(sectionsThen[i].content)
    decreases |sectionsThen|
  {
    var init := sectionsThen[..|sectionsThen| - 1];
    if i < |sectionsThen| - 1 {
      assert init[i] == sectionsThen[i];
      forall j | 0 <= j < i ensures init[j].title != init[i].title {
        assert init[j] == sectionsThen[j];
      }
      FirstBaselineFirstWins(init, names, i);
    } else {
      FirstBaselineKeys(init, names, sectionsThen[i].title);
      forall j | 0 <= j < |init| ensures init[j].title != sectionsThen[i].title {
        assert init[j] == sectionsThen[j];
      }
    }
  }

  /** Every notice names a section of the new text whose title has a baseline and that fires. */
  lemma {:induction false} TitledNoticesFromFiringSections(user: string, page: string, now: seq<TitledSection>,
                                                           baseline: map<string, seq<string>>, ownName: seq<NameAtom>)
    ensures |TitledNotices(user, page, now, baseline, ownName)| <= |now|
    ensures forall m :: m in TitledNotices(user, page, now, baseline, ownName) ==>
      m.user == user && m.page == page &&
      exists i :: 0 <= i < |now| && now[i].title == m.section && TitleFires(now[i], baseline, ownName)
    decreases |now|
  {
    if now != [] {
      var init := now[..|now| - 1];
      TitledNoticesFromFiringSections(user, page, init, baseline, ownName);
      forall i | 0 <= i < |init| ensures init[i] == now[i] { }
    }
  }

  /** A section whose title no old section had never fires. */
  lemma NewTitleNeverFires(s: TitledSection, sectionsThen: seq<TitledSection>, names: seq<string>, ownName: seq<NameAtom>)
    requires forall i :: 0 <= i < |sectionsThen| ==> sectionsThen[i].title != s.title
    ensures !TitleFires(s, FirstBaseline(sectionsThen, names), ownName)
  {
    FirstBaselineKeys(sectionsThen, names, s.title);
  }

  /**
   * A live page with a new revision id whose notices all send without
   * raising is committed, text and id together, after sending every due
   * notice; a second poll is then a no-op.
   */
  lemma PollTitledCommits(env: TitledEnv, page: string, st: TitledPageState, id: int, text: string)
    requires RemoteOf(env.wiki, page) == Live(id, text) && id != st.latestRevisionId
    requires !AnyRaises(TitledPageNotices(env, page, st, text), env.raises)
    ensures var r := PollTitled(env, page, st);
      && r.state == TitledPageState(text, id, st.sectionNames) && !r.raised
      && r.notices == TitledPageNotices(env, page, st, text)
      && PollTitled(env, page, r.state) == TitledStep(r.state, [], false)
  {
    DeliverRaisesIffAny(TitledPageNotices(env, page, st, text), env.raises);
    DeliverStopsAtFirstRaise(TitledPageNotices(env, page, st, text), env.raises);
  }

}
