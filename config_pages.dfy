/**
 * Reading the subscription configuration (`set_page_dict`) in both
 * variants: the subscriber's name is taken from the title of their
 * configuration page, the older variant drops the last entry of the
 * configuration list, and the watched pages become a dictionary keyed by
 * page title, skipping pages that do not exist.
 *
 * Fetching the configuration page, parsing it as JSON and reading the
 * initial revision of each watched page are left to the caller.
 */
module ConfigPages {
  import opened Wrappers
  import opened Detection

  /** The configuration page suffix subscribe-tool.py looks for. */
  const NewerSuffix: string := "/subscription.js"

  /** The configuration page suffix Subscribe_tool.py looks for. */
  const OlderSuffix: string := "/subscription.json"

  /** The prefix both title patterns start with (matched case-sensitively). */
  const UserPrefix: string := "User:"

  /** A suffix of the title pattern: a literal starting with the '/' that ends the name. */
  predicate SuffixPattern(suffix: string) {
    |suffix| > 0 && suffix[0] == '/'
  }

  /** Where the run of characters other than '/' that starts at `i` ends. */
  function NameEnd(t: string, i: nat): (e: nat)
    requires i <= |t|
    ensures i <= e <= |t|
    ensures forall k :: i <= k < e ==> t[k] != '/'
    ensures e < |t| ==> t[e] == '/'
    decreases |t| - i
  {
    if i == |t| || t[i] == '/' then i else NameEnd(t, i + 1)
  }

  /** `str.replace(a, b)` for single characters: every `a` becomes `b`. */
  function ReplaceChar(s: string, a: char, b: char): (r: string)
    ensures |r| == |s|
    ensures forall k :: 0 <= k < |s| ==> r[k] == if s[k] == a then b else s[k]
  {
    if s == [] then [] else [if s[0] == a then b else s[0]] + ReplaceChar(s[1..], a, b)
  }

  /** Replacing `a` by `b` and then back is the identity on a string that had no `b`. */
  lemma ReplaceCharRoundTrip(s: string, a: char, b: char)
    requires b !in s
    ensures ReplaceChar(ReplaceChar(s, a, b), b, a) == s
  {
  }

  /** `t` has `p` at position `i`. */
  predicate HasAt(t: string, i: nat, p: string) {
    i + |p| <= |t| && t[i..i + |p|] == p
  }

  /**
   * `re.match` of `User:([^/]+)<suffix>` against a page title, then the
   * group with underscores turned into spaces. The match is anchored at the
   * start only: anything may follow the suffix.
   */
  function ConfigUser(title: string, suffix: string): Option<string>
    requires SuffixPattern(suffix)
  {
    if !HasAt(title, 0, UserPrefix) then None
    else
      var e := NameEnd(title, |UserPrefix|);
      if e == |UserPrefix| || !HasAt(title, e, suffix) then None
      else Some(ReplaceChar(title[|UserPrefix|..e], '_', ' '))
  }

  /** The title matches the pattern with the name group ending at `e`. */
  predicate MatchEndsAt(title: string, e: nat, suffix: string) {
    && HasAt(title, 0, UserPrefix)
    && |UserPrefix| < e <= |title|
    && (forall k :: |UserPrefix| <= k < e ==> title[k] != '/')
    && HasAt(title, e, suffix)
  }

  /**
   * A title yields a user exactly when the pattern matches it, and then the
   * user is the name group, which is the same for every way of matching.
   */
  lemma ConfigUserMatches(title: string, suffix: string)
    requires SuffixPattern(suffix)
    ensures ConfigUser(title, suffix).Some? <==> exists e :: MatchEndsAt(title, e, suffix)
    ensures forall e: nat :: MatchEndsAt(title, e, suffix) ==>
      ConfigUser(title, suffix) == Some(ReplaceChar(title[|UserPrefix|..e], '_', ' '))
  {
    forall e: nat | MatchEndsAt(title, e, suffix)
      ensures NameEnd(title, |UserPrefix|) == e
    {
      assert title[e..e + |suffix|][0] == suffix[0];
    }
    if ConfigUser(title, suffix).Some? {
      assert MatchEndsAt(title, NameEnd(title, |UserPrefix|), suffix);
    }
  }

  /**
   * The title of a user's configuration page gives back that user: the
   * name in the title has its spaces written as underscores, and anything
   * may follow the suffix.
   */
  lemma ConfigUserRoundTrip(user: string, suffix: string, rest: string)
    requires SuffixPattern(suffix)
    requires user != [] && '/' !in user && '_' !in user
    ensures ConfigUser(UserPrefix + ReplaceChar(user, ' ', '_') + suffix + rest, suffix) == Some(user)
  {
    var name := ReplaceChar(user, ' ', '_');
    var title := UserPrefix + name + suffix + rest;
    var e := |UserPrefix| + |name|;
    assert title[..|UserPrefix|] == UserPrefix;
    assert title[e..e + |suffix|] == suffix;
    assert title[|UserPrefix|..e] == name;
    forall k | |UserPrefix| <= k < e ensures title[k] != '/' {
      assert title[k] == name[k - |UserPrefix|];
      assert user[k - |UserPrefix|] != '/';
    }
    assert MatchEndsAt(title, e, suffix);
    ConfigUserMatches(title, suffix);
    ReplaceCharRoundTrip(user, ' ', '_');
  }

  /**
   * The newer pattern's suffix is a prefix of the older one's, and the match
   * is not anchored at the end: every configuration title of the older
   * variant is accepted by the newer one, for the same user.
   */
  lemma NewerAcceptsOlderTitles(title: string)
    ensures ConfigUser(title, OlderSuffix).Some? ==> ConfigUser(title, NewerSuffix) == ConfigUser(title, OlderSuffix)
  {
    if ConfigUser(title, OlderSuffix).Some? {
      var e := NameEnd(title, |UserPrefix|);
      assert title[e..e + |NewerSuffix|] == title[e..e + |OlderSuffix|][..|NewerSuffix|];
    }
  }

  /** The configuration title of the sample user "A B", in its older form. */
  const SampleConfigTitle: string := "User:A_B/subscription.json"

  lemma SampleConfigTitleSpelled()
    ensures SampleConfigTitle == UserPrefix + ReplaceChar("A B", ' ', '_') + OlderSuffix + ""
  {
    assert ReplaceChar("A B", ' ', '_') == "A_B";
  }

  /** A concrete title: both variants read "User:A_B/subscription.json" as the configuration of "A B". */
  lemma SampleConfigUser()
    ensures ConfigUser(SampleConfigTitle, OlderSuffix) == Some("A B")
    ensures ConfigUser(SampleConfigTitle, NewerSuffix) == Some("A B")
  {
    SampleConfigTitleSpelled();
    ConfigUserRoundTrip("A B", OlderSuffix, "");
    NewerAcceptsOlderTitles(SampleConfigTitle);
  }

  /** `config[:-1]`: the list without its last entry; an empty list stays empty. */
  function TrimConfig<T>(config: seq<T>): (r: seq<T>)
    ensures |r| == if config == [] then 0 else |config| - 1
    ensures r == config[..|r|]
  {
    if config == [] then [] else config[..|config| - 1]
  }

  /** Trimming drops exactly a trailing entry and keeps everything before it. */
  lemma TrimConfigDropsLast<T>(entries: seq<T>, last: T)
    ensures TrimConfig(entries + [last]) == entries
  {
    assert (entries + [last])[..|entries|] == entries;
  }

  /** The watched pages read from the configuration: their titles in dictionary order, and each one's subscribed sections. */
  datatype Loaded<S> = Loaded(order: seq<string>, sections: map<string, S>)

  /**
   * The dictionary comprehension over the configured (title, sections)
   * entries: a page that does not exist is skipped, and a title that comes
   * again keeps its place in the order but takes the later sections.
   */
  function LoadPages<S>(entries: seq<(string, S)>, pageExists: string -> bool): Loaded<S>
    decreases |entries|
  {
    if entries == [] then Loaded([], map[])
    else
      var prev := LoadPages(entries[..|entries| - 1], pageExists);
      var (title, sections) := entries[|entries| - 1];
      if !pageExists(title) then prev
      else Loaded(if title in prev.sections then prev.order else prev.order + [title], prev.sections[title := sections])
  }

  /** The loaded pages are a valid watchlist: every key once, in the order. */
  lemma {:induction false} LoadPagesDistinct<S>(entries: seq<(string, S)>, pageExists: string -> bool)
    ensures var l := LoadPages(entries, pageExists);
      Distinct(l.order) && forall n :: n in l.sections <==> n in l.order
    decreases |entries|
  {
    if entries != [] {
      LoadPagesDistinct(entries[..|entries| - 1], pageExists);
    }
  }

  /**
   * A title is loaded exactly when it is configured and exists, and it gets
   * the sections of its last configured entry.
   */
  lemma {:induction false} LoadPagesLastWins<S>(entries: seq<(string, S)>, pageExists: string -> bool, i: nat)
    requires i < |entries| && pageExists(entries[i].0)
    requires forall j :: i < j < |entries| ==> entries[j].0 != entries[i].0
    ensures entries[i].0 in LoadPages(entries, pageExists).sections
    ensures LoadPages(entries, pageExists).sections[entries[i].0] == entries[i].1
    decreases |entries|
  {
    var init := entries[..|entries| - 1];
    if i < |entries| - 1 {
      forall j | i < j < |init| ensures init[j].0 != init[i].0 {
        assert init[j] == entries[j];
      }
      LoadPagesLastWins(init, pageExists, i);
      assert init[i] == entries[i];
    }
  }

  /** A title that is not configured, or does not exist, is not loaded. */
  lemma {:induction false} LoadPagesOnlyExisting<S>(entries: seq<(string, S)>, pageExists: string -> bool, title: string)
    requires !pageExists(title) || forall j :: 0 <= j < |entries| ==> entries[j].0 != title
    ensures title !in LoadPages(entries, pageExists).sections
    decreases |entries|
  {
    if entries != [] {
      var init := entries[..|entries| - 1];
      forall j | 0 <= j < |init| ensures init[j] == entries[j] { }
      LoadPagesOnlyExisting(init, pageExists, title);
    }
  }

}
