/**
 * The talk-page signature recogniser: `signature_pattern`, `time_stamp_pattern`
 * and `rx1` (any signature), plus the own-signature variant `rx2`, written as
 * functions over the text. The whole pattern carries the `(?i)` flag, so every
 * ASCII letter in it is matched without regard to case, as Python's `re`
 * folds case.
 *
 * A match is found by the same three steps the regular expression takes:
 * a user-link prefix from a fixed alias list, then a lazily matched run of
 * characters other than a newline, then the nearest zh-wiki timestamp
 * `YYYY年M月D日 (W) HH:MM (UTC)`. `findall` scans left to right and keeps
 * the matches it finds without overlap.
 */
module Signatures {
  import opened Wrappers

  // ---------------------------------------------------------------------------
  // Characters
  // ---------------------------------------------------------------------------

  predicate IsDigit(c: char) { '0' <= c <= '9' }

  /** The day-of-week characters allowed between the parentheses of a timestamp. */
  predicate IsWeekday(c: char) { c in "一二三四五六日" }

  predicate IsAsciiLower(c: char) { 'a' <= c <= 'z' }

  predicate IsAsciiUpper(c: char) { 'A' <= c <= 'Z' }

  /**
   * Does text character `c` match pattern character `x` under `(?i)`?
   * Python compares the lower-case form of `c` with that of `x`, and adds
   * dotless i for `i` and long s for `s`; dotted capital I and the Kelvin
   * sign lower-case to `i` and `k`.
   */
  predicate FoldsTo(c: char, x: char) {
    var lx := if IsAsciiUpper(x) then x as int + 32 else x as int;
    if 'a' as int <= lx <= 'z' as int then
      c as int == lx || c as int == lx - 32
      || (lx == 'i' as int && (c == '\U{0130}' || c == '\U{0131}'))
      || (lx == 's' as int && c == '\U{017F}')
      || (lx == 'k' as int && c == '\U{212A}')
    else c == x
  }

  /** The characters Python's `\s` matches in a `str` pattern (`str.isspace`). */
  predicate IsSpace(c: char) {
    ('\t' <= c <= '\r') || ('\U{1C}' <= c <= ' ') || c == '\U{85}' || c == '\U{A0}'
    || c == '\U{1680}' || ('\U{2000}' <= c <= '\U{200A}') || c == '\U{2028}' || c == '\U{2029}'
    || c == '\U{202F}' || c == '\U{205F}' || c == '\U{3000}'
  }

  /** `w` occurs in `t` at position `i`, letters compared as `(?i)` does. */
  predicate MatchesFolded(t: string, i: nat, w: string) {
    i + |w| <= |t| && forall k :: 0 <= k < |w| ==> FoldsTo(t[i + k], w[k])
  }

  predicate DigitsAt(t: string, i: nat, n: nat) {
    i + n <= |t| && forall q :: i <= q < i + n ==> IsDigit(t[q])
  }

  /** No newline in `t[a..b]`: the characters `.` may consume. */
  predicate NoNewline(t: string, a: nat, b: nat) {
    a <= b <= |t| && forall q :: a <= q < b ==> t[q] != '\n'
  }

  // ---------------------------------------------------------------------------
  // time_stamp_pattern
  // ---------------------------------------------------------------------------

  /**
   * `\d{1,2}` followed by `sep`, as the regular expression tries it: two
   * digits first, then one. The result is the position just after `sep`.
   */
  function FieldAt(t: string, i: nat, sep: char): (r: Option<nat>)
    requires !IsDigit(sep)
    ensures r.Some? <==> exists n :: 1 <= n <= 2 && DigitsAt(t, i, n) && i + n < |t| && t[i + n] == sep
    ensures r.Some? ==> exists n :: 1 <= n <= 2 && r.value == i + n + 1 && DigitsAt(t, i, n) && t[i + n] == sep
  {
    if DigitsAt(t, i, 2) && i + 2 < |t| && t[i + 2] == sep then Some(i + 3)
    else if DigitsAt(t, i, 1) && i + 1 < |t| && t[i + 1] == sep then Some(i + 2)
    else None
  }

  /** The sixteen characters ` (W) HH:MM (UTC)` that end a timestamp, at `q`. */
  predicate ClockAt(t: string, q: nat) {
    && q + 16 <= |t|
    && t[q] == ' ' && t[q + 1] == '(' && IsWeekday(t[q + 2]) && t[q + 3] == ')' && t[q + 4] == ' '
    && DigitsAt(t, q + 5, 2) && t[q + 7] == ':' && DigitsAt(t, q + 8, 2)
    && MatchesFolded(t, q + 10, " (utc)")
  }

  /** The end of the timestamp that starts at `i`, if one does. */
  function TimestampAt(t: string, i: nat): (r: Option<nat>)
  {
    if !(DigitsAt(t, i, 4) && i + 4 < |t| && t[i + 4] == '年') then None
    else match FieldAt(t, i + 5, '月')
      case None => None
      case Some(j) =>
        match FieldAt(t, j, '日')
        case None => None
        case Some(q) => if ClockAt(t, q) then Some(q + 16) else None
  }

  /**
   * Reference definition: `s` is a timestamp with an `m`-digit month and a
   * `d`-digit day, laid out position by position.
   */
  predicate StampLayout(s: string, m: nat, d: nat) {
    && |s| == 23 + m + d
    && DigitsAt(s, 0, 4) && s[4] == '年'
    && DigitsAt(s, 5, m) && s[5 + m] == '月'
    && DigitsAt(s, 6 + m, d) && s[6 + m + d] == '日'
    && ClockAt(s, 7 + m + d)
  }

  ghost predicate IsTimestamp(s: string) {
    exists m, d :: 1 <= m <= 2 && 1 <= d <= 2 && StampLayout(s, m, d)
  }

  /** Shifting a window: `t[i..e]` read at `q` is `t` read at `i + q`. */
  lemma SliceDigits(t: string, i: nat, e: nat, q: nat, n: nat)
    requires i <= e <= |t| && q + n <= e - i
    ensures DigitsAt(t[i..e], q, n) <==> DigitsAt(t, i + q, n)
  {
    var s := t[i..e];
    if DigitsAt(t, i + q, n) {
      forall p | q <= p < q + n ensures IsDigit(s[p]) { assert s[p] == t[i + p]; }
    }
    if DigitsAt(s, q, n) {
      forall p | i + q <= p < i + q + n ensures IsDigit(t[p]) { assert t[p] == s[p - i]; }
    }
  }

  lemma SliceClock(t: string, i: nat, e: nat, q: nat)
    requires i <= e <= |t| && q + 16 <= e - i
    ensures ClockAt(t[i..e], q) <==> ClockAt(t, i + q)
  {
    var s := t[i..e];
    SliceDigits(t, i, e, q + 5, 2);
    SliceDigits(t, i, e, q + 8, 2);
    assert MatchesFolded(s, q + 10, " (utc)") <==> MatchesFolded(t, i + q + 10, " (utc)") by {
      forall k | q + 10 <= k < q + 16 ensures s[k] == t[i + k] { }
    }
  }

  /** `StampLayout` of the window `t[i..e]` read directly in `t`. */
  lemma SliceLayout(t: string, i: nat, e: nat, m: nat, d: nat)
    requires i <= e <= |t| && e - i == 23 + m + d
    ensures StampLayout(t[i..e], m, d) <==>
      (DigitsAt(t, i, 4) && t[i + 4] == '年' && DigitsAt(t, i + 5, m) && t[i + 5 + m] == '月'
       && DigitsAt(t, i + 6 + m, d) && t[i + 6 + m + d] == '日' && ClockAt(t, i + 7 + m + d))
  {
    SliceDigits(t, i, e, 0, 4);
    SliceDigits(t, i, e, 5, m);
    SliceDigits(t, i, e, 6 + m, d);
    SliceClock(t, i, e, 7 + m + d);
  }

  lemma TimestampAtIsLayoutIf(t: string, i: nat, e: nat)
    requires i <= e <= |t| && TimestampAt(t, i) == Some(e)
    ensures IsTimestamp(t[i..e])
  {
    var j := FieldAt(t, i + 5, '月').value;
    var q := FieldAt(t, j, '日').value;
    var m, d := j - i - 6, q - j - 1;
    SliceLayout(t, i, e, m, d);
    assert StampLayout(t[i..e], m, d);
  }

  lemma TimestampAtIsLayoutOnlyIf(t: string, i: nat, e: nat)
    requires i <= e <= |t| && IsTimestamp(t[i..e])
    ensures TimestampAt(t, i) == Some(e)
  {
    var m, d :| 1 <= m <= 2 && 1 <= d <= 2 && StampLayout(t[i..e], m, d);
    SliceLayout(t, i, e, m, d);
    assert FieldAt(t, i + 5, '月') == Some(i + 6 + m) by {
      if m == 1 { assert !IsDigit(t[i + 6]); }
    }
    assert FieldAt(t, i + 6 + m, '日') == Some(i + 7 + m + d) by {
      if d == 1 { assert !IsDigit(t[i + 7 + m]); }
    }
  }

  /**
   * The scanning validator agrees with the reference layout: a timestamp
   * starts at `i` and ends at `e` exactly when `t[i..e]` is laid out as one.
   * In particular no timestamp is a proper prefix of another.
   */
  lemma TimestampAtIsLayout(t: string, i: nat, e: nat)
    requires i <= e <= |t|
    ensures TimestampAt(t, i) == Some(e) <==> IsTimestamp(t[i..e])
  {
    if TimestampAt(t, i) == Some(e) { TimestampAtIsLayoutIf(t, i, e); }
    if IsTimestamp(t[i..e]) { TimestampAtIsLayoutOnlyIf(t, i, e); }
  }

  // ---------------------------------------------------------------------------
  // signature_pattern
  // ---------------------------------------------------------------------------

  /**
   * The user-link prefixes `signature_pattern` accepts, lower-cased, in the
   * order of its alternatives: a link into the User or User talk namespace
   * (English and Chinese aliases), or to Special:Contributions (English and
   * Chinese names of the page).
   */
  type LinkAlias = s: string | 2 <= |s| witness "[["

  const LinkAliases: seq<LinkAlias> :=
    UserAliases + LocalUserAliases + ContribAliases + UserContribAliases + OtherContribAliases

  /** `User(?:[ _]talk)?:` and `UT?:`. */
  const UserAliases: seq<LinkAlias> := ["[[user talk:", "[[user_talk:", "[[user:", "[[ut:", "[[u:"]

  /** `用[戶户]:` and `使用者:`. */
  const LocalUserAliases: seq<LinkAlias> := ["[[用戶:", "[[用户:", "[[使用者:"]

  /** `Special:Contrib(?:ution)?s/`. */
  const ContribAliases: seq<LinkAlias> := ["[[special:contributions/", "[[special:contribs/"]

  /** `Special:用[戶户][貢贡][獻献]/`. */
  const UserContribAliases: seq<LinkAlias> := [
    "[[special:用戶貢獻/", "[[special:用戶貢献/", "[[special:用戶贡獻/", "[[special:用戶贡献/",
    "[[special:用户貢獻/", "[[special:用户貢献/", "[[special:用户贡獻/", "[[special:用户贡献/"
  ]

  /** `Special:使用者[貢贡][獻献]/` and `Special:[貢贡][獻献]/`. */
  const OtherContribAliases: seq<LinkAlias> := [
    "[[special:使用者貢獻/", "[[special:使用者貢献/", "[[special:使用者贡獻/", "[[special:使用者贡献/",
    "[[special:貢獻/", "[[special:貢献/", "[[special:贡獻/", "[[special:贡献/"
  ]

  /** The first of `aliases`, from index `k` on, that occurs at `i`: the alternatives tried in order. */
  function AliasFrom(t: string, i: nat, aliases: seq<LinkAlias>, k: nat): (r: Option<nat>)
    requires k <= |aliases|
    decreases |aliases| - k
    ensures r.Some? ==> exists a :: k <= a < |aliases| && MatchesFolded(t, i, aliases[a]) && r.value == i + |aliases[a]|
    ensures r.None? ==> forall a :: k <= a < |aliases| ==> !MatchesFolded(t, i, aliases[a])
  {
    if k == |aliases| then None
    else if MatchesFolded(t, i, aliases[k]) then Some(i + |aliases[k]|)
    else AliasFrom(t, i, aliases, k + 1)
  }

  /** The end of the user-link prefix at `i`, if the text has one there. */
  function LinkPrefixAt(t: string, i: nat): (r: Option<nat>)
    ensures r.Some? ==> i < r.value <= |t|
    ensures r.Some? <==> exists a :: 0 <= a < |LinkAliases| && MatchesFolded(t, i, LinkAliases[a])
    ensures r.Some? ==> exists a :: 0 <= a < |LinkAliases| && MatchesFolded(t, i, LinkAliases[a]) && r.value == i + |LinkAliases[a]|
  {
    AliasFrom(t, i, LinkAliases, 0)
  }

  /**
   * A pattern character that only its own spelling folds onto: no ASCII
   * capital, and none of the non-ASCII letters `FoldsTo` maps to `i`, `s`
   * or `k`.
   */
  predicate Plain(x: char) {
    !IsAsciiUpper(x) && x != '\U{0130}' && x != '\U{0131}' && x != '\U{017F}' && x != '\U{212A}'
  }

  /** A text character folds onto at most one plain pattern character. */
  lemma FoldsOntoOnePlain(c: char, x: char, y: char)
    requires Plain(x) && Plain(y) && FoldsTo(c, x) && FoldsTo(c, y)
    ensures x == y
  {
  }

  lemma UserAliasesPlain()
    ensures forall u, c :: u in UserAliases && c in u ==> Plain(c)
  {
  }

  lemma LocalUserAliasesPlain()
    ensures forall u, c :: u in LocalUserAliases && c in u ==> Plain(c)
  {
  }

  lemma ContribAliasesPlain()
    ensures forall u, c :: u in ContribAliases && c in u ==> Plain(c)
  {
  }

  lemma UserContribAliasesPlain()
    ensures forall u, c :: u in UserContribAliases && c in u ==> Plain(c)
  {
  }

  lemma OtherContribAliasesPlain()
    ensures forall u, c :: u in OtherContribAliases && c in u ==> Plain(c)
  {
  }

  /** Every alias is spelled in plain characters: lower case, as `(?i)` compares them. */
  lemma AliasesPlain()
    ensures forall u, c :: u in LinkAliases && c in u ==> Plain(c)
  {
    UserAliasesPlain();
    LocalUserAliasesPlain();
    ContribAliasesPlain();
    UserContribAliasesPlain();
    OtherContribAliasesPlain();
  }

  /** The text at `i + k` folds onto `x`. */
  predicate FoldsAt(t: string, i: nat, k: nat, x: char) {
    i + k < |t| && FoldsTo(t[i + k], x)
  }

  /**
   * The length of the alias spelled at `i`, read off the few characters
   * that tell the alias lengths apart (the third, fourth, seventh, eleventh
   * and eighteenth). Only the proof of `AliasLengthDecided` uses it.
   */
  ghost function SpelledAliasLength(t: string, i: nat): nat {
    if FoldsAt(t, i, 2, 'u') then
      if FoldsAt(t, i, 3, ':') then 4
      else if FoldsAt(t, i, 3, 't') then 5
      else if FoldsAt(t, i, 6, ':') then 7
      else 12
    else if FoldsAt(t, i, 2, '用') then 5
    else if FoldsAt(t, i, 2, '使') then 6
    else if FoldsAt(t, i, 10, 'c') then (if FoldsAt(t, i, 17, 'u') then 24 else 19)
    else if FoldsAt(t, i, 10, '用') then 15
    else if FoldsAt(t, i, 10, '使') then 16
    else 13
  }

  lemma UserAliasLength(t: string, i: nat, u: string)
    requires u in UserAliases && MatchesFolded(t, i, u)
    ensures |u| == SpelledAliasLength(t, i)
  {
    assert FoldsTo(t[i + 2], u[2]) && FoldsTo(t[i + 3], u[3]);
    if 6 < |u| { assert FoldsTo(t[i + 6], u[6]); }
  }

  lemma LocalUserAliasLength(t: string, i: nat, u: string)
    requires u in LocalUserAliases && MatchesFolded(t, i, u)
    ensures |u| == SpelledAliasLength(t, i)
  {
    assert FoldsTo(t[i + 2], u[2]);
  }

  lemma ContribAliasLength(t: string, i: nat, u: string)
    requires u in ContribAliases && MatchesFolded(t, i, u)
    ensures |u| == SpelledAliasLength(t, i)
  {
    assert FoldsTo(t[i + 2], u[2]) && FoldsTo(t[i + 10], u[10]) && FoldsTo(t[i + 17], u[17]);
  }

  lemma UserContribAliasLength(t: string, i: nat, u: string)
    requires u in UserContribAliases && MatchesFolded(t, i, u)
    ensures |u| == SpelledAliasLength(t, i)
  {
    assert FoldsTo(t[i + 2], u[2]) && FoldsTo(t[i + 10], u[10]);
  }

  lemma OtherContribAliasLength(t: string, i: nat, u: string)
    requires u in OtherContribAliases && MatchesFolded(t, i, u)
    ensures |u| == SpelledAliasLength(t, i)
  {
    assert FoldsTo(t[i + 2], u[2]) && FoldsTo(t[i + 10], u[10]);
  }

  /** The length of an alias that occurs at `i` is fixed by the text there. */
  lemma AliasLengthDecided(t: string, i: nat, u: string)
    requires u in LinkAliases && MatchesFolded(t, i, u)
    ensures |u| == SpelledAliasLength(t, i)
  {
    if u in UserAliases {
      UserAliasLength(t, i, u);
    } else if u in LocalUserAliases {
      LocalUserAliasLength(t, i, u);
    } else if u in ContribAliases {
      ContribAliasLength(t, i, u);
    } else if u in UserContribAliases {
      UserContribAliasLength(t, i, u);
    } else {
      OtherContribAliasLength(t, i, u);
    }
  }

  /** Two aliases that occur at the same position are the same spelling. */
  lemma SameAliasSpelling(t: string, i: nat, a: nat, b: nat)
    requires a < |LinkAliases| && MatchesFolded(t, i, LinkAliases[a])
    requires b < |LinkAliases| && MatchesFolded(t, i, LinkAliases[b])
    ensures LinkAliases[a] == LinkAliases[b]
  {
    var u, v := LinkAliases[a], LinkAliases[b];
    AliasLengthDecided(t, i, u);
    AliasLengthDecided(t, i, v);
    AliasesPlain();
    forall k | 0 <= k < |u| ensures u[k] == v[k] {
      assert u[k] in u && v[k] in v;
      FoldsOntoOnePlain(t[i + k], u[k], v[k]);
    }
  }

  /**
   * No alias is a prefix of another: at most one alias spelling occurs at any
   * position, so `signature_pattern` can match the link prefix at `i` in one
   * way only, and backtracking into a later alternative never yields a
   * different prefix. `LinkPrefixAt` ends after that spelling.
   */
  lemma OneAliasAt(t: string, i: nat, a: nat, b: nat)
    requires a < |LinkAliases| && MatchesFolded(t, i, LinkAliases[a])
    requires b < |LinkAliases| && MatchesFolded(t, i, LinkAliases[b])
    ensures LinkAliases[a] == LinkAliases[b]
    ensures LinkPrefixAt(t, i) == Some(i + |LinkAliases[a]|)
  {
    SameAliasSpelling(t, i, a, b);
    forall c: nat | c < |LinkAliases| && MatchesFolded(t, i, LinkAliases[c])
      ensures |LinkAliases[c]| == |LinkAliases[a]|
    {
      SameAliasSpelling(t, i, a, c);
    }
    AliasFromEnds(t, i, LinkAliases, 0, a);
  }

  /** When every alias that occurs at `i` has the same length, the search ends after it. */
  lemma {:induction false} AliasFromEnds(t: string, i: nat, aliases: seq<LinkAlias>, k: nat, a: nat)
    requires k <= a < |aliases| && MatchesFolded(t, i, aliases[a])
    requires forall c :: 0 <= c < |aliases| && MatchesFolded(t, i, aliases[c]) ==> |aliases[c]| == |aliases[a]|
    ensures AliasFrom(t, i, aliases, k) == Some(i + |aliases[a]|)
    decreases |aliases| - k
  {
    if !MatchesFolded(t, i, aliases[k]) {
      AliasFromEnds(t, i, aliases, k + 1, a);
    }
  }

  // ---------------------------------------------------------------------------
  // rx1 and rx2: one match
  // ---------------------------------------------------------------------------

  datatype Span = Span(start: nat, end: nat)

  /**
   * `.*?` followed by a timestamp, tried from `k`: the nearest timestamp
   * that starts at or after `k` with no newline before it.
   */
  function NearestStamp(t: string, k: nat): (r: Option<Span>)
    requires k <= |t|
    decreases |t| - k
    ensures r.Some? ==> && NoNewline(t, k, r.value.start)
                        && TimestampAt(t, r.value.start) == Some(r.value.end)
                        && forall q :: k <= q < r.value.start ==> TimestampAt(t, q).None?
    ensures r.None? ==> forall q :: NoNewline(t, k, q) ==> TimestampAt(t, q).None?
  {
    match TimestampAt(t, k)
    case Some(e) => Some(Span(k, e))
    case None => if k < |t| && t[k] != '\n' then NearestStamp(t, k + 1) else None
  }

  /** The end of the `rx1` match that starts at `i`, if any. */
  function SignatureAt(t: string, i: nat): (r: Option<nat>)
    ensures r.Some? ==> i < r.value <= |t|
  {
    match LinkPrefixAt(t, i)
    case None => None
    case Some(p) =>
      match NearestStamp(t, p)
      case None => None
      case Some(s) => TimestampEnds(t, s); Some(s.end)
  }

  lemma TimestampEnds(t: string, s: Span)
    requires TimestampAt(t, s.start) == Some(s.end)
    ensures s.start < s.end <= |t|
  {
  }

  /**
   * One element of the user name spliced into `rx2`: a character matched as
   * `(?i)` does, or the class `[ _]`.
   */
  datatype NameAtom = Char(c: char) | SpaceOrUnderscore

  predicate AtomMatches(a: NameAtom, c: char) {
    match a
    case Char(x) => FoldsTo(c, x)
    case SpaceOrUnderscore => c == ' ' || c == '_'
  }

  predicate NameAt(t: string, j: nat, name: seq<NameAtom>) {
    j + |name| <= |t| && forall k :: 0 <= k < |name| ==> AtomMatches(name[k], t[j + k])
  }

  /** The length of the run of `\s` characters that starts at `j`. */
  function SpaceRun(t: string, j: nat): (n: nat)
    requires j <= |t|
    decreases |t| - j
    ensures j + n <= |t| && forall q :: j <= q < j + n ==> IsSpace(t[q])
    ensures j + n == |t| || !IsSpace(t[j + n])
  {
    if j < |t| && IsSpace(t[j]) then 1 + SpaceRun(t, j + 1) else 0
  }

  /**
   * The rest of `rx2` after `\s*`, tried from `j`: the name, then `.*?` and
   * a timestamp on the same line; the end of that timestamp.
   */
  function NameRest(t: string, j: nat, name: seq<NameAtom>): (r: Option<nat>)
    ensures r.Some? ==> NameAt(t, j, name) && j < r.value <= |t|
  {
    if NameAt(t, j, name) then
      match NearestStamp(t, j + |name|)
      case Some(s) => TimestampEnds(t, s); Some(s.end)
      case None => None
    else None
  }

  /** The rest of `rx2` after `\s*` as a matcher: from each position, where it ends. */
  function RestOf(t: string, name: seq<NameAtom>): nat -> Option<nat> {
    (j: nat) => NameRest(t, j, name)
  }

  /** A greedy quantifier over `w` characters after `p`, giving one back each time `rest` fails. */
  function Backtrack(rest: nat -> Option<nat>, p: nat, w: nat): (r: Option<nat>)
    decreases w
    ensures r.Some? ==> exists j :: p <= j <= p + w && r == rest(j)
  {
    if rest(p + w).Some? then rest(p + w)
    else if w == 0 then None
    else Backtrack(rest, p, w - 1)
  }

  /**
   * Backtracking succeeds exactly when `rest` succeeds after some `j` of the
   * `w` characters, and then it gives what `rest` gives at the largest such `j`.
   */
  lemma {:induction false} BacktrackExact(rest: nat -> Option<nat>, p: nat, w: nat)
    ensures Backtrack(rest, p, w).Some? <==> exists j :: p <= j <= p + w && rest(j).Some?
    ensures forall j :: p <= j <= p + w && rest(j).Some? && (forall j' :: j < j' <= p + w ==> rest(j').None?)
                        ==> Backtrack(rest, p, w) == rest(j)
    decreases w
  {
    if rest(p + w).None? && w > 0 {
      BacktrackExact(rest, p, w - 1);
    }
  }

  /**
   * `\s*` then the rest of `rx2`, after the link prefix that ends at `p`:
   * `\s*` first takes `w` spaces and gives one back each time the rest fails.
   */
  function OwnAfterPrefix(t: string, p: nat, name: seq<NameAtom>, w: nat): (r: Option<nat>)
    ensures r.Some? ==> p < r.value <= |t|
  {
    Backtrack(RestOf(t, name), p, w)
  }

  /** The end of the `rx2` match for user-name pattern `name` that starts at `i`. */
  function OwnSignatureAt(t: string, i: nat, name: seq<NameAtom>): (r: Option<nat>)
    ensures r.Some? ==> i < r.value <= |t|
  {
    match LinkPrefixAt(t, i)
    case None => None
    case Some(p) => OwnAfterPrefix(t, p, name, SpaceRun(t, p))
  }

  /** The positions where `\s*` can stop after `p` are those up to the end of the run of spaces there. */
  lemma SpaceRunStops(t: string, p: nat, j: nat)
    requires p <= |t|
    ensures (p <= j <= |t| && forall q :: p <= q < j ==> IsSpace(t[q])) <==> p <= j <= p + SpaceRun(t, p)
  {
    var w := SpaceRun(t, p);
    if p + w < j <= |t| {
      assert !IsSpace(t[p + w]);
    }
  }

  /**
   * `rx2` matches at `i`, whose link prefix ends at `p`, exactly when after
   * some `j` of the spaces that follow the prefix come the name and a
   * same-line timestamp (`RestOf(t, name)(j)`, which is `NameRest(t, j, name)`).
   * The match ends where the rest of `rx2` ends from the largest such `j`,
   * which is where backtracking `\s*` stops first.
   */
  lemma OwnSignatureAtExact(t: string, i: nat, name: seq<NameAtom>, p: nat)
    requires LinkPrefixAt(t, i) == Some(p)
    ensures OwnSignatureAt(t, i, name).Some? <==>
              exists j :: p <= j <= p + SpaceRun(t, p) && RestOf(t, name)(j).Some?
    ensures forall j :: p <= j <= p + SpaceRun(t, p) && RestOf(t, name)(j).Some?
                        && (forall j' :: j < j' <= p + SpaceRun(t, p) ==> RestOf(t, name)(j').None?)
                        ==> OwnSignatureAt(t, i, name) == RestOf(t, name)(j)
  {
    BacktrackExact(RestOf(t, name), p, SpaceRun(t, p));
  }

  // ---------------------------------------------------------------------------
  // findall
  // ---------------------------------------------------------------------------

  predicate Covered(r: seq<Span>, q: nat) {
    exists k :: 0 <= k < |r| && r[k].start <= q < r[k].end
  }

  /** `m` finds, at each position of a text of length `n`, the end of the match that starts there. */
  ghost predicate Forward(m: nat -> Option<nat>, n: nat) {
    forall q: nat :: m(q).Some? ==> q < m(q).value <= n
  }

  /**
   * The spans `findall` reports from `pos` on, for the compiled pattern whose
   * match at each position `m` gives. Each is a match at its start, they
   * come in order without overlap, and no position outside them starts a
   * match: together these fix the result.
   */
  function ScanFrom(m: nat -> Option<nat>, n: nat, pos: nat): (r: seq<Span>)
    requires pos <= n && Forward(m, n)
    decreases n - pos
    ensures forall k :: 0 <= k < |r| ==> pos <= r[k].start && m(r[k].start) == Some(r[k].end)
    ensures forall k :: 0 <= k < |r| - 1 ==> r[k].end <= r[k + 1].start
    ensures forall q: nat :: pos <= q < n && !Covered(r, q) ==> m(q).None?
  {
    if pos == n then []
    else if m(pos).None? then ScanFrom(m, n, pos + 1)
    else
      var rest := ScanFrom(m, n, m(pos).value);
      CoveredAfterFirst(Span(pos, m(pos).value), rest);
      [Span(pos, m(pos).value)] + rest
  }

  /** A position inside the first span, or covered by the rest, is covered by the whole. */
  lemma CoveredAfterFirst(first: Span, rest: seq<Span>)
    ensures forall q :: first.start <= q < first.end ==> Covered([first] + rest, q)
    ensures forall q :: Covered(rest, q) ==> Covered([first] + rest, q)
  {
    var r := [first] + rest;
    forall q: nat | first.start <= q < first.end ensures Covered(r, q) { assert r[0] == first; }
    forall q: nat | Covered(rest, q) ensures Covered(r, q) {
      var k :| 0 <= k < |rest| && rest[k].start <= q < rest[k].end;
      assert r[k + 1] == rest[k];
    }
  }

  /** The matched texts of `spans`, in order. */
  function Texts(t: string, spans: seq<Span>): (r: seq<string>)
    requires forall k :: 0 <= k < |spans| ==> spans[k].start <= spans[k].end <= |t|
    ensures |r| == |spans|
    ensures forall k :: 0 <= k < |r| ==> r[k] == t[spans[k].start..spans[k].end]
  {
    if spans == [] then [] else [t[spans[0].start..spans[0].end]] + Texts(t, spans[1..])
  }

  /** `rx1` as a matcher over `t`. */
  function SignatureMatcher(t: string): (m: nat -> Option<nat>)
    ensures Forward(m, |t|) && forall q: nat :: m(q) == SignatureAt(t, q)
  {
    (q: nat) => SignatureAt(t, q)
  }

  /** `rx2` for the user-name pattern `name` as a matcher over `t`. */
  function OwnMatcher(t: string, name: seq<NameAtom>): (m: nat -> Option<nat>)
    ensures Forward(m, |t|) && forall q: nat :: m(q) == OwnSignatureAt(t, q, name)
  {
    (q: nat) => OwnSignatureAt(t, q, name)
  }

  /** `rx1.findall(t)`: the spans of every signature in `t`, in order. */
  function SignatureSpans(t: string): (r: seq<Span>)
    ensures forall k :: 0 <= k < |r| ==> SignatureAt(t, r[k].start) == Some(r[k].end) && r[k].end <= |t|
    ensures forall k :: 0 <= k < |r| - 1 ==> r[k].end <= r[k + 1].start
    ensures forall q: nat :: q < |t| && !Covered(r, q) ==> SignatureAt(t, q).None?
  {
    ScanFrom(SignatureMatcher(t), |t|, 0)
  }

  /** `rx2.findall(t)` for the user-name pattern `name`: the spans of the user's own signatures. */
  function OwnSpans(t: string, name: seq<NameAtom>): (r: seq<Span>)
    ensures forall k :: 0 <= k < |r| ==> OwnSignatureAt(t, r[k].start, name) == Some(r[k].end) && r[k].end <= |t|
    ensures forall k :: 0 <= k < |r| - 1 ==> r[k].end <= r[k + 1].start
    ensures forall q: nat :: q < |t| && !Covered(r, q) ==> OwnSignatureAt(t, q, name).None?
  {
    ScanFrom(OwnMatcher(t, name), |t|, 0)
  }

  /** The signatures `rx1.findall` returns: the matched texts, in order. */
  function FindAll(t: string): seq<string> {
    Texts(t, SignatureSpans(t))
  }

  /** The own signatures `rx2.findall` returns for the user-name pattern `name`. */
  function FindOwn(t: string, name: seq<NameAtom>): seq<string> {
    Texts(t, OwnSpans(t, name))
  }

  /** A matcher whose match at 0 spans the whole text: the scan reports that one span. */
  lemma SoleScan(m: nat -> Option<nat>, n: nat)
    requires Forward(m, n) && m(0) == Some(n)
    ensures ScanFrom(m, n, 0) == [Span(0, n)]
  {
    assert ScanFrom(m, n, n) == [];
  }

  /** A text that is exactly one signature: `rx1.findall` returns the whole text. */
  lemma WholeTextSignature(t: string)
    requires SignatureAt(t, 0) == Some(|t|)
    ensures FindAll(t) == [t]
  {
    SoleScan(SignatureMatcher(t), |t|);
    assert SignatureSpans(t) == [Span(0, |t|)];
    assert t[0..|t|] == t;
  }

  /** A text that is exactly one own signature: `rx2.findall` returns the whole text. */
  lemma WholeTextOwnSignature(t: string, name: seq<NameAtom>)
    requires OwnSignatureAt(t, 0, name) == Some(|t|)
    ensures FindOwn(t, name) == [t]
  {
    SoleScan(OwnMatcher(t, name), |t|);
    assert OwnSpans(t, name) == [Span(0, |t|)];
    assert t[0..|t|] == t;
  }

}
