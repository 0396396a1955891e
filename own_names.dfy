/**
 * The user-name part of `rx2`, the own-signature recogniser. Each variant
 * splices the subscriber's name into the pattern after `\s*`:
 *
 *  - subscribe-tool.py:52 writes `re.escape(user).replace(' ', '[ _]')`.
 *    `re.escape` has already turned every space into `\ `, so the
 *    replacement produces `\[ _]`: an escaped `[` followed by the literal
 *    characters ` _]`. A name with a space therefore only matches the
 *    text "[ _]" where the space was (`EscapedName`).
 *  - Subscribe_tool.py:51 writes `user.replace(' ', '[ _]')` without
 *    escaping, so each space becomes the class `[ _]` (`SpacedName`), which
 *    is what both variants evidently intend.
 */
module OwnNames {
  import opened Wrappers
  import opened Signatures

  /** The atoms one character of the name becomes after `re.escape` and the replacement. */
  function EscapedChar(c: char): seq<NameAtom> {
    if c == ' ' then [Char('['), Char(' '), Char('_'), Char(']')] else [Char(c)]
  }

  /** The name pattern subscribe-tool.py:52 builds, as written. */
  function EscapedName(user: string): seq<NameAtom>
  {
    if user == [] then [] else EscapedChar(user[0]) + EscapedName(user[1..])
  }

  /** The name pattern with each space turned into the class `[ _]`. */
  function SpacedName(user: string): (r: seq<NameAtom>)
    ensures |r| == |user|
    ensures forall k :: 0 <= k < |user| ==> (r[k] == SpaceOrUnderscore <==> user[k] == ' ')
  {
    if user == [] then []
    else [if user[0] == ' ' then SpaceOrUnderscore else Char(user[0])] + SpacedName(user[1..])
  }

  /** The text at `j` spells `user`, each space written as a space or an underscore, letters in either case. */
  predicate SpellsUser(t: string, j: nat, user: string) {
    && j + |user| <= |t|
    && forall k :: 0 <= k < |user| ==>
         if user[k] == ' ' then t[j + k] == ' ' || t[j + k] == '_' else FoldsTo(t[j + k], user[k])
  }

  /**
   * The corrected name pattern recognises exactly the spellings of the
   * name in which each space may be written as a space or an underscore,
   * as MediaWiki treats the two alike in user names.
   */
  lemma {:induction false} SpacedNameSpellsUser(t: string, j: nat, user: string)
    ensures NameAt(t, j, SpacedName(user)) <==> SpellsUser(t, j, user)
  {
    var name := SpacedName(user);
    if NameAt(t, j, name) {
      forall k | 0 <= k < |user|
        ensures if user[k] == ' ' then t[j + k] == ' ' || t[j + k] == '_' else FoldsTo(t[j + k], user[k])
      {
        assert AtomMatches(name[k], t[j + k]);
        if user[k] != ' ' { SpacedNameAt(user, k); }
      }
    }
    if SpellsUser(t, j, user) {
      forall k | 0 <= k < |name| ensures AtomMatches(name[k], t[j + k]) {
        if user[k] != ' ' { SpacedNameAt(user, k); }
      }
    }
  }

  lemma {:induction false} SpacedNameAt(user: string, k: nat)
    requires k < |user| && user[k] != ' '
    ensures SpacedName(user)[k] == Char(user[k])
  {
    if k > 0 { SpacedNameAt(user[1..], k - 1); }
  }

  /** The four characters "[ _]" at `q`. */
  predicate LiteralClassAt(t: string, q: nat) {
    q + 4 <= |t| && t[q] == '[' && t[q + 1] == ' ' && t[q + 2] == '_' && t[q + 3] == ']'
  }

  /**
   * As written, a name with a space only matches where the text holds the
   * four characters "[ _]": the pattern never matches the name as a wiki
   * user would sign it.
   */
  lemma {:induction false} EscapedNameNeedsLiteralClass(t: string, j: nat, user: string)
    requires ' ' in user
    requires NameAt(t, j, EscapedName(user))
    ensures exists q :: j <= q && LiteralClassAt(t, q)
    decreases |user|
  {
    var head := EscapedChar(user[0]);
    assert EscapedName(user) == head + EscapedName(user[1..]);
    if user[0] == ' ' {
      assert head == [Char('['), Char(' '), Char('_'), Char(']')];
      assert AtomMatches(EscapedName(user)[0], t[j]) && EscapedName(user)[0] == Char('[');
      assert AtomMatches(EscapedName(user)[1], t[j + 1]) && EscapedName(user)[1] == Char(' ');
      assert AtomMatches(EscapedName(user)[2], t[j + 2]) && EscapedName(user)[2] == Char('_');
      assert AtomMatches(EscapedName(user)[3], t[j + 3]) && EscapedName(user)[3] == Char(']');
      assert LiteralClassAt(t, j);
    } else {
      assert user == [user[0]] + user[1..];
      assert ' ' in user[1..];
      forall k | 0 <= k < |EscapedName(user[1..])|
        ensures AtomMatches(EscapedName(user[1..])[k], t[j + 1 + k])
      {
        assert EscapedName(user)[k + 1] == EscapedName(user[1..])[k];
      }
      EscapedNameNeedsLiteralClass(t, j + 1, user[1..]);
    }
  }

  /** A `rx2` match always contains the name pattern right after its prefix and spaces. */
  lemma OwnMatchHasName(t: string, p: nat, name: seq<NameAtom>, w: nat)
    requires OwnAfterPrefix(t, p, name, w).Some?
    ensures exists j :: p <= j <= p + w && NameAt(t, j, name)
  {
    BacktrackExact(RestOf(t, name), p, w);
    var j :| p <= j <= p + w && RestOf(t, name)(j).Some?;
    assert NameRest(t, j, name).Some?;
  }

  /**
   * With the escaped pattern, a subscriber whose name has a space has no
   * own signatures in any text without an underscore: `rx2.findall` is empty.
   */
  lemma EscapedNameFindsNothing(t: string, user: string)
    requires ' ' in user && '_' !in t
    ensures FindOwn(t, EscapedName(user)) == []
  {
    var name := EscapedName(user);
    var spans := OwnSpans(t, name);
    if spans != [] {
      var i := spans[0].start;
      assert OwnSignatureAt(t, i, name).Some?;
      var p := LinkPrefixAt(t, i).value;
      OwnMatchHasName(t, p, name, SpaceRun(t, p));
      var j :| p <= j && NameAt(t, j, name);
      EscapedNameNeedsLiteralClass(t, j, user);
      assert false;
    }
  }

  /** A signature of user "A B", signed with a space as wiki users do. */
  const SampleSignature: string := "[[User:A B]] 2024年1月1日 (一) 10:00 (UTC)"

  lemma SampleLinkPrefix()
    ensures LinkPrefixAt(SampleSignature, 0) == Some(7)
  {
    var t := SampleSignature;
    assert !FoldsTo(t[6], LinkAliases[0][6]);
    assert !FoldsTo(t[6], LinkAliases[1][6]);
    assert MatchesFolded(t, 0, LinkAliases[2]);
    assert AliasFrom(t, 0, LinkAliases, 2) == Some(7);
    assert AliasFrom(t, 0, LinkAliases, 1) == Some(7);
  }

  lemma SampleDate()
    ensures |SampleSignature| == 38
    ensures DigitsAt(SampleSignature, 13, 4) && SampleSignature[17] == '年'
    ensures FieldAt(SampleSignature, 18, '月') == Some(20)
    ensures FieldAt(SampleSignature, 20, '日') == Some(22)
  {
    var t := SampleSignature;
    assert !IsDigit(t[19]);
    assert !IsDigit(t[21]);
  }

  lemma SampleUtc()
    ensures MatchesFolded(SampleSignature, 32, " (utc)")
  {
    var t := SampleSignature;
    assert FoldsTo(t[34], 'u') && FoldsTo(t[35], 't') && FoldsTo(t[36], 'c');
  }

  lemma SampleWeekday()
    ensures SampleSignature[22] == ' ' && SampleSignature[23] == '(' && IsWeekday(SampleSignature[24])
    ensures SampleSignature[25] == ')' && SampleSignature[26] == ' '
  {
  }

  lemma SampleTime()
    ensures DigitsAt(SampleSignature, 27, 2) && SampleSignature[29] == ':' && DigitsAt(SampleSignature, 30, 2)
  {
  }

  lemma SampleClock()
    ensures ClockAt(SampleSignature, 22)
  {
    SampleWeekday();
    SampleTime();
    SampleUtc();
  }

  /** The timestamp of the sample starts at 13 and ends the text. */
  lemma SampleTimestamp()
    ensures TimestampAt(SampleSignature, 13) == Some(|SampleSignature|)
  {
    SampleDate();
    SampleClock();
  }

  /** Searching from `k` in the gap after the link, the nearest timestamp is the one at 13. */
  lemma {:induction false} SampleStamp(k: nat)
    requires 7 <= k <= 13
    ensures NearestStamp(SampleSignature, k) == Some(Span(13, |SampleSignature|))
    decreases 13 - k
  {
    var t := SampleSignature;
    if k == 13 {
      SampleTimestamp();
    } else {
      assert !IsDigit(t[k]);
      assert TimestampAt(t, k).None?;
      assert t[k] != '\n';
      SampleStamp(k + 1);
    }
  }

  /** `rx1` finds the sample signature. */
  lemma SampleIsSignature()
    ensures FindAll(SampleSignature) == [SampleSignature]
  {
    var t := SampleSignature;
    SampleLinkPrefix();
    SampleStamp(7);
    assert SignatureAt(t, 0) == Some(|t|);
    WholeTextSignature(t);
  }

  /** As written, `rx2` does not recognise the sample as the signature of "A B". */
  lemma SampleMissedAsWritten()
    ensures FindOwn(SampleSignature, EscapedName("A B")) == []
  {
    assert forall k :: 0 <= k < |SampleSignature| ==> SampleSignature[k] != '_';
    EscapedNameFindsNothing(SampleSignature, "A B");
  }

  lemma SampleSpelledName()
    ensures SpaceRun(SampleSignature, 7) == 0
    ensures NameAt(SampleSignature, 7, SpacedName("A B"))
  {
    var t := SampleSignature;
    assert !IsSpace(t[7]);
    assert SpacedName("A B") == [Char('A'), SpaceOrUnderscore, Char('B')] by {
      assert "A B"[1..] == " B" && " B"[1..] == "B" && "B"[1..] == [];
    }
    SpacedNameSpellsUser(t, 7, "A B");
  }

  /** With the corrected pattern, `rx2` recognises it. */
  lemma SampleFoundCorrected()
    ensures FindOwn(SampleSignature, SpacedName("A B")) == [SampleSignature]
  {
    var t := SampleSignature;
    var name := SpacedName("A B");
    SampleLinkPrefix();
    SampleSpelledName();
    SampleStamp(10);
    assert OwnAfterPrefix(t, 7, name, 0) == Some(|t|);
    WholeTextOwnSignature(t, name);
  }

}
