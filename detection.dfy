/**
 * The notification decision both variants make for one examined section of
 * the new text: the signatures of the old baseline and the subscriber's own
 * signatures in the new text are ignored, the signatures of the new text are
 * walked in extraction order, and the first one not ignored triggers a single
 * notice before the walk stops.
 */
module Detection {

  /** A talkback notice to `user` about a new reply in `section` of `page`. */
  datatype Notice = Notice(user: string, page: string, section: string)

  /**
   * What the wiki answers for a watched page at poll time: the page no
   * longer exists; it has a current revision id but fetching its text
   * raises; or it is live with a revision id and text.
   */
  datatype Remote = Missing | Unreadable(revisionId: int) | Live(revisionId: int, text: string)

  /** The wiki's answer for `page`; a page the wiki does not list is missing. */
  function RemoteOf(wiki: map<string, Remote>, page: string): Remote {
    if page in wiki then wiki[page] else Missing
  }

  /** No page is listed twice. */
  predicate Distinct(names: seq<string>) {
    forall i, j :: 0 <= i < j < |names| ==> names[i] != names[j]
  }

  /**
   * The notices a poll tries to send, in order, and whether the last try
   * raised. When it raised, that last notice is in `sent` although `save`
   * raised before or instead of posting it.
   */
  datatype Delivery = Delivery(sent: seq<Notice>, raised: bool)

  /**
   * Sending `notices` in order through `send_message`, where sending `n`
   * raises exactly when `raises(n)`: nothing after a send that raises is
   * sent.
   */
  function Deliver(notices: seq<Notice>, raises: Notice -> bool): (d: Delivery)
    ensures |d.sent| <= |notices| && d.sent == notices[..|d.sent|]
    ensures d.raised ==> 0 < |d.sent| && raises(d.sent[|d.sent| - 1])
  {
    if notices == [] then Delivery([], false)
    else if raises(notices[0]) then Delivery([notices[0]], true)
    else
      var rest := Deliver(notices[1..], raises);
      Delivery([notices[0]] + rest.sent, rest.raised)
  }

  /**
   * The sends stop at the first notice whose send raises: every notice
   * before it is sent without raising, and when none raises all are sent.
   */
  lemma {:induction false} DeliverStopsAtFirstRaise(notices: seq<Notice>, raises: Notice -> bool)
    ensures var d := Deliver(notices, raises);
      && (d.raised <==> exists k :: 0 <= k < |notices| && raises(notices[k]))
      && (d.raised ==> 0 < |d.sent| && raises(d.sent[|d.sent| - 1]))
      && (forall k :: 0 <= k < |d.sent| - 1 ==> !raises(d.sent[k]))
      && (!d.raised ==> d.sent == notices)
  {
    if notices != [] && !raises(notices[0]) {
      var rest := notices[1..];
      DeliverStopsAtFirstRaise(rest, raises);
      if exists k :: 0 <= k < |rest| && raises(rest[k]) {
        var k :| 0 <= k < |rest| && raises(rest[k]);
        assert notices[k + 1] == rest[k];
      }
      if exists k :: 0 <= k < |notices| && raises(notices[k]) {
        var k :| 0 <= k < |notices| && raises(notices[k]);
        assert rest[k - 1] == notices[k];
      }
      var d := Deliver(notices, raises);
      forall k | 0 <= k < |d.sent| - 1 ensures !raises(d.sent[k]) {
        if k > 0 { assert d.sent[k] == Deliver(rest, raises).sent[k - 1]; }
      }
      if !d.raised { assert notices == [notices[0]] + rest; }
    }
  }

  /** Some notice of `notices` raises when sent. */
  predicate AnyRaises(notices: seq<Notice>, raises: Notice -> bool) {
    exists n :: n in notices && raises(n)
  }

  /** Sending raises exactly when some notice raises; otherwise every notice is sent. */
  lemma DeliverRaisesIffAny(notices: seq<Notice>, raises: Notice -> bool)
    ensures Deliver(notices, raises).raised <==> AnyRaises(notices, raises)
    ensures !Deliver(notices, raises).raised ==> Deliver(notices, raises).sent == notices
  {
    DeliverStopsAtFirstRaise(notices, raises);
    if AnyRaises(notices, raises) {
      var n :| n in notices && raises(n);
      var k :| 0 <= k < |notices| && notices[k] == n;
    }
  }

  /** Sending two batches in turn: the second is sent only if no send of the first raised. */
  lemma {:induction false} DeliverAppend(a: seq<Notice>, b: seq<Notice>, raises: Notice -> bool)
    ensures Deliver(a + b, raises)
         == if Deliver(a, raises).raised then Deliver(a, raises)
            else Delivery(a + Deliver(b, raises).sent, Deliver(b, raises).raised)
  {
    if a == [] {
      assert a + b == b;
    } else {
      assert (a + b)[0] == a[0] && (a + b)[1..] == a[1..] + b;
      if !raises(a[0]) {
        var tail := Deliver(a[1..], raises);
        var whole := Deliver(a[1..] + b, raises);
        assert Deliver(a + b, raises) == Delivery([a[0]] + whole.sent, whole.raised);
        assert Deliver(a, raises) == Delivery([a[0]] + tail.sent, tail.raised);
        DeliverAppend(a[1..], b, raises);
        if !tail.raised {
          DeliverStopsAtFirstRaise(a[1..], raises);
          assert [a[0]] + (a[1..] + Deliver(b, raises).sent) == a + Deliver(b, raises).sent;
        }
      }
    }
  }

  /** One more send after sends that did not raise. */
  lemma DeliverSnoc(a: seq<Notice>, n: Notice, raises: Notice -> bool)
    requires !Deliver(a, raises).raised
    ensures Deliver(a + [n], raises) == Delivery(a + [n], raises(n))
  {
    DeliverAppend(a, [n], raises);
    DeliverStopsAtFirstRaise(a, raises);
    assert [n][1..] == [];
  }

  /** A signature that never triggers a notice: already in the baseline, or the subscriber's own. */
  predicate Acknowledged(sig: string, baseline: seq<string>, own: seq<string>) {
    sig in baseline || sig in own
  }

  /** Some signature of the new text is not acknowledged. */
  predicate HasFresh(sigs: seq<string>, baseline: seq<string>, own: seq<string>) {
    exists k :: 0 <= k < |sigs| && !Acknowledged(sigs[k], baseline, own)
  }

  /**
   * The loop that decides whether to send: it builds the ignore set from the
   * baseline and the own signatures, then stops at the first signature
   * outside it. `found` says a notice is sent; `index` is the signature that
   * triggered it.
   */
  method FirstFresh(sigs: seq<string>, baseline: seq<string>, own: seq<string>)
    returns (found: bool, index: nat)
    ensures found <==> HasFresh(sigs, baseline, own)
    ensures found ==> index < |sigs| && !Acknowledged(sigs[index], baseline, own)
    ensures found ==> forall k :: 0 <= k < index ==> Acknowledged(sigs[k], baseline, own)
  {
    var ignore := set s | s in baseline + own;
    found, index := false, 0;
    var i := 0;
    while i < |sigs|
      invariant i <= |sigs|
      invariant forall k :: 0 <= k < i ==> Acknowledged(sigs[k], baseline, own)
    {
      if sigs[i] !in ignore {
        found, index := true, i;
        return;
      }
      i := i + 1;
    }
  }

}
