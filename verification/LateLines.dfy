/**
  A chunked body read from a buffer whose line counts may be wrong: lines can come late, and a counted line end
  behind them brings them out.
 */
module LateLines {
  import opened Text
  import opened Wrappers
  import opened NewlineScan
  import opened SegmentedBuffer
  import opened ChunkedCoding

  // ---------- one delivery ----------

  /** Some lines were taken from `s`, leaving `s'`; whatever follows, decoding goes on from there. */
  ghost predicate GoesOn(s: string, d: Decoder, s': string, d': Decoder, max: nat) {
    d'.complete == d.complete && forall t :: Feed(s + t, d, max) == Feed(s' + t, d', max)
  }

  /** Decoding ended at `s'`, by a return or an exception, whatever follows. */
  ghost predicate EndsAt(s: string, d: Decoder, s': string, d': Decoder, error: Option<nat>, max: nat) {
    forall t :: Feed(s + t, d, max) == Fed(s' + t, d', error)
  }

  /** No counted line end has been left ahead. */
  ghost predicate TakesCounted(history: string, s: string, s': string) {
    forall p: nat :: CountedEnd(history, s, p) ==> |s'| < |history| - p
  }

  /** What the loop does with `s`, the last bytes of `history`, whatever the counters say. */
  ghost predicate Delivers(history: string, s: string, d: Decoder, s': string, d': Decoder, error: Option<nat>,
                           max: nat) {
    && Shortens(s, s')
    && ((error.None? && GoesOn(s, d, s', d', max) && TakesCounted(history, s, s')) || EndsAt(s, d, s', d', error, max))
  }

  lemma GoesOnNowhere(s: string, d: Decoder, max: nat)
    ensures GoesOn(s, d, s, d, max)
  {
  }

  /** One more line of the loop. */
  lemma LineDelivered(s: string, d: Decoder, ahead: string, d1: Decoder, rest: string, d2: Decoder, verdict: Verdict,
                      max: nat)
    requires GoesOn(s, d, ahead, d1, max) && HasLine(ahead) && rest == AfterLine(ahead)
    requires (d2, verdict) == OnLine(d1, FirstLine(ahead), max)
    ensures verdict.Continue? ==> GoesOn(s, d, rest, d2, max)
    ensures verdict.Pause? ==> EndsAt(s, d, rest, d2, None, max)
    ensures verdict.Fail? ==> EndsAt(s, d, rest, d2, Some(verdict.code), max)
  {
    LineKeepsComplete(d1, FirstLine(ahead), max);
    forall t
      ensures Feed(s + t, d, max) ==
              if verdict.Continue? then Feed(rest + t, d2, max)
              else Fed(rest + t, d2, if verdict.Fail? then Some(verdict.code) else None)
    {
      LineOfPrefix(ahead, t);
      FeedStep(ahead + t, d1, max);
      hide HasLine, FirstLine, AfterLine, Feed, OnLine;
      assert Feed(s + t, d, max) == Feed(ahead + t, d1, max);
    }
    hide HasLine, FirstLine, AfterLine, Feed, OnLine;
  }

  lemma LineKeepsComplete(d: Decoder, line: string, max: nat)
    ensures OnLine(d, line, max).1.Continue? ==> OnLine(d, line, max).0.complete == d.complete
  {
  }

  /** When no counted line end is left, all of them have been taken. */
  lemma AllTaken(history: string, s: string, s': string)
    requires Shortens(s, s') && forall p: nat :: !CountedEnd(history, s', p)
    ensures TakesCounted(history, s, s')
  {
    hide CountedEnd;
    forall p: nat | CountedEnd(history, s, p) ensures |s'| < |history| - p {
      EndStaysAhead(history, s, s', p);
    }
  }

  // ---------- a run of deliveries ----------

  /**
    Of the bytes `x`, the last of `history`, nothing is left to do, or a counted line end at or behind position `from`
    stands where decoding the whole stops or behind.
   */
  ghost predicate Due(history: string, x: string, unread: nat, from: nat) {
    || !HasLine(x)
    || |x| <= unread
    || exists p: nat :: from <= p && CountedEnd(history, x, p) && |history| - p - 1 <= unread
  }

  /**
    On the way through a body: `target` is what decoding all of it comes to, `s` is in the buffer, `rest` will come,
    and `history`, which ends in `rest`, is all that will ever have come.
   */
  ghost predicate OnBody(history: string, target: Fed, s: string, d: Decoder, rest: string, max: nat) {
    if d.complete then target == Fed(s + rest, d, None)
    else
      && |s + rest| <= |history| && history[|history| - |s + rest|..] == s + rest
      && Feed(s + rest, d, max) == target
      && Due(history, s + rest, |target.unread|, |history| - |rest|)
  }

  lemma {:induction false} FeedTakes(s: string, d: Decoder, max: nat)
    ensures |Feed(s, d, max).unread| <= |s|
    ensures |Feed(s, d, max).unread| == |s| ==> Feed(s, d, max) == Fed(s, d, None)
    decreases |s|
  {
    if HasLine(s) {
      FeedTakes(AfterLine(s), OnLine(d, FirstLine(s), max).0, max);
    }
  }

  /** A size line that is not due: its LF stands behind two CR bytes, and nothing comes behind it. */
  lemma NotDue(d: Decoder, max: nat)
    ensures !Due("5\r\r\n", "5\r\r\n", |Feed("5\r\r\n", d, max).unread|, 0)
  {
    hide Feed, Scan;
    TakesTheLine(d, max);
    NotCounted();
    assert IsLineEnd("5\r\r\n", 3);
  }

  lemma TakesTheLine(d: Decoder, max: nat)
    ensures Feed("5\r\r\n", d, max).unread == ""
  {
    hide OnLine, FirstLine;
    var s := "5\r\r\n";
    assert IsLineEnd(s, 3) && HasLine(s) && AfterLine(s) == "";
    FeedTakes("", OnLine(d, FirstLine(s), max).0, max);
  }

  lemma NotCounted()
    ensures Scan(Start(NoNewline), "5\r\r\n"[..3]).status.NoNewline?
  {
    assert "5\r\r\n"[..3] == "5\r\r" && "5\r\r"[..2] == "5\r" && "5\r"[..1] == "5" && "5"[..0] == "";
  }

  /** When everything has been delivered the outcome is that of the single delivery. */
  lemma BodyArrived(history: string, target: Fed, s: string, d: Decoder, max: nat)
    requires OnBody(history, target, s, d, "", max)
    ensures target == Fed(s, d, None)
  {
    assert s + "" == s;
    if !d.complete {
      if HasLine(s) {
        FeedTakes(s, d, max);
        assert |s| <= |target.unread|;
      } else {
        FeedNothing(s, d, max);
      }
    }
    hide Feed;
  }

  /** A delivery ends the body as the single delivery ends it, or leaves the run on its way. */
  lemma BodyGoesOn(history: string, target: Fed, s: string, data: string, rest: string, d: Decoder, s': string,
                   d': Decoder, error: Option<nat>, max: nat)
    requires !d.complete && OnBody(history, target, s, d, data + rest, max) && !Stalled(target)
    requires |history| >= |rest| && history[|history| - |rest|..] == rest
    requires Delivers(history[..|history| - |rest|], s + data, d, s', d', error, max)
    ensures if error.Some? then target == Fed(s' + rest, d', error) else OnBody(history, target, s', d', rest, max)
  {
    hide Feed, HasLine, CountedEnd, Shortens, EndsAt, GoesOn, Due, TakesCounted, Stalled;
    var h, u := history[..|history| - |rest|], s + data;
    Associate(s, data, rest);
    SuffixShortens(history, u, s', rest);
    if EndsAt(u, d, s', d', error, max) {
      EndsWith(u, d, s', d', error, rest, max);
      NothingLeft(target, s' + rest, d', error, max);
      AnyDue(history, s' + rest, |target.unread|, |h|);
    } else {
      GoesOnWith(u, d, s', d', rest, max);
      StaysDue(history, h, u, s', rest, |target.unread|, |history| - |data + rest|);
    }
  }

  lemma EndsWith(s: string, d: Decoder, s': string, d': Decoder, error: Option<nat>, t: string, max: nat)
    requires EndsAt(s, d, s', d', error, max)
    ensures Feed(s + t, d, max) == Fed(s' + t, d', error)
  {
    hide Feed;
  }

  lemma GoesOnWith(s: string, d: Decoder, s': string, d': Decoder, t: string, max: nat)
    requires GoesOn(s, d, s', d', max)
    ensures Feed(s + t, d, max) == Feed(s' + t, d', max) && d'.complete == d.complete
  {
    hide Feed;
  }

  /** A return that does not complete the body has met an empty size line with nothing behind it. */
  lemma NothingLeft(target: Fed, s: string, d: Decoder, error: Option<nat>, max: nat)
    requires target == Fed(s, d, error) && !Stalled(target)
    ensures error.None? && !d.complete ==> !HasLine(s) && Feed(s, d, max) == target
  {
    if error.None? && !d.complete {
      FeedNothing(s, d, max);
    }
    hide Feed;
  }

  lemma AnyDue(history: string, x: string, unread: nat, from: nat)
    ensures !HasLine(x) ==> Due(history, x, unread, from)
  {
  }

  lemma SuffixShortens(history: string, u: string, s': string, rest: string)
    requires |u + rest| <= |history| && history[|history| - |u + rest|..] == u + rest && Shortens(u, s')
    ensures |s' + rest| <= |history| && history[|history| - |s' + rest|..] == s' + rest
    ensures Shortens(u + rest, s' + rest)
  {
    var k := |u| - |s'|;
    assert (u + rest)[k..] == s' + rest;
    assert history[|history| - |s' + rest|..] == history[|history| - |u + rest|..][k..];
  }

  lemma StaysDue(history: string, h: string, u: string, s': string, rest: string, unread: nat, from: nat)
    requires Due(history, u + rest, unread, from) && h + rest == history && |u| <= |h|
    requires Shortens(u, s') && Shortens(u + rest, s' + rest) && TakesCounted(h, u, s')
    ensures Due(history, s' + rest, unread, |h|)
  {
    if !HasLine(u + rest) {
      NoLineInEnd(u + rest, s' + rest);
    } else if |u + rest| > unread {
      var p: nat :| from <= p && CountedEnd(history, u + rest, p) && |history| - p - 1 <= unread;
      if p < |h| {
        EndDelivered(history, h, u, rest, p);
      } else {
        EndStaysAhead(history, u + rest, s' + rest, p);
      }
    }
    hide CountedEnd, HasLine;
  }

  lemma EndDelivered(history: string, h: string, u: string, rest: string, p: nat)
    requires h + rest == history && |u| <= |h| && p < |h| && CountedEnd(history, u + rest, p)
    ensures CountedEnd(h, u, p)
  {
    assert history[..p] == h[..p];
    hide Scan;
  }

  lemma NoLineInEnd(s: string, t: string)
    requires !HasLine(s) && Shortens(s, t)
    ensures !HasLine(t)
  {
    var k := |s| - |t|;
    if HasLine(t) {
      assert IsLineEnd(s, LineEnd(t, 0) + k);
    }
  }

  // ---------- the body stays within what it comes to ----------

  /** On the way the body is never larger than at the end. */
  lemma BodyIsWithinTarget(history: string, target: Fed, s: string, d: Decoder, rest: string, max: nat)
    requires OnBody(history, target, s, d, rest, max)
    ensures |d.body| <= |target.decoder.body|
  {
    BodyGrows(s + rest, d, max);
    hide Feed;
  }
}
