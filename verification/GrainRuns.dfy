/** Runs of reads over a chunked body cut into grains: they end as the single read does exactly when the body is due. */
module GrainRuns {
  import opened Wrappers
  import opened NewlineScan
  import opened BlankLines
  import opened SegmentedBuffer
  import opened ChunkedCoding
  import opened RequestModel
  import opened RequestParser
  import opened LateLines
  import opened Grains
  import opened ReadRuns

  /**
    A run in the body `x + rest`, which came behind `history`, has delivered `x`. If the body is due the run is on its
    way to `target`; in any case it has taken nothing that no counted line end stands behind.
   */
  ghost predicate InGrains(history: string, target: Fed, x: string, rest: string, b: State, d: Decoder, max: nat) {
    && b.Valid() && Grained(b) && b.history == history + x && |b.Contents()| <= |x|
    && TakesToCounted(b.history, x, b.Contents())
    && (Due(history + (x + rest), x + rest, |target.unread|, |history|) ==>
        OnBody(history + (x + rest), target, b.Contents(), d, rest, max))
  }

  lemma GrainsBegin(b: State, target: Fed, x: string, d: Decoder, max: nat)
    requires b.Valid() && b.Contents() == "" && !d.complete && target == Feed(x, d, max)
    ensures InGrains(b.history, target, "", x, b, d, max)
  {
    hide State.Valid, Grained, Due, Feed;
    EmptyIsGrained(b);
    assert b.history + "" == b.history && "" + x == x && b.Contents() + x == x;
  }

  /** A run that has come to the target has taken lines through a counted line end, or had nothing to take. */
  lemma ArrivedIsDue(history: string, x: string, rest: string, s: string)
    requires TakesToCounted(history + x, x, s)
    ensures Due(history + (x + rest), x + rest, |s + rest|, |history|)
  {
    TakenInFront(history + x, x, s, rest);
    assert history + x + rest == history + (x + rest);
    if s == x {
      assert |x + rest| <= |s + rest|;
    }
    hide CountedEnd;
  }

  /** What one read leaves of the bytes that came behind `history`. */
  lemma GrainTaken(history: string, x: string, grain: string, b: State, t: State)
    requires b.Valid() && Grained(b) && b.history == history + x && |b.Contents()| <= |x|
    requires TakesToCounted(b.history, x, b.Contents())
    requires IsGrain(grain) && t.Valid() && GrainStep(WithItem(b, grain), t)
    ensures Grained(t) && TakesToCounted(history + (x + grain), x + grain, t.Contents())
  {
    hide Grained, State.Contents, State.CountersMatch, Scan, Counted, TakesToCounted, IsGrain;
    AddedGrain(b, grain);
    Added(b, grain);
    var s := b.Contents();
    assert s == x[|x| - |s|..];
    assert s + grain == (x + grain)[|x + grain| - |s + grain|..];
    assert history + x + grain == history + (x + grain);
    TakenInFront(b.history, x, s, grain);
    TakenTwice(history + (x + grain), x + grain, s + grain, t.Contents());
  }

  /** One read in a body that is due. */
  lemma GrainDelivered(history: string, target: Fed, x: string, grain: string, rest: string, s: string, r: Request,
                       s': string, r': Request, error: Option<nat>)
    requires InChunks(r) && !Stalled(target)
    requires OnBody(history + (x + grain + rest), target, s, r.decoder, grain + rest, r.clientMaxBodySize)
    requires BodyStep(history + x + grain, s + grain, r, s', r', error)
    ensures if error.Some? then target == Fed(s' + rest, r'.decoder, error)
            else OnBody(history + (x + grain + rest), target, s', r'.decoder, rest, r.clientMaxBodySize)
  {
    hide Stalled, OnBody, Delivers, WithoutBody, FinishBody, Fixed;
    var all := history + (x + grain + rest);
    FrontOfAll(history, x, grain, rest);
    if r.decoder.complete {
      CompleteFinishes(s + grain, r);
      CompleteGoesOn(all, target, s, grain, rest, r.decoder, r.clientMaxBodySize);
    } else {
      ChunksReadLines(r);
      hide ReadsLines;
      BodyGoesOn(all, target, s, grain, rest, r.decoder, s', r'.decoder, error, r.clientMaxBodySize);
    }
  }

  lemma ChunksStay(history: string, s: string, r: Request, s': string, r': Request, error: Option<nat>)
    requires InChunks(r) && BodyStep(history, s, r, s', r', error)
    ensures r' == r.(decoder := r'.decoder) && |s'| <= |s|
  {
    if r.decoder.complete {
      CompleteFinishes(s, r);
    }
    hide Delivers;
  }

  /** The outcome of a run: whether it is that of the single delivery. */
  ghost predicate GrainsEnd(history: string, target: Fed, x: string, s: string, d: Decoder, error: Option<nat>) {
    Fed(s, d, error) == target <==> Due(history + x, x, |target.unread|, |history|)
  }

  /** Each read keeps the run on its way, or ends it. */
  lemma GrainRead(env: Env, history: string, target: Fed, x: string, grain: string, rest: string, b: State, r: Request,
                  t: State, r': Request, error: Option<nat>)
    requires InGrains(history, target, x, grain + rest, b, r.decoder, r.clientMaxBodySize) && IsGrain(grain)
    requires InChunks(r) && r.pathSet && !Stalled(target)
    requires ReadStep(env, history + x + grain, b.Contents() + grain, r, t.Contents(), r', error)
    requires t.Valid() && GrainStep(WithItem(b, grain), t) && t.history == history + x + grain
    ensures r' == r.(decoder := r'.decoder)
    ensures if error.Some? then GrainsEnd(history, target, x + grain + rest, t.Contents() + rest, r'.decoder, error)
            else InGrains(history, target, x + grain, rest, t, r'.decoder, r.clientMaxBodySize)
  {
    hide State.Valid, State.Contents, Grained, WithItem, GrainStep, TakesToCounted, BodyStep, OnBody, Due, Stalled;
    hide IsGrain;
    assert x + (grain + rest) == x + grain + rest && history + x + grain == history + (x + grain);
    assert b.Contents() + grain != "" by { hide *; GrainIsSome(grain); }
    GrainTaken(history, x, grain, b, t);
    ChunksStay(history + x + grain, b.Contents() + grain, r, t.Contents(), r', error);
    hide InChunks;
    var due := Due(history + (x + grain + rest), x + grain + rest, |target.unread|, |history|);
    if due {
      GrainDelivered(history, target, x, grain, rest, b.Contents(), r, t.Contents(), r', error);
    }
    ArrivedIsDue(history, x + grain, rest, t.Contents());
  }

  lemma GrainIsSome(grain: string)
    requires IsGrain(grain)
    ensures grain != ""
  {
  }

  /** When all grains have been delivered. */
  lemma GrainsDelivered(history: string, target: Fed, x: string, b: State, d: Decoder, max: nat)
    requires InGrains(history, target, x, "", b, d, max)
    ensures GrainsEnd(history, target, x, b.Contents() + "", d, None)
  {
    hide State.Valid, State.Contents, Grained, TakesToCounted, OnBody, Due;
    assert x + "" == x && b.Contents() + "" == b.Contents();
    if Due(history + x, x, |target.unread|, |history|) {
      BodyArrived(history + x, target, b.Contents(), d, max);
    }
    ArrivedIsDue(history, x, "", b.Contents());
  }

  // ---------- from the head on ----------

  /** A read that brings the head and nothing behind it stands in front of the body. */
  lemma HeadAlone(env: Env, head: string, s: string, r: Request, error: Option<nat>)
    requires HasChunks(env, head) && HeadOf(env, head, NEW_REQUEST).unread == ""
    requires ReadStep(env, head, head, NEW_REQUEST, s, r, error)
    ensures error.None? && s == "" && r == HeadOf(env, head, NEW_REQUEST).request
  {
    hide HeadOf, HasOddBlank, ReadsLines, Delivers;
    var q := HeadOf(env, head, NEW_REQUEST);
    OddBlankIsSome(head);
    NoDelivery(head, q.request.decoder, s, r.decoder, error, q.request.clientMaxBodySize);
  }

  lemma OddBlankIsSome(s: string)
    requires HasOddBlank(s)
    ensures s != ""
  {
  }

  lemma NoDelivery(history: string, d: Decoder, s: string, d': Decoder, error: Option<nat>, max: nat)
    requires Delivers(history, "", d, s, d', error, max)
    ensures s == "" && d' == d && error.None?
  {
    hide Feed;
    assert s == "" && "" + "" == "";
    FeedNothing("", d, max);
    FeedNothing("", d', max);
  }

  /** Behind a head that was read alone, the body of the stream is due exactly when the stream is counted. */
  lemma DueIsCounted(env: Env, head: string, x: string)
    requires HasChunks(env, head) && HeadOf(env, head, NEW_REQUEST).unread == "" && Divisible(env, head + x)
    ensures var r := HeadOf(env, head, NEW_REQUEST).request;
            && HasChunks(env, head + x) && Target(env, head + x) == Feed(x, r.decoder, r.clientMaxBodySize)
            && HeadOf(env, head + x, NEW_REQUEST).request == r
            && (BodyIsCounted(env, head + x) <==> Due(head + x, x, |Target(env, head + x).unread|, |head|))
  {
    HeadOfFront(env, head, x);
    hide HeadOf, HasOddBlank, ReadsLines, Feed, CountedEnd, Read, FinishBody, Divisible;
    assert "" + x == x;
    DueFrom(head + x, x, |Target(env, head + x).unread|);
  }

  lemma DueFrom(history: string, x: string, unread: nat)
    requires |x| <= |history|
    ensures Due(history, x, unread, 0) <==> Due(history, x, unread, |history| - |x|)
  {
    hide Scan;
  }

  lemma NewIsEmpty(b: State)
    requires b.Valid() && b.history == ""
    ensures b.Contents() == "" && b.Untouched() && b.epoch == 0
  {
  }

  /** What the first read of such a stream relies on, and the ones behind it. */
  lemma HeadInsight(env: Env, head: string, x: string)
    requires HasChunks(env, head) && HeadOf(env, head, NEW_REQUEST).unread == "" && Divisible(env, head + x)
    ensures OpensWithText(head) && "" + head == head
    ensures var r := HeadOf(env, head, NEW_REQUEST).request;
            && InChunks(r) && r.pathSet && !r.decoder.complete && !Stalled(Feed(x, r.decoder, r.clientMaxBodySize))
  {
    HeadOfFront(env, head, x);
    DueIsCounted(env, head, x);
    ResolvedInChunks(env, head + x);
    hide HeadOf, HasOddBlank, Feed, Read, FinishBody, Divisible, Stalled, BodyIsCounted, Due;
  }

  lemma ArrivesIff(env: Env, head: string, x: string, s: string, r: Request, error: Option<nat>)
    requires HasChunks(env, head) && HeadOf(env, head, NEW_REQUEST).unread == "" && Divisible(env, head + x)
    requires var q := HeadOf(env, head, NEW_REQUEST).request;
             && r == q.(decoder := r.decoder)
             && GrainsEnd(head, Feed(x, q.decoder, q.clientMaxBodySize), x, s, r.decoder, error)
    ensures Arrives(env, head + x, s, r, error) <==> BodyIsCounted(env, head + x)
  {
    DueIsCounted(env, head, x);
    TargetIsRead(env, head + x);
    hide HeadOf, HasOddBlank, Feed, Read, FinishBody, Divisible, BodyIsCounted, Due;
  }
}
