/**
 * Reviews: the per-episode review lists, the createReview mutation that
 * appends to them and publishes one event on the "new_review" topic, and the
 * reviewAdded subscription filter.
 */
module Reviews {
  import opened Wrappers
  import opened Store

  /** A review as stored: the ReviewInput fields, plus the episode createReview tags it with. */
  datatype Review = Review(stars: int, commentary: Option<string>, episode: Option<Episode>)

  /** The event published for a new review: { reviewAdded: review }. */
  datatype Payload = Payload(reviewAdded: Review)

  /**
   * The subscription's `episode` argument as the filter sees it: absent from
   * the arguments (undefined), explicitly null, or an episode.
   */
  datatype EpisodeArg = Omitted | Null | Given(episode: Episode)

  /** The reviews of a published log that carry episode e, in publication order. */
  function ReviewsFor(log: seq<Payload>, e: Episode): (r: seq<Review>)
  {
    if log == [] then []
    else
      var last := log[|log| - 1].reviewAdded;
      ReviewsFor(log[..|log| - 1], e) + (if last.episode == Some(e) then [last] else [])
  }

  /** Every published review carries its episode. */
  predicate AllTagged(log: seq<Payload>)
  {
    forall k :: 0 <= k < |log| ==> log[k].reviewAdded.episode.Some?
  }

  /**
   * The per-episode lists of reviews and the log of events published on
   * AddedReviewTopic. Both start empty and grow only through CreateReview, so
   * each episode's list is exactly the reviews published for that episode.
   */
  class ReviewBoard {
    var reviews: map<Episode, seq<Review>>
    var published: seq<Payload>

    ghost predicate Valid()
      reads this
    {
      && (forall e: Episode :: e in reviews)
      && AllTagged(published)
      && (forall e: Episode :: reviews[e] == ReviewsFor(published, e))
    }

    /** The lists NEWHOPE, EMPIRE and JEDI, all empty, and nothing published yet. */
    constructor ()
      ensures Valid()
      ensures reviews == map[NEWHOPE := [], EMPIRE := [], JEDI := []]
      ensures published == []
    {
      reviews := map[NEWHOPE := [], EMPIRE := [], JEDI := []];
      published := [];
      new;
      forall e: Episode ensures e in reviews && reviews[e] == [] {
        match e
        case NEWHOPE =>
        case EMPIRE =>
        case JEDI =>
      }
    }

    /** getReviews: the reviews of one episode, oldest first. */
    function GetReviews(episode: Episode): (r: seq<Review>)
      reads this
      requires Valid()
      ensures r == ReviewsFor(published, episode)
    {
      reviews[episode]
    }

    /**
     * createReview: append the review to its episode's list, tag it with the
     * episode, publish it once, and return it. The source pushes the review
     * object before tagging it, but the list holds that same object, so the
     * stored review carries the tag.
     */
    method CreateReview(episode: Episode, review: Review) returns (stored: Review)
      requires Valid()
      modifies this
      ensures Valid()
      ensures stored == review.(episode := Some(episode))
      ensures reviews[episode] == old(reviews[episode]) + [stored]
      ensures forall e :: e != episode ==> reviews[e] == old(reviews[e])
      ensures published == old(published) + [Payload(stored)]
    {
      stored := review.(episode := Some(episode));
      reviews := reviews[episode := reviews[episode] + [stored]];
      published := published + [Payload(stored)];
      assert published[..|published| - 1] == old(published);
    }
  }

  /**
   * The reviewAdded filter as written: the payload must be defined, and the
   * `episode` argument must be null or equal the review's episode; an absent
   * argument is undefined, which equals only a review without an episode.
   */
  predicate Accepts(payload: Option<Payload>, variables: EpisodeArg)
  {
    && payload.Some?
    && (|| variables.Null?
        || (variables.Omitted? && payload.value.reviewAdded.episode.None?)
        || (variables.Given? && payload.value.reviewAdded.episode == Some(variables.episode)))
  }

  /**
   * On what createReview publishes, the filter as written passes a payload
   * exactly when the argument is null or names the review's episode; so a
   * subscriber that leaves the argument out receives nothing.
   */
  lemma AcceptsPublished(p: Payload, variables: EpisodeArg)
    requires p.reviewAdded.episode.Some?
    ensures !Accepts(None, variables)
    ensures Accepts(Some(p), variables) <==> variables.Null? || variables == Given(p.reviewAdded.episode.value)
    ensures !Accepts(Some(p), Omitted)
  {
  }

  /** The filter with an absent argument treated like null: no argument means every episode. */
  predicate AcceptsIntended(payload: Option<Payload>, variables: EpisodeArg)
  {
    && payload.Some?
    && (variables.Given? ==> payload.value.reviewAdded.episode == Some(variables.episode))
  }

  /** The corrected filter differs from the written one only for an absent argument. */
  lemma IntendedAgreesWhenGiven(payload: Option<Payload>, variables: EpisodeArg)
    requires !variables.Omitted?
    ensures AcceptsIntended(payload, variables) <==> Accepts(payload, variables)
  {
  }

  /**
   * Which reviewAdded filter a subscription runs: the one the source
   * writes, or the corrected one that reads an absent argument like null.
   */
  datatype Filter = AsWritten | Intended

  predicate Passes(filter: Filter, payload: Option<Payload>, variables: EpisodeArg)
  {
    match filter
    case AsWritten => Accepts(payload, variables)
    case Intended => AcceptsIntended(payload, variables)
  }

  /** The reviews a filter lets through from a published log, in publication order. */
  function Delivered(log: seq<Payload>, filter: Filter, variables: EpisodeArg): (r: seq<Review>)
  {
    if log == [] then []
    else
      var last := log[|log| - 1];
      Delivered(log[..|log| - 1], filter, variables)
        + (if Passes(filter, Some(last), variables) then [last.reviewAdded] else [])
  }

  function AllReviews(log: seq<Payload>): (r: seq<Review>)
    ensures |r| == |log| && forall k :: 0 <= k < |log| ==> r[k] == log[k].reviewAdded
  {
    seq(|log|, k requires 0 <= k < |log| => log[k].reviewAdded)
  }

  /**
   * A subscriber with episode E receives exactly the reviews published for
   * E, in order, under either filter.
   */
  lemma {:induction false} DeliveredGiven(log: seq<Payload>, filter: Filter, e: Episode)
    ensures Delivered(log, filter, Given(e)) == ReviewsFor(log, e)
  {
    if log != [] {
      DeliveredGiven(log[..|log| - 1], filter, e);
    }
  }

  /** A subscriber with a null episode receives every published review, in order, under either filter. */
  lemma {:induction false} DeliveredNull(log: seq<Payload>, filter: Filter)
    ensures Delivered(log, filter, Null) == AllReviews(log)
  {
    if log != [] {
      var init := log[..|log| - 1];
      DeliveredNull(init, filter);
      assert AllReviews(log) == AllReviews(init) + [log[|log| - 1].reviewAdded];
    }
  }

  /**
   * As written, a subscriber that leaves the episode out receives nothing
   * from a log of reviews that createReview has tagged.
   */
  lemma {:induction false} DeliveredOmittedAsWritten(log: seq<Payload>)
    requires AllTagged(log)
    ensures Delivered(log, AsWritten, Omitted) == []
  {
    if log != [] {
      var init := log[..|log| - 1];
      assert AllTagged(init) by {
        forall k | 0 <= k < |init| ensures init[k].reviewAdded.episode.Some? {
          assert init[k] == log[k];
        }
      }
      DeliveredOmittedAsWritten(init);
      assert log[|log| - 1].reviewAdded.episode.Some?;
    }
  }

  /** With the corrected filter, a subscriber without an episode receives every published review, in order. */
  lemma {:induction false} DeliveredUnfiltered(log: seq<Payload>, variables: EpisodeArg)
    requires !variables.Given?
    ensures Delivered(log, Intended, variables) == AllReviews(log)
  {
    if log != [] {
      var init := log[..|log| - 1];
      DeliveredUnfiltered(init, variables);
      assert AllReviews(log) == AllReviews(init) + [log[|log| - 1].reviewAdded];
    }
  }

  /** A live subscription: its arguments and the length of the log when it started. */
  datatype Subscription = Subscription(variables: EpisodeArg, since: nat)

  /** What a subscription running a filter has received: only events published after it started. */
  function Received(log: seq<Payload>, filter: Filter, sub: Subscription): (r: seq<Review>)
    requires sub.since <= |log|
  {
    Delivered(log[sub.since..], filter, sub.variables)
  }

  /**
   * Publishing one event delivers it to each subscription exactly once, and
   * only when that subscription's filter passes it.
   */
  lemma ReceivedAfterPublish(log: seq<Payload>, filter: Filter, sub: Subscription, p: Payload)
    requires sub.since <= |log|
    ensures Received(log + [p], filter, sub)
      == Received(log, filter, sub) + (if Passes(filter, Some(p), sub.variables) then [p.reviewAdded] else [])
  {
    var tail := (log + [p])[sub.since..];
    assert tail[..|tail| - 1] == log[sub.since..];
    assert tail[|tail| - 1] == p;
  }

  /**
   * After createReview, the review is the last of its episode's list and the
   * last event of the log. Under the filter as written a subscription
   * receives it exactly when its episode argument is null or that episode;
   * under the corrected filter, also when the argument is left out.
   */
  lemma {:induction false} CreateThenRead(board: seq<Payload>, episode: Episode, review: Review, sub: Subscription)
    requires sub.since <= |board|
    ensures var stored := review.(episode := Some(episode));
      && ReviewsFor(board + [Payload(stored)], episode) == ReviewsFor(board, episode) + [stored]
      && (forall e :: e != episode ==> ReviewsFor(board + [Payload(stored)], e) == ReviewsFor(board, e))
      && Received(board + [Payload(stored)], AsWritten, sub)
           == Received(board, AsWritten, sub) + (if sub.variables.Null? || sub.variables == Given(episode) then [stored] else [])
      && Received(board + [Payload(stored)], Intended, sub)
           == Received(board, Intended, sub) + (if sub.variables.Given? && sub.variables.episode != episode then [] else [stored])
  {
    var stored := review.(episode := Some(episode));
    var log := board + [Payload(stored)];
    assert log[..|log| - 1] == board;
    ReceivedAfterPublish(board, AsWritten, sub, Payload(stored));
    ReceivedAfterPublish(board, Intended, sub, Payload(stored));
  }
}
