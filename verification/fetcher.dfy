/**
 * The retry loop of `fetchRSSPosts`. Each attempt's network request and XML
 * parse are an input outcome; the delays the loop asks `setTimeout` for are
 * recorded instead of slept.
 */
module Fetcher {

  import opened Wrappers
  import opened Normalizer

  /**
   * `result.rss?.channel?.item` as the XML parser builds it: missing, a
   * single object (one `<item>`), or an array (several).
   */
  datatype ParsedItems = Absent | SingleItem(item: FeedItem) | ItemArray(items: seq<FeedItem>)

  /** One attempt: the request, status check or parse threw, or the feed was parsed. */
  datatype Attempt = Threw | Parsed(parsed: ParsedItems)

  const DefaultRetries: nat := 3
  const BackoffStep: nat := 2000

  /**
   * An attempt that returns posts: anything else throws (`HTTP …`, a parse
   * error, or "No posts found" when the items are missing, not an array, or
   * an empty array) and is caught by the loop.
   */
  predicate Usable(a: Attempt) {
    a.Parsed? && a.parsed.ItemArray? && |a.parsed.items| > 0
  }

  /** The first attempt index in `[from, retries)` whose outcome is usable. */
  function FirstUsable(outcome: nat -> Attempt, from: nat, retries: nat): (r: Option<nat>)
    ensures r.Some? ==> from <= r.value < retries && Usable(outcome(r.value))
    ensures r.Some? ==> forall k :: from <= k < r.value ==> !Usable(outcome(k))
    ensures r.None? ==> forall k :: from <= k < retries ==> !Usable(outcome(k))
    decreases retries - from
  {
    if from >= retries then None
    else if Usable(outcome(from)) then Some(from)
    else FirstUsable(outcome, from + 1, retries)
  }

  /** The delays requested before attempts 1 to `attempts - 1`: `2000 * i` before attempt `i`. */
  function Backoff(attempts: nat): (r: seq<nat>)
    ensures |r| == if attempts == 0 then 0 else attempts - 1
    ensures forall k :: 0 <= k < |r| ==> r[k] == BackoffStep * (k + 1)
  {
    if attempts <= 1 then [] else Backoff(attempts - 1) + [BackoffStep * (attempts - 1)]
  }

  /** How many attempts the loop makes: up to the first usable one, else all of them. */
  function AttemptsMade(outcome: nat -> Attempt, retries: nat): nat {
    match FirstUsable(outcome, 0, retries)
    case Some(k) => k + 1
    case None => retries
  }

  /** What the fetcher returns: the posts of the first usable attempt, or null. */
  function FetchResult(outcome: nat -> Attempt, retries: nat, formatDate: Option<string> -> string)
    : Option<seq<Post>>
  {
    match FirstUsable(outcome, 0, retries)
    case Some(k) => Some(NormalizeAll(outcome(k).parsed.items, formatDate))
    case None => None
  }

  /**
   * `fetchRSSPosts(url, retries)` with `outcome(i)` standing for attempt `i`.
   * Returns the posts (None for null), the number of attempts and the delays
   * requested, in order.
   */
  method FetchRssPosts(outcome: nat -> Attempt, retries: nat, formatDate: Option<string> -> string)
    returns (posts: Option<seq<Post>>, attempts: nat, waits: seq<nat>)
    ensures posts == FetchResult(outcome, retries, formatDate)
    ensures attempts == AttemptsMade(outcome, retries) && attempts <= retries
    ensures waits == Backoff(attempts)
  {
    posts, attempts, waits := None, 0, [];
    var i := 0;
    while i < retries
      invariant i <= retries && attempts == i
      invariant waits == Backoff(i)
      invariant forall k :: 0 <= k < i ==> !Usable(outcome(k))
      invariant posts == None
    {
      if i > 0 {
        waits := waits + [BackoffStep * i];
      }
      attempts := attempts + 1;
      var attempt := outcome(i);
      if Usable(attempt) {
        posts := Some(NormalizeAll(attempt.parsed.items, formatDate));
        FirstUsableIs(outcome, i, retries);
        return;
      }
      if i == retries - 1 {
        FirstUsableIs(outcome, retries, retries);
        return;
      }
      i := i + 1;
    }
    FirstUsableIs(outcome, retries, retries);
  }

  /**
   * The fetcher's promise: it makes at most `retries` attempts; it returns the
   * normalised items of the first usable attempt, all attempts before which
   * failed, or null after `retries` failures.
   */
  lemma {:induction false} FetchResultIsFirstSuccess(outcome: nat -> Attempt, retries: nat,
                                                      formatDate: Option<string> -> string)
    ensures var n := AttemptsMade(outcome, retries);
      && n <= retries
      && (forall k :: 0 <= k < n - 1 ==> !Usable(outcome(k)))
      && (FetchResult(outcome, retries, formatDate).Some? <==> exists k :: 0 <= k < retries && Usable(outcome(k)))
      && (FetchResult(outcome, retries, formatDate).Some? ==>
            0 < n && Usable(outcome(n - 1))
            && FetchResult(outcome, retries, formatDate).value
               == NormalizeAll(outcome(n - 1).parsed.items, formatDate))
      && (FetchResult(outcome, retries, formatDate).None? ==> n == retries)
  {
  }

  /** When the attempts before `i` all failed, the first usable one is `i` or later. */
  lemma {:induction false} FirstUsableIs(outcome: nat -> Attempt, i: nat, retries: nat)
    requires i <= retries
    requires forall k :: 0 <= k < i ==> !Usable(outcome(k))
    ensures FirstUsable(outcome, 0, retries) == FirstUsable(outcome, i, retries)
    decreases i
  {
    if i > 0 {
      FirstUsableIs(outcome, i - 1, retries);
    }
  }

}
