/**
 * The control flow of `main` in main.go: read the feed, parse the episode
 * range, select the episodes in range, ask for confirmation, and process
 * the selection one episode at a time until the first failure.  Reading
 * the answers from standard input, printing, authentication and the work
 * of `process` are outside the model: the answers and the outcomes of
 * those steps are inputs, and every `failf` becomes an outcome value.
 */
module Command {
  import opened Wrappers
  import opened Ranges
  import opened Feed

  predicate InRange(e: Episode, from: int, to: int)
  {
    from <= e.number <= to
  }

  /** The episodes of `eps` numbered within [from, to], in feed order. */
  function Selected(eps: seq<Episode>, from: int, to: int): seq<Episode>
  {
    if eps == [] then []
    else
      var last := eps[|eps| - 1];
      Selected(eps[..|eps| - 1], from, to) + (if InRange(last, from, to) then [last] else [])
  }

  /** `a` is `b` with some elements left out and the rest in their order. */
  predicate IsSubsequence<T(==)>(a: seq<T>, b: seq<T>)
    decreases |b|
  {
    if a == [] then true
    else if b == [] then false
    else
      (a[|a| - 1] == b[|b| - 1] && IsSubsequence(a[..|a| - 1], b[..|b| - 1])) ||
      IsSubsequence(a, b[..|b| - 1])
  }

  /** The selection loop of `main`: append each episode whose number lies in [from, to]. */
  method Select(eps: seq<Episode>, from: int, to: int) returns (selected: seq<Episode>)
    ensures selected == Selected(eps, from, to)
    ensures forall e :: e in selected ==> e in eps && InRange(e, from, to)
  {
    selected := [];
    for j := 0 to |eps|
      invariant selected == Selected(eps[..j], from, to)
    {
      assert eps[..j + 1][..j] == eps[..j];
      if from <= eps[j].number && eps[j].number <= to {
        selected := selected + [eps[j]];
      }
    }
    assert eps[..|eps|] == eps;
    SelectedMembers(eps, from, to);
  }

  /** The selection keeps the feed order: it is a subsequence of the feed. */
  lemma {:induction false} SelectedIsSubsequence(eps: seq<Episode>, from: int, to: int)
    ensures IsSubsequence(Selected(eps, from, to), eps)
  {
    if eps != [] {
      var init := eps[..|eps| - 1];
      var last := eps[|eps| - 1];
      SelectedIsSubsequence(init, from, to);
      var s := Selected(init, from, to);
      if InRange(last, from, to) {
        assert (s + [last])[..|s|] == s;
      } else {
        assert Selected(eps, from, to) == s;
      }
    }
  }

  /**
   * The selection holds each in-range episode as often as the feed does and
   * nothing else: with the order above, it is exactly the in-range subsequence.
   */
  lemma {:induction false} SelectedCounts(eps: seq<Episode>, from: int, to: int, e: Episode)
    ensures multiset(Selected(eps, from, to))[e] ==
      if InRange(e, from, to) then multiset(eps)[e] else 0
  {
    if eps != [] {
      var init := eps[..|eps| - 1];
      SelectedCounts(init, from, to, e);
      assert eps == init + [eps[|eps| - 1]];
    }
  }

  /** An episode is selected exactly when it is in the feed and its number is in range. */
  lemma {:induction false} SelectedMembers(eps: seq<Episode>, from: int, to: int)
    ensures forall e :: e in Selected(eps, from, to) <==> e in eps && InRange(e, from, to)
  {
    forall e ensures e in Selected(eps, from, to) <==> e in eps && InRange(e, from, to) {
      SelectedCounts(eps, from, to, e);
    }
  }

  /** The selection is empty exactly when no episode of the feed is in range; in particular when from > to. */
  lemma {:induction false} SelectedEmpty(eps: seq<Episode>, from: int, to: int)
    ensures Selected(eps, from, to) == [] <==> forall e :: e in eps ==> !InRange(e, from, to)
    ensures from > to ==> Selected(eps, from, to) == []
  {
    SelectedMembers(eps, from, to);
    var sel := Selected(eps, from, to);
    if sel != [] {
      assert sel[0] in sel;
    }
  }

  /** The publish prompt accepts "Y", "y" or an empty answer. */
  predicate Confirmed(answer: string)
  {
    answer == "Y" || answer == "y" || answer == ""
  }

  /** How `main` ends before processing, or the episodes it goes on to process. */
  datatype Outcome =
    | FetchFailed(reason: string)       // fetchFeed returned an error: failf, exit 1
    | IndexOutOfRange                   // Channel[0] on a feed without channels: panic
    | InvalidRange(answer: string)      // "<answer> is an invalid range": failf, exit 1
    | NoEpisodesSelected                // "no episodes selected": failf, exit 1
    | Declined                          // publish not confirmed: return, exit 0
    | Authenticate(selected: seq<Episode>)  // go on to authedClient and process

  /**
   * `main` up to authentication.  `feed` is what fetching and decoding the
   * feed gave; `rangeAnswer` and `confirmAnswer` are the two answers read
   * from standard input.
   */
  method Run(feed: Result<Rss, string>, rangeAnswer: string, confirmAnswer: string) returns (o: Outcome)
    ensures feed.Failure? ==> o == FetchFailed(feed.error)
    ensures feed.Success? && feed.value.channels == [] ==> o == IndexOutOfRange
    ensures feed.Success? && feed.value.channels != [] ==>
      var r := ParseRange(rangeAnswer);
      var sel := Selected(ItemEpisodes(feed.value.channels[0].items), r.first, r.last);
      if r.err.Some? then o == InvalidRange(rangeAnswer)
      else if sel == [] then o == NoEpisodesSelected
      else if !Confirmed(confirmAnswer) then o == Declined
      else o == Authenticate(sel)
    // Authentication is reached only with a valid range, a non-empty selection and a
    // confirmation; a declined prompt ends the run without authenticating.
    ensures o.Authenticate? ==>
      ParseRange(rangeAnswer).err.None? && o.selected != [] && Confirmed(confirmAnswer)
    ensures !Confirmed(confirmAnswer) ==> !o.Authenticate?
  {
    if feed.Failure? {
      return FetchFailed(feed.error);
    }
    if feed.value.channels == [] {
      return IndexOutOfRange;
    }
    var eps := EpisodesOf(feed.value);
    var r := ParseRange(rangeAnswer);
    if r.err.Some? {
      return InvalidRange(rangeAnswer);
    }
    var selected := Select(eps, r.first, r.last);
    if |selected| == 0 {
      return NoEpisodesSelected;
    }
    if !Confirmed(confirmAnswer) {
      return Declined;
    }
    return Authenticate(selected);
  }

  /** `failf("episode %d: %v\n", ...)` after `process` failed on an episode. */
  datatype EpisodeFailure = EpisodeFailure(number: int, reason: string)

  /**
   * The processing loop of `main`: episodes are processed in order and the
   * first failure ends the run.  `results[k]` is what `process` returned for
   * the k-th selected episode (None for nil).  `done` counts the episodes
   * processed successfully before the run ended.
   */
  method PublishAll(selected: seq<Episode>, results: seq<Option<string>>)
    returns (done: nat, failure: Option<EpisodeFailure>)
    requires |results| == |selected|
    ensures done <= |selected|
    ensures forall k :: 0 <= k < done ==> results[k].None?
    ensures failure.None? <==> done == |selected|
    ensures failure.Some? ==>
      results[done].Some? && failure.value == EpisodeFailure(selected[done].number, results[done].value)
  {
    done := 0;
    while done < |selected|
      invariant done <= |selected|
      invariant forall k :: 0 <= k < done ==> results[k].None?
    {
      if results[done].Some? {
        return done, Some(EpisodeFailure(selected[done].number, results[done].value));
      }
      done := done + 1;
    }
    failure := None;
  }

  /** A feed numbered 1, 2, 3, 5 with the range [2, 10] selects 2, 3 and 5, in that order. */
  lemma SelectedExample(e1: Episode, e2: Episode, e3: Episode, e5: Episode)
    requires e1.number == 1 && e2.number == 2 && e3.number == 3 && e5.number == 5
    ensures Selected([e1, e2, e3, e5], 2, 10) == [e2, e3, e5]
  {
    assert [e1][..0] == [];
    assert Selected([e1], 2, 10) == [];
    assert [e1, e2][..1] == [e1];
    assert Selected([e1, e2], 2, 10) == [e2];
    assert [e1, e2, e3][..2] == [e1, e2];
    assert Selected([e1, e2, e3], 2, 10) == [e2, e3];
    assert [e1, e2, e3, e5][..3] == [e1, e2, e3];
  }
}
