/**
 * The history view: a copy of the log sorted newest first by the time of
 * each action, with a stable sort. Sequences are values, so sorting the
 * copy cannot reorder the log it was taken from.
 */
module History {
  import opened Ranking
  import opened Calendar
  import opened Home

  /** Later actions rank first. */
  function Recency(e: HistoryEntry): Rank {
    Rank(-e.actionAt, 0)
  }

  /** The history view's copy of the log: the same entries, each as often as in the log. */
  function SortedHistory(history: seq<HistoryEntry>): (r: seq<HistoryEntry>)
    ensures multiset(r) == multiset(history) && |r| == |history|
  {
    var r := SortByRank(history, Recency);
    SortPermutation(history, Recency);
    assert |multiset(r)| == |multiset(history)|;
    r
  }

  /** The entries of `s` whose action time is `at`, in their order in `s`. */
  function LoggedAt(s: seq<HistoryEntry>, at: Time): (r: seq<HistoryEntry>)
    ensures forall e :: e in r <==> e in s && e.actionAt == at
  {
    var r := Select(s, Recency, Rank(-at, 0));
    forall e ensures e in r <==> e in s && e.actionAt == at {
      SelectMember(s, Recency, Rank(-at, 0), e);
    }
    r
  }

  /** Action times never increase along the sorted copy. */
  lemma SortedHistoryDescending(history: seq<HistoryEntry>)
    ensures var r := SortedHistory(history);
      forall i, j :: 0 <= i < j < |r| ==> r[i].actionAt >= r[j].actionAt
  {
    SortSorted(history, Recency);
  }

  /** Entries with the same action time keep their order from the log. */
  lemma SortedHistoryStable(history: seq<HistoryEntry>, at: Time)
    ensures LoggedAt(SortedHistory(history), at) == LoggedAt(history, at)
  {
    SortStable(history, Recency);
  }

  /** Any newest-first ordering of the log that keeps ties in log order is the sorted copy. */
  lemma SortedHistoryUnique(history: seq<HistoryEntry>, out: seq<HistoryEntry>)
    requires forall i, j :: 0 <= i < j < |out| ==> out[i].actionAt >= out[j].actionAt
    requires forall at :: LoggedAt(out, at) == LoggedAt(history, at)
    ensures out == SortedHistory(history)
  {
    forall k ensures Select(out, Recency, k) == Select(history, Recency, k) {
      if k.minor == 0 {
        assert LoggedAt(out, -k.major) == LoggedAt(history, -k.major);
      } else {
        NoneSelected(out, k);
        NoneSelected(history, k);
      }
    }
    SortUnique(history, out, Recency);
  }

  /** No entry has a rank whose second component is not zero. */
  lemma NoneSelected(s: seq<HistoryEntry>, k: Rank)
    requires k.minor != 0
    ensures Select(s, Recency, k) == []
  {
    var r := Select(s, Recency, k);
    if r != [] {
      SelectMember(s, Recency, k, r[0]);
    }
  }
}
