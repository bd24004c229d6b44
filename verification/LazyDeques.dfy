/**
 Deques that are expired lazily: an entry past its time stays until some call happens to look. The ideal deque
 never expires; `Kept` says how far a real one may lag behind it.
 */
module LazyDeques {
  import opened Collections

  // ---------- times ----------

  /** No call so far came later than `nowMs`. */
  ghost predicate NotBefore(times: set<int>, nowMs: int) {
    forall t :: t in times ==> t <= nowMs
  }

  /** Some call so far came more than `span` after `tsMs`. */
  ghost predicate Stale(tsMs: int, times: set<int>, span: int) {
    exists t :: t in times && tsMs < t - span
  }

  lemma StaleMonotone(tsMs: int, times: set<int>, span: int, nowMs: int)
    requires Stale(tsMs, times, span)
    ensures Stale(tsMs, times + {nowMs}, span)
  {
    var t :| t in times && tsMs < t - span;
    assert t in times + {nowMs};
  }

  // ---------- what a deque keeps of its ideal contents ----------

  /** `kept` lacks only a leading part of `ideal`, all of it made stale by some call so far. */
  ghost predicate Kept<T>(ts: T -> int, kept: seq<T>, ideal: seq<T>, times: set<int>, span: int) {
    && |kept| <= |ideal| && kept == ideal[|ideal| - |kept|..]
    && (forall k :: 0 <= k < |ideal| - |kept| ==> Stale(ts(ideal[k]), times, span))
  }

  lemma KeptAfterDrop<T>(ts: T -> int, kept: seq<T>, ideal: seq<T>, times: set<int>, span: int, nowMs: int, n: nat)
    requires Kept(ts, kept, ideal, times, span) && n <= |kept|
    requires forall k :: 0 <= k < n ==> ts(kept[k]) < nowMs - span
    ensures Kept(ts, kept[n..], ideal, times + {nowMs}, span)
  {
    var gone := |ideal| - |kept|;
    assert kept[n..] == ideal[gone + n..];
    assert nowMs in times + {nowMs};
    forall k | 0 <= k < gone + n ensures Stale(ts(ideal[k]), times + {nowMs}, span) {
      if k < gone {
        StaleMonotone(ts(ideal[k]), times, span, nowMs);
      } else {
        assert kept[k - gone] == ideal[k];
      }
    }
  }

  lemma KeptAfterAppend<T>(ts: T -> int, kept: seq<T>, ideal: seq<T>, e: T, times: set<int>, span: int, cap: nat)
    requires Kept(ts, kept, ideal, times, span)
    ensures Kept(ts, LastN(kept + [e], cap), LastN(ideal + [e], cap), times, span)
  {
    var kept', ideal' := LastN(kept + [e], cap), LastN(ideal + [e], cap);
    forall k | 0 <= k < |kept'| ensures kept'[k] == ideal'[|ideal'| - |kept'| + k] {
    }
    forall k | 0 <= k < |ideal'| - |kept'| ensures Stale(ts(ideal'[k]), times, span) {
      var shift := |ideal| + 1 - |ideal'|;
      assert ideal'[k] == ideal[k + shift];
    }
  }

  /** What is missing at a time no call so far is later than is too old to be seen. */
  lemma MissingIsOld<T>(ts: T -> int, kept: seq<T>, ideal: seq<T>, times: set<int>, span: int, nowMs: int)
    returns (gone: seq<T>)
    requires Kept(ts, kept, ideal, times, span) && NotBefore(times, nowMs)
    ensures ideal == gone + kept && forall e :: e in gone ==> ts(e) < nowMs - span
  {
    gone := ideal[..|ideal| - |kept|];
    forall e | e in gone ensures ts(e) < nowMs - span {
      var k :| 0 <= k < |gone| && gone[k] == e;
      assert Stale(ts(ideal[k]), times, span);
    }
  }
}
