/**
 * The aggregation step `publishMessages` (src/lib/publisher.ts) and
 * `enqueueEmailMessages` (src/lib/email.ts) share: every item's send is
 * caught into a success or failure outcome, `Promise.all` keeps the outcomes
 * in item order, the outcomes are split into successful and failed ids, and
 * two log lines summarise the batch.
 */
module Fanout {
  import opened Wrappers
  import opened Text

  datatype LogLine = Info(text: string) | Warn(text: string)

  /** `items.map(f)`. */
  function Each<A, B>(items: seq<A>, f: A -> B): (r: seq<B>)
    ensures |r| == |items|
    ensures forall i :: 0 <= i < |items| ==> r[i] == f(items[i])
    decreases |items|
  {
    if items == [] then [] else [f(items[0])] + Each(items[1..], f)
  }

  /** `results.filter((job) => job.result === want).map(({ atfId }) => atfId)`, from position `i` on. */
  function SelectFrom<T>(ids: seq<T>, delivered: seq<bool>, want: bool, i: nat): seq<T>
    requires |ids| == |delivered| && i <= |ids|
    decreases |ids| - i
  {
    if i == |ids| then []
    else (if delivered[i] == want then [ids[i]] else []) + SelectFrom(ids, delivered, want, i + 1)
  }

  function Select<T>(ids: seq<T>, delivered: seq<bool>, want: bool): seq<T>
    requires |ids| == |delivered|
  {
    SelectFrom(ids, delivered, want, 0)
  }

  /** The positions from `i` on whose outcome is `want`, in increasing order. */
  function PositionsFrom(delivered: seq<bool>, want: bool, i: nat): (ps: seq<nat>)
    requires i <= |delivered|
    ensures forall k :: 0 <= k < |ps| ==> i <= ps[k] < |delivered|
    decreases |delivered| - i
  {
    if i == |delivered| then []
    else (if delivered[i] == want then [i] else []) + PositionsFrom(delivered, want, i + 1)
  }

  /** Each listed position has outcome `want`. */
  predicate AllHaveOutcome(delivered: seq<bool>, ps: seq<nat>, want: bool)
  {
    forall k :: 0 <= k < |ps| ==> ps[k] < |delivered| && delivered[ps[k]] == want
  }

  /** Each position is larger than the one before it. */
  predicate Increasing(ps: seq<nat>)
  {
    forall k :: 0 < k < |ps| ==> ps[k - 1] < ps[k]
  }

  /** Every position from `i` on with outcome `want` is listed. */
  predicate CoversFrom(delivered: seq<bool>, ps: seq<nat>, want: bool, i: nat)
  {
    forall j :: i <= j < |delivered| && delivered[j] == want ==> j in ps
  }

  lemma {:induction false} PositionsHaveOutcome(delivered: seq<bool>, want: bool, i: nat)
    requires i <= |delivered|
    ensures AllHaveOutcome(delivered, PositionsFrom(delivered, want, i), want)
    decreases |delivered| - i
  {
    if i < |delivered| {
      var ps := PositionsFrom(delivered, want, i);
      var rest := PositionsFrom(delivered, want, i + 1);
      PositionsHaveOutcome(delivered, want, i + 1);
      if delivered[i] == want {
        assert ps == [i] + rest;
        forall k | 0 < k < |ps|
          ensures delivered[ps[k]] == want
        {
          assert ps[k] == rest[k - 1];
        }
      } else {
        assert ps == rest;
      }
    }
  }

  lemma {:induction false} PositionsIncrease(delivered: seq<bool>, want: bool, i: nat)
    requires i <= |delivered|
    ensures Increasing(PositionsFrom(delivered, want, i))
    decreases |delivered| - i
  {
    if i < |delivered| {
      var ps := PositionsFrom(delivered, want, i);
      var rest := PositionsFrom(delivered, want, i + 1);
      PositionsIncrease(delivered, want, i + 1);
      if delivered[i] == want {
        assert ps == [i] + rest;
        forall k | 0 < k < |ps|
          ensures ps[k - 1] < ps[k]
        {
          assert ps[k] == rest[k - 1];
          if k > 1 {
            assert ps[k - 1] == rest[k - 2];
          }
        }
      } else {
        assert ps == rest;
      }
    }
  }

  lemma {:induction false} PositionsComplete(delivered: seq<bool>, want: bool, i: nat)
    requires i <= |delivered|
    ensures CoversFrom(delivered, PositionsFrom(delivered, want, i), want, i)
    decreases |delivered| - i
  {
    if i < |delivered| {
      var ps := PositionsFrom(delivered, want, i);
      var rest := PositionsFrom(delivered, want, i + 1);
      assert CoversFrom(delivered, rest, want, i + 1) by {
        PositionsComplete(delivered, want, i + 1);
      }
      if delivered[i] == want {
        assert ps == [i] + rest;
        forall j | i <= j < |delivered| && delivered[j] == want
          ensures j in ps
        {
          if j == i {
            assert ps[0] == i;
          } else {
            assert j in rest;
          }
        }
      } else {
        assert ps == rest;
      }
    }
  }

  /** The positions listed are exactly those from `i` on with outcome `want`, in increasing order. */
  lemma PositionsFromSpec(delivered: seq<bool>, want: bool, i: nat)
    requires i <= |delivered|
    ensures var ps := PositionsFrom(delivered, want, i);
      AllHaveOutcome(delivered, ps, want) && Increasing(ps) && CoversFrom(delivered, ps, want, i)
  {
    PositionsHaveOutcome(delivered, want, i);
    PositionsIncrease(delivered, want, i);
    PositionsComplete(delivered, want, i);
  }

  /** The selected ids are exactly the ids at the selected positions, in input order. */
  lemma {:induction false} SelectFromIsInOrder<T>(ids: seq<T>, delivered: seq<bool>, want: bool, i: nat)
    requires |ids| == |delivered| && i <= |ids|
    ensures var ps := PositionsFrom(delivered, want, i);
      var s := SelectFrom(ids, delivered, want, i);
      |s| == |ps| && forall k :: 0 <= k < |ps| ==> s[k] == ids[ps[k]]
    decreases |ids| - i
  {
    if i < |ids| {
      var ps := PositionsFrom(delivered, want, i);
      var rest := PositionsFrom(delivered, want, i + 1);
      var s := SelectFrom(ids, delivered, want, i);
      var tail := SelectFrom(ids, delivered, want, i + 1);
      assert |tail| == |rest| && forall k :: 0 <= k < |rest| ==> tail[k] == ids[rest[k]] by {
        SelectFromIsInOrder(ids, delivered, want, i + 1);
      }
      if delivered[i] == want {
        assert ps == [i] + rest;
        assert s == [ids[i]] + tail;
        forall k | 0 <= k < |ps|
          ensures s[k] == ids[ps[k]]
        {
          if k > 0 {
            assert ps[k] == rest[k - 1];
            assert s[k] == tail[k - 1];
          }
        }
      } else {
        assert ps == rest;
        assert s == tail;
      }
    }
  }

  lemma SelectIsInOrder<T>(ids: seq<T>, delivered: seq<bool>, want: bool)
    requires |ids| == |delivered|
    ensures var ps := PositionsFrom(delivered, want, 0);
      var s := Select(ids, delivered, want);
      |s| == |ps| && forall k :: 0 <= k < |ps| ==> s[k] == ids[ps[k]]
  {
    SelectFromIsInOrder(ids, delivered, want, 0);
  }

  /** One step of a selection, seen as a multiset. */
  lemma SelectFromStep<T>(ids: seq<T>, delivered: seq<bool>, want: bool, i: nat)
    requires |ids| == |delivered| && i < |ids|
    ensures multiset(SelectFrom(ids, delivered, want, i))
      == (if delivered[i] == want then multiset{ids[i]} else multiset{}) + multiset(SelectFrom(ids, delivered, want, i + 1))
  {
  }

  /** Every id from position `i` on lands in exactly one of the two selections. */
  lemma {:induction false} SelectFromPartitions<T>(ids: seq<T>, delivered: seq<bool>, i: nat)
    requires |ids| == |delivered| && i <= |ids|
    ensures multiset(SelectFrom(ids, delivered, true, i)) + multiset(SelectFrom(ids, delivered, false, i))
      == multiset(ids[i..])
    decreases |ids| - i
  {
    if i < |ids| {
      var yes := multiset(SelectFrom(ids, delivered, true, i + 1));
      var no := multiset(SelectFrom(ids, delivered, false, i + 1));
      var here := multiset{ids[i]};
      assert yes + no == multiset(ids[i + 1..]) by {
        SelectFromPartitions(ids, delivered, i + 1);
      }
      assert multiset(ids[i..]) == here + multiset(ids[i + 1..]) by {
        assert ids[i..] == [ids[i]] + ids[i + 1..];
      }
      assert multiset(SelectFrom(ids, delivered, true, i)) + multiset(SelectFrom(ids, delivered, false, i))
        == here + (yes + no) by {
        SelectFromStep(ids, delivered, true, i);
        SelectFromStep(ids, delivered, false, i);
        if delivered[i] {
        } else {
        }
      }
    } else {
      assert ids[i..] == [];
    }
  }

  /** Nothing from position `i` on is selected as failed exactly when all those outcomes are successes. */
  lemma {:induction false} NoFailuresFrom<T>(ids: seq<T>, delivered: seq<bool>, i: nat)
    requires |ids| == |delivered| && i <= |ids|
    ensures SelectFrom(ids, delivered, false, i) == [] <==> forall j :: i <= j < |delivered| ==> delivered[j]
    decreases |ids| - i
  {
    if i < |ids| {
      NoFailuresFrom(ids, delivered, i + 1);
    }
  }

  /** The successful and failed ids of one batch. */
  datatype Tally = Tally(successful: seq<string>, failed: seq<string>)

  /** Splits the outcomes, aligned with `ids`, into successful and failed ids. */
  function TallyOutcomes(ids: seq<string>, delivered: seq<bool>): (t: Tally)
    requires |ids| == |delivered|
    ensures |t.successful| + |t.failed| == |ids|
    ensures multiset(t.successful) + multiset(t.failed) == multiset(ids)
    ensures t.failed == [] <==> forall i :: 0 <= i < |delivered| ==> delivered[i]
    ensures |t.successful| == |ids| <==> t.failed == []
  {
    SelectFromPartitions(ids, delivered, 0);
    assert |Select(ids, delivered, true)| + |Select(ids, delivered, false)| == |multiset(ids)|;
    NoFailuresFrom(ids, delivered, 0);
    assert ids[0..] == ids;
    Tally(Select(ids, delivered, true), Select(ids, delivered, false))
  }

  /** The fixed phrases of one caller's summary lines. */
  datatype Wording = Wording(allDone: string, failurePrefix: string, countSubject: string)

  /** `<subject> processed: N, successful: K, failed: F.` */
  function CountLine(subject: string, processed: nat, successful: nat, failed: nat): string
  {
    subject + " processed: " + NatToString(processed)
      + ", successful: " + NatToString(successful)
      + ", failed: " + NatToString(failed) + "."
  }

  /**
   * The summary: the "all done" info line when every item was sent
   * (`promises.length === successful.length`), otherwise one warning naming
   * the failed ids joined by ", "; then always the count line.
   */
  function Summary(w: Wording, total: nat, t: Tally): (log: seq<LogLine>)
    ensures |log| == 2 && log[1].Info?
    ensures log[0].Info? <==> total == |t.successful|
    ensures log[0].Info? ==> log[0].text == w.allDone
    ensures log[0].Warn? ==> log[0].text == w.failurePrefix + Join(t.failed, ", ")
    ensures ParseCountLine(w.countSubject, log[1].text) == Some((total, |t.successful|, |t.failed|))
  {
    ParseCountLineRoundTrip(w.countSubject, total, |t.successful|, |t.failed|);
    var first := if total == |t.successful| then Info(w.allDone) else Warn(w.failurePrefix + Join(t.failed, ", "));
    [first, Info(CountLine(w.countSubject, total, |t.successful|, |t.failed|))]
  }

  function StripPrefix(prefix: string, s: string): (r: Option<string>)
    ensures r.Some? ==> s == prefix + r.value
  {
    if prefix <= s then Some(s[|prefix|..]) else None
  }

  /** Strips `prefix`, then reads a number. */
  function ExpectNat(prefix: string, s: string): Option<(nat, string)>
  {
    match StripPrefix(prefix, s)
    case None => None
    case Some(rest) => ReadNat(rest)
  }

  /** Reads the three counts back out of a count line. */
  function ParseCountLine(subject: string, line: string): Option<(nat, nat, nat)>
  {
    match ExpectNat(subject + " processed: ", line)
    case None => None
    case Some((n, s1)) =>
      match ExpectNat(", successful: ", s1)
      case None => None
      case Some((k, s2)) =>
        match ExpectNat(", failed: ", s2)
        case None => None
        case Some((f, s3)) => if s3 == "." then Some((n, k, f)) else None
  }

  lemma StripPrefixOf(prefix: string, rest: string)
    ensures StripPrefix(prefix, prefix + rest) == Some(rest)
  {
    assert prefix <= prefix + rest;
    assert (prefix + rest)[|prefix|..] == rest;
  }

  lemma ExpectNatOf(prefix: string, n: nat, rest: string)
    requires rest == [] || !IsDigit(rest[0])
    ensures ExpectNat(prefix, prefix + NatToString(n) + rest) == Some((n, rest))
  {
    assert prefix + NatToString(n) + rest == prefix + (NatToString(n) + rest);
    StripPrefixOf(prefix, NatToString(n) + rest);
    ReadNatToString(n, rest);
  }

  /** The count line states its three numbers recoverably. */
  lemma ParseCountLineRoundTrip(subject: string, n: nat, k: nat, f: nat)
    ensures ParseCountLine(subject, CountLine(subject, n, k, f)) == Some((n, k, f))
  {
    var tailK := ", failed: " + NatToString(f) + ".";
    var tailN := ", successful: " + NatToString(k) + tailK;
    assert CountLine(subject, n, k, f) == subject + " processed: " + NatToString(n) + tailN;
    ExpectNatOf(subject + " processed: ", n, tailN);
    ExpectNatOf(", successful: ", k, tailK);
    ExpectNatOf(", failed: ", f, ".");
  }

  /** Whatever `ExpectNat` reads is the prefix, the rendered number and the rest. */
  lemma ExpectNatInverse(prefix: string, s: string)
    requires ExpectNat(prefix, s).Some?
    ensures s == prefix + NatToString(ExpectNat(prefix, s).value.0) + ExpectNat(prefix, s).value.1
  {
    var rest := StripPrefix(prefix, s).value;
    ReadNatInverse(rest);
  }

  /** Three numbers read in turn after the count line's fixed phrases make up that count line. */
  lemma CountLineOfPieces(subject: string, line: string, s1: string, s2: string, n: nat, k: nat, f: nat)
    requires line == subject + " processed: " + NatToString(n) + s1
    requires s1 == ", successful: " + NatToString(k) + s2
    requires s2 == ", failed: " + NatToString(f) + "."
    ensures line == CountLine(subject, n, k, f)
  {
  }

  /** Whatever `ParseCountLine` accepts is the count line of the numbers it yields. */
  lemma {:induction false} ParseCountLineInverse(subject: string, line: string)
    requires ParseCountLine(subject, line).Some?
    ensures line == CountLine(subject,
      ParseCountLine(subject, line).value.0, ParseCountLine(subject, line).value.1, ParseCountLine(subject, line).value.2)
  {
    var r1 := ExpectNat(subject + " processed: ", line).value;
    var r2 := ExpectNat(", successful: ", r1.1).value;
    var r3 := ExpectNat(", failed: ", r2.1).value;
    assert r3.1 == "." && ParseCountLine(subject, line).value == (r1.0, r2.0, r3.0);
    ExpectNatInverse(subject + " processed: ", line);
    ExpectNatInverse(", successful: ", r1.1);
    ExpectNatInverse(", failed: ", r2.1);
    CountLineOfPieces(subject, line, r1.1, r2.1, r1.0, r2.0, r3.0);
  }

  /** A line reads back as three counts exactly when it is the count line `${n}` prints for them. */
  lemma CountLineExactly(subject: string, line: string, n: nat, k: nat, f: nat)
    ensures ParseCountLine(subject, line) == Some((n, k, f)) <==> line == CountLine(subject, n, k, f)
  {
    if ParseCountLine(subject, line) == Some((n, k, f)) {
      ParseCountLineInverse(subject, line);
    }
    if line == CountLine(subject, n, k, f) {
      ParseCountLineRoundTrip(subject, n, k, f);
    }
  }
}
