/**
 * From the event log to per-case traces.  The log arrives as three
 * parallel columns (case id, timestamp, activity); they are zipped into
 * rows, the rows are grouped by case id with the groups in order of first
 * appearance, and each group is ordered by timestamp with a stable sort,
 * keeping only the activities.  Timestamps are modelled as integers.
 */
module Traces {

  datatype Event = Event(caseId: string, timestamp: int, activity: string)

  /** The columns zipped into rows; the zip stops at the end of the shortest column. */
  function Rows(caseIds: seq<string>, timestamps: seq<int>, activities: seq<string>): (rows: seq<Event>)
    ensures |rows| <= |caseIds| && |rows| <= |timestamps| && |rows| <= |activities|
    ensures |rows| == |caseIds| || |rows| == |timestamps| || |rows| == |activities|
    ensures forall i :: 0 <= i < |rows| ==> rows[i] == Event(caseIds[i], timestamps[i], activities[i])
  {
    if |caseIds| == 0 || |timestamps| == 0 || |activities| == 0 then []
    else [Event(caseIds[0], timestamps[0], activities[0])] + Rows(caseIds[1..], timestamps[1..], activities[1..])
  }

  // ---------------------------------------------------------------------
  // Grouping by case id

  /** The case id of every row, in row order. */
  function Ids(es: seq<Event>): (ids: seq<string>)
    ensures |ids| == |es|
    ensures forall i :: 0 <= i < |es| ==> ids[i] == es[i].caseId
  {
    if |es| == 0 then [] else Ids(es[..|es| - 1]) + [es[|es| - 1].caseId]
  }

  /** Each value of `xs` once, in order of its first occurrence. */
  function Dedup(xs: seq<string>): (d: seq<string>)
    ensures forall i, j :: 0 <= i < j < |d| ==> d[i] != d[j]
    ensures forall x :: x in d <==> x in xs
  {
    if |xs| == 0 then []
    else
      var d := Dedup(xs[..|xs| - 1]);
      assert xs == xs[..|xs| - 1] + [xs[|xs| - 1]];
      if xs[|xs| - 1] in d then d else d + [xs[|xs| - 1]]
  }

  /** The position of the first occurrence of `x` in `xs`. */
  function IndexOf(xs: seq<string>, x: string): (p: nat)
    requires x in xs
    ensures p < |xs| && xs[p] == x
    ensures forall q :: 0 <= q < p ==> xs[q] != x
  {
    if xs[0] == x then 0 else 1 + IndexOf(xs[1..], x)
  }

  /** A value occurring in a prefix is first found at the same place in the whole sequence. */
  lemma IndexOfPrefix(xs: seq<string>, n: nat, x: string)
    requires n <= |xs| && x in xs[..n]
    ensures x in xs && IndexOf(xs, x) == IndexOf(xs[..n], x)
  {
    var p := IndexOf(xs[..n], x);
    assert xs[p] == x;
  }

  /** The keys of the groups: `Dedup` lists them in order of first appearance in `xs`. */
  lemma {:induction false} DedupFirstAppearance(xs: seq<string>)
    ensures forall i, j :: 0 <= i < j < |Dedup(xs)| ==> IndexOf(xs, Dedup(xs)[i]) < IndexOf(xs, Dedup(xs)[j])
  {
    if |xs| > 0 {
      var n := |xs| - 1;
      var p := xs[..n];
      var d' := Dedup(p);
      DedupFirstAppearance(p);
      forall i | 0 <= i < |d'| ensures d'[i] in xs && IndexOf(xs, d'[i]) == IndexOf(p, d'[i]) {
        IndexOfPrefix(xs, n, d'[i]);
      }
      var d := Dedup(xs);
      if xs[n] !in d' {
        assert d == d' + [xs[n]];
        var q := IndexOf(xs, xs[n]);
        assert q == n;
        forall i, j | 0 <= i < j < |d| ensures IndexOf(xs, d[i]) < IndexOf(xs, d[j]) {
          if j == |d'| {
            assert d[i] == d'[i];
          } else {
            assert d[i] == d'[i] && d[j] == d'[j];
          }
        }
      }
    }
  }

  /** The distinct case ids of the rows, in order of first appearance. */
  function CaseKeys(rows: seq<Event>): seq<string>
  {
    Dedup(Ids(rows))
  }

  /** The rows of case `k`, in row order. */
  function Group(es: seq<Event>, k: string): (g: seq<Event>)
    ensures |g| <= |es|
    ensures forall i :: 0 <= i < |g| ==> g[i].caseId == k
  {
    if |es| == 0 then []
    else
      var g := Group(es[..|es| - 1], k);
      if es[|es| - 1].caseId == k then g + [es[|es| - 1]] else g
  }

  /** A group holds exactly the rows carrying its case id. */
  lemma {:induction false} GroupMembers(es: seq<Event>, k: string)
    ensures forall e :: e in Group(es, k) <==> e in es && e.caseId == k
  {
    if |es| > 0 {
      var n := |es| - 1;
      GroupMembers(es[..n], k);
      assert es == es[..n] + [es[n]];
    }
  }

  /** A group keeps every copy of its case's rows: each row occurs in it as often as in the log. */
  lemma {:induction false} GroupMultiplicity(es: seq<Event>, k: string)
    ensures forall e :: multiset(Group(es, k))[e] == if e.caseId == k then multiset(es)[e] else 0
  {
    if |es| > 0 {
      var n := |es| - 1;
      GroupMultiplicity(es[..n], k);
      assert es == es[..n] + [es[n]];
    }
  }

  /** The group of a case id that occurs in the rows is not empty; that of one that does not is. */
  lemma {:induction false} GroupEmptyIff(es: seq<Event>, k: string)
    ensures |Group(es, k)| == 0 <==> k !in Ids(es)
  {
    if |es| > 0 {
      var n := |es| - 1;
      GroupEmptyIff(es[..n], k);
      assert Ids(es) == Ids(es[..n]) + [es[n].caseId];
    }
  }

  /** The total size of the groups of the keys `ks`. */
  function GroupSizes(es: seq<Event>, ks: seq<string>): nat
  {
    if |ks| == 0 then 0 else GroupSizes(es, ks[..|ks| - 1]) + |Group(es, ks[|ks| - 1])|
  }

  /** How often `x` occurs in `xs`. */
  function Occurrences(xs: seq<string>, x: string): nat
  {
    if |xs| == 0 then 0 else Occurrences(xs[..|xs| - 1], x) + (if xs[|xs| - 1] == x then 1 else 0)
  }

  lemma {:induction false} OccurrencesDistinct(xs: seq<string>, x: string)
    requires forall i, j :: 0 <= i < j < |xs| ==> xs[i] != xs[j]
    ensures Occurrences(xs, x) == if x in xs then 1 else 0
  {
    if |xs| > 0 {
      var n := |xs| - 1;
      OccurrencesDistinct(xs[..n], x);
      assert xs == xs[..n] + [xs[n]];
    }
  }

  /** One more row adds one to the size of exactly the groups of its case id. */
  lemma {:induction false} GroupSizesStep(es: seq<Event>, e: Event, ks: seq<string>)
    ensures GroupSizes(es + [e], ks) == GroupSizes(es, ks) + Occurrences(ks, e.caseId)
  {
    if |ks| > 0 {
      GroupSizesStep(es, e, ks[..|ks| - 1]);
      assert (es + [e])[..|es|] == es;
    }
  }

  /** Every row lands in exactly one group: the group sizes add up to the number of rows. */
  lemma {:induction false} GroupsCoverRows(es: seq<Event>)
    ensures GroupSizes(es, CaseKeys(es)) == |es|
  {
    if |es| > 0 {
      var n := |es| - 1;
      var e := es[n];
      var prefix := es[..n];
      assert es == prefix + [e];
      GroupsCoverRows(prefix);
      var keys' := CaseKeys(prefix);
      assert Ids(es)[..n] == Ids(prefix);
      assert Ids(es) == Ids(prefix) + [e.caseId];
      GroupSizesStep(prefix, e, keys');
      OccurrencesDistinct(keys', e.caseId);
      if e.caseId !in keys' {
        assert CaseKeys(es) == keys' + [e.caseId];
        assert (keys' + [e.caseId])[..|keys'|] == keys';
        GroupEmptyIff(prefix, e.caseId);
      }
    }
  }

  /** The rows of the groups of the keys `ks`, taken together. */
  function GroupsMultiset(es: seq<Event>, ks: seq<string>): multiset<Event>
  {
    if |ks| == 0 then multiset{} else GroupsMultiset(es, ks[..|ks| - 1]) + multiset(Group(es, ks[|ks| - 1]))
  }

  /** Over pairwise different keys, a row occurs as often as in the log if its key is among them, else never. */
  lemma {:induction false} GroupsMultisetAt(es: seq<Event>, ks: seq<string>, e: Event)
    requires forall i, j :: 0 <= i < j < |ks| ==> ks[i] != ks[j]
    ensures GroupsMultiset(es, ks)[e] == if e.caseId in ks then multiset(es)[e] else 0
  {
    if |ks| > 0 {
      var n := |ks| - 1;
      GroupsMultisetAt(es, ks[..n], e);
      GroupMultiplicity(es, ks[n]);
      assert ks == ks[..n] + [ks[n]];
    }
  }

  /** The groups split the rows: together they hold every row exactly as often as the log does. */
  lemma GroupsPartitionRows(es: seq<Event>)
    ensures GroupsMultiset(es, CaseKeys(es)) == multiset(es)
  {
    forall e ensures GroupsMultiset(es, CaseKeys(es))[e] == multiset(es)[e] {
      GroupsMultisetAt(es, CaseKeys(es), e);
      if e in es {
        var i :| 0 <= i < |es| && es[i] == e;
        assert Ids(es)[i] == e.caseId;
      }
    }
  }

  // ---------------------------------------------------------------------
  // Stable ordering by timestamp

  predicate SortedByTime(t: seq<Event>)
  {
    forall i, j :: 0 <= i < j < |t| ==> t[i].timestamp <= t[j].timestamp
  }

  /** `x` placed before the first element of `t` that is not earlier than it. */
  function InsertByTime(x: Event, t: seq<Event>): (r: seq<Event>)
    ensures |r| == |t| + 1
  {
    if |t| == 0 || x.timestamp <= t[0].timestamp then [x] + t
    else [t[0]] + InsertByTime(x, t[1..])
  }

  /** Insertion sort, each row inserted into the ordered rows after it. */
  function SortByTime(es: seq<Event>): (r: seq<Event>)
    ensures |r| == |es|
  {
    if |es| == 0 then [] else InsertByTime(es[0], SortByTime(es[1..]))
  }

  lemma {:induction false} InsertSorted(x: Event, t: seq<Event>)
    requires SortedByTime(t)
    ensures SortedByTime(InsertByTime(x, t))
    ensures InsertByTime(x, t)[0].timestamp == if |t| == 0 || x.timestamp <= t[0].timestamp then x.timestamp else t[0].timestamp
  {
    if |t| > 0 && x.timestamp > t[0].timestamp {
      InsertSorted(x, t[1..]);
    }
  }

  /** The order is by timestamp. */
  lemma {:induction false} SortSorted(es: seq<Event>)
    ensures SortedByTime(SortByTime(es))
  {
    if |es| > 0 {
      SortSorted(es[1..]);
      InsertSorted(es[0], SortByTime(es[1..]));
    }
  }

  lemma {:induction false} InsertPermutes(x: Event, t: seq<Event>)
    ensures multiset(InsertByTime(x, t)) == multiset{x} + multiset(t)
  {
    if |t| > 0 && x.timestamp > t[0].timestamp {
      InsertPermutes(x, t[1..]);
      assert t == [t[0]] + t[1..];
    }
  }

  /** The order is a rearrangement of the rows. */
  lemma {:induction false} SortPermutes(es: seq<Event>)
    ensures multiset(SortByTime(es)) == multiset(es)
  {
    if |es| > 0 {
      SortPermutes(es[1..]);
      InsertPermutes(es[0], SortByTime(es[1..]));
      assert es == [es[0]] + es[1..];
    }
  }

  /** The rows with timestamp `v`, in order. */
  function AtTime(t: seq<Event>, v: int): seq<Event>
  {
    if |t| == 0 then [] else (if t[0].timestamp == v then [t[0]] else []) + AtTime(t[1..], v)
  }

  lemma {:induction false} InsertAtTime(x: Event, t: seq<Event>, v: int)
    ensures AtTime(InsertByTime(x, t), v) == (if x.timestamp == v then [x] else []) + AtTime(t, v)
  {
    if |t| == 0 || x.timestamp <= t[0].timestamp {
      assert ([x] + t)[1..] == t;
    } else {
      InsertAtTime(x, t[1..], v);
      assert ([t[0]] + InsertByTime(x, t[1..]))[1..] == InsertByTime(x, t[1..]);
    }
  }

  lemma {:induction false} AtTimeAppend(t: seq<Event>, x: Event, v: int)
    ensures AtTime(t + [x], v) == AtTime(t, v) + (if x.timestamp == v then [x] else [])
  {
    if |t| > 0 {
      AtTimeAppend(t[1..], x, v);
      assert (t + [x])[1..] == t[1..] + [x];
    }
  }

  lemma GroupAppend(t: seq<Event>, x: Event, k: string)
    ensures Group(t + [x], k) == Group(t, k) + (if x.caseId == k then [x] else [])
  {
    assert (t + [x])[..|t|] == t;
  }

  /** Within a group, the rows of one timestamp are the log's rows of that case and timestamp, in log order. */
  lemma {:induction false} GroupAtTime(es: seq<Event>, k: string, v: int)
    ensures AtTime(Group(es, k), v) == Group(AtTime(es, v), k)
  {
    if |es| > 0 {
      var n := |es| - 1;
      var p, x := es[..n], es[n];
      var both: seq<Event> := if x.caseId == k && x.timestamp == v then [x] else [];
      GroupAtTime(p, k, v);
      assert es == p + [x];
      GroupAppend(p, x, k);
      AtTimeAppend(p, x, v);
      AtTimeAppend(Group(p, k), x, v);
      GroupAppend(AtTime(p, v), x, k);
      assert AtTime(Group(es, k), v) == AtTime(Group(p, k), v) + both;
      if x.timestamp == v {
        assert AtTime(es, v) == AtTime(p, v) + [x];
      } else {
        assert AtTime(es, v) == AtTime(p, v);
      }
    }
  }

  /** The order is stable: rows with equal timestamps keep their relative order. */
  lemma {:induction false} SortStable(es: seq<Event>, v: int)
    ensures AtTime(SortByTime(es), v) == AtTime(es, v)
  {
    if |es| > 0 {
      SortStable(es[1..], v);
      InsertAtTime(es[0], SortByTime(es[1..]), v);
    }
  }

  // ---------------------------------------------------------------------
  // Traces

  /** The activity of every row, in order. */
  function Activities(es: seq<Event>): (acts: seq<string>)
    ensures |acts| == |es|
    ensures forall i :: 0 <= i < |es| ==> acts[i] == es[i].activity
  {
    if |es| == 0 then [] else [es[0].activity] + Activities(es[1..])
  }

  lemma {:induction false} ActivitiesInsert(x: Event, t: seq<Event>)
    ensures multiset(Activities(InsertByTime(x, t))) == multiset{x.activity} + multiset(Activities(t))
  {
    if |t| == 0 || x.timestamp <= t[0].timestamp {
      assert ([x] + t)[1..] == t;
    } else {
      ActivitiesInsert(x, t[1..]);
      assert ([t[0]] + InsertByTime(x, t[1..]))[1..] == InsertByTime(x, t[1..]);
      assert Activities(t) == [t[0].activity] + Activities(t[1..]);
    }
  }

  /** Ordering the rows keeps every activity as often as it occurs. */
  lemma {:induction false} ActivitiesSort(es: seq<Event>)
    ensures multiset(Activities(SortByTime(es))) == multiset(Activities(es))
  {
    if |es| > 0 {
      ActivitiesSort(es[1..]);
      ActivitiesInsert(es[0], SortByTime(es[1..]));
    }
  }

  /** The trace of case `k`: its activities ordered by timestamp. */
  function CaseTrace(rows: seq<Event>, k: string): seq<string>
  {
    Activities(SortByTime(Group(rows, k)))
  }

  /** The traces of the cases `ks`, in that order. */
  function CaseTraces(rows: seq<Event>, ks: seq<string>): (cases: seq<seq<string>>)
    ensures |cases| == |ks|
  {
    if |ks| == 0 then [] else CaseTraces(rows, ks[..|ks| - 1]) + [CaseTrace(rows, ks[|ks| - 1])]
  }

  /** The log as one trace per case, cases in order of first appearance. */
  function Cases(caseIds: seq<string>, timestamps: seq<int>, activities: seq<string>): seq<seq<string>>
  {
    var rows := Rows(caseIds, timestamps, activities);
    CaseTraces(rows, CaseKeys(rows))
  }

  /** Trace `i` belongs to the `i`-th distinct case id. */
  lemma {:induction false} CaseTracesAt(rows: seq<Event>, ks: seq<string>)
    ensures forall i :: 0 <= i < |ks| ==> CaseTraces(rows, ks)[i] == CaseTrace(rows, ks[i])
  {
    if |ks| > 0 {
      var n := |ks| - 1;
      CaseTracesAt(rows, ks[..n]);
      assert forall i :: 0 <= i < n ==> ks[..n][i] == ks[i];
    }
  }

  /** The total length of the traces. */
  function TotalLength(cases: seq<seq<string>>): nat
  {
    if |cases| == 0 then 0 else TotalLength(cases[..|cases| - 1]) + |cases[|cases| - 1]|
  }

  lemma {:induction false} CaseTracesLength(rows: seq<Event>, ks: seq<string>)
    ensures TotalLength(CaseTraces(rows, ks)) == GroupSizes(rows, ks)
  {
    if |ks| > 0 {
      var n := |ks| - 1;
      CaseTracesLength(rows, ks[..n]);
      var cs := CaseTraces(rows, ks);
      assert cs[..n] == CaseTraces(rows, ks[..n]);
    }
  }

  /**
   * There is one trace per distinct case id, none of them empty; the
   * groups behind the traces hold every row exactly as often as the log
   * does, and trace `i` holds the activities of the `i`-th group, each as
   * often as it occurs there; in total the traces are as long as the log.
   */
  lemma CasesPartitionRows(caseIds: seq<string>, timestamps: seq<int>, activities: seq<string>)
    ensures var rows := Rows(caseIds, timestamps, activities);
            var ks := CaseKeys(rows);
            var cases := Cases(caseIds, timestamps, activities);
            |cases| == |ks| &&
            GroupsMultiset(rows, ks) == multiset(rows) &&
            (forall i :: 0 <= i < |cases| ==>
               |cases[i]| > 0 && multiset(cases[i]) == multiset(Activities(Group(rows, ks[i])))) &&
            TotalLength(cases) == |rows|
  {
    var rows := Rows(caseIds, timestamps, activities);
    var ks := CaseKeys(rows);
    CaseTracesAt(rows, ks);
    forall i | 0 <= i < |ks|
      ensures |CaseTrace(rows, ks[i])| > 0
      ensures multiset(CaseTrace(rows, ks[i])) == multiset(Activities(Group(rows, ks[i])))
    {
      GroupEmptyIff(rows, ks[i]);
      ActivitiesSort(Group(rows, ks[i]));
    }
    GroupsPartitionRows(rows);
    CaseTracesLength(rows, ks);
    GroupsCoverRows(rows);
  }

  /**
   * Each trace lists its case's activities by timestamp, rows that come
   * earlier in the log first among equal timestamps.
   */
  lemma CaseTraceOrdered(rows: seq<Event>, k: string)
    ensures var sorted := SortByTime(Group(rows, k));
            CaseTrace(rows, k) == Activities(sorted) &&
            SortedByTime(sorted) &&
            multiset(sorted) == multiset(Group(rows, k)) &&
            forall v :: AtTime(sorted, v) == Group(AtTime(rows, v), k)
  {
    var g := Group(rows, k);
    SortSorted(g);
    SortPermutes(g);
    forall v ensures AtTime(SortByTime(g), v) == Group(AtTime(rows, v), k) {
      SortStable(g, v);
      GroupAtTime(rows, k, v);
    }
  }
}
