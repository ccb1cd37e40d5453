/**
 * The usage count: a walk over every parsed workflow document that counts how
 * often each `uses` string occurs among the steps of its jobs.
 */
module Usage {
  import opened Wrappers
  import opened YamlTree

  /** The jobs the walk visits in one document: the values of its `jobs`
      property when that property is a (non-null) object; arrays included. */
  function Jobs(doc: Yaml): (r: seq<Yaml>)
    ensures r != [] ==> Property(doc, "jobs").Some? && IsObject(Property(doc, "jobs").value)
    ensures forall v | Property(doc, "jobs") == Some(v) && (v.YMap? || v.YSeq?) :: r == ObjectValues(v)
  {
    var jobs := Property(doc, "jobs");
    if jobs.Some? && (jobs.value.YMap? || jobs.value.YSeq?) then ObjectValues(jobs.value) else []
  }

  /** The steps the walk visits in one job: its `steps` property when that is an array. */
  function Steps(job: Yaml): (r: seq<Yaml>)
    ensures r != [] ==> Property(job, "steps") == Some(YSeq(r))
    ensures forall items | Property(job, "steps") == Some(YSeq(items)) :: r == items
  {
    var steps := Property(job, "steps");
    if steps.Some? && steps.value.YSeq? then steps.value.items else []
  }

  /** What one step contributes: its `uses` property when that is a string. */
  function StepUses(step: Yaml): (r: seq<string>)
    ensures |r| <= 1
    ensures forall u <- r :: Property(step, "uses") == Some(YStr(u))
    ensures forall u | Property(step, "uses") == Some(YStr(u)) :: r == [u]
  {
    var uses := Property(step, "uses");
    if uses.Some? && uses.value.YStr? then [uses.value.s] else []
  }

  /** The walk does not throw on `doc`: its `jobs` is not `null`, and no job and
      no step it dereferences is `null`. */
  predicate Walkable(doc: Yaml)
  {
    && Property(doc, "jobs") != Some(YNull)
    && forall job <- Jobs(doc) :: job != YNull && forall step <- Steps(job) :: step != YNull
  }

  /** The `uses` strings of a list of steps, in walk order. */
  function StepsUses(steps: seq<Yaml>): seq<string>
  {
    if steps == [] then [] else StepsUses(steps[..|steps| - 1]) + StepUses(steps[|steps| - 1])
  }

  /** The `uses` strings of a list of jobs, in walk order. */
  function JobsUses(jobs: seq<Yaml>): seq<string>
  {
    if jobs == [] then [] else JobsUses(jobs[..|jobs| - 1]) + StepsUses(Steps(jobs[|jobs| - 1]))
  }

  /** The `uses` strings of one document, in walk order. */
  function DocUses(doc: Yaml): seq<string>
  {
    JobsUses(Jobs(doc))
  }

  /** The `uses` strings of all documents, in walk order. */
  function AllUses(docs: seq<Yaml>): seq<string>
  {
    if docs == [] then [] else AllUses(docs[..|docs| - 1]) + DocUses(docs[|docs| - 1])
  }

  /** How many times `u` occurs in `s`. */
  function Occurrences(s: seq<string>, u: string): (n: nat)
    ensures n > 0 <==> u in s
    ensures n <= |s|
  {
    if s == [] then 0
    else Occurrences(s[..|s| - 1], u) + (if s[|s| - 1] == u then 1 else 0)
  }

  predicate NoDuplicates(s: seq<string>)
  {
    forall i, j | 0 <= i < j < |s| :: s[i] != s[j]
  }

  /** The distinct elements of `s`, in order of first occurrence (`FirstOccurrencesOrder`). */
  function FirstOccurrences(s: seq<string>): (r: seq<string>)
    ensures forall u :: u in r <==> u in s
    ensures NoDuplicates(r)
  {
    if s == [] then []
    else
      var p := FirstOccurrences(s[..|s| - 1]);
      if s[|s| - 1] in s[..|s| - 1] then p else p + [s[|s| - 1]]
  }

  /** `a` occurs in `s` before `b` does (and `b` may not occur at all). */
  ghost predicate SeenBefore(s: seq<string>, a: string, b: string)
  {
    exists k | 0 <= k < |s| :: s[k] == a && b !in s[..k + 1]
  }

  /** The keys come in order of first occurrence: each key occurs in `s` before any
      occurrence of a later key. */
  lemma {:induction false} FirstOccurrencesOrder(s: seq<string>)
    ensures forall i, j | 0 <= i < j < |FirstOccurrences(s)| ::
              SeenBefore(s, FirstOccurrences(s)[i], FirstOccurrences(s)[j])
  {
    if s != [] {
      var p, x := s[..|s| - 1], s[|s| - 1];
      assert s == p + [x];
      FirstOccurrencesOrder(p);
      var q, r := FirstOccurrences(p), FirstOccurrences(s);
      forall i, j | 0 <= i < j < |r|
        ensures SeenBefore(s, r[i], r[j])
      {
        if j < |q| {
          assert r[i] == q[i] && r[j] == q[j];
          assert SeenBefore(p, q[i], q[j]);
          var k :| 0 <= k < |p| && p[k] == q[i] && q[j] !in p[..k + 1];
          assert s[..k + 1] == p[..k + 1];
        } else {
          assert x !in p && r[j] == x && r[i] == q[i];
          assert q[i] in p;
          var k :| 0 <= k < |p| && p[k] == q[i];
          assert s[..k + 1] == p[..k + 1];
        }
      }
    }
  }

  /** A JavaScript object used as a counter: its keys in insertion order, and the count per key. */
  datatype UsageCount = UsageCount(order: seq<string>, count: map<string, nat>)

  /** `usage` holds, for the strings of `seen`, each distinct one in order of first
      occurrence, and how often it occurs. */
  ghost predicate Tallied(usage: UsageCount, seen: seq<string>)
  {
    && usage.order == FirstOccurrences(seen)
    && (forall u :: u in usage.count <==> u in seen)
    && forall u | u in usage.count :: usage.count[u] == Occurrences(seen, u)
  }

  /** The counter after one increment of `u` (a missing key counts as 0): a key seen for the
      first time goes to the end of the key order. */
  function Counted(usage: UsageCount, u: string): (next: UsageCount)
    ensures next.count.Keys == usage.count.Keys + {u}
    ensures next.count[u] == (if u in usage.count then usage.count[u] + 1 else 1)
    ensures forall x | x in usage.count && x != u :: next.count[x] == usage.count[x]
    ensures u in usage.count ==> next.order == usage.order
    ensures u !in usage.count ==> next.order == usage.order + [u]
  {
    UsageCount(if u in usage.count then usage.order else usage.order + [u],
               usage.count[u := (if u in usage.count then usage.count[u] else 0) + 1])
  }

  /** Counting one more string keeps the counter faithful to what it has seen. */
  lemma TallyStep(usage: UsageCount, seen: seq<string>, u: string)
    requires Tallied(usage, seen)
    ensures Tallied(Counted(usage, u), seen + [u])
  {
    var seen' := seen + [u];
    assert seen'[..|seen|] == seen;
    assert seen'[|seen|] == u;
    var next := Counted(usage, u);
    assert next.order == FirstOccurrences(seen');
    forall x
      ensures x in next.count <==> x in seen'
    {
    }
    forall x | x in next.count
      ensures next.count[x] == Occurrences(seen', x)
    {
      assert Occurrences(seen', x) == Occurrences(seen, x) + (if x == u then 1 else 0);
    }
  }

  /** The counter produced by counting the strings of `seen` one by one, starting
      from the empty object. */
  function Tally(seen: seq<string>): UsageCount
  {
    if seen == [] then UsageCount([], map[])
    else Counted(Tally(seen[..|seen| - 1]), seen[|seen| - 1])
  }

  /** Counting one by one yields each distinct string in order of first occurrence,
      with its number of occurrences. */
  lemma {:induction false} TallyMeaning(seen: seq<string>)
    ensures Tallied(Tally(seen), seen)
    decreases |seen|
  {
    if seen != [] {
      var prev := seen[..|seen| - 1];
      TallyMeaning(prev);
      assert seen == prev + [seen[|seen| - 1]];
      TallyStep(Tally(prev), prev, seen[|seen| - 1]);
    }
  }

  lemma AppendAssoc(a: seq<string>, b: seq<string>, c: seq<string>)
    ensures (a + b) + c == a + (b + c)
  {
  }

  lemma StepsUsesSnoc(items: seq<Yaml>, k: nat)
    requires k < |items|
    ensures StepsUses(items[..k + 1]) == StepsUses(items[..k]) + StepUses(items[k])
  {
    assert items[..k + 1][..k] == items[..k];
  }

  lemma JobsUsesSnoc(jobs: seq<Yaml>, j: nat)
    requires j < |jobs|
    ensures JobsUses(jobs[..j + 1]) == JobsUses(jobs[..j]) + StepsUses(Steps(jobs[j]))
  {
    assert jobs[..j + 1][..j] == jobs[..j];
  }

  /** One step: increments the count of its `uses` when that is a string. */
  method CountStep(usage: UsageCount, ghost seen: seq<string>, step: Yaml) returns (usage': UsageCount)
    requires step != YNull
    requires usage == Tally(seen)
    ensures usage' == Tally(seen + StepUses(step))
  {
    usage' := usage;
    var uses := Property(step, "uses");
    if uses.Some? && uses.value.YStr? {
      assert (seen + [uses.value.s])[..|seen|] == seen;
      usage' := Counted(usage, uses.value.s);
    } else {
      assert seen + StepUses(step) == seen;
    }
  }

  /** One job: every step of its `steps`, when that is an array. */
  method CountJob(usage: UsageCount, ghost seen: seq<string>, job: Yaml) returns (usage': UsageCount)
    requires job != YNull && forall step <- Steps(job) :: step != YNull
    requires usage == Tally(seen)
    ensures usage' == Tally(seen + StepsUses(Steps(job)))
  {
    usage' := usage;
    var steps := Property(job, "steps");
    if steps.Some? && steps.value.YSeq? {
      var items := steps.value.items;
      ghost var counted := seen;
      assert StepsUses(items[..0]) == [];
      for k := 0 to |items|
        invariant counted == seen + StepsUses(items[..k])
        invariant usage' == Tally(counted)
      {
        StepsUsesSnoc(items, k);
        assert items[k] in Steps(job);
        usage' := CountStep(usage', counted, items[k]);
        AppendAssoc(seen, StepsUses(items[..k]), StepUses(items[k]));
        counted := counted + StepUses(items[k]);
      }
      assert items[..|items|] == items;
    } else {
      assert seen + StepsUses(Steps(job)) == seen;
    }
  }

  /** One parsed file: every job of its `jobs`, when that is an object or an array. */
  method CountDocument(usage: UsageCount, ghost seen: seq<string>, doc: Yaml) returns (usage': UsageCount)
    requires Walkable(doc)
    requires usage == Tally(seen)
    ensures usage' == Tally(seen + DocUses(doc))
  {
    usage' := usage;
    var jobs := Property(doc, "jobs");
    if jobs.Some? && IsObject(jobs.value) {
      var values := ObjectValues(jobs.value);
      assert values == Jobs(doc);
      ghost var counted := seen;
      assert JobsUses(values[..0]) == [];
      for j := 0 to |values|
        invariant counted == seen + JobsUses(values[..j])
        invariant usage' == Tally(counted)
      {
        JobsUsesSnoc(values, j);
        assert values[j] in Jobs(doc);
        usage' := CountJob(usage', counted, values[j]);
        AppendAssoc(seen, JobsUses(values[..j]), StepsUses(Steps(values[j])));
        counted := counted + StepsUses(Steps(values[j]));
      }
      assert values[..|values|] == values;
    } else {
      assert Jobs(doc) == [];
      assert DocUses(doc) == [];
      assert seen + [] == seen;
    }
  }

  /**
   * Reads every document and counts, per `uses` string, the steps that carry it.
   * Documents without an object `jobs`, jobs without an array `steps` and steps
   * without a string `uses` are skipped.
   */
  method ReadYamlFiles(docs: seq<Yaml>) returns (usage: UsageCount)
    requires forall d <- docs :: Walkable(d)
    ensures usage.order == FirstOccurrences(AllUses(docs))
    ensures forall u :: u in usage.count <==> u in AllUses(docs)
    ensures forall u | u in usage.count :: usage.count[u] == Occurrences(AllUses(docs), u)
  {
    usage := UsageCount([], map[]);
    for i := 0 to |docs|
      invariant usage == Tally(AllUses(docs[..i]))
    {
      assert docs[i] in docs;
      assert docs[..i + 1][..i] == docs[..i];
      usage := CountDocument(usage, AllUses(docs[..i]), docs[i]);
    }
    assert docs[..|docs|] == docs;
    TallyMeaning(AllUses(docs));
  }

  /** The uses of a concatenation of document lists are the concatenation of their uses. */
  lemma {:induction false} AllUsesAppend(a: seq<Yaml>, b: seq<Yaml>)
    ensures AllUses(a + b) == AllUses(a) + AllUses(b)
    decreases |b|
  {
    if b != [] {
      var b' := b[..|b| - 1];
      assert (a + b)[..|a + b| - 1] == a + b';
      assert (a + b)[|a + b| - 1] == b[|b| - 1];
      AllUsesAppend(a, b');
      assert AllUses(a + b) == AllUses(a + b') + DocUses(b[|b| - 1]);
    } else {
      assert a + b == a;
    }
  }

  /** Occurrences add up over a concatenation. */
  lemma {:induction false} OccurrencesAppend(s: seq<string>, t: seq<string>, u: string)
    ensures Occurrences(s + t, u) == Occurrences(s, u) + Occurrences(t, u)
    decreases |t|
  {
    if t != [] {
      var t' := t[..|t| - 1];
      assert (s + t)[..|s + t| - 1] == s + t';
      assert (s + t)[|s + t| - 1] == t[|t| - 1];
      OccurrencesAppend(s, t', u);
    } else {
      assert s + t == s;
    }
  }

  /** The count of a string over several batches of documents is the sum of its counts per batch. */
  lemma CountOverBatches(a: seq<Yaml>, b: seq<Yaml>, u: string)
    ensures Occurrences(AllUses(a + b), u) == Occurrences(AllUses(a), u) + Occurrences(AllUses(b), u)
  {
    AllUsesAppend(a, b);
    OccurrencesAppend(AllUses(a), AllUses(b), u);
  }

  lemma FirstOccurrencesSnocKnown(p: seq<string>, x: string)
    requires x in p
    ensures FirstOccurrences(p + [x]) == FirstOccurrences(p)
  {
    assert (p + [x])[..|p|] == p;
  }

  /** Strings already seen add no key: the key order stays as it was. */
  lemma {:induction false} FirstOccurrencesKnown(s: seq<string>, t: seq<string>)
    requires forall u <- t :: u in s
    ensures FirstOccurrences(s + t) == FirstOccurrences(s)
    decreases |t|
  {
    if t == [] {
      assert s + t == s;
    } else {
      var t', last := t[..|t| - 1], t[|t| - 1];
      assert t == t' + [last];
      assert forall u <- t' :: u in t;
      FirstOccurrencesKnown(s, t');
      assert s + t == (s + t') + [last];
      assert last in t;
      FirstOccurrencesSnocKnown(s + t', last);
    }
  }

  /** A document that only repeats references already counted leaves the key order
      unchanged: counts grow, but no key is added. */
  lemma RepeatsAddNoKey(docs: seq<Yaml>, doc: Yaml)
    requires forall u <- DocUses(doc) :: u in AllUses(docs)
    ensures FirstOccurrences(AllUses(docs + [doc])) == FirstOccurrences(AllUses(docs))
  {
    AllUsesAppend(docs, [doc]);
    assert [doc][..0] == [];
    assert AllUses([doc]) == DocUses(doc);
    FirstOccurrencesKnown(AllUses(docs), DocUses(doc));
  }

  /** A document whose `jobs` is missing or not an object adds no key and no count. */
  lemma DocumentWithoutJobsAddsNothing(docs: seq<Yaml>, doc: Yaml)
    requires Property(doc, "jobs").None? || !IsObject(Property(doc, "jobs").value)
    ensures AllUses(docs + [doc]) == AllUses(docs)
  {
    AllUsesAppend(docs, [doc]);
    assert [doc][..0] == [];
  }

  /** A workflow with one job, `name`, whose one step uses `u`. */
  function OneStepWorkflow(name: string, u: string): Yaml
  {
    YMap([("jobs", YMap([(name, YMap([("steps", YSeq([YMap([("uses", YStr(u))])]))]))]))])
  }

  lemma OneStepWorkflowUses(name: string, u: string)
    ensures DocUses(OneStepWorkflow(name, u)) == [u]
  {
    var step := YMap([("uses", YStr(u))]);
    var job := YMap([("steps", YSeq([step]))]);
    var doc := OneStepWorkflow(name, u);
    assert Jobs(doc) == [job];
    assert Steps(job) == [step];
    assert StepsUses([step]) == [u] by {
      assert [step][..0] == [];
    }
    assert [job][..0] == [];
    assert JobsUses([job]) == StepsUses([step]);
  }

  lemma TwoDocumentsUses(d1: Yaml, d2: Yaml)
    ensures AllUses([d1, d2]) == DocUses(d1) + DocUses(d2)
  {
    assert [d1, d2][..1] == [d1];
    assert [d1][..0] == [];
    assert AllUses([d1]) == [] + DocUses(d1);
    assert [] + DocUses(d1) == DocUses(d1);
  }

  /** The same reference in two files, whatever their job names, is counted twice but is one key. */
  lemma SameReferenceInTwoFiles(n1: string, n2: string, u: string)
    ensures var seen := AllUses([OneStepWorkflow(n1, u), OneStepWorkflow(n2, u)]);
            Occurrences(seen, u) == 2 && FirstOccurrences(seen) == [u]
  {
    OneStepWorkflowUses(n1, u);
    OneStepWorkflowUses(n2, u);
    TwoDocumentsUses(OneStepWorkflow(n1, u), OneStepWorkflow(n2, u));
    assert [u] + [u] == [u, u];
    assert [u, u][..1] == [u];
    assert [u][..0] == [];
    assert Occurrences([u], u) == 1;
    assert Occurrences([u, u], u) == 2;
    assert FirstOccurrences([u]) == [u];
    FirstOccurrencesSnocKnown([u], u);
  }
}
