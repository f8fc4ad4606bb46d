/** Section labels of a course: the fixed pool `v1`..`v10` and the `v<n+1>`
    label used once the pool is exhausted (courseController.js, joinCourse). */
module Sections {
  import opened Results
  import opened Digits
  import opened Records

  /** The label `v<k>`. */
  function Label(k: nat): string {
    "v" + NatToString(k)
  }

  /** The labels `v<k>` to `v<k+n-1>`, in order. */
  function LabelsFrom(k: nat, n: nat): (r: seq<string>)
    ensures |r| == n
    ensures forall i :: 0 <= i < n ==> r[i] == Label(k + i)
    decreases n
  {
    if n == 0 then [] else [Label(k)] + LabelsFrom(k + 1, n - 1)
  }

  /** The pool a join draws from: `v1` to `v10`. */
  const Pool: seq<string> := LabelsFrom(1, 10)

  /** The number of a label `v<k>`, if the string is one. */
  function LabelNumber(l: string): Option<nat> {
    if |l| >= 1 && l[0] == 'v' then ParseNat(l[1..]) else None
  }

  lemma LabelRoundTrip(k: nat)
    ensures LabelNumber(Label(k)) == Some(k)
  {
    assert Label(k)[1..] == NatToString(k);
    ParseNatRoundTrip(k);
  }

  /** A pool of ten labels, the labels of 1 to 10 in order. */
  predicate IsLabelPool(pool: seq<string>) {
    |pool| == 10 && forall i :: 0 <= i < |pool| ==> pool[i] == Label(i + 1)
  }

  /** The literal pool is exactly the labels of 1 to 10. */
  lemma PoolIsLabels()
    ensures IsLabelPool(Pool)
  {
  }

  /** The labels already in use by a section table, in table order. */
  function Used(secs: seq<Section>): (r: seq<string>)
    ensures |r| == |secs|
    ensures forall i :: 0 <= i < |secs| ==> r[i] == secs[i].section
  {
    if secs == [] then [] else Used(secs[..|secs| - 1]) + [secs[|secs| - 1].section]
  }

  /** The members of `pool` not in `used`, in pool order. */
  function Unused(pool: seq<string>, used: seq<string>): (r: seq<string>)
    ensures forall l :: l in r <==> l in pool && l !in used
    decreases |pool|
  {
    if pool == [] then []
    else (if pool[0] in used then [] else [pool[0]]) + Unused(pool[1..], used)
  }

  /** The label a joining instructor receives from `pool`. `choice` stands for
      the random draw: any index into the free labels can be obtained from it.
      When no pool label is free the label is `v<count+1>`, where `count` is
      the number of instructors already teaching. */
  function PickSection(pool: seq<string>, used: seq<string>, count: nat, choice: nat): (l: string)
    ensures |Unused(pool, used)| > 0 ==> l in pool && l !in used
    ensures |Unused(pool, used)| == 0 ==> l == Label(count + 1)
    ensures |Unused(pool, used)| == 0 ==> forall p :: p in pool ==> p in used
  {
    var free := Unused(pool, used);
    if |free| > 0 then free[choice % |free|] else Label(count + 1)
  }

  /** An index below the number of free labels is its own draw. */
  lemma ModBelow(k: nat, n: nat)
    requires k < n
    ensures k % n == k
  {
  }

  /** Every free pool label is a possible outcome of the draw. */
  lemma EveryFreeLabelCanBePicked(pool: seq<string>, used: seq<string>, count: nat, l: string)
    requires l in pool && l !in used
    ensures exists choice: nat :: PickSection(pool, used, count, choice) == l
  {
    var free := Unused(pool, used);
    assert l in free;
    var k :| 0 <= k < |free| && free[k] == l;
    ModBelow(k, |free|);
    assert PickSection(pool, used, count, k) == l;
  }

  /** No two sections of a course share a label. */
  predicate LabelsDistinct(secs: seq<Section>) {
    forall i, j :: 0 <= i < j < |secs| ==> secs[i].section != secs[j].section
  }

  /** A label a course with `n` sections can hold when only joins built it:
      a pool label, or a fallback `v<k>` with 10 < k <= n. */
  predicate Admissible(pool: seq<string>, l: string, n: nat) {
    l in pool || (LabelNumber(l).Some? && 10 < LabelNumber(l).value <= n)
  }

  predicate LabelsAdmissible(pool: seq<string>, secs: seq<Section>) {
    forall i :: 0 <= i < |secs| ==> Admissible(pool, secs[i].section, |secs|)
  }

  /** A sequence that contains every element of `p` is at least as long as `p` is large. */
  lemma {:induction false} CoverBound(xs: seq<string>, p: set<string>)
    requires forall x :: x in p ==> x in xs
    ensures |p| <= |xs|
    decreases |xs|
  {
    if xs != [] {
      var last := xs[|xs| - 1];
      var front := xs[..|xs| - 1];
      assert xs == front + [last];
      forall x | x in p - {last}
        ensures x in front
      {
        assert x in xs;
      }
      CoverBound(front, p - {last});
    } else {
      assert p == {};
    }
  }

  /** The labels `v1` to `v<n>`. */
  function LabelsUpTo(n: nat): set<string> {
    set k | 1 <= k <= n :: Label(k)
  }

  /** The labels `v1` to `v<n>` are n different strings. */
  lemma {:induction false} LabelsUpToSize(n: nat)
    ensures |LabelsUpTo(n)| == n
  {
    if n > 0 {
      assert LabelsUpTo(n) == LabelsUpTo(n - 1) + {Label(n)};
      LabelRoundTrip(n);
      forall k | 1 <= k <= n - 1
        ensures Label(k) != Label(n)
      {
        LabelRoundTrip(k);
      }
      LabelsUpToSize(n - 1);
    } else {
      assert LabelsUpTo(0) == {};
    }
  }

  /** A label pool can only run dry once at least ten labels are in use. */
  lemma ExhaustedPoolMeansTen(pool: seq<string>, used: seq<string>)
    requires IsLabelPool(pool)
    requires forall p :: p in pool ==> p in used
    ensures |used| >= 10
  {
    LabelsUpToSize(10);
    forall x | x in LabelsUpTo(10)
      ensures x in used
    {
      var k :| 1 <= k <= 10 && x == Label(k);
      assert pool[k - 1] == x;
    }
    CoverBound(used, LabelsUpTo(10));
  }

  /** Appending a section whose label is new and admissible keeps the labels
      distinct and admissible. */
  lemma AppendKeepsLabels(pool: seq<string>, secs: seq<Section>, x: Section)
    requires LabelsDistinct(secs) && LabelsAdmissible(pool, secs)
    requires forall i :: 0 <= i < |secs| ==> secs[i].section != x.section
    requires Admissible(pool, x.section, |secs| + 1)
    ensures LabelsDistinct(secs + [x]) && LabelsAdmissible(pool, secs + [x])
  {
    var secs' := secs + [x];
    assert forall i :: 0 <= i < |secs| ==> secs'[i] == secs[i];
    forall i | 0 <= i < |secs'|
      ensures Admissible(pool, secs'[i].section, |secs'|)
    {
      if i < |secs| {
        assert Admissible(pool, secs[i].section, |secs|);
      }
    }
  }

  /** For n >= 10 the fallback label `v<n+1>` is outside a label pool and
      differs from every label of a table of n admissible sections. */
  lemma FallbackIsNew(pool: seq<string>, secs: seq<Section>)
    requires IsLabelPool(pool) && LabelsAdmissible(pool, secs)
    requires |secs| >= 10
    ensures Label(|secs| + 1) !in pool
    ensures forall i :: 0 <= i < |secs| ==> secs[i].section != Label(|secs| + 1)
  {
    var n := |secs|;
    var l := Label(n + 1);
    LabelRoundTrip(n + 1);
    forall i | 0 <= i < |pool|
      ensures pool[i] != l
    {
      LabelRoundTrip(i + 1);
    }
    assert l !in pool;
    forall i | 0 <= i < n
      ensures secs[i].section != l
    {
      assert Admissible(pool, secs[i].section, n);
    }
  }

  /** Adding the picked label keeps the labels distinct and admissible, when
      the table has one section per instructor already counted. */
  lemma PickKeepsLabels(pool: seq<string>, secs: seq<Section>, who: nat, choice: nat)
    requires IsLabelPool(pool)
    requires LabelsDistinct(secs) && LabelsAdmissible(pool, secs)
    ensures var l := PickSection(pool, Used(secs), |secs|, choice);
      LabelsDistinct(secs + [Section(who, l)]) && LabelsAdmissible(pool, secs + [Section(who, l)])
  {
    var n := |secs|;
    var l := PickSection(pool, Used(secs), n, choice);
    if |Unused(pool, Used(secs))| > 0 {
      forall i | 0 <= i < n
        ensures secs[i].section != l
      {
        assert Used(secs)[i] == secs[i].section;
      }
    } else {
      ExhaustedPoolMeansTen(pool, Used(secs));
      FallbackIsNew(pool, secs);
      LabelRoundTrip(n + 1);
    }
    AppendKeepsLabels(pool, secs, Section(who, l));
  }
}
