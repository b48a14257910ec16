/** `collect_metrics` of the current generation (src/brunnels/metrics.py): one pass over the
    brunnels in dictionary order that tallies the exclusion reasons of all of them and the
    bridge, tunnel and included counts of the representative ones. The module reads the
    brunnel's `exclusion_reason` and `compound_group`, which are its `filter_reason` and its
    `metadata["compound_group"]`. */
module SrcMetrics {
  import opened Base
  import opened Seqs
  import opened SrcBrunnel

  /** `BrunnelMetrics`; `exclusions` is the Counter of exclusion reasons. */
  datatype Metrics = Metrics(
    bridges: nat,
    tunnels: nat,
    containedBridges: nat,
    containedTunnels: nat,
    individual: nat,
    compound: nat,
    exclusions: multiset<FilterReason>)

  /** The classes of brunnel the counters count. */
  datatype Kind = Bridges | Tunnels | ContainedBridges | ContainedTunnels | Individual | Compound | Representative | Included

  /** Brunnel i is a representative of the given class. */
  predicate Has(bs: seq<Brunnel>, i: nat, k: Kind)
  {
    && i < |bs|
    && IsRepresentative(bs, i) == Ok(true)
    && match k
       case Bridges => bs[i].btype == Bridge
       case Tunnels => bs[i].btype == Tunnel
       case ContainedBridges => bs[i].btype == Bridge && bs[i].reason == NoFilter
       case ContainedTunnels => bs[i].btype == Tunnel && bs[i].reason == NoFilter
       case Individual => bs[i].reason == NoFilter && !IsCompound(bs[i])
       case Compound => bs[i].reason == NoFilter && IsCompound(bs[i])
       case Representative => true
       case Included => bs[i].reason == NoFilter
  }

  /** How many of the first n brunnels are of class k. */
  function Counted(bs: seq<Brunnel>, n: nat, k: Kind): nat
  {
    if n == 0 then 0 else Counted(bs, n - 1, k) + if Has(bs, n - 1, k) then 1 else 0
  }

  /** The counter of a class in a metrics record. */
  function Field(m: Metrics, k: Kind): nat
  {
    match k
    case Bridges => m.bridges
    case Tunnels => m.tunnels
    case ContainedBridges => m.containedBridges
    case ContainedTunnels => m.containedTunnels
    case Individual => m.individual
    case Compound => m.compound
    case Representative => m.bridges + m.tunnels
    case Included => m.containedBridges + m.containedTunnels
  }

  /** The filter reasons of the first n brunnels, in order. */
  function Reasons(bs: seq<Brunnel>, n: nat): (rs: seq<FilterReason>)
    requires n <= |bs|
    ensures |rs| == n && forall i :: 0 <= i < n ==> rs[i] == bs[i].reason
  {
    seq(n, i requires 0 <= i < n => bs[i].reason)
  }

  /** The Counter as Python leaves it: one entry per brunnel whose reason is not NONE. */
  function Excluded(bs: seq<Brunnel>, n: nat): multiset<FilterReason>
    requires n <= |bs|
  {
    multiset(Reasons(bs, n))[NoFilter := 0]
  }

  /** One loop iteration for brunnel i: its reason is counted first, then `is_representative`
      may raise. */
  function Step(bs: seq<Brunnel>, i: nat, m: Metrics): (r: Result<Metrics>)
    requires i < |bs|
    ensures r.Err? <==> IsRepresentative(bs, i).Err?
    ensures r.Err? ==> r.error == IsRepresentative(bs, i).error
    ensures r.Ok? ==> r.value.exclusions == if bs[i].reason == NoFilter then m.exclusions else m.exclusions + multiset{bs[i].reason}
    ensures r.Ok? ==> forall k :: Field(r.value, k) == Field(m, k) + if Has(bs, i, k) then 1 else 0
  {
    var b := bs[i];
    var ex := if b.reason != NoFilter then m.exclusions + multiset{b.reason} else m.exclusions;
    match IsRepresentative(bs, i)
    case Err(e) => Err(e)
    case Ok(rep) =>
      if !rep then Ok(m.(exclusions := ex))
      else
        var kept := b.reason == NoFilter;
        var m1 := if b.btype == Bridge
          then m.(bridges := m.bridges + 1, containedBridges := m.containedBridges + if kept then 1 else 0)
          else m.(tunnels := m.tunnels + 1, containedTunnels := m.containedTunnels + if kept then 1 else 0);
        var m2 := if !kept then m1
          else if IsCompound(b) then m1.(compound := m1.compound + 1)
          else m1.(individual := m1.individual + 1);
        Ok(m2.(exclusions := ex))
  }

  const Zero := Metrics(0, 0, 0, 0, 0, 0, multiset{})

  /** The pass over the first n brunnels: the first exception escapes, otherwise every counter
      holds the number of representatives of its class and the Counter the reasons that are
      not NONE. */
  function Tally(bs: seq<Brunnel>, n: nat): (r: Result<Metrics>)
    requires n <= |bs|
    ensures r.Ok? <==> forall i :: 0 <= i < n ==> IsRepresentative(bs, i).Ok?
    ensures r.Err? ==> exists i :: 0 <= i < n && IsRepresentative(bs, i) == Err(r.error) &&
                                   forall j :: 0 <= j < i ==> IsRepresentative(bs, j).Ok?
    ensures r.Ok? ==> r.value.exclusions == Excluded(bs, n)
    ensures r.Ok? ==> forall k :: Field(r.value, k) == Counted(bs, n, k)
  {
    if n == 0 then
      assert Reasons(bs, 0) == [];
      Ok(Zero)
    else
      match Tally(bs, n - 1)
      case Err(e) =>
        Err(e)
      case Ok(m) =>
        var r := Step(bs, n - 1, m);
        if r.Ok? then
          StepCounts(bs, n, m);
          r
        else
          assert IsRepresentative(bs, n - 1) == Err(r.error);
          r
  }

  /** A successful step from the tally of n - 1 brunnels gives the tally of n. */
  lemma StepCounts(bs: seq<Brunnel>, n: nat, m: Metrics)
    requires 0 < n <= |bs|
    requires m.exclusions == Excluded(bs, n - 1) && forall k :: Field(m, k) == Counted(bs, n - 1, k)
    requires Step(bs, n - 1, m).Ok?
    ensures Step(bs, n - 1, m).value.exclusions == Excluded(bs, n)
    ensures forall k :: Field(Step(bs, n - 1, m).value, k) == Counted(bs, n, k)
  {
    ExcludedStep(bs, n);
  }

  /** `collect_metrics` */
  function CollectMetrics(bs: seq<Brunnel>): (r: Result<Metrics>)
    ensures r.Ok? <==> forall i :: 0 <= i < |bs| ==> IsRepresentative(bs, i).Ok?
    ensures r.Ok? ==> r.value.exclusions == Excluded(bs, |bs|)
    ensures r.Ok? ==> var m := r.value;
      && m.bridges == Counted(bs, |bs|, Bridges) && m.tunnels == Counted(bs, |bs|, Tunnels)
      && m.containedBridges == Counted(bs, |bs|, ContainedBridges)
      && m.containedTunnels == Counted(bs, |bs|, ContainedTunnels)
      && m.individual == Counted(bs, |bs|, Individual) && m.compound == Counted(bs, |bs|, Compound)
      && m.bridges + m.tunnels == Counted(bs, |bs|, Representative)
      && m.containedBridges + m.containedTunnels == Counted(bs, |bs|, Included)
  {
    var r := Tally(bs, |bs|);
    if r.Ok? then
      FieldsCounted(r.value, k => Counted(bs, |bs|, k));
      r
    else r
  }

  /** The counters of a record whose classes count `c`, field by field. */
  lemma FieldsCounted(m: Metrics, c: Kind -> nat)
    requires forall k :: Field(m, k) == c(k)
    ensures && m.bridges == c(Bridges) && m.tunnels == c(Tunnels)
      && m.containedBridges == c(ContainedBridges) && m.containedTunnels == c(ContainedTunnels)
      && m.individual == c(Individual) && m.compound == c(Compound)
      && m.bridges + m.tunnels == c(Representative)
      && m.containedBridges + m.containedTunnels == c(Included)
  {
    assert Field(m, Bridges) == c(Bridges) && Field(m, Tunnels) == c(Tunnels);
    assert Field(m, ContainedBridges) == c(ContainedBridges) && Field(m, ContainedTunnels) == c(ContainedTunnels);
    assert Field(m, Individual) == c(Individual) && Field(m, Compound) == c(Compound);
    assert Field(m, Representative) == c(Representative) && Field(m, Included) == c(Included);
  }

  /** The counters add up: bridges and tunnels together are the representatives, the
      contained ones are no more than all of them, and the included ones split into individual
      and compound ones. */
  lemma {:induction false} CountersAddUp(bs: seq<Brunnel>)
    requires CollectMetrics(bs).Ok?
    ensures var m := CollectMetrics(bs).value;
      && m.bridges + m.tunnels == Counted(bs, |bs|, Representative)
      && m.containedBridges <= m.bridges
      && m.containedTunnels <= m.tunnels
      && m.individual + m.compound == m.containedBridges + m.containedTunnels
  {
    var n := |bs|;
    KindsNest(bs);
    CountedSub(bs, n, ContainedBridges, Bridges);
    CountedSub(bs, n, ContainedTunnels, Tunnels);
    CountedSplit(bs, n, Individual, Compound, Included);
  }

  /** How the classes relate: the contained ones lie within all of them, and the included
      ones are exactly the individual and the compound ones. */
  lemma KindsNest(bs: seq<Brunnel>)
    ensures forall i :: Has(bs, i, ContainedBridges) ==> Has(bs, i, Bridges)
    ensures forall i :: Has(bs, i, ContainedTunnels) ==> Has(bs, i, Tunnels)
    ensures forall i :: Has(bs, i, Included) <==> Has(bs, i, Individual) || Has(bs, i, Compound)
    ensures forall i :: !(Has(bs, i, Individual) && Has(bs, i, Compound))
  {
  }

  /** A brunnel that does not represent its compound changes nothing but the Counter. */
  lemma NonRepresentativeOnlyExcluded(bs: seq<Brunnel>, n: nat)
    requires 0 < n <= |bs| && IsRepresentative(bs, n - 1) == Ok(false)
    requires Tally(bs, n - 1).Ok?
    ensures Tally(bs, n).Ok?
    ensures Tally(bs, n).value == Tally(bs, n - 1).value.(exclusions := Tally(bs, n).value.exclusions)
  {
  }

  /** The Counter gains brunnel n-1's reason unless it is NONE. */
  lemma ExcludedStep(bs: seq<Brunnel>, n: nat)
    requires 0 < n <= |bs|
    ensures Excluded(bs, n) == if bs[n - 1].reason == NoFilter then Excluded(bs, n - 1)
                               else Excluded(bs, n - 1) + multiset{bs[n - 1].reason}
  {
    assert Reasons(bs, n) == Reasons(bs, n - 1) + [bs[n - 1].reason];
  }

  /** A class contained in another is counted no more often. */
  lemma {:induction false} CountedSub(bs: seq<Brunnel>, n: nat, k: Kind, l: Kind)
    requires forall i :: Has(bs, i, k) ==> Has(bs, i, l)
    ensures Counted(bs, n, k) <= Counted(bs, n, l)
  {
    if n > 0 {
      CountedSub(bs, n - 1, k, l);
    }
  }

  /** A class that is the disjoint union of two others is counted as often as both together. */
  lemma {:induction false} CountedSplit(bs: seq<Brunnel>, n: nat, k: Kind, l: Kind, u: Kind)
    requires forall i :: Has(bs, i, u) <==> Has(bs, i, k) || Has(bs, i, l)
    requires forall i :: !(Has(bs, i, k) && Has(bs, i, l))
    ensures Counted(bs, n, k) + Counted(bs, n, l) == Counted(bs, n, u)
  {
    if n > 0 {
      CountedSplit(bs, n - 1, k, l, u);
    }
  }
}
