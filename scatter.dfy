// The scatter collective: what one round of the communicator hands to each
// site, the argument checks of scatter_from and scatter_to and their
// overloads, and the plan of calls a site makes in a hierarchical scatter.

module Scatter {
  import opened Wrappers
  import opened Communicators

  // ---------------------------------------------------------------------
  // One round of the communicator

  /** What one site brings to a round: nothing (a receiving site) or the values to hand out. */
  datatype Step<T> = GetStep | SetStep(values: seq<T>)

  /** The step function of a site applied to the round's data: a set step replaces it whole. */
  function ApplyStep<T>(data: seq<T>, step: Step<T>): (r: seq<T>)
    ensures step.GetStep? ==> r == data
    ensures step.SetStep? ==> r == step.values
  {
    match step
    case GetStep => data
    case SetStep(values) => values
  }

  /** The data after every site of a round has checked in, in the order given. */
  function Round<T>(data: seq<T>, steps: seq<Step<T>>): seq<T>
    decreases |steps|
  {
    if steps == [] then data else Round(ApplyStep(data, steps[0]), steps[1..])
  }

  /** The values the set steps of a round bring, in order. */
  function SetValues<T>(steps: seq<Step<T>>): seq<seq<T>>
    decreases |steps|
  {
    if steps == [] then []
    else (if steps[0].SetStep? then [steps[0].values] else []) + SetValues(steps[1..])
  }

  /** The finalizer of both get and set: the site asking with index `which` takes `data[which]`. */
  function Finalize<T>(data: seq<T>, which: nat): (r: T)
    requires which < |data|
    ensures r in data
  {
    data[which]
  }

  /** A round in which nobody sets leaves the data as it was. */
  lemma {:induction false} RoundWithoutSet<T>(data: seq<T>, steps: seq<Step<T>>)
    requires SetValues(steps) == []
    ensures Round(data, steps) == data
    decreases |steps|
  {
    if steps != [] {
      assert !steps[0].SetStep?;
      RoundWithoutSet(data, steps[1..]);
    }
  }

  /** A round in which exactly one site sets `t` ends with `t`, whatever order the sites came in. */
  lemma {:induction false} RoundWithOneSet<T>(data: seq<T>, steps: seq<Step<T>>, t: seq<T>)
    requires SetValues(steps) == [t]
    ensures Round(data, steps) == t
    decreases |steps|
  {
    assert SetValues(steps) == (if steps[0].SetStep? then [steps[0].values] else []) + SetValues(steps[1..]);
    if steps[0].SetStep? {
      assert SetValues(steps)[0] == steps[0].values && |SetValues(steps[1..])| == 0;
      RoundWithoutSet(t, steps[1..]);
    } else {
      RoundWithOneSet(data, steps[1..], t);
    }
  }

  /**
   * Scatter delivers: when the root sets `t` and every other site only
   * gets, the site with index `which` finalizes with `t[which]`.
   */
  lemma RoundDelivers<T>(data: seq<T>, steps: seq<Step<T>>, t: seq<T>, which: nat)
    requires SetValues(steps) == [t] && which < |t|
    ensures var after := Round(data, steps); which < |after| && Finalize(after, which) == t[which]
  {
    RoundWithOneSet(data, steps, t);
  }

  // ---------------------------------------------------------------------
  // Argument checks and overloads

  /** The call a site makes on a communicator once its arguments pass: its index and the generation. */
  datatype Request = Request(site: nat, generation: nat)

  /** A set request with the values to scatter. */
  datatype Sent<T> = Sent(request: Request, values: seq<T>)

  /** The site argument with the caller's locality filled in when it was not given. */
  function SiteOf(thisSite: nat, here: Locality): (r: nat)
    ensures thisSite != Unspecified ==> r == thisSite
    ensures thisSite == Unspecified ==> r == here.id
  {
    if thisSite == Unspecified then here.id else thisSite
  }

  /**
   * scatter_from on a communicator: generation 0 fails with bad_parameter
   * before anything is sent; otherwise a get request for this site.
   */
  function ScatterFrom(thisSite: nat, generation: nat, here: Locality): (r: Result<Request, Fault>)
    ensures r.Failure? <==> generation == 0
    ensures r.Success? ==> r.value.site == SiteOf(thisSite, here) && r.value.generation == generation
  {
    var site := SiteOf(thisSite, here);
    if generation == 0 then Failure(BadParameter) else Success(Request(site, generation))
  }

  /** scatter_from with the generation given before the site: the same call. */
  function ScatterFromGenerationFirst(generation: nat, thisSite: nat, here: Locality): (r: Result<Request, Fault>)
    ensures r == ScatterFrom(thisSite, generation, here)
  {
    ScatterFrom(thisSite, generation, here)
  }

  /**
   * scatter_to on a communicator: generation 0 fails with bad_parameter
   * before anything is sent; otherwise a set request carrying the values.
   */
  function ScatterTo<T>(values: seq<T>, thisSite: nat, generation: nat, here: Locality): (r: Result<Sent<T>, Fault>)
    ensures r.Failure? <==> generation == 0
    ensures r.Success? ==>
              r.value.request == Request(SiteOf(thisSite, here), generation) && r.value.values == values
  {
    var site := SiteOf(thisSite, here);
    if generation == 0 then Failure(BadParameter) else Success(Sent(Request(site, generation), values))
  }

  /** scatter_to with the generation given before the site: the same call. */
  function ScatterToGenerationFirst<T>(values: seq<T>, generation: nat, thisSite: nat, here: Locality)
    : (r: Result<Sent<T>, Fault>)
    ensures r == ScatterTo(values, thisSite, generation, here)
  {
    ScatterTo(values, thisSite, generation, here)
  }

  /** The arguments a basename overload hands to create_communicator. */
  datatype CommunicatorRequest = CommunicatorRequest(basename: string, sites: Sites, generation: nat)

  /**
   * scatter_from on a base name: asks for the communicator with the number of
   * sites left to its default, then receives on it with the generation left
   * to its default.
   */
  function ScatterFromBasename(basename: string, thisSite: nat, generation: nat, rootSite: nat, here: Locality)
    : (r: (CommunicatorRequest, Result<Request, Fault>))
    requires thisSite != rootSite
    ensures r.0 == CommunicatorRequest(basename, Sites(Unspecified, thisSite, rootSite), generation)
    ensures r.1 == ScatterFrom(thisSite, Unspecified, here)
  {
    (CommunicatorRequest(basename, Sites(Unspecified, thisSite, rootSite), generation),
     ScatterFrom(thisSite, Unspecified, here))
  }

  /**
   * scatter_to on a base name: asks for the communicator with this site as
   * its root, then sends on it with the generation left to its default.
   */
  function ScatterToBasename<T>(basename: string, values: seq<T>, numSites: nat, thisSite: nat, generation: nat,
                                here: Locality): (r: (CommunicatorRequest, Result<Sent<T>, Fault>))
    ensures r.0 == CommunicatorRequest(basename, Sites(numSites, thisSite, thisSite), generation)
    ensures r.1 == ScatterTo(values, thisSite, Unspecified, here)
  {
    (CommunicatorRequest(basename, Sites(numSites, thisSite, thisSite), generation),
     ScatterTo(values, thisSite, Unspecified, here))
  }

  /**
   * The base-name overloads never fail on their own: the generation only
   * names the communicator, so even generation 0 is accepted there.
   */
  lemma BasenameOverloadsAccept<T>(basename: string, values: seq<T>, numSites: nat, thisSite: nat,
                                   rootSite: nat, generation: nat, here: Locality)
    requires thisSite != rootSite
    ensures ScatterFromBasename(basename, thisSite, generation, rootSite, here).1.Success?
    ensures ScatterToBasename(basename, values, numSites, thisSite, generation, here).1.Success?
  {
  }

  /** The site calling scatter_to on a base name is the root of the communicator it asks for. */
  lemma ScatterToBasenameIsRoot<T>(basename: string, values: seq<T>, numSites: nat, thisSite: nat,
                                   generation: nat, here: Locality)
    ensures var req := ScatterToBasename(basename, values, numSites, thisSite, generation, here).0;
            var d := Defaulted(req.sites, here);
            d.thisSite == d.rootSite
  {
  }

  /**
   * The check in scatter_from on a base name compares the sites before the
   * defaults are filled in: locality 0 calling with both sites left to their
   * defaults passes it and is then the root of the communicator it asks for.
   */
  lemma ScatterFromBasenameCheckBeforeDefaults()
    ensures var req := ScatterFromBasename("b", Unspecified, Unspecified, 0, Locality(2, 0)).0;
            var d := Defaulted(req.sites, Locality(2, 0));
            Unspecified != 0 && d.thisSite == d.rootSite
  {
  }

  // ---------------------------------------------------------------------
  // Hierarchical scatter: index arithmetic

  /** `n` with every factor `arity` divided out; zero stays zero. */
  function StripFactors(n: nat, arity: nat): (r: nat)
    requires arity >= 2
    ensures r == 0 <==> n == 0
    ensures r != 0 ==> r % arity != 0
    decreases n
  {
    if n % arity == 0 && n != 0 then StripFactors(n / arity, arity) else n
  }

  /** What is left once the factors `arity` are divided out is a divisor of `n`. */
  lemma {:induction false} StripFactorsDivides(n: nat, arity: nat)
    requires arity >= 2
    ensures var r := StripFactors(n, arity); r <= n && (r != 0 ==> n % r == 0)
    decreases n
  {
    if n % arity == 0 && n != 0 {
      var m := n / arity;
      DivExact(n, arity);
      DivLess(n, arity);
      StripFactorsDivides(m, arity);
      var r := StripFactors(m, arity);
      assert StripFactors(n, arity) == r;
      if r != 0 {
        var q := m / r;
        DivExact(m, r);
        assert n == arity * (r * q);
        MulSwap(arity, r, q);
        MulMod(r, arity * q);
      }
    }
  }

  lemma DivExact(m: nat, r: nat)
    requires r > 0 && m % r == 0
    ensures m == r * (m / r)
  {
  }

  lemma MulSwap(a: int, r: int, q: int)
    ensures a * (r * q) == r * (a * q)
  {
  }

  lemma MulMod(r: nat, k: nat)
    requires r > 0
    ensures (r * k) % r == 0 && (r * k) / r == k
  {
    var n := r * k;
    var q, m := n / r, n % r;
    assert n == r * q + m && 0 <= m < r;
    assert r * (k - q) == m by { assert r * k - r * q == r * (k - q); }
    MulSign(r, k - q);
  }

  lemma MulSign(r: int, d: int)
    requires r > 0
    ensures d >= 1 ==> r * d >= r
    ensures d <= -1 ==> r * d <= -r
  {
  }

  lemma DivLess(m: nat, a: nat)
    requires a >= 2 && m > 0
    ensures m / a < m
  {
    var q, rem := m / a, m % a;
    assert m == a * q + rem;
  }

  /** The loop of scatter_hierarchically that divides out the factors `arity`. */
  method StripFactorsLoop(n: nat, arity: nat) returns (m: nat)
    requires arity >= 2
    ensures m == StripFactors(n, arity)
  {
    m := n;
    while m % arity == 0 && m != 0
      invariant StripFactors(m, arity) == StripFactors(n, arity)
      decreases m
    {
      DivLess(m, arity);
      m := m / arity;
    }
  }

  function Power(a: nat, k: nat): nat
  {
    if k == 0 then 1 else a * Power(a, k - 1)
  }

  /** Dividing the factors out of a power of `arity` leaves 1. */
  lemma {:induction false} PowerStrips(k: nat, arity: nat)
    requires arity >= 2
    ensures StripFactors(Power(arity, k), arity) == 1
  {
    if k > 0 {
      var p := Power(arity, k - 1);
      PowerStrips(k - 1, arity);
      PowerPositive(k - 1, arity);
      MulMod(arity, p);
    }
  }

  lemma {:induction false} PowerPositive(k: nat, a: nat)
    requires a >= 1
    ensures Power(a, k) >= 1
  {
    if k > 0 {
      PowerPositive(k - 1, a);
      assert a * Power(a, k - 1) >= 1 * Power(a, k - 1);
    }
  }

  /**
   * The size of the smallest groups of the hierarchy: the locality count
   * with its factors `arity` divided out, or `arity` when only 1 is left.
   */
  function MinSites(count: nat, arity: nat): nat
    requires arity >= 2
  {
    var m := StripFactors(count, arity);
    if m == 1 then arity else m
  }

  /**
   * For at least one locality the smallest group has at least two sites: it
   * is `arity`, or a divisor of the locality count that `arity` does not divide.
   */
  lemma MinSitesBounds(count: nat, arity: nat)
    requires arity >= 2 && count >= 1
    ensures MinSites(count, arity) >= 2
    ensures MinSites(count, arity) == arity ||
            (count % MinSites(count, arity) == 0 && MinSites(count, arity) % arity != 0)
  {
    StripFactorsDivides(count, arity);
  }

  /** A power of `arity` localities gives smallest groups of exactly `arity` sites. */
  lemma MinSitesOfPower(k: nat, arity: nat)
    requires arity >= 2
    ensures MinSites(Power(arity, k), arity) == arity
  {
    PowerStrips(k, arity);
  }

  // ---------------------------------------------------------------------
  // Hierarchical scatter: grouping

  /** `n` consecutive runs of `step` values each, from the front of `values`. */
  function Chunks<T>(values: seq<T>, step: nat, n: nat): (r: seq<seq<T>>)
    requires n * step <= |values|
    ensures |r| == n && forall i :: 0 <= i < n ==> |r[i]| == step
  {
    if n == 0 then [] else [values[..step]] + Chunks(values[step..], step, n - 1)
  }

  /** The values of a sequence of runs laid end to end. */
  function Flatten<T>(runs: seq<seq<T>>): seq<T>
  {
    if runs == [] then [] else runs[0] + Flatten(runs[1..])
  }

  /** The runs laid end to end are the first `n * step` values: nothing is reordered or repeated. */
  lemma {:induction false} ChunksCover<T>(values: seq<T>, step: nat, n: nat)
    requires n * step <= |values|
    ensures Flatten(Chunks(values, step, n)) == values[..n * step]
  {
    if n > 0 {
      ChunksCover(values[step..], step, n - 1);
      assert values[step..][..(n - 1) * step] == values[step..n * step];
    }
  }

  /** Run `i` holds the values from `i * step` up to `(i + 1) * step`. */
  lemma {:induction false} ChunkAt<T>(values: seq<T>, step: nat, n: nat, i: nat)
    requires n * step <= |values| && i < n
    ensures i * step + step <= |values|
    ensures Chunks(values, step, n)[i] == values[i * step..i * step + step]
  {
    if i > 0 {
      ChunkAt(values[step..], step, n - 1, i - 1);
      assert (i - 1) * step + step == i * step;
    }
  }

  lemma StepFits(len: nat, arity: nat)
    requires arity >= 1
    ensures arity * (len / arity) <= len
  {
  }

  /** The groups the root hands down: `arity` runs of `len / arity` values; the remainder is dropped. */
  function Grouped<T>(values: seq<T>, arity: nat): (r: seq<seq<T>>)
    requires arity >= 1
    ensures |r| == arity
  {
    StepFits(|values|, arity);
    Chunks(values, |values| / arity, arity)
  }

  /** The grouping loop of the root: group `i` is the `i`-th run of `len / arity` values. */
  method Group<T>(values: seq<T>, arity: nat) returns (grouped: seq<seq<T>>)
    requires arity >= 1
    ensures grouped == Grouped(values, arity)
  {
    var step := |values| / arity;
    StepFits(|values|, arity);
    ghost var chunks := Chunks(values, step, arity);
    var g := new seq<T>[arity];
    var i := 0;
    while i < arity
      invariant 0 <= i <= arity
      invariant forall k :: 0 <= k < i ==> g[k] == chunks[k]
    {
      var lo := i * step;
      ChunkAt(values, step, arity, i);
      g[i] := values[lo..lo + step];
      i := i + 1;
    }
    grouped := g[..];
    assert grouped == chunks;
  }

  /** `n` copies of `x`. */
  function Copies<T>(x: T, n: nat): (r: seq<T>)
    ensures |r| == n && forall k :: 0 <= k < n ==> r[k] == x
  {
    seq(n, _ => x)
  }

  /** The groups a relay hands down: `arity` groups of `arity` copies of the first value it received. */
  function RelayCopies<T>(values: seq<T>, arity: nat): (r: seq<seq<T>>)
    requires values != []
    ensures |r| == arity && forall j :: 0 <= j < arity ==> r[j] == Copies(values[0], arity)
  {
    Copies(Copies(values[0], arity), arity)
  }

  /** The grouping loop of a relay. */
  method RelayGroups<T>(values: seq<T>, arity: nat) returns (grouped: seq<seq<T>>)
    requires values != []
    ensures grouped == RelayCopies(values, arity)
  {
    var g := new seq<T>[arity];
    var j := 0;
    while j < arity
      invariant 0 <= j <= arity
      invariant forall k :: 0 <= k < j ==> g[k] == Copies(values[0], arity)
    {
      g[j] := Copies(values[0], arity);
      j := j + 1;
    }
    grouped := g[..];
  }

  /** What a relay hands down holds nothing but the first value it received, `arity * arity` times. */
  lemma {:induction false} RelayForwardsFirst<T>(x: T, runs: seq<seq<T>>, arity: nat)
    requires forall j :: 0 <= j < |runs| ==> runs[j] == Copies(x, arity)
    ensures |Flatten(runs)| == |runs| * arity
    ensures forall k :: 0 <= k < |Flatten(runs)| ==> Flatten(runs)[k] == x
  {
    if runs != [] {
      RelayForwardsFirst(x, runs[1..], arity);
      assert (|runs| - 1) * arity + arity == |runs| * arity;
    }
  }

  // ---------------------------------------------------------------------
  // Hierarchical scatter: the plan of one site

  /** One collective call of the plan, on the communicator of level `level`. */
  datatype Op<T> =
    | SendGroups(level: nat, site: nat, groups: seq<seq<T>>)  // scatter_to of groups of values
    | SendValues(level: nat, site: nat, values: seq<T>)       // scatter_to of single values
    | Receive(level: nat, site: nat)                         // scatter_from

  /**
   * How the function ends: with the future of its last call, by running off
   * its end without a return (undefined), or by reading the first value of an
   * empty vector (undefined).
   */
  datatype Ending = Returns | FallsOffEnd | ReadsEmpty

  datatype Schedule<T> = Schedule(ops: seq<Op<T>>, ending: Ending)

  /**
   * The root: groups its values for level 0 at index 0, regroups what each
   * level gives back for the next one at index `site % arity`, and sends the
   * single values at index 0 on the last level.
   */
  ghost predicate RootPlan<T>(s: Schedule<T>, local: seq<T>, site: nat, arity: nat, levels: nat,
                              received: seq<seq<T>>)
    requires arity >= 2 && levels >= 1 && |received| + 1 >= levels
  {
    |s.ops| == levels && s.ops[0] == SendGroups(0, 0, Grouped(local, arity)) &&
    (forall i :: 1 <= i < levels - 1 ==> s.ops[i] == SendGroups(i, site % arity, Grouped(received[i - 1], arity))) &&
    (levels == 1 ==> s.ending == FallsOffEnd) &&
    (levels > 1 ==> s.ending == Returns && s.ops[levels - 1] == SendValues(levels - 1, 0, received[levels - 2]))
  }

  /**
   * A relay (a non-root site that the smallest group size divides): receives
   * at index `first` on level 0, hands copies of the first value it got down
   * each middle level at index 0, and sends the single values at index 0 on
   * the last level.
   */
  ghost predicate RelayPlan<T>(s: Schedule<T>, first: nat, arity: nat, levels: nat, received: seq<seq<T>>)
    requires arity >= 2 && levels >= 1 && |received| + 1 >= levels
  {
    1 <= |s.ops| <= levels && s.ops[0] == Receive(0, first) &&
    (forall i :: 1 <= i < |s.ops| && i < levels - 1 ==>
       received[i - 1] != [] && s.ops[i] == SendGroups(i, 0, RelayCopies(received[i - 1], arity))) &&
    (s.ending == FallsOffEnd <==> levels == 1) &&
    (s.ending == ReadsEmpty ==> |s.ops| < levels - 1 && received[|s.ops| - 1] == []) &&
    (s.ending == Returns ==>
       |s.ops| == levels && levels > 1 && s.ops[levels - 1] == SendValues(levels - 1, 0, received[levels - 2]))
  }

  /** The root's part of scatter_hierarchically. */
  method RootScatter<T>(levels: nat, local: seq<T>, site: nat, arity: nat, received: seq<seq<T>>)
    returns (s: Schedule<T>)
    requires arity >= 2 && levels >= 1 && |received| + 1 >= levels
    ensures RootPlan(s, local, site, arity, levels, received)
  {
    var grouped := Group(local, arity);
    var ops := [SendGroups(0, 0, grouped)];
    var i := 1;
    while i < levels
      invariant 1 <= i <= levels && (levels > 1 ==> i < levels) && |ops| == i
      invariant ops[0] == SendGroups(0, 0, Grouped(local, arity))
      invariant forall k :: 1 <= k < i ==> ops[k] == SendGroups(k, site % arity, Grouped(received[k - 1], arity))
    {
      if i == levels - 1 {
        ops := ops + [SendValues(i, 0, received[i - 1])];
        return Schedule(ops, Returns);
      }
      var g := Group(received[i - 1], arity);
      ops := ops + [SendGroups(i, site % arity, g)];
      i := i + 1;
    }
    return Schedule(ops, FallsOffEnd);
  }

  /** A relay's part of scatter_hierarchically. */
  method RelayScatter<T>(levels: nat, first: nat, arity: nat, received: seq<seq<T>>) returns (s: Schedule<T>)
    requires arity >= 2 && levels >= 1 && |received| + 1 >= levels
    ensures RelayPlan(s, first, arity, levels, received)
  {
    var ops := [Receive(0, first)];
    var i := 1;
    while i < levels
      invariant 1 <= i <= levels && (levels > 1 ==> i < levels) && |ops| == i && ops[0] == Receive(0, first)
      invariant forall k :: 0 <= k < i - 1 ==> received[k] != []
      invariant forall k :: 1 <= k < i ==> ops[k] == SendGroups(k, 0, RelayCopies(received[k - 1], arity))
    {
      if i == levels - 1 {
        ops := ops + [SendValues(i, 0, received[i - 1])];
        return Schedule(ops, Returns);
      }
      if received[i - 1] == [] {
        return Schedule(ops, ReadsEmpty);
      }
      var g := RelayGroups(received[i - 1], arity);
      ops := ops + [SendGroups(i, 0, g)];
      i := i + 1;
    }
    return Schedule(ops, FallsOffEnd);
  }

  /**
   * scatter_hierarchically for one site, with the communicators of its
   * levels numbered 0 to `levels - 1` and `received[i]` the vector the call
   * on level `i` yields. Generation 0 fails with bad_parameter; the root
   * follows RootPlan; a site that the smallest group size does not divide
   * receives once, at its index in its group; any other site is a relay and
   * follows RelayPlan from the index its site has once the factors `arity`
   * are divided out.
   */
  method ScatterHierarchically<T>(levels: nat, local: seq<T>, thisSite: nat, generation: nat, rootSite: nat,
                                  arity: nat, here: Locality, received: seq<seq<T>>)
    returns (r: Result<Schedule<T>, Fault>)
    requires ValidLocality(here) && arity >= 2 && |received| + 1 >= levels
    requires generation != 0 ==> levels >= 1
    ensures r.Failure? <==> generation == 0
    ensures var site, m := SiteOf(thisSite, here), MinSites(here.count, arity);
            r.Success? ==>
              (site == rootSite ==> RootPlan(r.value, local, site, arity, levels, received)) &&
              (site != rootSite && site % m != 0 ==> r.value == Schedule([Receive(0, site % m)], Returns)) &&
              (site != rootSite && site % m == 0 ==>
                 RelayPlan(r.value, StripFactors(site, arity) % arity, arity, levels, received))
  {
    var site := thisSite;
    if site == Unspecified {
      site := here.id;
    }
    if generation == 0 {
      return Failure(BadParameter);
    }
    var minSites := StripFactorsLoop(here.count, arity);
    if minSites == 1 {
      minSites := arity;
    }
    MinSitesBounds(here.count, arity);
    if site == rootSite {
      var s := RootScatter(levels, local, site, arity, received);
      return Success(s);
    } else if site % minSites != 0 {
      return Success(Schedule([Receive(0, site % minSites)], Returns));
    } else {
      var adjusted := StripFactorsLoop(site, arity);
      var s := RelayScatter(levels, adjusted % arity, arity, received);
      return Success(s);
    }
  }
}
