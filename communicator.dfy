// Communicators of the collective operations: the defaulting of the site
// arguments, the names a communicator is registered under, the client-side
// info a communicator carries, and the tree of communicators a hierarchical
// collective uses.

module Communicators {
  import opened Wrappers
  import opened Text

  /** std::size_t(-1): the value of a site, count or generation argument that was not given. */
  const Unspecified: nat := 0xFFFF_FFFF_FFFF_FFFF

  /** What the runtime reports: how many localities there are and which one makes the call. */
  datatype Locality = Locality(count: nat, id: nat)

  /** The runtime has at least one locality, counts them in 32 bits, and the caller is one of them. */
  predicate ValidLocality(here: Locality)
  {
    1 <= here.count < 0x1_0000_0000 && here.id < here.count
  }

  /** The error a collective reports, as hpx::error::bad_parameter. */
  datatype Fault = BadParameter

  /** The pair set_info stores and get_info reads back. */
  datatype Info = Info(numSites: nat, thisSite: nat)

  /** The site arguments of create_communicator. */
  datatype Sites = Sites(numSites: nat, thisSite: nat, rootSite: nat)

  /**
   * The component that coordinates one collective: it is only ever built for
   * a real number of sites.
   */
  class CommunicatorServer {
    const numSites: nat
    const basename: string

    constructor (numSites: nat, basename: string)
      requires numSites != 0 && numSites != Unspecified
      ensures this.numSites == numSites && this.basename == basename
    {
      this.numSites := numSites;
      this.basename := basename;
    }
  }

  /**
   * The client side of a communicator: the name it is registered or looked
   * up under, the site that name belongs to, the server when this site
   * created it, and the extra data set_info attaches.
   */
  class Communicator {
    const name: string
    const site: nat
    const server: CommunicatorServer?
    var info: Option<Info>

    constructor (name: string, site: nat, server: CommunicatorServer?)
      ensures this.name == name && this.site == site && this.server == server && info == None
    {
      this.name := name;
      this.site := site;
      this.server := server;
      info := None;
    }

    /** Stores the number of sites and this site's index with the client. */
    method SetInfo(numSites: nat, thisSite: nat)
      modifies this`info
      ensures info == Some(Info(numSites, thisSite))
      ensures GetInfo() == Info(numSites, thisSite)
    {
      info := Some(Info(numSites, thisSite));
    }

    /**
     * The pair last stored by SetInfo; a communicator nothing was stored with
     * answers with both arguments unspecified.
     */
    function GetInfo(): (r: Info)
      reads this
      ensures info.Some? ==> r == info.value
      ensures info.None? ==> r.numSites == Unspecified && r.thisSite == Unspecified
    {
      if info.Some? then info.value else Info(Unspecified, Unspecified)
    }
  }

  /**
   * The site arguments once create_communicator has filled in what was not
   * given: the number of sites becomes the number of localities, this site
   * the caller's locality, and the root site, only when this site was not
   * given either, this site.
   */
  function Defaulted(s: Sites, here: Locality): (d: Sites)
    ensures s.numSites != Unspecified ==> d.numSites == s.numSites
    ensures s.numSites == Unspecified ==> d.numSites == here.count
    ensures s.thisSite != Unspecified ==> d.thisSite == s.thisSite && d.rootSite == s.rootSite
    ensures s.thisSite == Unspecified ==> d.thisSite == here.id
    ensures s.thisSite == Unspecified && s.rootSite == Unspecified ==> d.rootSite == here.id
    ensures s.rootSite != Unspecified ==> d.rootSite == s.rootSite
  {
    var numSites := if s.numSites == Unspecified then here.count else s.numSites;
    if s.thisSite == Unspecified then
      Sites(numSites, here.id, if s.rootSite == Unspecified then here.id else s.rootSite)
    else
      Sites(numSites, s.thisSite, s.rootSite)
  }

  /** What create_communicator asserts once the defaults are in. */
  predicate SitesValid(d: Sites)
  {
    d.thisSite < d.numSites && d.rootSite != Unspecified && d.rootSite < d.numSites
  }

  /** Filling in the defaults a second time changes nothing. */
  lemma DefaultedIdempotent(s: Sites, here: Locality)
    requires ValidLocality(here)
    ensures Defaulted(Defaulted(s, here), here) == Defaulted(s, here)
  {
  }

  /**
   * A caller that names this site but leaves the root site unspecified never
   * passes the assertions: the root site is only filled in together with this
   * site.
   */
  lemma ExplicitSiteNeedsRoot(s: Sites, here: Locality)
    requires s.thisSite != Unspecified && s.rootSite == Unspecified
    ensures !SitesValid(Defaulted(s, here))
  {
  }

  /** The part a generation adds to a name: its decimal form and a slash, or nothing. */
  function GenerationSuffix(generation: nat): (r: string)
    ensures generation == Unspecified <==> r == ""
  {
    if generation == Unspecified then "" else NatToString(generation) + "/"
  }

  /** The name a communicator is registered under: the base name and the generation suffix. */
  function RegistrationName(basename: string, generation: nat): (r: string)
    ensures |r| >= |basename| && r[..|basename|] == basename
    ensures generation != Unspecified ==> |r| > |basename| && r[|r| - 1] == '/'
  {
    basename + GenerationSuffix(generation)
  }

  /** Different generations of one base name are registered under different names. */
  lemma RegistrationNamesDistinct(basename: string, g1: nat, g2: nat)
    requires g1 != g2
    ensures RegistrationName(basename, g1) != RegistrationName(basename, g2)
  {
    var s1, s2 := GenerationSuffix(g1), GenerationSuffix(g2);
    if RegistrationName(basename, g1) == RegistrationName(basename, g2) {
      assert s1 == RegistrationName(basename, g1)[|basename|..];
      assert s2 == RegistrationName(basename, g2)[|basename|..];
      if g1 != Unspecified && g2 != Unspecified {
        assert NatToString(g1) == s1[..|s1| - 1] == s2[..|s2| - 1] == NatToString(g2);
        NatToStringInjective(g1, g2);
      }
    }
  }

  /** The base name without the slash it may start with. */
  function Unslashed(basename: string): string
    requires basename != ""
  {
    if basename[0] == '/' then basename[1..] else basename
  }

  /**
   * The name a communicator local to one locality is registered under: a
   * slash, the locality, a slash unless the base name brings its own, the
   * base name, and the generation suffix.
   */
  function LocalName(basename: string, locality: nat, generation: nat): (r: string)
    requires basename != ""
    ensures r == "/" + NatToString(locality) + "/" + Unslashed(basename) + GenerationSuffix(generation)
  {
    var name := "/" + NatToString(locality) + (if basename[0] == '/' then "" else "/") + basename;
    assert basename[0] == '/' ==> basename == "/" + basename[1..];
    name + GenerationSuffix(generation)
  }

  /** After its leading slash, a local name is the locality's digits, a slash and the rest. */
  lemma LocalNameTail(b: string, l: nat, g: nat)
    requires b != ""
    ensures LocalName(b, l, g)[1..] == NatToString(l) + ['/'] + (Unslashed(b) + GenerationSuffix(g))
  {
    var d, x := NatToString(l), Unslashed(b) + GenerationSuffix(g);
    calc {
      LocalName(b, l, g);
      "/" + d + "/" + Unslashed(b) + GenerationSuffix(g);
      { AppendAssoc("/" + d + "/", Unslashed(b), GenerationSuffix(g)); }
      "/" + d + "/" + x;
      { AppendAssoc("/", d, "/"); AppendAssoc("/", d + "/", x); AppendAssoc(d, "/", x); }
      "/" + (d + ['/'] + x);
    }
  }

  lemma AppendAssoc(x: string, y: string, z: string)
    ensures x + y + z == x + (y + z)
  {
  }

  /** Communicators local to different localities never share a name. */
  lemma LocalNamesDistinct(b1: string, l1: nat, g1: nat, b2: string, l2: nat, g2: nat)
    requires b1 != "" && b2 != "" && l1 != l2
    ensures LocalName(b1, l1, g1) != LocalName(b2, l2, g2)
  {
    var x1 := Unslashed(b1) + GenerationSuffix(g1);
    var x2 := Unslashed(b2) + GenerationSuffix(g2);
    if LocalName(b1, l1, g1) == LocalName(b2, l2, g2) {
      LocalNameTail(b1, l1, g1);
      LocalNameTail(b2, l2, g2);
      DigitsBeforeSeparator(NatToString(l1), x1, NatToString(l2), x2, '/');
      NatToStringInjective(l1, l2);
    }
  }

  /**
   * create_communicator: fills in the defaults, names the communicator after
   * the base name and generation, and then either creates and registers it
   * (at the root site, failing with bad_parameter when the name is taken)
   * or looks it up at the root site. `registered` is the answer of the name
   * registration.
   */
  method CreateCommunicator(basename: string, numSites: nat, thisSite: nat, generation: nat, rootSite: nat,
                            here: Locality, registered: bool) returns (r: Result<Communicator, Fault>)
    requires ValidLocality(here)
    requires SitesValid(Defaulted(Sites(numSites, thisSite, rootSite), here))
    ensures var d := Defaulted(Sites(numSites, thisSite, rootSite), here);
            r.Failure? <==> d.thisSite == d.rootSite && !registered
    ensures var d := Defaulted(Sites(numSites, thisSite, rootSite), here);
            r.Success? ==>
              fresh(r.value) && r.value.name == RegistrationName(basename, generation) &&
              (if d.thisSite == d.rootSite then
                 r.value.site == d.thisSite && r.value.server != null && fresh(r.value.server) &&
                 r.value.server.numSites == d.numSites && r.value.server.basename == basename &&
                 r.value.info == Some(Info(d.numSites, d.thisSite))
               else
                 r.value.site == d.rootSite && r.value.server == null && r.value.info == None)
  {
    var n, t, root := numSites, thisSite, rootSite;
    if n == Unspecified {
      n := here.count;
    }
    if t == Unspecified {
      t := here.id;
      if root == Unspecified {
        root := t;
      }
    }
    var name := basename;
    if generation != Unspecified {
      name := name + (NatToString(generation) + "/");
    }
    if t == root {
      var server := new CommunicatorServer(n, basename);
      var c := new Communicator(name, t, server);
      if !registered {
        return Failure(BadParameter);
      }
      c.SetInfo(n, t);
      return Success(c);
    }
    var c := new Communicator(name, root, null);
    return Success(c);
  }

  /**
   * create_local_communicator: only the root site is defaulted (to this
   * site); the communicator is named after this locality; registration is
   * waited for and a taken name fails with bad_parameter.
   */
  method CreateLocalCommunicator(basename: string, numSites: nat, thisSite: nat, generation: nat, rootSite: nat,
                                 here: Locality, registered: bool) returns (r: Result<Communicator, Fault>)
    requires basename != ""
    requires var root := if rootSite == Unspecified then thisSite else rootSite;
             thisSite < numSites && root != Unspecified && root < numSites &&
             (thisSite == root ==> numSites != Unspecified)
    ensures var root := if rootSite == Unspecified then thisSite else rootSite;
            r.Failure? <==> thisSite == root && !registered
    ensures var root := if rootSite == Unspecified then thisSite else rootSite;
            r.Success? ==>
              fresh(r.value) && r.value.name == LocalName(basename, here.id, generation) &&
              (if thisSite == root then
                 r.value.site == thisSite && r.value.server != null && fresh(r.value.server) &&
                 r.value.server.numSites == numSites && r.value.server.basename == basename &&
                 r.value.info == Some(Info(numSites, thisSite))
               else
                 r.value.site == root && r.value.server == null && r.value.info == None)
  {
    var root := rootSite;
    if root == Unspecified {
      root := thisSite;
    }
    var name := "/" + NatToString(here.id) + (if basename[0] == '/' then "" else "/") + basename;
    if generation != Unspecified {
      name := name + (NatToString(generation) + "/");
    }
    if thisSite == root {
      var server := new CommunicatorServer(numSites, basename);
      var c := new Communicator(name, thisSite, server);
      if !registered {
        return Failure(BadParameter);
      }
      c.SetInfo(numSites, thisSite);
      return Success(c);
    }
    var c := new Communicator(name, root, null);
    return Success(c);
  }

  /**
   * How a hierarchical collective obtains one of its communicators: created
   * here for `size` sites and registered by `site`, or looked up at the
   * site `root`.
   */
  datatype Link = Create(name: string, size: int, site: int) | Find(name: string, root: int)

  /** A communicator of the tree with the index this site takes in it (-1 when it created it). */
  datatype Entry = Entry(link: Link, index: int)

  /** The name of the communicator for the interval `[left, right]`. */
  function IntervalName(basename: string, left: int, right: int): string
  {
    basename + IntToString(left) + "-" + IntToString(right) + "/"
  }

  /** The interval names under `basename`, as a function of the interval. */
  function Names(basename: string): (int, int) -> string
  {
    (l, h) => IntervalName(basename, l, h)
  }

  /** The site that creates the communicator of an interval: its middle, or 0 for all sites. */
  function Pivot(left: int, right: int, numSites: int): (p: int)
    requires left <= right
    ensures right - left + 1 != numSites ==> left <= p <= right
  {
    if right - left + 1 == numSites then 0 else (right - left) / 2 + left
  }

  /**
   * `e` belongs to the interval `[l, h]`: it carries the interval's name; a
   * created communicator is the pivot's, sized `h - l`; a looked-up one is
   * found at the pivot with an index below `h - l`.
   */
  ghost predicate MadeFor(e: Entry, basename: string, l: int, h: int, thisSite: int, numSites: int)
    requires l <= h
  {
    e.link.name == IntervalName(basename, l, h) &&
    match e.link
    case Create(_, size, site) =>
      size == h - l && site == thisSite && thisSite == Pivot(l, h, numSites) && e.index == -1
    case Find(_, root) =>
      root == Pivot(l, h, numSites) && 0 <= e.index < h - l
  }

  /**
   * `e` belongs to `[left, right]` itself or to a sub-interval of it that
   * contains this site.
   */
  ghost predicate Within(e: Entry, basename: string, left: int, right: int, thisSite: int, numSites: int)
  {
    exists l, h ::
      left <= l <= h <= right && ((l == left && h == right) || l <= thisSite < h) &&
      MadeFor(e, basename, l, h, thisSite, numSites)
  }

  /**
   * `e` belongs to a sub-interval of `[left, right]` that is strictly narrower
   * and contains this site: one the recursion descends into.
   */
  ghost predicate Below(e: Entry, basename: string, left: int, right: int, thisSite: int, numSites: int)
  {
    exists l, h ::
      left <= l <= h <= right && h - l < right - left && l <= thisSite < h &&
      MadeFor(e, basename, l, h, thisSite, numSites)
  }

  /** What belongs to a narrower interval holding this site lies below the wider one. */
  lemma WithinBelow(e: Entry, basename: string, l: int, h: int, left: int, right: int, thisSite: int, numSites: int)
    requires Within(e, basename, l, h, thisSite, numSites)
    requires left <= l && h <= right && l <= thisSite < h && h - l < right - left
    ensures Below(e, basename, left, right, thisSite, numSites)
  {
    var x, y :| l <= x <= y <= h && ((x == l && y == h) || x <= thisSite < y) &&
                MadeFor(e, basename, x, y, thisSite, numSites);
    assert left <= x <= y <= right && y - x < right - left && x <= thisSite < y;
  }

  /**
   * A communicator created for an interval of at least two sites, or for a
   * sub-interval holding this site, is sized for at least one site, as the
   * server's constructor demands.
   */
  lemma WithinSized(e: Entry, basename: string, left: int, right: int, thisSite: int, numSites: int)
    requires left < right && Within(e, basename, left, right, thisSite, numSites)
    ensures e.link.Create? ==> e.link.size >= 1
  {
    var x, y :| left <= x <= y <= right && ((x == left && y == right) || x <= thisSite < y) &&
                MadeFor(e, basename, x, y, thisSite, numSites);
  }

  lemma WithinWiden(e: Entry, basename: string, l: int, h: int, left: int, right: int, thisSite: int, numSites: int)
    requires Within(e, basename, l, h, thisSite, numSites)
    requires left <= l && h <= right && l <= thisSite < h
    ensures Within(e, basename, left, right, thisSite, numSites)
  {
    var x, y :| l <= x <= y <= h && ((x == l && y == h) || x <= thisSite < y) &&
                MadeFor(e, basename, x, y, thisSite, numSites);
    assert left <= x <= y <= right && x <= thisSite < y;
  }

  lemma MadeForHere(e: Entry, basename: string, left: int, right: int, thisSite: int, numSites: int)
    requires left <= right && MadeFor(e, basename, left, right, thisSite, numSites)
    ensures Within(e, basename, left, right, thisSite, numSites)
  {
  }

  /** The sub-intervals of the split: each of the `arity` runs lies inside `[left, right]`. */
  lemma SplitBounds(left: int, right: int, arity: int, i: int)
    requires left <= right && arity >= 2 && right - left >= arity && 0 <= i < arity
    ensures left <= RunLeft(left, Steps(left, right, arity), i) <= RunRight(left, Steps(left, right, arity), i) <= right
  {
    var n := right - left + 1;
    var steps := n / arity;
    QuotIs(n, arity);
    MulIs(steps, i);
    DivBounds(n, arity);
    MulLe(steps, i + 1, arity);
    MulLe(steps, 0, i);
    Distribute(steps, i);
  }

  /** The source's arithmetic for run `i`: its first and last site and its lookup position. */
  lemma RunPositions(left: int, right: int, arity: int, steps: int, i: int)
    requires left <= right && arity >= 2 && steps == (right - left + 1) / arity && i >= 0
    ensures steps == Steps(left, right, arity)
    ensures RunLeft(left, steps, i) == left + (steps * i)
    ensures RunRight(left, steps, i) == left + (steps * (i + 1) - 1)
    ensures LookupAt(left, steps, i) == left + (steps * i) - 1 + (steps / 2)
  {
    QuotIs(right - left + 1, arity);
    MulIs(steps, i);
    Distribute(steps, i);
  }

  /** Mul is multiplication. */
  lemma {:induction false} MulIs(s: int, i: int)
    requires i >= 0
    ensures Mul(s, i) == s * i
    decreases i
  {
    if i > 0 {
      MulIs(s, i - 1);
      Distribute(s, i - 1);
    }
  }

  /** Quot is Euclidean division on naturals. */
  lemma {:induction false} QuotIs(n: int, d: int)
    requires n >= 0 && d >= 1
    ensures Quot(n, d) == n / d
    decreases n
  {
    if n >= d {
      QuotIs(n - d, d);
      DivStep(n, d);
    }
  }

  /** Taking the divisor off the dividend takes one off the quotient. */
  lemma DivStep(n: int, d: int)
    requires n >= d >= 1
    ensures (n - d) / d + 1 == n / d
  {
    var q, r := (n - d) / d, (n - d) % d;
    assert n - d == d * q + r && 0 <= r < d;
    Distribute(d, q);
    DivUnique(n, d, q + 1, r);
  }

  /** A quotient and remainder that rebuild `n` are its Euclidean ones. */
  lemma DivUnique(n: int, d: int, q: int, r: int)
    requires d >= 1 && n == d * q + r && 0 <= r < d
    ensures n / d == q
  {
    var q', r' := n / d, n % d;
    assert n == d * q' + r' && 0 <= r' < d;
    if q' > q {
      MulLe(d, q + 1, q');
      Distribute(d, q);
    } else if q' < q {
      MulLe(d, q' + 1, q);
      Distribute(d, q');
    }
  }


  /** `n / a` is at least 1 and `a` times it is at most `n`. */
  lemma DivBounds(n: int, a: int)
    requires a >= 2 && n > a
    ensures n / a >= 1 && a * (n / a) <= n
  {
    var q, r := n / a, n % a;
    assert n == a * q + r && 0 <= r < a;
    assert a * q > 0;
    MulSignPos(a, q);
  }

  lemma MulSignPos(a: int, q: int)
    requires a > 0
    ensures q <= 0 ==> a * q <= 0
  {
  }

  lemma MulLe(a: int, b: int, c: int)
    requires a >= 0 && b <= c
    ensures a * b <= a * c
  {
    assert a * c - a * b == a * (c - b);
  }

  lemma Distribute(s: int, i: int)
    ensures s * (i + 1) == s * i + s
  {
  }

  // ---------------------------------------------------------------------
  // The entries recursively_fill_communicators appends, stated exactly

  /** The width of each of the `arity` runs an interval is cut into. */
  function Steps(left: int, right: int, arity: int): int
    requires arity >= 2
  {
    Quot(right - left + 1, arity)
  }

  /** `n / d` for a natural `n`, by repeated subtraction. */
  function Quot(n: int, d: int): int
    requires d >= 1
    decreases n
  {
    if n < d then 0 else 1 + Quot(n - d, d)
  }

  /** The first site of run `i`: `i` run widths after `left`. */
  function RunLeft(left: int, steps: int, i: int): int
  {
    left + Mul(steps, i)
  }

  /** `s * i` for a natural `i`, by repeated addition. */
  function Mul(s: int, i: int): int
    decreases i
  {
    if i <= 0 then 0 else Mul(s, i - 1) + s
  }

  /** The last site of run `i`, which the descent test excludes. */
  function RunRight(left: int, steps: int, i: int): int
  {
    RunLeft(left, steps, i) + steps - 1
  }

  /** The site that looks up the interval's communicator for run `i`. */
  function LookupAt(left: int, steps: int, i: int): int
  {
    RunLeft(left, steps, i) - 1 + steps / 2
  }

  /** Some run's lookup position is this site. */
  ghost predicate HasLookup(left: int, steps: int, arity: int, thisSite: int)
  {
    exists i :: 0 <= i < arity && thisSite == LookupAt(left, steps, i)
  }

  /** What a leaf interval appends: the pivot's creation, or a lookup with the offset of this site. */
  function LeafEntries(nameOf: (int, int) -> string, left: int, right: int, thisSite: int, numSites: int): seq<Entry>
    requires left <= right
  {
    var name := nameOf(left, right);
    var pivot := Pivot(left, right, numSites);
    if thisSite == pivot then [Entry(Create(name, right - left, thisSite), -1)]
    else if left <= thisSite < right then [Entry(Find(name, pivot), thisSite - left)]
    else []
  }

  /** What the pivot of a wider interval appends before the runs: its creation. */
  function PivotEntries(nameOf: (int, int) -> string, left: int, right: int, thisSite: int, numSites: int): seq<Entry>
    requires left <= right
  {
    if thisSite == Pivot(left, right, numSites)
    then [Entry(Create(nameOf(left, right), right - left, thisSite), -1)]
    else []
  }

  /** Runs are at least one site wide and narrower than the interval they cut. */
  lemma StepsNarrower(left: int, right: int, arity: int)
    requires arity >= 2 && right - left >= arity
    ensures 1 <= Steps(left, right, arity) && Steps(left, right, arity) - 1 < right - left
  {
    var steps := (right - left + 1) / arity;
    QuotIs(right - left + 1, arity);
    DivBounds(right - left + 1, arity);
    MulLe(steps, 2, arity);
  }

  /** A later run starts at least one run width further on. */
  lemma RunsOrdered(left: int, steps: int, i: int, j: int)
    requires steps >= 1 && 0 <= i < j
    ensures RunLeft(left, steps, j) >= RunLeft(left, steps, i) + steps
  {
    MulIs(steps, i);
    MulIs(steps, j);
    MulLe(steps, i + 1, j);
    Distribute(steps, i);
  }


  /**
   * `r` is `comms` followed by exactly the entries this site appends for
   * `[left, right]`, stated one level at a time: a leaf interval appends
   * LeafEntries; a wider one appends the pivot's creation and then what the
   * runs append.
   */
  ghost predicate Filled(comms: seq<Entry>, r: seq<Entry>, left: int, right: int, nameOf: (int, int) -> string, arity: int,
                         maxDepth: int, thisSite: int, numSites: int)
    requires left <= right && arity >= 2
  {
    |comms| <= |r| && r[..|comms|] == comms &&
    if right - left < arity || maxDepth == 0 then
      r == comms + LeafEntries(nameOf, left, right, thisSite, numSites)
    else
      RunsFilled(comms + PivotEntries(nameOf, left, right, thisSite, numSites), r, left, right, nameOf, arity,
                 maxDepth, thisSite, numSites)
  }

  /**
   * After `h`, the runs of `[left, right]` append: a lookup with index `i`
   * when this site is run `i`'s lookup position, then exactly what the run
   * holding this site appends one level down (Appended of that run);
   * nothing more when no run holds it.
   */
  ghost predicate RunsFilled(h: seq<Entry>, r: seq<Entry>, left: int, right: int, nameOf: (int, int) -> string, arity: int,
                             maxDepth: int, thisSite: int, numSites: int)
    requires left <= right && arity >= 2 && right - left >= arity
  {
    var steps := Steps(left, right, arity);
    var k := |h| + (if HasLookup(left, steps, arity, thisSite) then 1 else 0);
    StepsNarrower(left, right, arity);
    k <= |r| && r[..|h|] == h &&
    (forall i :: 0 <= i < arity && thisSite == LookupAt(left, steps, i) ==>
       r[|h|] == Entry(Find(nameOf(left, right), Pivot(left, right, numSites)), i)) &&
    (forall i :: 0 <= i < arity && RunLeft(left, steps, i) <= thisSite < RunRight(left, steps, i) ==>
       r[k..] == Appended(RunLeft(left, steps, i), RunRight(left, steps, i), nameOf, arity, maxDepth - 1,
                          thisSite, numSites)) &&
    ((forall i :: 0 <= i < arity ==> !(RunLeft(left, steps, i) <= thisSite < RunRight(left, steps, i))) ==>
       |r| == k)
  }

  /**
   * The entries this site appends for `[left, right]`, run by run: a leaf
   * interval appends LeafEntries; a wider one appends the pivot's creation,
   * then the runs' lookups in order up to the first run that holds this
   * site, and then what that run appends one level down.
   */
  function Appended(left: int, right: int, nameOf: (int, int) -> string, arity: int, maxDepth: int,
                    thisSite: int, numSites: int): seq<Entry>
    requires left <= right && arity >= 2
    decreases right - left, 1, 0
  {
    if right - left < arity || maxDepth == 0 then LeafEntries(nameOf, left, right, thisSite, numSites)
    else PivotEntries(nameOf, left, right, thisSite, numSites) +
         RunsAppended(left, right, nameOf, arity, maxDepth, thisSite, numSites, 0)
  }

  /** Run `i`'s lookup: a Find with index `i` when this site is its lookup position. */
  function RunLookup(left: int, right: int, nameOf: (int, int) -> string, arity: int, thisSite: int, numSites: int,
                     i: int): seq<Entry>
    requires left <= right && arity >= 2
  {
    if thisSite == LookupAt(left, Steps(left, right, arity), i)
    then [Entry(Find(nameOf(left, right), Pivot(left, right, numSites)), i)]
    else []
  }

  /** A run that does not hold this site adds its lookup, and the later runs follow. */
  lemma RunsAppendedPast(before: seq<Entry>, left: int, right: int, nameOf: (int, int) -> string, arity: int,
                         maxDepth: int, thisSite: int, numSites: int, i: int)
    requires left <= right && arity >= 2 && right - left >= arity && 0 <= i < arity
    requires !(RunLeft(left, Steps(left, right, arity), i) <= thisSite < RunRight(left, Steps(left, right, arity), i))
    ensures before + RunsAppended(left, right, nameOf, arity, maxDepth, thisSite, numSites, i) ==
            (before + RunLookup(left, right, nameOf, arity, thisSite, numSites, i)) +
            RunsAppended(left, right, nameOf, arity, maxDepth, thisSite, numSites, i + 1)
  {
    EntriesAssoc(before, RunLookup(left, right, nameOf, arity, thisSite, numSites, i),
                 RunsAppended(left, right, nameOf, arity, maxDepth, thisSite, numSites, i + 1));
  }

  /** The run that holds this site adds its lookup, and then what it appends one level down. */
  lemma RunsAppendedInto(before: seq<Entry>, left: int, right: int, nameOf: (int, int) -> string, arity: int,
                         maxDepth: int, thisSite: int, numSites: int, i: int)
    requires left <= right && arity >= 2 && right - left >= arity && 0 <= i < arity
    requires RunLeft(left, Steps(left, right, arity), i) <= thisSite < RunRight(left, Steps(left, right, arity), i)
    ensures before + RunsAppended(left, right, nameOf, arity, maxDepth, thisSite, numSites, i) ==
            (before + RunLookup(left, right, nameOf, arity, thisSite, numSites, i)) +
            Appended(RunLeft(left, Steps(left, right, arity), i), RunRight(left, Steps(left, right, arity), i),
                     nameOf, arity, maxDepth - 1, thisSite, numSites)
  {
    var steps := Steps(left, right, arity);
    EntriesAssoc(before, RunLookup(left, right, nameOf, arity, thisSite, numSites, i),
                 Appended(RunLeft(left, steps, i), RunRight(left, steps, i), nameOf, arity, maxDepth - 1,
                          thisSite, numSites));
  }

  /** What runs `i` to `arity - 1` of `[left, right]` append, when no earlier run holds this site. */
  function RunsAppended(left: int, right: int, nameOf: (int, int) -> string, arity: int, maxDepth: int,
                        thisSite: int, numSites: int, i: int): seq<Entry>
    requires left <= right && arity >= 2 && right - left >= arity && 0 <= i <= arity
    decreases right - left, 0, arity - i
  {
    var steps := Steps(left, right, arity);
    if i == arity then []
    else
      var lookup := RunLookup(left, right, nameOf, arity, thisSite, numSites, i);
      StepsNarrower(left, right, arity);
      if RunLeft(left, steps, i) <= thisSite < RunRight(left, steps, i)
      then lookup + Appended(RunLeft(left, steps, i), RunRight(left, steps, i), nameOf, arity, maxDepth - 1,
                             thisSite, numSites)
      else lookup + RunsAppended(left, right, nameOf, arity, maxDepth, thisSite, numSites, i + 1)
  }

  /**
   * recursively_fill_communicators: the pivot of `[left, right]` creates its
   * communicator; an interval narrower than `arity` (or the last allowed
   * level) adds at most a lookup for a site inside it; otherwise the interval
   * is cut into `arity` runs of `(right - left + 1) / arity` sites, a site at
   * a run's lookup position looks the communicator up, and the recursion
   * continues only into the run that holds this site. Entries are only ever
   * appended.
   */
  method RecursivelyFill(comms: seq<Entry>, left: int, right: int, basename: string, arity: int,
                         maxDepth: int, thisSite: int, numSites: int) returns (r: seq<Entry>)
    requires 0 <= left <= right && arity >= 2
    ensures |comms| <= |r| <= |comms| + 2 * (right - left + 1) && r[..|comms|] == comms
    ensures forall k :: |comms| <= k < |r| ==> Within(r[k], basename, left, right, thisSite, numSites)
    ensures thisSite == Pivot(left, right, numSites) ==>
              |r| > |comms| && r[|comms|] == Entry(Create(IntervalName(basename, left, right), right - left, thisSite), -1)
    ensures right - left < arity || maxDepth == 0 ==>
              |r| <= |comms| + 1 &&
              forall k :: |comms| <= k < |r| ==> MadeFor(r[k], basename, left, right, thisSite, numSites)
    ensures forall k :: |comms| <= k < |r| ==>
              Below(r[k], basename, left, right, thisSite, numSites) ||
              (k < |comms| + 2 && MadeFor(r[k], basename, left, right, thisSite, numSites))
    ensures r == comms + Appended(left, right, Names(basename), arity, maxDepth, thisSite, numSites)
    decreases right - left, 2
  {
    var name := IntervalName(basename, left, right);
    var pivot := Pivot(left, right, numSites);
    r := comms;
    if thisSite == pivot {
      r := r + [Entry(Create(name, right - left, thisSite), -1)];
      MadeForHere(r[|r| - 1], basename, left, right, thisSite, numSites);
      if right - left < arity || maxDepth == 0 {
        return;
      }
    }
    if right - left < arity || maxDepth == 0 {
      if thisSite >= left && thisSite < right && thisSite != pivot {
        r := r + [Entry(Find(name, pivot), thisSite - left)];
        MadeForHere(r[|r| - 1], basename, left, right, thisSite, numSites);
      }
      return;
    }
    ghost var head := r;
    assert head == comms + PivotEntries(Names(basename), left, right, thisSite, numSites);
    r := FillRuns(r, left, right, basename, arity, maxDepth, thisSite, numSites);
    KeepsEarlier(head, r, |comms|);
    assert forall k :: |comms| <= k < |head| ==> r[k] == head[k];
    EntriesAssoc(comms, PivotEntries(Names(basename), left, right, thisSite, numSites),
                RunsAppended(left, right, Names(basename), arity, maxDepth, thisSite, numSites, 0));
  }

  /** Concatenation of entries is associative. */
  lemma EntriesAssoc(a: seq<Entry>, b: seq<Entry>, c: seq<Entry>)
    ensures (a + b) + c == a + (b + c)
  {
  }

  /** A prefix one longer is the shorter prefix and one more element. */
  lemma PrefixOne(r: seq<Entry>, n: int)
    requires 0 <= n < |r|
    ensures r[..n + 1] == r[..n] + [r[n]]
  {
  }

  /** A sequence is its prefix followed by the rest. */
  lemma SplitAt(r: seq<Entry>, n: int)
    requires 0 <= n <= |r|
    ensures r == r[..n] + r[n..]
  {
  }

  /** Appending to a sequence keeps every earlier element. */
  lemma KeepsEarlier(before: seq<Entry>, r: seq<Entry>, lo: nat)
    requires lo <= |before| <= |r| && r[..|before|] == before
    ensures r[..lo] == before[..lo]
    ensures forall k :: lo <= k < |before| ==> r[k] == before[k]
  {
    assert forall k :: 0 <= k < |before| ==> r[k] == r[..|before|][k];
  }

  /**
   * The loop of recursively_fill_communicators over the `arity` runs of an
   * interval at least `arity` wide: at most one run's lookup position is this
   * site, and the recursion descends into the first run that holds it.
   */
  method FillRuns(comms: seq<Entry>, left: int, right: int, basename: string, arity: int,
                  maxDepth: int, thisSite: int, numSites: int) returns (r: seq<Entry>)
    requires 0 <= left <= right && arity >= 2 && right - left >= arity
    ensures |comms| <= |r| <= |comms| + 2 * (right - left) + 1 && r[..|comms|] == comms
    ensures forall k :: |comms| <= k < |r| ==> Within(r[k], basename, left, right, thisSite, numSites)
    ensures forall k :: |comms| <= k < |r| ==>
              Below(r[k], basename, left, right, thisSite, numSites) ||
              (k == |comms| && r[k].link.Find? && MadeFor(r[k], basename, left, right, thisSite, numSites))
    ensures r == comms + RunsAppended(left, right, Names(basename), arity, maxDepth, thisSite, numSites, 0)
    decreases right - left, 1
  {
    var name := IntervalName(basename, left, right);
    var pivot := Pivot(left, right, numSites);
    var steps := (right - left + 1) / arity;
    r := comms;
    var i := 0;
    ghost var found := -1;
    while i < arity
      invariant 0 <= i <= arity
      invariant LookupsSoFar(comms, r, left, right, Names(basename), arity, thisSite, numSites, i, i, found)
      invariant r + RunsAppended(left, right, Names(basename), arity, maxDepth, thisSite, numSites, i) ==
                comms + RunsAppended(left, right, Names(basename), arity, maxDepth, thisSite, numSites, 0)
    {
      ghost var r0, found0 := r, found;
      RunPositions(left, right, arity, steps, i);
      if thisSite == left + (steps * i) - 1 + (steps / 2) {
        r := r + [Entry(Find(name, pivot), i)];
        found := i;
      }
      LookupStep(comms, r0, r, left, right, Names(basename), arity, thisSite, numSites, i, found0, found);
      var currentLeft := left + (steps * i);
      var currentRight := left + (steps * (i + 1) - 1);
      assert r == r0 + RunLookup(left, right, Names(basename), arity, thisSite, numSites, i);
      if thisSite >= currentLeft && thisSite < currentRight {
        RunsAppendedInto(r0, left, right, Names(basename), arity, maxDepth, thisSite, numSites, i);
        r := DescendRun(comms, r, left, right, basename, arity, maxDepth, thisSite, numSites, i,
                        currentLeft, currentRight, found);
        return;
      }
      RunsAppendedPast(r0, left, right, Names(basename), arity, maxDepth, thisSite, numSites, i);
      RunStep(comms, r, left, right, Names(basename), arity, thisSite, numSites, i, found);
      i := i + 1;
    }
    LookupMadeFor(comms, r, left, right, basename, arity, thisSite, numSites, arity, arity, found);
    forall k | |comms| <= k < |r|
      ensures Within(r[k], basename, left, right, thisSite, numSites)
    {
      MadeForHere(r[k], basename, left, right, thisSite, numSites);
    }
  }

  /**
   * The state of the loop over the runs: the lookups of the first `looked`
   * runs are done (at most one, the one at `found`), and none of the first
   * `passed` runs holds this site.
   */
  ghost predicate LookupsSoFar(comms: seq<Entry>, r: seq<Entry>, left: int, right: int, nameOf: (int, int) -> string, arity: int,
                               thisSite: int, numSites: int, looked: int, passed: int, found: int)
    requires left <= right && arity >= 2
  {
    var steps := Steps(left, right, arity);
    0 <= passed <= looked <= arity && looked <= passed + 1 &&
    |comms| <= |r| <= |comms| + 1 && r[..|comms|] == comms &&
    (|r| == |comms| + 1 ==> 0 <= found < looked && thisSite == LookupAt(left, steps, found)) &&
    (forall j :: 0 <= j < passed ==> !(RunLeft(left, steps, j) <= thisSite < RunRight(left, steps, j))) &&
    (forall j :: 0 <= j < looked && thisSite == LookupAt(left, steps, j) ==>
       |r| == |comms| + 1 &&
       r[|comms|] == Entry(Find(nameOf(left, right), Pivot(left, right, numSites)), j))
  }

  /** The lookup the loop over the runs appended belongs to `[left, right]` itself. */
  lemma LookupMadeFor(comms: seq<Entry>, r: seq<Entry>, left: int, right: int, basename: string, arity: int,
                      thisSite: int, numSites: int, looked: int, passed: int, found: int)
    requires left <= right && arity >= 2 && right - left >= arity
    requires LookupsSoFar(comms, r, left, right, Names(basename), arity, thisSite, numSites, looked, passed, found)
    ensures forall k :: |comms| <= k < |r| ==> r[k].link.Find? && MadeFor(r[k], basename, left, right, thisSite, numSites)
  {
    if |r| == |comms| + 1 {
      assert r[|comms|] == Entry(Find(IntervalName(basename, left, right), Pivot(left, right, numSites)), found);
    }
  }

  /** Run `i`'s lookup: appended exactly when this site is its position, and never twice. */
  lemma LookupStep(comms: seq<Entry>, r: seq<Entry>, r2: seq<Entry>, left: int, right: int, nameOf: (int, int) -> string,
                   arity: int, thisSite: int, numSites: int, i: int, found: int, found2: int)
    requires left <= right && arity >= 2 && right - left >= arity && i < arity
    requires LookupsSoFar(comms, r, left, right, nameOf, arity, thisSite, numSites, i, i, found)
    requires if thisSite == LookupAt(left, Steps(left, right, arity), i)
             then r2 == r + [Entry(Find(nameOf(left, right), Pivot(left, right, numSites)), i)] &&
                  found2 == i
             else r2 == r && found2 == found
    ensures LookupsSoFar(comms, r2, left, right, nameOf, arity, thisSite, numSites, i + 1, i, found2)
  {
    var steps := Steps(left, right, arity);
    StepsNarrower(left, right, arity);
    if |r| == |comms| + 1 {
      RunsOrdered(left, steps, found, i);
    }
    assert r2[..|comms|] == r[..|comms|];
  }

  /** Run `i` does not hold this site: the loop moves past it. */
  lemma RunStep(comms: seq<Entry>, r: seq<Entry>, left: int, right: int, nameOf: (int, int) -> string, arity: int,
                thisSite: int, numSites: int, i: int, found: int)
    requires left <= right && arity >= 2 && 0 <= i < arity
    requires LookupsSoFar(comms, r, left, right, nameOf, arity, thisSite, numSites, i + 1, i, found)
    requires !(RunLeft(left, Steps(left, right, arity), i) <= thisSite < RunRight(left, Steps(left, right, arity), i))
    ensures LookupsSoFar(comms, r, left, right, nameOf, arity, thisSite, numSites, i + 1, i + 1, found)
  {
  }

  /**
   * The descent of recursively_fill_communicators into run `i`, the run that
   * holds this site, after the lookups of the runs up to it.
   */
  method DescendRun(ghost comms: seq<Entry>, before: seq<Entry>, left: int, right: int, basename: string, arity: int,
                    maxDepth: int, thisSite: int, numSites: int, i: int, currentLeft: int, currentRight: int,
                    ghost found: int) returns (r: seq<Entry>)
    requires 0 <= left <= right && arity >= 2 && right - left >= arity && 0 <= i < arity
    requires LookupsSoFar(comms, before, left, right, Names(basename), arity, thisSite, numSites, i + 1, i, found)
    requires currentLeft == RunLeft(left, Steps(left, right, arity), i)
    requires currentRight == RunRight(left, Steps(left, right, arity), i)
    requires currentLeft <= thisSite < currentRight
    requires comms + RunsAppended(left, right, Names(basename), arity, maxDepth, thisSite, numSites, 0) ==
             before + Appended(currentLeft, currentRight, Names(basename), arity, maxDepth - 1, thisSite, numSites)
    ensures |comms| <= |r| <= |comms| + 2 * (right - left) + 1 && r[..|comms|] == comms
    ensures forall k :: |comms| <= k < |r| ==> Within(r[k], basename, left, right, thisSite, numSites)
    ensures forall k :: |comms| <= k < |r| ==>
              Below(r[k], basename, left, right, thisSite, numSites) ||
              (k == |comms| && r[k].link.Find? && MadeFor(r[k], basename, left, right, thisSite, numSites))
    ensures r == comms + RunsAppended(left, right, Names(basename), arity, maxDepth, thisSite, numSites, 0)
    decreases right - left, 0
  {
    StepsNarrower(left, right, arity);
    SplitBounds(left, right, arity, i);
    r := RecursivelyFill(before, currentLeft, currentRight, basename, arity, maxDepth - 1, thisSite, numSites);
    forall k | |before| <= k < |r|
      ensures Within(r[k], basename, left, right, thisSite, numSites)
      ensures Below(r[k], basename, left, right, thisSite, numSites)
    {
      WithinWiden(r[k], basename, currentLeft, currentRight, left, right, thisSite, numSites);
      WithinBelow(r[k], basename, currentLeft, currentRight, left, right, thisSite, numSites);
    }
    KeepsEarlier(before, r, |comms|);
    LookupMadeFor(comms, before, left, right, basename, arity, thisSite, numSites, i + 1, i, found);
    forall k | |comms| <= k < |before|
      ensures Within(r[k], basename, left, right, thisSite, numSites)
    {
      MadeForHere(r[k], basename, left, right, thisSite, numSites);
    }
  }

  /**
   * The runs are filled when the loop descends into run `i`: the lookups up
   * to run `i` are in `before`, and the recursion filled run `i` after it.
   */
  lemma DescentFills(h: seq<Entry>, before: seq<Entry>, r: seq<Entry>, left: int, right: int, nameOf: (int, int) -> string,
                     arity: int, maxDepth: int, thisSite: int, numSites: int, i: int, cl: int, cr: int,
                     found: int)
    requires left <= right && arity >= 2 && right - left >= arity && 0 <= i < arity
    requires LookupsSoFar(h, before, left, right, nameOf, arity, thisSite, numSites, i + 1, i, found)
    requires cl == RunLeft(left, Steps(left, right, arity), i) && cr == RunRight(left, Steps(left, right, arity), i)
    requires cl <= thisSite < cr
    requires |before| <= |r| && r[..|before|] == before
    requires r[|before|..] == Appended(cl, cr, nameOf, arity, maxDepth - 1, thisSite, numSites)
    ensures RunsFilled(h, r, left, right, nameOf, arity, maxDepth, thisSite, numSites)
  {
    var steps := Steps(left, right, arity);
    StepsNarrower(left, right, arity);
    LaterRuns(left, steps, arity, i, thisSite);
    assert HasLookup(left, steps, arity, thisSite) <==> |before| == |h| + 1;
    var k := |h| + (if HasLookup(left, steps, arity, thisSite) then 1 else 0);
    assert r[..k] == before;
    assert r[..|h|] == before[..|h|];
    forall j | 0 <= j < arity && RunLeft(left, steps, j) <= thisSite < RunRight(left, steps, j)
      ensures r[k..] == Appended(RunLeft(left, steps, j), RunRight(left, steps, j), nameOf, arity, maxDepth - 1,
                                 thisSite, numSites)
    {
      assert j == i;
    }
    forall j | 0 <= j < arity && thisSite == LookupAt(left, steps, j)
      ensures r[|h|] == Entry(Find(nameOf(left, right), Pivot(left, right, numSites)), j)
    {
      assert j <= i;
    }
  }

  /** The runs are filled when the loop ends without descending: only the lookup, if any, was added. */
  lemma NoRunFills(h: seq<Entry>, r: seq<Entry>, left: int, right: int, nameOf: (int, int) -> string,
                   arity: int, maxDepth: int, thisSite: int, numSites: int, found: int)
    requires left <= right && arity >= 2 && right - left >= arity
    requires LookupsSoFar(h, r, left, right, nameOf, arity, thisSite, numSites, arity, arity, found)
    ensures RunsFilled(h, r, left, right, nameOf, arity, maxDepth, thisSite, numSites)
  {
    var steps := Steps(left, right, arity);
    StepsNarrower(left, right, arity);
    assert HasLookup(left, steps, arity, thisSite) <==> |r| == |h| + 1;
  }

  /**
   * When run `i` holds this site, no later run holds it and no later run's
   * lookup position is it.
   */
  lemma LaterRuns(left: int, steps: int, arity: int, i: int, thisSite: int)
    requires steps >= 1 && 0 <= i < arity
    requires RunLeft(left, steps, i) <= thisSite < RunRight(left, steps, i)
    ensures forall j :: i < j < arity ==> RunLeft(left, steps, j) > thisSite && LookupAt(left, steps, j) > thisSite
  {
    forall j | i < j < arity
      ensures RunLeft(left, steps, j) > thisSite && LookupAt(left, steps, j) > thisSite
    {
      RunsOrdered(left, steps, i, j);
    }
  }

  /**
   * create_hierarchical_communicator: the defaults of create_communicator,
   * the registration name, and the tree of `[0, numSites - 1]` below it; the
   * root site is checked but takes no part in the tree.
   */
  method CreateHierarchicalCommunicator(basename: string, numSites: nat, thisSite: nat, generation: nat,
                                        rootSite: nat, arity: int, here: Locality) returns (r: seq<Entry>)
    requires ValidLocality(here) && arity >= 2
    requires SitesValid(Defaulted(Sites(numSites, thisSite, rootSite), here))
    ensures var d := Defaulted(Sites(numSites, thisSite, rootSite), here);
            forall k :: 0 <= k < |r| ==>
              Within(r[k], RegistrationName(basename, generation), 0, d.numSites - 1, d.thisSite, d.numSites)
    ensures var d := Defaulted(Sites(numSites, thisSite, rootSite), here);
            d.thisSite == 0 ==>
              |r| >= 1 &&
              r[0] == Entry(Create(IntervalName(RegistrationName(basename, generation), 0, d.numSites - 1), d.numSites - 1, 0), -1)
    ensures var d := Defaulted(Sites(numSites, thisSite, rootSite), here);
            d.numSites >= 2 ==> forall k :: 0 <= k < |r| && r[k].link.Create? ==> r[k].link.size >= 1
    ensures var d := Defaulted(Sites(numSites, thisSite, rootSite), here);
            d.numSites == 1 ==> r == [Entry(Create(IntervalName(RegistrationName(basename, generation), 0, 0), 0, 0), -1)]
    ensures var d := Defaulted(Sites(numSites, thisSite, rootSite), here);
            r == Tree(RegistrationName(basename, generation), d.numSites, d.thisSite, arity)
  {
    var sites := Defaulted(Sites(numSites, thisSite, rootSite), here);
    r := FillTree(RegistrationName(basename, generation), sites.numSites, sites.thisSite, arity);
  }

  /** The entries of the whole tree `[0, n - 1]` under `name`, as seen from site `t`, with no depth limit. */
  function Tree(name: string, n: int, t: int, arity: int): seq<Entry>
    requires n >= 1 && arity >= 2
  {
    Appended(0, n - 1, Names(name), arity, -1, t, n)
  }

  /** The tree of `[0, n - 1]` under `name`, as seen from site `t`. */
  method FillTree(name: string, n: int, t: int, arity: int) returns (r: seq<Entry>)
    requires 0 <= t < n && arity >= 2
    ensures forall k :: 0 <= k < |r| ==> Within(r[k], name, 0, n - 1, t, n)
    ensures t == 0 ==> |r| >= 1 && r[0] == Entry(Create(IntervalName(name, 0, n - 1), n - 1, 0), -1)
    ensures n >= 2 ==> forall k :: 0 <= k < |r| && r[k].link.Create? ==> r[k].link.size >= 1
    ensures n == 1 ==> r == [Entry(Create(IntervalName(name, 0, 0), 0, 0), -1)]
    ensures r == Tree(name, n, t, arity)
  {
    r := RecursivelyFill([], 0, n - 1, name, arity, -1, t, n);
    TreeSized(r, name, n, t);
    if n == 1 {
      assert t == Pivot(0, 0, 1) && |r| <= 1;
      assert r == [r[0]];
    }
  }

  /** With two sites or more, every communicator the tree creates is sized for at least one site. */
  lemma TreeSized(r: seq<Entry>, basename: string, n: int, t: int)
    requires forall k :: 0 <= k < |r| ==> Within(r[k], basename, 0, n - 1, t, n)
    ensures n >= 2 ==> forall k :: 0 <= k < |r| && r[k].link.Create? ==> r[k].link.size >= 1
  {
    if n >= 2 {
      forall k | 0 <= k < |r|
        ensures r[k].link.Create? ==> r[k].link.size >= 1
      {
        WithinSized(r[k], basename, 0, n - 1, t, n);
      }
    }
  }

  /** The entries Appended computes meet Filled. */
  lemma AppendedFilled(comms: seq<Entry>, left: int, right: int, nameOf: (int, int) -> string, arity: int,
                        maxDepth: int, thisSite: int, numSites: int)
    requires left <= right && arity >= 2
    ensures Filled(comms, comms + Appended(left, right, nameOf, arity, maxDepth, thisSite, numSites),
                   left, right, nameOf, arity, maxDepth, thisSite, numSites)
  {
    var r := comms + Appended(left, right, nameOf, arity, maxDepth, thisSite, numSites);
    if right - left < arity || maxDepth == 0 {
      FilledOfLeaf(comms, r, left, right, nameOf, arity, maxDepth, thisSite, numSites);
    } else {
      var h := comms + PivotEntries(nameOf, left, right, thisSite, numSites);
      var runs := RunsAppended(left, right, nameOf, arity, maxDepth, thisSite, numSites, 0);
      EntriesAssoc(comms, PivotEntries(nameOf, left, right, thisSite, numSites), runs);
      RunsFrom(h, h, left, right, nameOf, arity, maxDepth, thisSite, numSites, 0, -1);
      FilledOfRuns(comms, r, left, right, nameOf, arity, maxDepth, thisSite, numSites);
    }
  }

  /** A leaf interval is filled by its LeafEntries. */
  lemma FilledOfLeaf(comms: seq<Entry>, r: seq<Entry>, left: int, right: int, nameOf: (int, int) -> string, arity: int,
                     maxDepth: int, thisSite: int, numSites: int)
    requires left <= right && arity >= 2 && (right - left < arity || maxDepth == 0)
    requires r == comms + LeafEntries(nameOf, left, right, thisSite, numSites)
    ensures Filled(comms, r, left, right, nameOf, arity, maxDepth, thisSite, numSites)
  {
    assert r[..|comms|] == comms;
  }

  /** A wider interval is filled by its pivot's creation and its runs. */
  lemma FilledOfRuns(comms: seq<Entry>, r: seq<Entry>, left: int, right: int, nameOf: (int, int) -> string, arity: int,
                     maxDepth: int, thisSite: int, numSites: int)
    requires left <= right && arity >= 2 && !(right - left < arity || maxDepth == 0)
    requires RunsFilled(comms + PivotEntries(nameOf, left, right, thisSite, numSites), r, left, right, nameOf,
                        arity, maxDepth, thisSite, numSites)
    ensures Filled(comms, r, left, right, nameOf, arity, maxDepth, thisSite, numSites)
  {
    var h := comms + PivotEntries(nameOf, left, right, thisSite, numSites);
    assert r[..|h|] == h;
    assert r[..|comms|] == h[..|comms|] == comms;
  }

  /**
   * The runs from `j` on complete RunsFilled, given the lookups and the runs
   * before `j` that `before` already accounts for.
   */
  lemma {:induction false} RunsFrom(h: seq<Entry>, before: seq<Entry>, left: int, right: int, nameOf: (int, int) -> string,
                                    arity: int, maxDepth: int, thisSite: int, numSites: int, j: int, found: int)
    requires left <= right && arity >= 2 && right - left >= arity && 0 <= j <= arity
    requires LookupsSoFar(h, before, left, right, nameOf, arity, thisSite, numSites, j, j, found)
    ensures RunsFilled(h, before + RunsAppended(left, right, nameOf, arity, maxDepth, thisSite, numSites, j),
                       left, right, nameOf, arity, maxDepth, thisSite, numSites)
    decreases arity - j, 1
  {
    var steps := Steps(left, right, arity);
    StepsNarrower(left, right, arity);
    if j == arity {
      assert before + RunsAppended(left, right, nameOf, arity, maxDepth, thisSite, numSites, j) == before;
      NoRunFills(h, before, left, right, nameOf, arity, maxDepth, thisSite, numSites, found);
    } else if RunLeft(left, steps, j) <= thisSite < RunRight(left, steps, j) {
      DescentFrom(h, before, left, right, nameOf, arity, maxDepth, thisSite, numSites, j, found);
    } else {
      SkipRun(h, before, left, right, nameOf, arity, maxDepth, thisSite, numSites, j, found);
    }
  }

  /** Run `j` does not hold this site: its lookup, then the later runs, complete RunsFilled. */
  lemma {:induction false} SkipRun(h: seq<Entry>, before: seq<Entry>, left: int, right: int, nameOf: (int, int) -> string,
                                   arity: int, maxDepth: int, thisSite: int, numSites: int, j: int, found: int)
    requires left <= right && arity >= 2 && right - left >= arity && 0 <= j < arity
    requires LookupsSoFar(h, before, left, right, nameOf, arity, thisSite, numSites, j, j, found)
    requires !(RunLeft(left, Steps(left, right, arity), j) <= thisSite < RunRight(left, Steps(left, right, arity), j))
    ensures RunsFilled(h, before + RunsAppended(left, right, nameOf, arity, maxDepth, thisSite, numSites, j),
                       left, right, nameOf, arity, maxDepth, thisSite, numSites)
    decreases arity - j, 0
  {
    var steps := Steps(left, right, arity);
    var lookup := RunLookup(left, right, nameOf, arity, thisSite, numSites, j);
    RunsAppendedPast(before, left, right, nameOf, arity, maxDepth, thisSite, numSites, j);
    var found2 := if thisSite == LookupAt(left, steps, j) then j else found;
    LookupStep(h, before, before + lookup, left, right, nameOf, arity, thisSite, numSites, j, found, found2);
    RunsFrom(h, before + lookup, left, right, nameOf, arity, maxDepth, thisSite, numSites, j + 1, found2);
    assert before + RunsAppended(left, right, nameOf, arity, maxDepth, thisSite, numSites, j) ==
           (before + lookup) + RunsAppended(left, right, nameOf, arity, maxDepth, thisSite, numSites, j + 1);
    RunsFilledSame(h, before + RunsAppended(left, right, nameOf, arity, maxDepth, thisSite, numSites, j),
                   (before + lookup) + RunsAppended(left, right, nameOf, arity, maxDepth, thisSite, numSites, j + 1),
                   left, right, nameOf, arity, maxDepth, thisSite, numSites);
  }

  /** RunsFilled of one sequence carries over to an equal one. */
  lemma RunsFilledSame(h: seq<Entry>, x: seq<Entry>, y: seq<Entry>, left: int, right: int, nameOf: (int, int) -> string,
                       arity: int, maxDepth: int, thisSite: int, numSites: int)
    requires left <= right && arity >= 2 && right - left >= arity
    requires x == y && RunsFilled(h, y, left, right, nameOf, arity, maxDepth, thisSite, numSites)
    ensures RunsFilled(h, x, left, right, nameOf, arity, maxDepth, thisSite, numSites)
  {
  }

  /** Run `j` holds this site: its lookup, then what it appends one level down, complete RunsFilled. */
  lemma DescentFrom(h: seq<Entry>, before: seq<Entry>, left: int, right: int, nameOf: (int, int) -> string,
                                       arity: int, maxDepth: int, thisSite: int, numSites: int, j: int, found: int)
    requires left <= right && arity >= 2 && right - left >= arity && 0 <= j < arity
    requires LookupsSoFar(h, before, left, right, nameOf, arity, thisSite, numSites, j, j, found)
    requires RunLeft(left, Steps(left, right, arity), j) <= thisSite < RunRight(left, Steps(left, right, arity), j)
    ensures RunsFilled(h, before + RunsAppended(left, right, nameOf, arity, maxDepth, thisSite, numSites, j),
                       left, right, nameOf, arity, maxDepth, thisSite, numSites)
  {
    var steps := Steps(left, right, arity);
    StepsNarrower(left, right, arity);
    var lookup := RunLookup(left, right, nameOf, arity, thisSite, numSites, j);
    RunsAppendedInto(before, left, right, nameOf, arity, maxDepth, thisSite, numSites, j);
    var found2 := if thisSite == LookupAt(left, steps, j) then j else found;
    LookupStep(h, before, before + lookup, left, right, nameOf, arity, thisSite, numSites, j, found, found2);
    var cl, cr := RunLeft(left, steps, j), RunRight(left, steps, j);
    var tail := Appended(cl, cr, nameOf, arity, maxDepth - 1, thisSite, numSites);
    assert ((before + lookup) + tail)[..|before + lookup|] == before + lookup;
    assert ((before + lookup) + tail)[|before + lookup|..] == tail;
    DescentFills(h, before + lookup, (before + lookup) + tail, left, right, nameOf, arity, maxDepth,
                 thisSite, numSites, j, cl, cr, found2);
  }

  /** Filled holds of exactly one result: `comms` followed by Appended. */
  lemma FilledExactly(comms: seq<Entry>, r: seq<Entry>, left: int, right: int, nameOf: (int, int) -> string, arity: int,
                      maxDepth: int, thisSite: int, numSites: int)
    requires left <= right && arity >= 2
    ensures Filled(comms, r, left, right, nameOf, arity, maxDepth, thisSite, numSites) <==>
            r == comms + Appended(left, right, nameOf, arity, maxDepth, thisSite, numSites)
  {
    AppendedFilled(comms, left, right, nameOf, arity, maxDepth, thisSite, numSites);
    if Filled(comms, r, left, right, nameOf, arity, maxDepth, thisSite, numSites) {
      FilledUnique(comms, r, comms + Appended(left, right, nameOf, arity, maxDepth, thisSite, numSites),
                   left, right, nameOf, arity, maxDepth, thisSite, numSites);
    }
  }

  /**
   * Filled determines the entries: two results that both meet it for the
   * same interval and the same earlier entries are equal.
   */
  lemma FilledUnique(comms: seq<Entry>, r1: seq<Entry>, r2: seq<Entry>, left: int, right: int,
                      nameOf: (int, int) -> string, arity: int, maxDepth: int, thisSite: int, numSites: int)
    requires left <= right && arity >= 2
    requires Filled(comms, r1, left, right, nameOf, arity, maxDepth, thisSite, numSites)
    requires Filled(comms, r2, left, right, nameOf, arity, maxDepth, thisSite, numSites)
    ensures r1 == r2
  {
    if !(right - left < arity || maxDepth == 0) {
      RunsUnique(comms + PivotEntries(nameOf, left, right, thisSite, numSites), r1, r2, left, right, nameOf,
                 arity, maxDepth, thisSite, numSites);
    }
  }

  /** RunsFilled determines the entries after `h`. */
  lemma RunsUnique(h: seq<Entry>, r1: seq<Entry>, r2: seq<Entry>, left: int, right: int,
                   nameOf: (int, int) -> string, arity: int, maxDepth: int, thisSite: int, numSites: int)
    requires left <= right && arity >= 2 && right - left >= arity
    requires RunsFilled(h, r1, left, right, nameOf, arity, maxDepth, thisSite, numSites)
    requires RunsFilled(h, r2, left, right, nameOf, arity, maxDepth, thisSite, numSites)
    ensures r1 == r2
  {
    var steps := Steps(left, right, arity);
    StepsNarrower(left, right, arity);
    var k := |h| + (if HasLookup(left, steps, arity, thisSite) then 1 else 0);
    if HasLookup(left, steps, arity, thisSite) {
      var j :| 0 <= j < arity && thisSite == LookupAt(left, steps, j);
      PrefixOne(r1, |h|);
      PrefixOne(r2, |h|);
    }
    assert r1[..k] == r2[..k];
    SplitAt(r1, k);
    SplitAt(r2, k);
    if i :| 0 <= i < arity && RunLeft(left, steps, i) <= thisSite < RunRight(left, steps, i) {
      assert r1[k..] == r2[k..];
    } else {
      assert r1[k..] == [] == r2[k..];
    }
  }

  /**
   * Site 2 of four sites with arity 2 looks up the top communicator as run 1
   * and then creates the communicator of `[2, 3]`, and nothing else.
   */
  lemma SiteTwoOfFour(r: seq<Entry>, basename: string)
    requires Filled([], r, 0, 3, Names(basename), 2, -1, 2, 4)
    ensures r == [Entry(Find(IntervalName(basename, 0, 3), 0), 1), Entry(Create(IntervalName(basename, 2, 3), 1, 2), -1)]
  {
    FilledExactly([], r, 0, 3, Names(basename), 2, -1, 2, 4);
    assert Steps(0, 3, 2) == 2;
    assert RunsAppended(0, 3, Names(basename), 2, -1, 2, 4, 0) == RunsAppended(0, 3, Names(basename), 2, -1, 2, 4, 1);
  }
}
