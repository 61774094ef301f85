// The runtime support component of a locality: the table from component
// type to factory with its lookups, the loading of component modules named
// in the configuration, tidying the table away, and the stop flags.

module RuntimeSupport {
  import opened Wrappers
  import opened Text

  // ---------------------------------------------------------------------
  // Entities

  /** What the table needs of a component factory. */
  datatype Factory = Factory(properties: int, mayUnload: bool)

  /** A table entry: the factory (None for a null pointer) and the module it came from. */
  datatype Entry = Entry(factory: Option<Factory>, library: string)

  /** Why an operation failed; CodeOf gives the error code it is raised with. */
  datatype Fault =
    | UnknownType      // type absent or its factory null, reported as one case
    | NotFoundInMap    // type absent
    | NullMapEntry     // type present with a null factory
    | NotBound         // the global id resolves to no address
    | NotLocal         // the global id resolves to another locality

  datatype ErrorCode = BadComponentType | UnknownComponentAddress

  function CodeOf(f: Fault): (c: ErrorCode)
    ensures c == UnknownComponentAddress <==> f.NotBound? || f.NotLocal?
  {
    match f
    case NotBound => UnknownComponentAddress
    case NotLocal => UnknownComponentAddress
    case _ => BadComponentType
  }

  /** The request handed to a factory: create `count` instances, or one from a constructor argument. */
  datatype Creation = CreateMany(factory: Factory, count: nat) | CreateOne(factory: Factory, argument: int)

  /** What a free does: destroy a memory block at a local address, or hand the id to the type's factory. */
  datatype Freeing = DestroyBlock(address: nat) | Destroy(factory: Factory, gid: nat)

  /** Where the name service says a global id lives. */
  datatype Address = Address(locality: nat, address: nat)

  /** The file extension of shared libraries (the Linux value). */
  const SharedLibExtension: string := ".so"

  // ---------------------------------------------------------------------
  // Registration, as a function of the table

  /** std::map::insert: adds the pair only when the key is absent, and says whether it did. */
  function Insert(m: map<int, Entry>, k: int, e: Entry): (r: (map<int, Entry>, bool))
    ensures r.1 <==> k !in m
    ensures r.0 == if k in m then m else m[k := e]
  {
    if k in m then (m, false) else (m[k := e], true)
  }

  /**
   * The inserts of a loaded module: its type `t`, then, when `t` has a
   * derived type, the derived and the base type, each only while the
   * previous insert succeeded. The flag is false when an insert found the
   * key taken.
   */
  function Register(m: map<int, Entry>, t: int, e: Entry, derivedOf: int -> int, baseOf: int -> int)
    : (map<int, Entry>, bool)
  {
    var (m1, ok1) := Insert(m, t, e);
    if derivedOf(t) == 0 || !ok1 then (m1, ok1)
    else
      var (m2, ok2) := Insert(m1, derivedOf(t), e);
      if !ok2 then (m2, ok2) else Insert(m2, baseOf(t), e)
  }

  /** Registering never changes or removes an entry that was there. */
  lemma RegisterKeeps(m: map<int, Entry>, t: int, e: Entry, derivedOf: int -> int, baseOf: int -> int)
    ensures var r := Register(m, t, e, derivedOf, baseOf).0;
            forall k :: k in m ==> k in r && r[k] == m[k]
  {
  }

  /**
   * Registration succeeds exactly when every type it inserts is new and the
   * types are distinct, and then the table gains exactly those types.
   */
  lemma RegisterSucceeds(m: map<int, Entry>, t: int, e: Entry, derivedOf: int -> int, baseOf: int -> int)
    ensures var (r, ok) := Register(m, t, e, derivedOf, baseOf);
            var d, b := derivedOf(t), baseOf(t);
            (d == 0 ==> (ok <==> t !in m) && (ok ==> r == m[t := e])) &&
            (d != 0 ==> (ok <==> t !in m && d !in m && b !in m && d != t && b != t && b != d) &&
                        (ok ==> r == m[t := e][d := e][b := e]))
  {
  }

  /** A failed registration keeps what it inserted before the duplicate: the type itself when it was new. */
  lemma RegisterPartial(m: map<int, Entry>, t: int, e: Entry, derivedOf: int -> int, baseOf: int -> int)
    requires t !in m
    ensures var r := Register(m, t, e, derivedOf, baseOf).0;
            t in r && r[t] == e
  {
  }

  // ---------------------------------------------------------------------
  // Paths

  /** The file name of a path: what follows its last `/`. */
  function Leaf(p: string): (r: string)
    ensures |r| <= |p| && r == p[|p| - |r|..] && '/' !in r
  {
    if p == [] || p[|p| - 1] == '/' then [] else Leaf(p[..|p| - 1]) + [p[|p| - 1]]
  }

  /** The suffix of `s` from its last `.` on, or empty when it has none. */
  function DotSuffix(s: string): (r: string)
    ensures r == [] || (r[0] == '.' && '.' !in r[1..] && |r| <= |s| && r == s[|s| - |r|..])
    ensures r == [] ==> '.' !in s
  {
    if s == [] then []
    else if s[|s| - 1] == '.' then "."
    else
      var e := DotSuffix(s[..|s| - 1]);
      assert s == s[..|s| - 1] + [s[|s| - 1]];
      if e == [] then [] else e + [s[|s| - 1]]
  }

  /** boost::filesystem::extension: the file name from its last `.` on. */
  function Extension(p: string): (r: string)
    ensures r == [] || (r[0] == '.' && '.' !in r[1..] && '/' !in r)
    ensures |r| <= |p| && r == p[|p| - |r|..]
    ensures r == [] ==> '.' !in Leaf(p)
  {
    DotSuffix(Leaf(p))
  }

  /** Appending a file name to a directory with the separator between. */
  function Join(dir: string, name: string): (r: string)
    ensures |r| >= |dir| + |name| && r[..|dir|] == dir && r[|r| - |name|..] == name
  {
    if dir == [] then name
    else if dir[|dir| - 1] == '/' then dir + name
    else dir + "/" + name
  }

  /** Any path ending in the shared-library suffix has that extension. */
  lemma ExtensionOfSharedLib(x: string)
    ensures Extension(x + SharedLibExtension) == SharedLibExtension
  {
    var p1 := x + ['.'];
    var p2 := p1 + ['s'];
    var p3 := p2 + ['o'];
    assert p3 == x + SharedLibExtension;
    LeafAppend(x, '.');
    LeafAppend(p1, 's');
    LeafAppend(p2, 'o');
    var l1, l2, l3 := Leaf(p1), Leaf(p2), Leaf(p3);
    assert l2 == l1 + ['s'] && l3 == l2 + ['o'];
    DotSuffixAppend(Leaf(x), '.');
    DotSuffixAppend(l1, 's');
    DotSuffixAppend(l2, 'o');
  }

  /** The extension check passes exactly for paths ending in the shared-library suffix. */
  lemma ExtensionIsSharedLib(p: string)
    ensures Extension(p) == SharedLibExtension <==>
            |p| >= |SharedLibExtension| && p[|p| - |SharedLibExtension|..] == SharedLibExtension
  {
    if |p| >= |SharedLibExtension| && p[|p| - |SharedLibExtension|..] == SharedLibExtension {
      var x := p[..|p| - |SharedLibExtension|];
      assert p == x + SharedLibExtension;
      ExtensionOfSharedLib(x);
    }
  }

  lemma LeafAppend(p: string, c: char)
    requires c != '/'
    ensures Leaf(p + [c]) == Leaf(p) + [c]
  {
    assert (p + [c])[..|p|] == p;
  }

  lemma DotSuffixAppend(s: string, c: char)
    ensures c == '.' ==> DotSuffix(s + [c]) == "."
    ensures c != '.' ==> DotSuffix(s + [c]) == if DotSuffix(s) == [] then [] else DotSuffix(s) + [c]
  {
    assert (s + [c])[..|s|] == s;
  }

  /** The second path load_components tries always passes the extension check. */
  lemma FallbackPathIsSharedLib(lib: string, component: string)
    ensures Extension(Join(lib, component + SharedLibExtension)) == SharedLibExtension
  {
    var name := component + SharedLibExtension;
    var p := Join(lib, name);
    var x := p[..|p| - |name|] + component;
    assert p == x + SharedLibExtension;
    ExtensionOfSharedLib(x);
  }

  // ---------------------------------------------------------------------
  // Loading

  /** What load_component asks the dynamic loader for. */
  datatype LoadRequest = LoadRequest(path: string, instance: string, component: string)

  /** What the loader reports: an exception, or a factory and the type it claims. */
  datatype Probe = Throws | Loaded(factory: Factory, componentType: int)

  /**
   * load_component as a function of the table: a file without the shared
   * library extension, a loader exception and a factory reporting type 0
   * are refused without touching the table; otherwise the module registers.
   */
  function Attempt(m: map<int, Entry>, req: LoadRequest, probe: LoadRequest -> Probe,
                   derivedOf: int -> int, baseOf: int -> int): (r: (map<int, Entry>, bool))
    ensures Extension(req.path) != SharedLibExtension ==> r == (m, false)
    ensures probe(req).Throws? ==> r == (m, false)
    ensures probe(req).Loaded? && probe(req).componentType == 0 ==> r == (m, false)
  {
    if Extension(req.path) != SharedLibExtension then (m, false)
    else match probe(req)
      case Throws => (m, false)
      case Loaded(f, t) =>
        if t == 0 then (m, false) else Register(m, t, Entry(Some(f), req.path), derivedOf, baseOf)
  }

  /** One `[hpx.components.<instance>]` section of the configuration. */
  datatype Section = Section(instance: string, entries: map<string, string>)

  /** An `enabled` value that switches a component off: no, false or 0 in any letter case. */
  predicate Disabled(v: string)
  {
    ToLower(v) in {"no", "false", "0"}
  }

  /** Disabled values are exactly the case spellings of the three words. */
  lemma DisabledSpellings(v: string)
    ensures Disabled(v) <==> v in CaseVariants("no") || v in CaseVariants("false") || v in CaseVariants("0")
  {
    ToLowerMatches(v, "no");
    ToLowerMatches(v, "false");
    ToLowerMatches(v, "0");
  }

  /** An `isdefault` value that marks a generated section: true in any letter case. */
  predicate IsDefault(section: Section)
  {
    "isdefault" in section.entries && ToLower(section.entries["isdefault"]) == "true"
  }

  /** Only the case spellings of `true` mark a section as generated. */
  lemma IsDefaultSpellings(section: Section)
    ensures IsDefault(section) <==> "isdefault" in section.entries && section.entries["isdefault"] in CaseVariants("true")
  {
    if "isdefault" in section.entries {
      ToLowerMatches(section.entries["isdefault"], "true");
    }
  }

  /** The component name of a section: its `name` entry, or the instance name. */
  function ComponentName(section: Section): (r: string)
    ensures "name" in section.entries ==> r == section.entries["name"]
    ensures "name" !in section.entries ==> r == section.instance
  {
    if "name" in section.entries then section.entries["name"] else section.instance
  }

  /** The library path of a section: its `path` entry, or the default component path. */
  function LibraryPath(section: Section, defaultPath: string): (r: string)
    ensures "path" in section.entries ==> r == section.entries["path"]
    ensures "path" !in section.entries ==> r == defaultPath
  {
    if "path" in section.entries then section.entries["path"] else defaultPath
  }

  /** Whether a section is skipped before anything is loaded. */
  predicate Skipped(section: Section)
  {
    "enabled" in section.entries && Disabled(section.entries["enabled"])
  }

  /**
   * One section: skipped when disabled; otherwise the library path is tried,
   * and when that fails the file `<component>.so` inside it.
   */
  function LoadSection(m: map<int, Entry>, section: Section, defaultPath: string, probe: LoadRequest -> Probe,
                       derivedOf: int -> int, baseOf: int -> int): map<int, Entry>
  {
    if Skipped(section) then m
    else
      var lib := LibraryPath(section, defaultPath);
      var component := ComponentName(section);
      var (m1, ok) := Attempt(m, LoadRequest(lib, section.instance, component), probe, derivedOf, baseOf);
      if ok then m1
      else
        Attempt(m1, LoadRequest(Join(lib, component + SharedLibExtension), section.instance, component),
                probe, derivedOf, baseOf).0
  }

  /** The table after the sections, in order. */
  function LoadSections(m: map<int, Entry>, sections: seq<Section>, defaultPath: string,
                        probe: LoadRequest -> Probe, derivedOf: int -> int, baseOf: int -> int): map<int, Entry>
    decreases |sections|
  {
    if sections == [] then m
    else LoadSections(LoadSection(m, sections[0], defaultPath, probe, derivedOf, baseOf), sections[1..],
                      defaultPath, probe, derivedOf, baseOf)
  }

  /** Loading sections never changes or removes an entry that was there. */
  lemma {:induction false} LoadSectionsKeeps(m: map<int, Entry>, sections: seq<Section>, defaultPath: string,
                                             probe: LoadRequest -> Probe, derivedOf: int -> int, baseOf: int -> int)
    ensures var r := LoadSections(m, sections, defaultPath, probe, derivedOf, baseOf);
            forall k :: k in m ==> k in r && r[k] == m[k]
    decreases |sections|
  {
    if sections != [] {
      var m1 := LoadSection(m, sections[0], defaultPath, probe, derivedOf, baseOf);
      LoadSectionKeeps(m, sections[0], defaultPath, probe, derivedOf, baseOf);
      LoadSectionsKeeps(m1, sections[1..], defaultPath, probe, derivedOf, baseOf);
    }
  }

  lemma LoadSectionKeeps(m: map<int, Entry>, section: Section, defaultPath: string, probe: LoadRequest -> Probe,
                         derivedOf: int -> int, baseOf: int -> int)
    ensures var r := LoadSection(m, section, defaultPath, probe, derivedOf, baseOf);
            forall k :: k in m ==> k in r && r[k] == m[k]
  {
    if !Skipped(section) {
      var lib := LibraryPath(section, defaultPath);
      var component := ComponentName(section);
      var req := LoadRequest(lib, section.instance, component);
      var m1 := Attempt(m, req, probe, derivedOf, baseOf).0;
      AttemptKeeps(m, req, probe, derivedOf, baseOf);
      AttemptKeeps(m1, LoadRequest(Join(lib, component + SharedLibExtension), section.instance, component),
                   probe, derivedOf, baseOf);
    }
  }

  /** One load attempt never changes or removes an entry that was there. */
  lemma AttemptKeeps(m: map<int, Entry>, req: LoadRequest, probe: LoadRequest -> Probe,
                     derivedOf: int -> int, baseOf: int -> int)
    ensures var r := Attempt(m, req, probe, derivedOf, baseOf).0;
            forall k :: k in m ==> k in r && r[k] == m[k]
  {
    if Extension(req.path) == SharedLibExtension && probe(req).Loaded? {
      RegisterKeeps(m, probe(req).componentType, Entry(Some(probe(req).factory), req.path), derivedOf, baseOf);
    }
  }

  /** Disabled sections add nothing, whatever their loader would have done. */
  lemma {:induction false} SkippedSectionsAddNothing(m: map<int, Entry>, sections: seq<Section>,
                                                     defaultPath: string, probe: LoadRequest -> Probe,
                                                     derivedOf: int -> int, baseOf: int -> int)
    requires forall i :: 0 <= i < |sections| ==> Skipped(sections[i])
    ensures LoadSections(m, sections, defaultPath, probe, derivedOf, baseOf) == m
    decreases |sections|
  {
    if sections != [] {
      assert Skipped(sections[0]);
      SkippedSectionsAddNothing(m, sections[1..], defaultPath, probe, derivedOf, baseOf);
    }
  }

  /** The modules a tidy keeps in memory: those whose factory exists and may not be unloaded. */
  function KeptModules(m: map<int, Entry>): (r: set<string>)
    ensures forall k :: k in m && m[k].factory.Some? && !m[k].factory.value.mayUnload ==> m[k].library in r
    ensures forall s :: s in r ==>
              exists k :: k in m && m[k].factory.Some? && !m[k].factory.value.mayUnload && m[k].library == s
  {
    set k | k in m && m[k].factory.Some? && !m[k].factory.value.mayUnload :: m[k].library
  }

  // ---------------------------------------------------------------------
  // The stop flags as values

  datatype Flags = Flags(stopped: bool, terminated: bool)

  /** `run` clears both flags. */
  function RunFlags(f: Flags): (r: Flags)
    ensures !r.stopped && !r.terminated
  {
    Flags(false, false)
  }

  /** `stop` sets the stopped flag when it was clear and leaves everything else. */
  function StopFlags(f: Flags): (r: Flags)
    ensures r.stopped && r.terminated == f.terminated
  {
    if !f.stopped then f.(stopped := true) else f
  }

  /** `stopped` sets the terminated flag once and leaves everything else. */
  function StoppedFlags(f: Flags): (r: Flags)
    ensures r.terminated && r.stopped == f.stopped
  {
    if !f.terminated then f.(terminated := true) else f
  }

  /** What the assertion in `stop` demands: a runtime not stopped has not terminated. */
  predicate StopAssertion(f: Flags)
  {
    !f.stopped ==> !f.terminated
  }

  /** A call of the protocol: stopped is reported only after stop. */
  datatype Call = RunCall | StopCall | StoppedCall

  function Apply(f: Flags, c: Call): Flags
  {
    match c
    case RunCall => RunFlags(f)
    case StopCall => StopFlags(f)
    case StoppedCall => StoppedFlags(f)
  }

  function ApplyAll(f: Flags, calls: seq<Call>): Flags
    decreases |calls|
  {
    if calls == [] then f else ApplyAll(Apply(f, calls[0]), calls[1..])
  }

  /**
   * As long as `stopped` is only reported to a stopped runtime, the
   * assertion in `stop` holds before every call.
   */
  lemma {:induction false} StopAssertionKept(f: Flags, calls: seq<Call>)
    requires StopAssertion(f)
    requires forall i :: 0 <= i < |calls| && calls[i] == StoppedCall ==> ApplyAll(f, calls[..i]).stopped
    ensures StopAssertion(ApplyAll(f, calls))
    decreases |calls|
  {
    if calls != [] {
      var g := Apply(f, calls[0]);
      assert calls[..0] == [] && ApplyAll(f, calls[..0]) == f;
      assert StopAssertion(g);
      forall i | 0 <= i < |calls[1..]| && calls[1..][i] == StoppedCall
        ensures ApplyAll(g, calls[1..][..i]).stopped
      {
        assert calls[..i + 1] == [calls[0]] + calls[1..][..i];
        assert calls[i + 1] == StoppedCall;
      }
      StopAssertionKept(g, calls[1..]);
    }
  }

  /** Reported before any stop, `stopped` leaves a state in which a later `stop` fails its assertion. */
  lemma StoppedBeforeStop()
    ensures !StopAssertion(StoppedFlags(Flags(false, false)))
  {
  }

  /** `stop` and `stopped` act once: calling either again changes nothing. */
  lemma FlagsIdempotent(f: Flags)
    ensures StopFlags(StopFlags(f)) == StopFlags(f)
    ensures StoppedFlags(StoppedFlags(f)) == StoppedFlags(f)
  {
  }

  // ---------------------------------------------------------------------
  // The component

  class RuntimeSupport {
    /** The table from component type to factory and module. */
    var components: map<int, Entry>
    var stopped: bool
    var terminated: bool
    /** Modules kept loaded until the process ends. */
    var keptAlive: set<string>
    /** The component type of memory blocks, which bypass the table. */
    const memoryBlockType: int

    constructor(memoryBlockType: int)
      ensures components == map[] && keptAlive == {}
      ensures !stopped && !terminated && this.memoryBlockType == memoryBlockType
    {
      components := map[];
      stopped := false;
      terminated := false;
      keptAlive := {};
      this.memoryBlockType := memoryBlockType;
    }

    /** Whether the table holds a factory for `t`. */
    predicate Known(t: int)
      reads this
    {
      t in components && components[t].factory.Some?
    }

    /** The properties of the factory of `t`; bad_component_type when there is none. */
    function FactoryProperties(t: int): (r: Result<int, Fault>)
      reads this
      ensures r.Success? <==> Known(t)
      ensures r.Success? ==> r.value == components[t].factory.value.properties
      ensures r.Failure? ==> r.error == UnknownType && CodeOf(r.error) == BadComponentType
    {
      if t !in components || components[t].factory.None? then Failure(UnknownType)
      else Success(components[t].factory.value.properties)
    }

    /** Creating `count` instances of `t`: handed to its factory, or bad_component_type. */
    function CreateComponent(t: int, count: nat): (r: Result<Creation, Fault>)
      reads this
      ensures r.Success? <==> Known(t)
      ensures r.Success? ==> r.value == CreateMany(components[t].factory.value, count)
      ensures r.Failure? ==> r.error == UnknownType
    {
      if t !in components || components[t].factory.None? then Failure(UnknownType)
      else Success(CreateMany(components[t].factory.value, count))
    }

    /**
     * Creating one instance of `t` from a constructor argument, telling an
     * absent type apart from a null factory.
     */
    function CreateOneComponent(t: int, argument: int): (r: Result<Creation, Fault>)
      reads this
      ensures r.Success? <==> Known(t)
      ensures r.Success? ==> r.value == CreateOne(components[t].factory.value, argument)
      ensures r.Failure? ==> (r.error == NotFoundInMap <==> t !in components)
      ensures r.Failure? ==> (r.error == NullMapEntry <==> t in components)
      ensures r.Failure? ==> CodeOf(r.error) == BadComponentType
    {
      if t !in components then Failure(NotFoundInMap)
      else if components[t].factory.None? then Failure(NullMapEntry)
      else Success(CreateOne(components[t].factory.value, argument))
    }

    /**
     * Freeing `gid` of type `t`. A memory block is destroyed where the name
     * service says it lives, provided that is here (unknown_component_address
     * otherwise); any other type is handed to its factory (bad_component_type
     * when the type is absent). A present type with a null factory is
     * dereferenced as it is, so callers must not free one.
     */
    function FreeComponent(t: int, gid: nat, resolved: Option<Address>, here: nat): (r: Result<Freeing, Fault>)
      reads this
      requires t != memoryBlockType && t in components ==> components[t].factory.Some?
      ensures t == memoryBlockType ==>
                (r.Failure? <==> resolved.None? || resolved.value.locality != here) &&
                (resolved.None? ==> r == Failure(NotBound)) &&
                (r.Success? ==> r.value == DestroyBlock(resolved.value.address))
      ensures t != memoryBlockType ==>
                (r.Failure? <==> t !in components) &&
                (r.Success? ==> r.value == Destroy(components[t].factory.value, gid))
      ensures r.Failure? ==> (CodeOf(r.error) == UnknownComponentAddress <==> t == memoryBlockType)
    {
      if t == memoryBlockType then
        match resolved
        case None => Failure(NotBound)
        case Some(addr) => if addr.locality != here then Failure(NotLocal) else Success(DestroyBlock(addr.address))
      else if t !in components then Failure(UnknownType)
      else Success(Destroy(components[t].factory.value, gid))
    }

    /**
     * load_component: refuses a file without the shared library extension, a
     * loader exception and type 0 without touching the table; otherwise
     * inserts the type and, when it has a derived type, the derived and the
     * base type, stopping at the first key already taken.
     */
    method LoadComponent(req: LoadRequest, probe: LoadRequest -> Probe, derivedOf: int -> int, baseOf: int -> int)
      returns (ok: bool)
      modifies this`components
      ensures (components, ok) == Attempt(old(components), req, probe, derivedOf, baseOf)
    {
      if Extension(req.path) != SharedLibExtension {
        return false;
      }
      match probe(req) {
        case Throws =>
          return false;
        case Loaded(factory, t) =>
          if t == 0 {
            return false;
          }
          var data := Entry(Some(factory), req.path);
          ok := InsertEntry(t, data);
          if derivedOf(t) != 0 {
            if ok {
              ok := InsertEntry(derivedOf(t), data);
            }
            if ok {
              ok := InsertEntry(baseOf(t), data);
            }
          }
      }
    }

    /** components_.insert: adds the entry only when the type is absent, and says whether it did. */
    method InsertEntry(t: int, data: Entry) returns (ok: bool)
      modifies this`components
      ensures (components, ok) == Insert(old(components), t, data)
    {
      ok := t !in components;
      if ok {
        components := components[t := data];
      }
    }

    /**
     * load_components: nothing without an `hpx.components` section;
     * otherwise every section in order, as LoadSection describes.
     */
    method LoadComponents(sections: Option<seq<Section>>, defaultPath: string, probe: LoadRequest -> Probe,
                          derivedOf: int -> int, baseOf: int -> int)
      modifies this`components
      ensures sections.None? ==> components == old(components)
      ensures sections.Some? ==>
                components == LoadSections(old(components), sections.value, defaultPath, probe, derivedOf, baseOf)
    {
      if sections.None? {
        return;
      }
      var s := sections.value;
      var i := 0;
      while i < |s|
        invariant 0 <= i <= |s|
        invariant LoadSections(old(components), s, defaultPath, probe, derivedOf, baseOf) ==
                  LoadSections(components, s[i..], defaultPath, probe, derivedOf, baseOf)
      {
        var section := s[i];
        assert s[i..][1..] == s[i + 1..];
        if !Skipped(section) {
          var lib := LibraryPath(section, defaultPath);
          var component := ComponentName(section);
          var ok := LoadComponent(LoadRequest(lib, section.instance, component), probe, derivedOf, baseOf);
          if !ok {
            var path := Join(lib, component + SharedLibExtension);
            ok := LoadComponent(LoadRequest(path, section.instance, component), probe, derivedOf, baseOf);
          }
        }
        i := i + 1;
      }
    }

    /**
     * tidy: drops every entry; modules whose factory may not be unloaded are
     * kept in memory first.
     */
    method Tidy()
      modifies this`components, this`keptAlive
      ensures components == map[]
      ensures keptAlive == old(keptAlive) + KeptModules(old(components))
    {
      ghost var whole := components;
      ghost var kept := keptAlive;
      assert whole.Keys - whole.Keys == {};
      while components != map[]
        invariant TidyProgress(whole, kept, components, keptAlive)
        decreases |components|
      {
        var k := SomeKey(components);
        var entry := components[k];
        ghost var before := keptAlive;
        if entry.factory.Some? && !entry.factory.value.mayUnload {
          keptAlive := keptAlive + {entry.library};
        }
        TidyStep(whole, kept, components, before, k);
        components := components - {k};
      }
      KeptAmongAll(whole);
    }

    /** `run`: both flags cleared. */
    method Run()
      modifies this`stopped, this`terminated
      ensures Flags(stopped, terminated) == RunFlags(old(Flags(stopped, terminated)))
    {
      stopped := false;
      terminated := false;
    }

    /** `stop`: acts only when not yet stopped, which it then is. */
    method Stop()
      requires StopAssertion(Flags(stopped, terminated))
      modifies this`stopped
      ensures Flags(stopped, terminated) == StopFlags(old(Flags(stopped, terminated)))
    {
      if !stopped {
        stopped := true;
      }
    }

    /** `stopped`: marks termination once; `notified` says whether the waiting `stop` was woken. */
    method Stopped() returns (notified: bool)
      modifies this`terminated
      ensures notified <==> !old(terminated)
      ensures Flags(stopped, terminated) == StoppedFlags(old(Flags(stopped, terminated)))
    {
      notified := !terminated;
      if !terminated {
        terminated := true;
      }
    }
  }

  /** Any key of a table with entries. */
  method SomeKey(m: map<int, Entry>) returns (k: int)
    requires m != map[]
    ensures k in m
  {
    EmptyOrKey(m);
    k :| k in m;
  }

  lemma EmptyOrKey(m: map<int, Entry>)
    ensures m == map[] || exists j :: j in m
  {
    if forall j :: j !in m {
      assert m.Keys == {};
      assert m == map[];
    }
  }

  /** The modules kept for the keys in `keys`. */
  function KeptAmong(m: map<int, Entry>, keys: set<int>): set<string>
  {
    set k | k in keys && k in m && m[k].factory.Some? && !m[k].factory.value.mayUnload :: m[k].library
  }

  /** Part way through tidy: the entries left are the table's, and the removed ones' modules are kept. */
  ghost predicate TidyProgress(whole: map<int, Entry>, kept: set<string>, left: map<int, Entry>, keptNow: set<string>)
  {
    left.Keys <= whole.Keys && (forall k :: k in left ==> left[k] == whole[k]) &&
    keptNow == kept + KeptAmong(whole, whole.Keys - left.Keys)
  }

  /** One step of tidy: removing key `k` keeps its module when its factory may not be unloaded. */
  lemma TidyStep(whole: map<int, Entry>, kept: set<string>, left: map<int, Entry>, keptNow: set<string>, k: int)
    requires TidyProgress(whole, kept, left, keptNow) && k in left
    ensures var e := left[k];
            var keptNext := keptNow + (if e.factory.Some? && !e.factory.value.mayUnload then {e.library} else {});
            TidyProgress(whole, kept, left - {k}, keptNext) && |left - {k}| < |left|
  {
    var removed := whole.Keys - left.Keys;
    assert whole.Keys - (left - {k}).Keys == removed + {k};
    KeptAmongAdd(whole, removed, k);
    assert (left - {k}).Keys == left.Keys - {k};
  }

  lemma KeptAmongAdd(m: map<int, Entry>, removed: set<int>, k: int)
    requires k in m
    ensures var e := m[k];
            KeptAmong(m, removed + {k}) ==
              KeptAmong(m, removed) + (if e.factory.Some? && !e.factory.value.mayUnload then {e.library} else {})
  {
  }

  lemma KeptAmongAll(m: map<int, Entry>)
    ensures KeptAmong(m, m.Keys - {}) == KeptModules(m)
  {
    assert m.Keys - {} == m.Keys;
  }
}
