/** What the registry promises its clients, proved against a plain dict as the reference. */
module RegistryProperties {
  import opened Wrappers
  import opened ModuleRecords
  import opened ModulesRegistry

  /** The dict the entries stand for: each module inserted under its name, in order. */
  ghost function View(entries: seq<Module>): map<string, Module>
    decreases |entries|
  {
    if entries == [] then map[]
    else
      var last := entries[|entries| - 1];
      View(entries[..|entries| - 1])[last.name := last]
  }

  /** The entries without the modules called `name`, the rest in their order. */
  function Without(entries: seq<Module>, name: string): seq<Module>
  {
    if entries == [] then []
    else if entries[0].name == name then Without(entries[1..], name)
    else [entries[0]] + Without(entries[1..], name)
  }

  /** A call a client makes on the registry. */
  datatype Call = Register(m: Module) | Unregister(name: string) | Get(name: string) | List

  /** One call applied to a registry; a call that raises leaves the registry as it was. */
  function Step(reg: Registry, call: Call): Registry
  {
    match call
    case Register(m) => RegisterModule(reg, m).post
    case Unregister(name) => UnregisterModule(reg, name).post
    case Get(_) => reg
    case List => reg
  }

  /** A client's calls applied in turn. */
  function Run(reg: Registry, calls: seq<Call>): Registry
    decreases |calls|
  {
    if calls == [] then reg else Run(Step(reg, calls[0]), calls[1..])
  }

  /** The same calls on a Python dict: insert a new key, delete a present one. */
  ghost function RunDict(d: map<string, Module>, calls: seq<Call>): map<string, Module>
    decreases |calls|
  {
    if calls == [] then d
    else
      var d' := match calls[0]
        case Register(m) => if m.name in d then d else d[m.name := m]
        case Unregister(name) => if name in d then d - {name} else d
        case Get(_) => d
        case List => d;
      RunDict(d', calls[1..])
  }

  // ----- the reference view -----

  /** A name is a key of the view exactly when some entry carries it. */
  lemma {:induction false} ViewDomain(entries: seq<Module>, name: string)
    ensures name in View(entries) <==> HasName(entries, name)
    decreases |entries|
  {
    if entries != [] {
      var k := |entries| - 1;
      var front := entries[..k];
      ViewDomain(front, name);
      if HasName(front, name) {
        var i :| 0 <= i < |front| && front[i].name == name;
        assert entries[i].name == name;
      }
      if HasName(entries, name) && entries[k].name != name {
        var i :| 0 <= i < |entries| && entries[i].name == name;
        assert front[i].name == name;
      }
    }
  }

  /** With one entry per name, the view maps each entry's name to that entry. */
  lemma {:induction false} ViewAt(entries: seq<Module>, i: nat)
    requires UniqueNames(entries)
    requires i < |entries|
    ensures entries[i].name in View(entries) && View(entries)[entries[i].name] == entries[i]
    decreases |entries|
  {
    var k := |entries| - 1;
    if i < k {
      var front := entries[..k];
      ViewAt(front, i);
      assert entries[i].name != entries[k].name;
    }
  }

  /** With one entry per name, the view has as many keys as there are entries. */
  lemma {:induction false} ViewSize(entries: seq<Module>)
    requires UniqueNames(entries)
    ensures |View(entries)| == |entries|
    decreases |entries|
  {
    if entries != [] {
      var k := |entries| - 1;
      var front := entries[..k];
      ViewSize(front);
      ViewDomain(front, entries[k].name);
      forall j | 0 <= j < |front|
        ensures front[j].name != entries[k].name
      {
        assert front[j] == entries[j];
      }
    }
  }

  /** `IndexOf` is pinned down by its contract: the first position holding the name. */
  lemma IndexOfFirst(entries: seq<Module>, name: string, i: nat)
    requires i < |entries| && entries[i].name == name
    requires forall j :: 0 <= j < i ==> entries[j].name != name
    ensures IndexOf(entries, name) == Some(i)
  {
  }

  /** `get_module` reads the dict: the module under `name` if it is a key, `NotRegistered` if not. */
  lemma GetMatchesView(reg: Registry, name: string)
    requires Valid(reg)
    ensures name in View(reg.entries) ==> GetModule(reg, name) == Success(View(reg.entries)[name])
    ensures name !in View(reg.entries) ==> GetModule(reg, name) == Failure(NotRegistered(name))
  {
    ViewDomain(reg.entries, name);
    var idx := IndexOf(reg.entries, name);
    if idx.Some? {
      ViewAt(reg.entries, idx.value);
    }
  }

  /** A successful `register_module` inserts the module under its name, as `self._modules[name] = m`. */
  lemma RegisterUpdatesView(reg: Registry, m: Module)
    ensures var r := RegisterModule(reg, m);
            r.outcome.Pass? ==> View(r.post.entries) == View(reg.entries)[m.name := m]
  {
  }

  /** Taking out the entry at `i` removes exactly its name, when names are unique. */
  lemma {:induction false} RemoveAtHasName(entries: seq<Module>, i: nat, name: string)
    requires UniqueNames(entries) && i < |entries|
    ensures HasName(RemoveAt(entries, i), name) <==> HasName(entries, name) && name != entries[i].name
  {
    var p := RemoveAt(entries, i);
    if HasName(entries, name) && name != entries[i].name {
      var j :| 0 <= j < |entries| && entries[j].name == name;
      if j < i { assert p[j] == entries[j]; } else { assert p[j - 1] == entries[j]; }
    }
    if HasName(p, name) {
      var j :| 0 <= j < |p| && p[j].name == name;
      var k := if j < i then j else j + 1;
      assert p[j] == entries[k] && k != i;
    }
  }

  /** After taking out the entry at `i`, each remaining name maps to what it mapped to before. */
  lemma {:induction false} RemoveAtViewValue(entries: seq<Module>, i: nat, name: string)
    requires UniqueNames(entries) && i < |entries|
    requires name in View(RemoveAt(entries, i))
    ensures name in View(entries) && View(RemoveAt(entries, i))[name] == View(entries)[name]
  {
    var p := RemoveAt(entries, i);
    ViewDomain(p, name);
    var j :| 0 <= j < |p| && p[j].name == name;
    ViewAt(p, j);
    var k := if j < i then j else j + 1;
    assert p[j] == entries[k];
    ViewAt(entries, k);
  }

  /** Maps with the same keys and the same value at each key are equal. */
  lemma MapsEqual(a: map<string, Module>, b: map<string, Module>)
    requires forall k :: k in a <==> k in b
    requires forall k | k in a :: a[k] == b[k]
    ensures a == b
  {
  }

  /** Taking out the entry at `i` deletes its name from the view, when names are unique. */
  lemma {:induction false} RemoveAtView(entries: seq<Module>, i: nat)
    requires UniqueNames(entries) && i < |entries|
    ensures View(RemoveAt(entries, i)) == View(entries) - {entries[i].name}
  {
    var after := View(RemoveAt(entries, i));
    var smaller := View(entries) - {entries[i].name};
    forall n
      ensures n in after <==> n in smaller
    {
      ViewDomain(RemoveAt(entries, i), n);
      ViewDomain(entries, n);
      RemoveAtHasName(entries, i, n);
    }
    forall n | n in after
      ensures after[n] == smaller[n]
    {
      RemoveAtViewValue(entries, i, n);
    }
    MapsEqual(after, smaller);
  }

  /** A successful `unregister_module` deletes the key, as `del self._modules[name]`. */
  lemma UnregisterRemovesFromView(reg: Registry, name: string)
    requires Valid(reg)
    ensures var r := UnregisterModule(reg, name);
            r.outcome.Pass? ==> View(r.post.entries) == View(reg.entries) - {name}
  {
    if UnregisterModule(reg, name).outcome.Pass? {
      RemoveAtView(reg.entries, IndexOf(reg.entries, name).value);
    }
  }

  // ----- the properties clients rely on -----

  /** `modules()` lists each registered module once: as many modules as names, each the module
      registered under its name. */
  lemma ModulesOnePerName(reg: Registry)
    requires Valid(reg)
    ensures |Modules(reg)| == |View(reg.entries)|
    ensures forall i :: 0 <= i < |Modules(reg)| ==> GetModule(reg, Modules(reg)[i].name) == Success(Modules(reg)[i])
    ensures forall i, j :: 0 <= i < j < |Modules(reg)| ==> Modules(reg)[i].name != Modules(reg)[j].name
  {
    ViewSize(reg.entries);
    forall i | 0 <= i < |Modules(reg)|
      ensures GetModule(reg, Modules(reg)[i].name) == Success(Modules(reg)[i])
    {
      IndexOfFirst(reg.entries, reg.entries[i].name, i);
    }
  }

  /** After registering a module under an unused name, `get_module` returns it. */
  lemma RegisterThenGet(reg: Registry, m: Module)
    requires !Registered(reg, m.name)
    ensures RegisterModule(reg, m).outcome.Pass?
    ensures GetModule(RegisterModule(reg, m).post, m.name) == Success(m)
  {
  }

  /** After a successful `unregister_module`, `get_module` of that name fails. */
  lemma UnregisterThenGet(reg: Registry, name: string)
    requires Valid(reg) && Registered(reg, name)
    ensures UnregisterModule(reg, name).outcome.Pass?
    ensures GetModule(UnregisterModule(reg, name).post, name) == Failure(NotRegistered(name))
  {
  }

  /** Registering a module leaves the lookup of every other name as it was. */
  lemma RegisterFrame(reg: Registry, m: Module, other: string)
    requires other != m.name
    ensures GetModule(RegisterModule(reg, m).post, other) == GetModule(reg, other)
  {
    var r := RegisterModule(reg, m);
    if r.outcome.Pass? {
      var p := r.post.entries;
      assert forall j :: 0 <= j < |reg.entries| ==> p[j] == reg.entries[j];
      var idx := IndexOf(reg.entries, other);
      if idx.Some? {
        IndexOfFirst(p, other, idx.value);
      } else {
        assert !HasName(p, other);
      }
    }
  }

  /** Taking out an entry of another name keeps `name` absent when it was. */
  lemma RemoveAtMissing(entries: seq<Module>, i: nat, name: string)
    requires i < |entries| && !HasName(entries, name)
    ensures !HasName(RemoveAt(entries, i), name)
  {
  }

  /** Taking out an entry of another name moves the first position of `name` down by one when
      it lay past the entry, and keeps it otherwise. */
  lemma {:induction false} RemoveAtFound(entries: seq<Module>, i: nat, name: string, j: nat)
    requires i < |entries| && entries[i].name != name
    requires IndexOf(entries, name) == Some(j)
    ensures IndexOf(RemoveAt(entries, i), name) == Some(if j < i then j else j - 1)
  {
    var p := RemoveAt(entries, i);
    var k := if j < i then j else j - 1;
    assert p[k] == entries[j];
    forall l | 0 <= l < k
      ensures p[l].name != name
    {
      var m := if l < i then l else l + 1;
      assert p[l] == entries[m];
    }
    IndexOfFirst(p, name, k);
  }

  /** Unregistering a module leaves the lookup of every other name as it was. */
  lemma {:induction false} UnregisterFrame(reg: Registry, name: string, other: string)
    requires other != name
    ensures GetModule(UnregisterModule(reg, name).post, other) == GetModule(reg, other)
  {
    var r := UnregisterModule(reg, name);
    if r.outcome.Pass? {
      var i := IndexOf(reg.entries, name).value;
      var p := RemoveAt(reg.entries, i);
      assert r.post.entries == p;
      var idx := IndexOf(reg.entries, other);
      if idx.Some? {
        RemoveAtFound(reg.entries, i, other, idx.value);
        var k := if idx.value < i then idx.value else idx.value - 1;
        assert IndexOf(p, other) == Some(k) && p[k] == reg.entries[idx.value];
      } else {
        RemoveAtMissing(reg.entries, i, other);
        assert IndexOf(p, other).None?;
      }
    }
  }

  /** Removing every module of a name from a concatenation removes it from each part. */
  lemma {:induction false} WithoutAppend(a: seq<Module>, b: seq<Module>, name: string)
    ensures Without(a + b, name) == Without(a, name) + Without(b, name)
    decreases |a|
  {
    if a != [] {
      assert (a + b)[0] == a[0];
      assert (a + b)[1..] == a[1..] + b;
      WithoutAppend(a[1..], b, name);
      if a[0].name != name {
        assert Without(a + b, name) == [a[0]] + (Without(a[1..], name) + Without(b, name));
      }
    } else {
      assert a + b == b;
    }
  }

  /** Entries without the name are left as they are. */
  lemma {:induction false} WithoutAbsent(entries: seq<Module>, name: string)
    requires !HasName(entries, name)
    ensures Without(entries, name) == entries
    decreases |entries|
  {
    if entries != [] {
      forall j | 0 <= j < |entries[1..]|
        ensures entries[1..][j].name != name
      {
        assert entries[1..][j] == entries[j + 1];
      }
      WithoutAbsent(entries[1..], name);
    }
  }

  /** Taking a name out of entries where it occurs once, between two runs without it. */
  lemma {:induction false} WithoutSplice(before: seq<Module>, m: Module, after: seq<Module>)
    requires !HasName(before, m.name) && !HasName(after, m.name)
    ensures Without(before + [m] + after, m.name) == before + after
  {
    assert before + [m] + after == before + ([m] + after);
    WithoutAppend(before, [m] + after, m.name);
    assert ([m] + after)[1..] == after;
    WithoutAbsent(before, m.name);
    WithoutAbsent(after, m.name);
  }

  /** `unregister_module` keeps the order of the remaining modules: `modules()` afterwards is the
      list before with the named module taken out. */
  lemma UnregisterKeepsOrder(reg: Registry, name: string)
    requires Valid(reg)
    ensures var r := UnregisterModule(reg, name);
            r.outcome.Pass? ==> Modules(r.post) == Without(Modules(reg), name)
  {
    var r := UnregisterModule(reg, name);
    if r.outcome.Pass? {
      var e := reg.entries;
      var i := IndexOf(e, name).value;
      var before, after := e[..i], e[i + 1..];
      assert r.post.entries == before + after;
      forall j | 0 <= j < |before|
        ensures before[j].name != name
      {
        assert before[j] == e[j];
      }
      forall j | 0 <= j < |after|
        ensures after[j].name != name
      {
        assert after[j] == e[i + 1 + j];
      }
      assert e == before + [e[i]] + after;
      WithoutSplice(before, e[i], after);
    }
  }

  /** A name that was unregistered can be registered again; its module then comes last. */
  lemma ReRegisterGoesLast(reg: Registry, m: Module)
    requires Valid(reg) && Registered(reg, m.name)
    ensures var r1 := UnregisterModule(reg, m.name);
            var r2 := RegisterModule(r1.post, m);
            && r1.outcome.Pass? && r2.outcome.Pass?
            && Modules(r2.post) == Without(Modules(reg), m.name) + [m]
            && GetModule(r2.post, m.name) == Success(m)
  {
    var r1 := UnregisterModule(reg, m.name);
    UnregisterKeepsOrder(reg, m.name);
    RegisterThenGet(r1.post, m);
  }

  /** Any sequence of calls keeps one entry per name and behaves like the same calls on a dict. */
  lemma {:induction false} RunRefinesDict(reg: Registry, calls: seq<Call>)
    requires Valid(reg)
    ensures Valid(Run(reg, calls))
    ensures View(Run(reg, calls).entries) == RunDict(View(reg.entries), calls)
    decreases |calls|
  {
    if calls != [] {
      var next := Step(reg, calls[0]);
      match calls[0] {
        case Register(m) =>
          ViewDomain(reg.entries, m.name);
          RegisterUpdatesView(reg, m);
        case Unregister(name) =>
          ViewDomain(reg.entries, name);
          UnregisterRemovesFromView(reg, name);
        case Get(_) =>
        case List =>
      }
      RunRefinesDict(next, calls[1..]);
    }
  }

  /** From a fresh registry, every sequence of calls leaves one entry per name. */
  lemma ReachableIsValid(calls: seq<Call>)
    ensures Valid(Run(Empty(), calls))
  {
    RunRefinesDict(Empty(), calls);
  }

  /** Each raised exception names its error: different errors never raise the same exception. */
  lemma RaisedIdentifiesError(e1: RegistryError, e2: RegistryError)
    requires Raised(e1) == Raised(e2)
    ensures e1 == e2
  {
  }
}
