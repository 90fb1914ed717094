/** The registry of modules: a Python dict from module name to module, kept in insertion order. */
module ModulesRegistry {
  import opened Wrappers
  import opened ModuleRecords

  /** The two ways a registry call fails. */
  datatype RegistryError = AlreadyRegistered(name: string) | NotRegistered(name: string)

  /** The Python exception a failing call raises, with its message argument. */
  datatype PyException = ValueError(message: string) | KeyError(message: string)

  /** The registry's dict, as its modules in insertion order; each is keyed by its own name. */
  datatype Registry = Registry(entries: seq<Module>)

  /** What a mutating call leaves behind: the registry after it, and whether it raised. */
  datatype Effect = Effect(post: Registry, outcome: Outcome<RegistryError>)

  predicate HasName(entries: seq<Module>, name: string)
  {
    exists i :: 0 <= i < |entries| && entries[i].name == name
  }

  predicate UniqueNames(entries: seq<Module>)
  {
    forall i, j :: 0 <= i < j < |entries| ==> entries[i].name != entries[j].name
  }

  /** `name in self._modules`. */
  predicate Registered(reg: Registry, name: string)
  {
    HasName(reg.entries, name)
  }

  /** The dict invariant: one entry per name. Every call below keeps it. */
  predicate Valid(reg: Registry)
  {
    UniqueNames(reg.entries)
  }

  /** The position of the first module called `name`, if any. */
  function IndexOf(entries: seq<Module>, name: string): (r: Option<nat>)
    ensures r.None? <==> !HasName(entries, name)
    ensures r.Some? ==> r.value < |entries| && entries[r.value].name == name
    ensures r.Some? ==> forall j :: 0 <= j < r.value ==> entries[j].name != name
  {
    if entries == [] then None
    else if entries[0].name == name then Some(0)
    else
      match IndexOf(entries[1..], name)
      case None => None
      case Some(i) => Some(i + 1)
  }

  /** The entries with position `i` taken out, the others in their order. */
  function RemoveAt(entries: seq<Module>, i: nat): (r: seq<Module>)
    requires i < |entries|
    ensures |r| == |entries| - 1
    ensures forall j {:trigger r[j]} :: 0 <= j < i ==> r[j] == entries[j]
    ensures forall j {:trigger r[j]} :: i <= j < |r| ==> r[j] == entries[j + 1]
  {
    seq(|entries| - 1, j requires 0 <= j < |entries| - 1 => if j < i then entries[j] else entries[j + 1])
  }

  /** `ModulesRegistry.__init__`: no module is registered. */
  function Empty(): (r: Registry)
    ensures Valid(r)
    ensures |r.entries| == 0
    ensures forall name :: !Registered(r, name)
  {
    Registry([])
  }

  /** `register_module`: a module whose name is taken raises `AlreadyRegistered` and changes
      nothing; otherwise it is added after every module already present. */
  function RegisterModule(reg: Registry, m: Module): (r: Effect)
    ensures r.outcome.Fail? <==> Registered(reg, m.name)
    ensures r.outcome.Fail? ==> r.outcome.error == AlreadyRegistered(m.name) && r.post == reg
    ensures r.outcome.Pass? ==> r.post.entries == reg.entries + [m]
    ensures Valid(reg) ==> Valid(r.post)
    ensures Registered(r.post, m.name)
  {
    match IndexOf(reg.entries, m.name)
    case Some(_) => Effect(reg, Fail(AlreadyRegistered(m.name)))
    case None =>
      var post := Registry(reg.entries + [m]);
      assert post.entries[|reg.entries|].name == m.name;
      Effect(post, Pass)
  }

  /** `unregister_module`: an unknown name raises `NotRegistered` and changes nothing; otherwise
      the module of that name is taken out and the others keep their order. */
  function UnregisterModule(reg: Registry, name: string): (r: Effect)
    ensures r.outcome.Fail? <==> !Registered(reg, name)
    ensures r.outcome.Fail? ==> r.outcome.error == NotRegistered(name) && r.post == reg
    ensures r.outcome.Pass? ==>
              && IndexOf(reg.entries, name).Some?
              && r.post.entries == RemoveAt(reg.entries, IndexOf(reg.entries, name).value)
    ensures Valid(reg) ==> Valid(r.post) && !Registered(r.post, name)
  {
    match IndexOf(reg.entries, name)
    case None => Effect(reg, Fail(NotRegistered(name)))
    case Some(i) =>
      Effect(Registry(RemoveAt(reg.entries, i)), Pass)
  }

  /** `get_module`: the module registered under `name`, or `NotRegistered`. */
  function GetModule(reg: Registry, name: string): (r: Result<Module, RegistryError>)
    ensures r.Failure? <==> !Registered(reg, name)
    ensures r.Failure? ==> r.error == NotRegistered(name)
    ensures r.Success? ==> r.value.name == name && r.value in reg.entries
  {
    match IndexOf(reg.entries, name)
    case None => Failure(NotRegistered(name))
    case Some(i) => Success(reg.entries[i])
  }

  /** `modules()`: the registered modules, in the dict's order. */
  function Modules(reg: Registry): (r: seq<Module>)
    ensures |r| == |reg.entries|
    ensures forall i :: 0 <= i < |r| ==> Registered(reg, r[i].name)
    ensures forall name :: Registered(reg, name) ==> HasName(r, name)
  {
    reg.entries
  }

  /** The text every error message starts with, before the module name. */
  const MessagePrefix: string := "Module '"

  /** The text after the module name when the name is already taken. */
  const AlreadyRegisteredTail: string := "' is already registered."

  /** The text after the module name when no module has the name. */
  const NotRegisteredTail: string := "' is not registered."

  /** The exception each error is raised as. */
  function Raised(e: RegistryError): (x: PyException)
    ensures x.ValueError? <==> e.AlreadyRegistered?
    ensures |x.message| > |MessagePrefix| + |e.name|
    ensures x.message[..|MessagePrefix|] == MessagePrefix
    ensures x.message[|MessagePrefix|..|MessagePrefix| + |e.name|] == e.name
    ensures x.message[|MessagePrefix| + |e.name|..]
              == if e.AlreadyRegistered? then AlreadyRegisteredTail else NotRegisteredTail
  {
    match e
    case AlreadyRegistered(n) => ValueError(MessagePrefix + n + AlreadyRegisteredTail)
    case NotRegistered(n) => KeyError(MessagePrefix + n + NotRegisteredTail)
  }
}
