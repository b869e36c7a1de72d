/**
 The local gateway registry: stored metadata and the active-gateway file
 (crates/clustershell-bootstrap/src/metadata.rs), the commands that change them
 (crates/clustershell-cli/src/run.rs) and name resolution (crates/clustershell-cli/src/main.rs).

 Metadata is kept in a file whose path is made from the gateway's name. `file` says which file the
 file system reaches for a name; names are not checked, so different names can reach the same file.
 */
module Registry {
  import opened Text

  datatype Metadata = Metadata(name: string, endpoint: string)

  type Files = string -> string

  /** The stored metadata by file, and the contents of the active-gateway file. */
  datatype State = State(metadata: map<string, Metadata>, activeFile: Option<string>)

  /** The active name: the file's contents without surrounding white space, if anything is left. */
  function LoadActive(s: State): Option<string> {
    match s.activeFile
    case None => None
    case Some(contents) => if Trim(contents) == "" then None else Some(Trim(contents))
  }

  // ------------------------------------------------------------------- the commands' effects

  /** Writing the active-gateway file: done, failed before it was touched, or failed after a part of the name. */
  datatype Saving = Saved | Untouched | CutShort(part: string)

  /** A command with the outcome of its last file operations. */
  datatype Op =
    | Start(name: string, endpoint: string, saving: Saving)
    | Add(name: string, endpoint: string, stored: bool, saving: Saving)
    | Use(name: string, saving: Saving)
    | Destroy(name: string, removed: bool, cleared: bool)

  function Save(s: State, name: string, saving: Saving): State {
    match saving
    case Saved => s.(activeFile := Some(name))
    case Untouched => s
    case CutShort(part) => s.(activeFile := Some(part))
  }

  function Put(file: Files, s: State, name: string, endpoint: string): State {
    s.(metadata := s.metadata[file(name) := Metadata(name, endpoint)])
  }

  function Apply(file: Files, s: State, op: Op): State {
    match op
    case Start(name, endpoint, saving) => Save(Put(file, s, name, endpoint), name, saving)
    case Add(name, endpoint, stored, saving) =>
      if file(name) in s.metadata || !stored then s else Save(Put(file, s, name, endpoint), name, saving)
    case Use(name, saving) =>
      if file(name) in s.metadata then Save(s, name, saving) else s
    case Destroy(name, removed, cleared) =>
      var t := if removed then s.(metadata := s.metadata - {file(name)}) else s;
      if LoadActive(t) == Some(name) && cleared then t.(activeFile := None) else t
  }

  const Empty := State(map[], None)

  function Run(file: Files, ops: seq<Op>): State {
    if ops == [] then Empty else Apply(file, Run(file, ops[..|ops| - 1]), ops[|ops| - 1])
  }

  lemma RunSnoc(file: Files, ops: seq<Op>, op: Op)
    ensures Run(file, ops + [op]) == Apply(file, Run(file, ops), op)
  {
    assert (ops + [op])[..|ops|] == ops;
  }

  // ------------------------------------------------------------------------ resolution

  datatype Resolved = Gateway(name: string, endpoint: string) | NoActiveGateway | UnknownGateway(name: string)

  /** Resolution by name: the flag, else a non-blank environment variable, else the active gateway. */
  function ResolveGateway(file: Files, s: State, flag: Option<string>, env: Option<string>): Resolved {
    var name :=
      if flag.Some? then flag
      else if env.Some? && Trim(env.value) != "" then env
      else LoadActive(s);
    if name.None? then NoActiveGateway
    else if file(name.value) !in s.metadata then UnknownGateway(name.value)
    else Gateway(s.metadata[file(name.value)].name, s.metadata[file(name.value)].endpoint)
  }

  // -------------------------------------------------------------------------- invariant

  /** The active gateway is unset or has stored metadata. */
  ghost predicate Consistent(file: Files, s: State) {
    LoadActive(s).Some? ==> file(LoadActive(s).value) in s.metadata
  }

  /** A name that the active-gateway file gives back unchanged. */
  ghost predicate IsTrimmed(name: string) {
    name != "" && Trim(name) == name
  }

  /** What saving `name` leaves as active is nothing, or the gateway of that name, or one that is stored. */
  ghost predicate SavesWell(file: Files, s: State, name: string, saving: Saving) {
    match saving
    case Untouched => true
    case Saved => Reads(file, s, name, name)
    case CutShort(part) => Reads(file, s, name, part)
  }

  ghost predicate Reads(file: Files, s: State, name: string, contents: string) {
    Trim(contents) == "" || file(Trim(contents)) == file(name) || file(Trim(contents)) in s.metadata
  }

  /** Exactly the commands that keep the invariant. */
  ghost predicate KeepsConsistent(file: Files, s: State, op: Op) {
    match op
    case Start(name, _, saving) => SavesWell(file, s, name, saving)
    case Add(name, _, stored, saving) => file(name) !in s.metadata && stored ==> SavesWell(file, s, name, saving)
    case Use(name, saving) => file(name) in s.metadata ==> SavesWell(file, s, name, saving)
    case Destroy(name, removed, cleared) =>
      LoadActive(s).Some? && file(LoadActive(s).value) == file(name) && removed ==>
        LoadActive(s).value == name && cleared
  }

  lemma ConsistencyIsKeptExactlyWhen(file: Files, s: State, op: Op)
    requires Consistent(file, s)
    ensures Consistent(file, Apply(file, s, op)) <==> KeepsConsistent(file, s, op)
  {}

  /** A trimmed name, and file operations that succeed. */
  ghost predicate IsOrdinary(op: Op) {
    match op
    case Start(name, _, saving) => IsTrimmed(name) && saving.Saved?
    case Add(name, _, stored, saving) => IsTrimmed(name) && stored && saving.Saved?
    case Use(name, saving) => IsTrimmed(name) && saving.Saved?
    case Destroy(_, removed, cleared) => removed && cleared
  }

  ghost predicate AreOrdinary(ops: seq<Op>) {
    forall i | 0 <= i < |ops| :: IsOrdinary(ops[i])
  }

  /** No two different names in the run reach the same file. */
  ghost predicate NamesApart(file: Files, ops: seq<Op>) {
    forall i, j | 0 <= i < |ops| && 0 <= j < |ops| && file(ops[i].name) == file(ops[j].name) ::
      ops[i].name == ops[j].name
  }

  ghost predicate Mentions(ops: seq<Op>, name: string) {
    exists i | 0 <= i < |ops| :: ops[i].name == name
  }

  /** The active name is one of the run's names. */
  lemma {:induction false} ActiveIsMentioned(file: Files, ops: seq<Op>)
    requires AreOrdinary(ops)
    ensures LoadActive(Run(file, ops)).Some? ==> Mentions(ops, LoadActive(Run(file, ops)).value)
  {
    if ops == [] {
    } else {
      var n := |ops| - 1;
      ActiveIsMentioned(file, ops[..n]);
      assert IsOrdinary(ops[n]);
      var active := LoadActive(Run(file, ops));
      if active.Some? && active != Some(ops[n].name) {
        assert active == LoadActive(Run(file, ops[..n]));
        var i :| 0 <= i < n && ops[..n][i].name == active.value;
        assert ops[i].name == active.value;
      }
    }
  }

  /** Trimmed names that do not share files, and successful file operations, are enough. */
  lemma {:induction false} RunStaysConsistent(file: Files, ops: seq<Op>)
    requires AreOrdinary(ops) && NamesApart(file, ops)
    ensures Consistent(file, Run(file, ops))
  {
    if ops == [] {
    } else {
      var n := |ops| - 1;
      RunStaysConsistent(file, ops[..n]);
      ActiveIsMentioned(file, ops[..n]);
      assert IsOrdinary(ops[n]);
      var s := Run(file, ops[..n]);
      if LoadActive(s).Some? {
        var i :| 0 <= i < n && ops[..n][i].name == LoadActive(s).value;
        assert ops[i].name == LoadActive(s).value;
        assert file(ops[i].name) == file(ops[n].name) ==> ops[i].name == ops[n].name;
      }
      ConsistencyIsKeptExactlyWhen(file, s, ops[n]);
    }
  }

  /** Metadata of the run's names is their own. */
  ghost predicate HoldsOwn(file: Files, s: State, name: string) {
    file(name) in s.metadata ==> s.metadata[file(name)].name == name
  }

  lemma {:induction false} MetadataIsOwn(file: Files, ops: seq<Op>, all: seq<Op>, name: string)
    requires ops <= all && NamesApart(file, all) && Mentions(all, name)
    ensures HoldsOwn(file, Run(file, ops), name)
    decreases |ops|
  {
    if ops == [] {
    } else {
      var n := |ops| - 1;
      MetadataIsOwn(file, ops[..n], all, name);
      assert all[n] == ops[n];
      var i :| 0 <= i < |all| && all[i].name == name;
      assert file(all[n].name) == file(all[i].name) ==> all[n].name == all[i].name;
    }
  }

  /** Without flag and environment, resolution finds the active gateway and fails only when there is none. */
  lemma ResolutionFailsOnlyWhenNothingIsActive(file: Files, ops: seq<Op>)
    requires AreOrdinary(ops) && NamesApart(file, ops)
    ensures var s := Run(file, ops);
            match LoadActive(s)
            case None => ResolveGateway(file, s, None, None) == NoActiveGateway
            case Some(active) =>
              && file(active) in s.metadata
              && ResolveGateway(file, s, None, None) == Gateway(active, s.metadata[file(active)].endpoint)
  {
    RunStaysConsistent(file, ops);
    ActiveIsMentioned(file, ops);
    var active := LoadActive(Run(file, ops));
    if active.Some? {
      MetadataIsOwn(file, ops, ops, active.value);
    }
  }

  /** What a gateway that is given by name resolves to. */
  ghost predicate ResolvesByName(file: Files, s: State, name: string, r: Resolved) {
    if file(name) in s.metadata then r == Gateway(s.metadata[file(name)].name, s.metadata[file(name)].endpoint)
    else r == UnknownGateway(name)
  }

  /** The flag comes first, then the environment unless it is blank, then the active gateway. */
  lemma ResolutionOrder(file: Files, s: State, flag: Option<string>, env: Option<string>)
    ensures flag.Some? ==> ResolvesByName(file, s, flag.value, ResolveGateway(file, s, flag, env))
    ensures flag.None? && env.Some? && (exists i | 0 <= i < |env.value| :: !IsWhitespace(env.value[i])) ==>
              ResolvesByName(file, s, env.value, ResolveGateway(file, s, flag, env))
    ensures flag.None? && (env.None? || forall i | 0 <= i < |env.value| :: IsWhitespace(env.value[i])) ==>
              var r := ResolveGateway(file, s, flag, env);
              if LoadActive(s).Some? then ResolvesByName(file, s, LoadActive(s).value, r) else r == NoActiveGateway
  {
    if env.Some? {
      var a, b := TrimExists(env.value);
      TrimMeaning(env.value, a, b);
    }
  }

  /** What a command does to resolution by name: it stores, removes or leaves alone, and touches no other file. */
  lemma EffectOnResolution(file: Files, s: State, op: Op, other: string)
    ensures op.Start? || (op.Add? && op.stored && file(op.name) !in s.metadata) ==>
              ResolveGateway(file, Apply(file, s, op), Some(op.name), None) == Gateway(op.name, op.endpoint)
    ensures op.Destroy? && op.removed ==>
              ResolveGateway(file, Apply(file, s, op), Some(op.name), None) == UnknownGateway(op.name)
    ensures op.Use? || file(other) != file(op.name) ==>
              ResolveGateway(file, Apply(file, s, op), Some(other), None) == ResolveGateway(file, s, Some(other), None)
  {}

  // -------------------------------------------------------------- where the invariant fails

  /** A name with surrounding white space is accepted, stored, and then not found again. */
  lemma PaddedNameIsLost(file: Files)
    requires file(" a") != file("a")
    ensures var op := Add(" a", "e", true, Saved);
            var s := Run(file, [op]);
            !Consistent(file, s) && ResolveGateway(file, s, None, None) == UnknownGateway("a")
  {
    var op := Add(" a", "e", true, Saved);
    assert [op][..0] == [];
    assert Run(file, [op]) == Apply(file, Empty, op);
    assert TrimStart(" a") == "a" by {
      assert " a"[1..] == "a";
    }
    assert Trim(" a") == "a";
  }

  /** Destroying a gateway under another name for its file, as `a` for `./a`, leaves it active and unknown. */
  lemma OtherSpellingIsLost(file: Files, name: string, other: string)
    requires IsTrimmed(name) && name != other && file(name) == file(other)
    ensures var ops := [Add(name, "e", true, Saved), Destroy(other, true, true)];
            var s := Run(file, ops);
            && AreOrdinary(ops)
            && !Consistent(file, s) && ResolveGateway(file, s, None, None) == UnknownGateway(name)
  {
    var add, destroy := Add(name, "e", true, Saved), Destroy(other, true, true);
    RunSnoc(file, [], add);
    assert [] + [add] == [add] && Run(file, []) == Empty;
    RunSnoc(file, [add], destroy);
    assert [add] + [destroy] == [add, destroy];
  }

  ghost predicate IsInjectiveOn(file: Files, names: set<string>) {
    forall a, b | a in names && b in names && file(a) == file(b) :: a == b
  }

  ghost predicate RunsOver(ops: seq<Op>, names: set<string>) {
    AreOrdinary(ops) && forall i | 0 <= i < |ops| :: ops[i].name in names
  }

  /** The sets of trimmed names over which every run keeps the invariant: exactly those with one file per name. */
  lemma RunsStayConsistentExactlyWhen(file: Files, names: set<string>)
    requires forall name | name in names :: IsTrimmed(name)
    ensures (forall ops | RunsOver(ops, names) :: Consistent(file, Run(file, ops))) <==> IsInjectiveOn(file, names)
  {
    if IsInjectiveOn(file, names) {
      forall ops | RunsOver(ops, names)
        ensures Consistent(file, Run(file, ops))
      {
        RunStaysConsistent(file, ops);
      }
    } else {
      var a, b :| a in names && b in names && file(a) == file(b) && a != b;
      OtherSpellingIsLost(file, a, b);
      assert RunsOver([Add(a, "e", true, Saved), Destroy(b, true, true)], names);
    }
  }

  /** The names that can be active at all: exactly the trimmed ones. */
  lemma LoadableExactlyWhenTrimmed(name: string)
    ensures (exists s :: LoadActive(s) == Some(name)) <==> IsTrimmed(name)
  {
    if s :| LoadActive(s) == Some(name) {
      TrimTwice(s.activeFile.value);
    }
    if IsTrimmed(name) {
      assert LoadActive(State(map[], Some(name))) == Some(name);
    }
  }

  // ---------------------------------------------------------------- which gateway is active

  /** The gateway that a command makes active, if it does. */
  ghost function Activated(file: Files, s: State, op: Op): Option<string> {
    match op
    case Start(name, _, saving) => if saving.Saved? then Some(name) else None
    case Add(name, _, stored, saving) =>
      if stored && saving.Saved? && file(name) !in s.metadata then Some(name) else None
    case Use(name, saving) => if saving.Saved? && file(name) in s.metadata then Some(name) else None
    case Destroy(_, _, _) => None
  }

  ghost function ActivatedBy(file: Files, ops: seq<Op>, i: nat): Option<string>
    requires i < |ops|
  {
    Activated(file, Run(file, ops[..i]), ops[i])
  }

  /** The `j`-th command ends what was active: it activates something, or destroys that gateway. */
  ghost predicate Ends(file: Files, ops: seq<Op>, j: nat, name: string)
    requires j < |ops|
  {
    ActivatedBy(file, ops, j).Some? || (ops[j].Destroy? && ops[j].name == name)
  }

  /** `name` was activated by command `i` and nothing since has ended that. */
  ghost predicate ActiveSince(file: Files, ops: seq<Op>, i: nat, name: string) {
    && i < |ops| && ActivatedBy(file, ops, i) == Some(name)
    && forall j | i < j < |ops| :: !Ends(file, ops, j, name)
  }

  /** One more command: the gateway it activates, else what was active before unless just destroyed. */
  lemma ActiveSinceSnoc(file: Files, front: seq<Op>, op: Op, name: string)
    ensures (exists i: nat :: ActiveSince(file, front + [op], i, name)) <==>
            var now := Activated(file, Run(file, front), op);
            || now == Some(name)
            || (now.None? && !(op.Destroy? && op.name == name) && exists i: nat :: ActiveSince(file, front, i, name))
  {
    var ops, n := front + [op], |front|;
    assert ops[..n] == front && ops[n] == op;
    assert forall i | 0 <= i < n :: ops[..i] == front[..i] && ops[i] == front[i];
    assert forall i | 0 <= i < n :: Ends(file, ops, i, name) == Ends(file, front, i, name);
    if i: nat :| ActiveSince(file, ops, i, name) {
      if i < n {
        assert !Ends(file, ops, n, name);
        assert ActiveSince(file, front, i, name);
      }
    }
    if Activated(file, Run(file, front), op) == Some(name) {
      assert ActiveSince(file, ops, n, name);
    }
    if i: nat :| ActiveSince(file, front, i, name) {
      if !Ends(file, ops, n, name) {
        assert ActiveSince(file, ops, i, name);
      }
    }
  }

  /** A name that a command makes active is read back as it is exactly when it is trimmed. */
  lemma ActivatedIsLoadedExactlyWhenTrimmed(file: Files, s: State, op: Op, name: string)
    requires Activated(file, s, op) == Some(name)
    ensures LoadActive(Apply(file, s, op)) == Some(name) <==> IsTrimmed(name)
  {}

  lemma ActiveAfter(file: Files, s: State, op: Op)
    requires IsOrdinary(op)
    ensures LoadActive(Apply(file, s, op)) ==
            var now := Activated(file, s, op);
            if now.Some? then now
            else if op.Destroy? && LoadActive(s) == Some(op.name) then None
            else LoadActive(s)
  {}

  /** The active gateway is the one last selected, added or started, unless it was destroyed by that name since. */
  lemma {:induction false} ActiveIsLastActivated(file: Files, ops: seq<Op>, name: string)
    requires AreOrdinary(ops)
    ensures LoadActive(Run(file, ops)) == Some(name) <==> exists i: nat :: ActiveSince(file, ops, i, name)
  {
    if ops == [] {
    } else {
      var n := |ops| - 1;
      var front, op := ops[..n], ops[n];
      assert ops == front + [op];
      ActiveIsLastActivated(file, front, name);
      ActiveSinceSnoc(file, front, op, name);
      ActiveAfter(file, Run(file, front), op);
    }
  }

  // ------------------------------------------------------------------------ the files

  class Store {
    const file: Files
    var metadata: map<string, Metadata>
    var activeFile: Option<string>

    constructor (file: Files)
      ensures this.file == file && Now() == Empty
    {
      this.file := file;
      metadata, activeFile := map[], None;
    }

    ghost function Now(): State
      reads this
    {
      State(metadata, activeFile)
    }

    method SaveActiveGateway(name: string) returns (ok: bool, ghost saving: Saving)
      modifies this`activeFile
      ensures Now() == Save(old(Now()), name, saving)
      ensures (ok <==> saving.Saved?) && (saving.CutShort? ==> saving.part <= name)
    {
      var created: bool := *;
      var written: int := *;
      if !created {
        return false, Untouched;
      }
      ok := !(0 <= written < |name|);
      activeFile := Some(if ok then name else name[..written]);
      saving := if ok then Saved else CutShort(name[..written]);
    }

    method LoadActiveGateway() returns (name: Option<string>)
      ensures name == LoadActive(Now())
      ensures name.Some? ==> IsTrimmed(name.value)
      ensures activeFile.Some? && IsTrimmed(activeFile.value) ==> name == activeFile
    {
      if activeFile.None? {
        return None;
      }
      TrimTwice(activeFile.value);
      var trimmed := Trim(activeFile.value);
      name := if trimmed == "" then None else Some(trimmed);
    }

    /** What starting a gateway does to the registry once it has been deployed. */
    method RegisterStarted(name: string, endpoint: string) returns (ok: bool, ghost saving: Saving)
      modifies this
      ensures Now() == Apply(file, old(Now()), Start(name, endpoint, saving))
      ensures ok <==> saving.Saved?
    {
      metadata := metadata[file(name) := Metadata(name, endpoint)];
      ok, saving := SaveActiveGateway(name);
    }

    /** `stored` tells whether the metadata could be written. */
    method GatewayAdd(name: string, endpoint: string) returns (ok: bool, ghost stored: bool, ghost saving: Saving)
      modifies this
      ensures Now() == Apply(file, old(Now()), Add(name, endpoint, stored, saving))
      ensures ok <==> file(name) !in old(metadata) && stored && saving.Saved?
    {
      stored, saving := true, Untouched;
      if file(name) in metadata {
        return false, stored, saving;
      }
      var written := *;
      if !written {
        return false, false, saving;
      }
      metadata := metadata[file(name) := Metadata(name, endpoint)];
      ok, saving := SaveActiveGateway(name);
    }

    method GatewayUse(name: string) returns (ok: bool, ghost saving: Saving)
      modifies this`activeFile
      ensures Now() == Apply(file, old(Now()), Use(name, saving))
      ensures ok <==> file(name) in metadata && saving.Saved?
    {
      saving := Untouched;
      if file(name) !in metadata {
        return false, saving;
      }
      ok, saving := SaveActiveGateway(name);
    }

    /** Errors of the two removals are only logged. */
    method RemoveGatewayRegistration(name: string) returns (removed: bool, cleared: bool)
      modifies this
      ensures Now() == Apply(file, old(Now()), Destroy(name, removed, cleared))
    {
      removed, cleared := *, *;
      if removed {
        metadata := metadata - {file(name)};
      }
      var active := LoadActiveGateway();
      if active == Some(name) && cleared {
        activeFile := None;
      }
    }
  }

  // ------------------------------------------------------------------ any list of commands

  datatype Command =
    | StartCommand(name: string, endpoint: string)
    | AddCommand(name: string, endpoint: string)
    | UseCommand(name: string)
    | DestroyCommand(name: string)

  /** `op` is the command with some outcome of its file operations. */
  ghost predicate IsOutcomeOf(op: Op, command: Command) {
    && op.name == command.name
    && match command
       case StartCommand(_, endpoint) => op.Start? && op.endpoint == endpoint
       case AddCommand(_, endpoint) => op.Add? && op.endpoint == endpoint
       case UseCommand(_) => op.Use?
       case DestroyCommand(_) => op.Destroy?
  }

  method Perform(store: Store, command: Command) returns (ghost op: Op)
    modifies store
    ensures IsOutcomeOf(op, command) && store.Now() == Apply(store.file, old(store.Now()), op)
  {
    match command
    case StartCommand(name, endpoint) =>
      var _, saving := store.RegisterStarted(name, endpoint);
      op := Start(name, endpoint, saving);
    case AddCommand(name, endpoint) =>
      var _, stored, saving := store.GatewayAdd(name, endpoint);
      op := Add(name, endpoint, stored, saving);
    case UseCommand(name) =>
      var _, saving := store.GatewayUse(name);
      op := Use(name, saving);
    case DestroyCommand(name) =>
      var removed, cleared := store.RemoveGatewayRegistration(name);
      op := Destroy(name, removed, cleared);
  }

  /** Both guarantees for the files themselves, over any commands, with `ops` what became of them. */
  method PerformAll(file: Files, commands: seq<Command>) returns (store: Store, ghost ops: seq<Op>)
    ensures |ops| == |commands| && forall i | 0 <= i < |ops| :: IsOutcomeOf(ops[i], commands[i])
    ensures store.Now() == Run(file, ops)
    ensures AreOrdinary(ops) && NamesApart(file, ops) ==> Consistent(file, store.Now())
    ensures AreOrdinary(ops) ==>
              forall name :: LoadActive(store.Now()) == Some(name) <==> exists i: nat :: ActiveSince(file, ops, i, name)
  {
    store := new Store(file);
    ops := [];
    for k := 0 to |commands|
      invariant fresh(store) && store.file == file && |ops| == k && store.Now() == Run(file, ops)
      invariant forall i | 0 <= i < k :: IsOutcomeOf(ops[i], commands[i])
    {
      ghost var op := Perform(store, commands[k]);
      RunSnoc(file, ops, op);
      ops := ops + [op];
    }
    if AreOrdinary(ops) {
      if NamesApart(file, ops) {
        RunStaysConsistent(file, ops);
      }
      forall name
        ensures LoadActive(store.Now()) == Some(name) <==> exists i: nat :: ActiveSince(file, ops, i, name)
      {
        ActiveIsLastActivated(file, ops, name);
      }
    }
  }
}
