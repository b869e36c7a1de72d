/**
 Making sure that the providers a sandbox needs exist (`ensure_required_providers` and
 `auto_create_provider` in crates/clustershell-cli/src/run.rs).
 */
module Providers {
  import opened Text

  datatype Provider = Provider(name: string, kind: string)

  // ------------------------------------------------------------------------- paging

  const LIMIT := 100
  const U32_MAX := 0xFFFF_FFFF

  /** `offset.saturating_add(limit)` on 32-bit numbers. */
  function NextOffset(offset: nat): nat {
    if offset + LIMIT <= U32_MAX then offset + LIMIT else U32_MAX
  }

  ghost function Offset(k: nat): nat {
    if k == 0 then 0 else NextOffset(Offset(k - 1))
  }

  /** The length of the page at an offset of a list of `total` entries. */
  function PageLength(total: nat, offset: nat): nat {
    if offset >= total then 0 else if total - offset < LIMIT then total - offset else LIMIT
  }

  lemma {:induction false} OffsetClosed(k: nat)
    ensures Offset(k) == if k * LIMIT <= U32_MAX then k * LIMIT else U32_MAX
  {
    if k == 0 {
    } else {
      OffsetClosed(k - 1);
    }
  }

  /** The loop meets a short page, and so ends, exactly for lists of fewer than 2^32 + 99 entries. */
  lemma PagingEnds(total: nat)
    ensures (exists k :: PageLength(total, Offset(k)) < 100) <==> total < 4294967395
  {
    if total < U32_MAX + LIMIT {
      var k := U32_MAX + total;
      OffsetClosed(k);
      assert PageLength(total, Offset(k)) < LIMIT;
    } else {
      forall k
        ensures PageLength(total, Offset(k)) == LIMIT
      {
        OffsetClosed(k);
      }
    }
  }

  // ------------------------------------------------------------------------ the server

  datatype CreateReply = Created(provider: Option<Provider>) | AlreadyExists | CreateError

  ghost predicate NameExists(providers: seq<Provider>, name: string) {
    exists p :: p in providers && p.name == name
  }

  /** A provider of that name whose type, up to case, is `kind`. */
  ghost predicate Serves(providers: seq<Provider>, name: string, kind: string) {
    exists p :: p in providers && p.name == name && Lower(p.kind) == kind
  }

  /** The first provider of the list whose type, up to case, is `kind` has that name. */
  ghost predicate IsFirstOf(providers: seq<Provider>, name: string, kind: string) {
    exists i | 0 <= i < |providers| :: FirstAt(providers, name, kind, i)
  }

  ghost predicate FirstAt(providers: seq<Provider>, name: string, kind: string, i: nat)
    requires i < |providers|
  {
    && providers[i].name == name && Lower(providers[i].kind) == kind
    && forall j | 0 <= j < i :: Lower(providers[j].kind) != kind
  }

  class Server {
    var providers: seq<Provider>
    /** Whether some page could not be fetched, and whether some creation was not answered with the provider. */
    ghost var listFailed: bool
    ghost var createFailed: bool

    constructor (providers: seq<Provider>)
      ensures this.providers == providers
    {
      this.providers, listFailed, createFailed := providers, false, false;
    }

    /** One page of the list, unless the call fails. */
    method List(offset: nat) returns (page: Option<seq<Provider>>)
      modifies this`listFailed
      ensures listFailed == (old(listFailed) || page.None?)
      ensures page.Some? ==> |page.value| == PageLength(|providers|, offset)
      ensures page.Some? ==> forall i | 0 <= i < |page.value| :: page.value[i] == providers[offset + i]
    {
      var fails := *;
      var n := PageLength(|providers|, offset);
      page := if fails then None else if n == 0 then Some([]) else Some(providers[offset..offset + n]);
      listFailed := listFailed || fails;
    }

    /** Creates a provider; a reply with an error or without a provider does not tell whether it was created. */
    method Create(name: string, kind: string) returns (r: CreateReply)
      modifies this`providers, this`createFailed
      ensures old(providers) <= providers
      ensures createFailed == (old(createFailed) || !(r.Created? && r.provider.Some?))
      ensures r.Created? && r.provider.Some? ==>
                r.provider.value == Provider(name, kind) && providers == old(providers) + [Provider(name, kind)]
      ensures r.AlreadyExists? ==> providers == old(providers)
    {
      r := *;
      var done := *;
      if r.Created? && r.provider.Some? {
        r := Created(Some(Provider(name, kind)));
        providers := providers + [Provider(name, kind)];
      } else if done && !r.AlreadyExists? {
        providers := providers + [Provider(name, kind)];
      }
      createFailed := createFailed || !(r.Created? && r.provider.Some?);
    }
  }

  // ---------------------------------------------------------------- what has been fetched

  /** Each recorded type has the name of the first listed provider of that type, and no listed type is missing. */
  ghost predicate RecordsTypes(types: map<string, string>, providers: seq<Provider>) {
    && "" !in types
    && (forall kind | kind in types :: IsFirstOf(providers, types[kind], kind))
    && (forall p | p in providers && p.kind != "" :: Lower(p.kind) in types)
  }

  ghost predicate RecordsNames(known: set<string>, providers: seq<Provider>) {
    forall name :: name in known <==> NameExists(providers, name)
  }

  /** Records one provider; the first of each type stays. */
  function Record(types: map<string, string>, p: Provider): map<string, string> {
    if p.kind == "" || Lower(p.kind) in types then types else types[Lower(p.kind) := p.name]
  }

  lemma RecordNext(types: map<string, string>, known: set<string>, seen: seq<Provider>, p: Provider)
    requires RecordsTypes(types, seen) && RecordsNames(known, seen)
    ensures RecordsTypes(Record(types, p), seen + [p]) && RecordsNames(known + {p.name}, seen + [p])
  {
    var all, more := seen + [p], Record(types, p);
    assert all[|seen|] == p;
    assert p.kind != "" ==> |Lower(p.kind)| > 0;
    forall kind | kind in more
      ensures IsFirstOf(all, more[kind], kind)
    {
      if kind in types {
        var i :| 0 <= i < |seen| && FirstAt(seen, types[kind], kind, i);
        assert FirstAt(all, types[kind], kind, i);
      } else {
        forall j | 0 <= j < |seen|
          ensures Lower(all[j].kind) != kind
        {
          assert seen[j] in seen;
        }
        assert FirstAt(all, p.name, kind, |seen|);
      }
    }
    forall name
      ensures name in known + {p.name} <==> NameExists(all, name)
    {
      if name in known {
        var q :| q in seen && q.name == name;
        assert q in all;
      }
    }
  }

  lemma RecordAgain(types: map<string, string>, known: set<string>, seen: seq<Provider>, p: Provider)
    requires RecordsTypes(types, seen) && RecordsNames(known, seen) && p in seen
    ensures Record(types, p) == types && known + {p.name} == known
  {
    assert NameExists(seen, p.name);
  }

  /** The records are exactly those of the first `upto` providers. */
  ghost predicate RecordsFirst(known: set<string>, types: map<string, string>, providers: seq<Provider>, upto: nat) {
    upto <= |providers| && RecordsTypes(types, providers[..upto]) && RecordsNames(known, providers[..upto])
  }

  /** Reading provider `k`, which is the next one or has been read before. */
  lemma ReadOne(known: set<string>, types: map<string, string>, providers: seq<Provider>, upto: nat, k: nat)
    requires RecordsFirst(known, types, providers, upto) && k <= upto && k < |providers|
    ensures RecordsFirst(known + {providers[k].name}, Record(types, providers[k]), providers,
                         if k < upto then upto else upto + 1)
  {
    var seen := providers[..upto];
    if k < upto {
      assert providers[k] == seen[k];
      RecordAgain(types, known, seen, providers[k]);
    } else {
      assert providers[..upto + 1] == seen + [providers[k]];
      RecordNext(types, known, seen, providers[k]);
    }
  }

  /** Reads the page at `offset` into the records, of which the first `upto` providers are already part. */
  method ReadPage(providers: seq<Provider>, page: seq<Provider>, offset: nat, upto: nat,
                  known: set<string>, types: map<string, string>)
    returns (known': set<string>, types': map<string, string>, upto': nat)
    requires offset <= upto && RecordsFirst(known, types, providers, upto)
    requires offset + |page| <= |providers| && page == providers[offset..offset + |page|]
    ensures upto' == if upto < offset + |page| then offset + |page| else upto
    ensures RecordsFirst(known', types', providers, upto')
  {
    known', types', upto' := known, types, upto;
    for i := 0 to |page|
      invariant upto' == if upto < offset + i then offset + i else upto
      invariant RecordsFirst(known', types', providers, upto')
    {
      assert page[i] == providers[offset + i];
      ReadOne(known', types', providers, upto', offset + i);
      upto' := if offset + i < upto' then upto' else upto' + 1;
      known', types' := known' + {page[i].name}, Record(types', page[i]);
    }
  }

  /** Pages through the whole list; nothing when some page cannot be fetched. */
  method FetchAll(server: Server) returns (ok: bool, known: set<string>, types: map<string, string>)
    requires |server.providers| < U32_MAX + LIMIT
    modifies server`listFailed
    ensures ok <==> !server.listFailed
    ensures ok ==> RecordsTypes(types, server.providers) && RecordsNames(known, server.providers)
  {
    server.listFailed := false;
    var offset, upto := 0, 0;
    known, types := {}, map[];
    assert server.providers[..0] == [];
    while true
      invariant offset <= U32_MAX && offset <= upto && !server.listFailed
      invariant RecordsFirst(known, types, server.providers, upto)
      decreases U32_MAX - offset
    {
      var page := server.List(offset);
      if page.None? {
        return false, {}, map[];
      }
      known, types, upto := ReadPage(server.providers, page.value, offset, upto, known, types);
      if |page.value| < LIMIT {
        assert upto == |server.providers| && server.providers[..upto] == server.providers;
        return true, known, types;
      }
      offset := NextOffset(offset);
    }
  }

  // -------------------------------------------------------------------- the selection

  /** The names chosen so far, in order, with the set that keeps them from repeating. */
  class Selection {
    var seen: set<string>
    var names: seq<string>

    ghost predicate Valid()
      reads this
    {
      && (forall name :: name in seen <==> name in names)
      && (forall i, j | 0 <= i < j < |names| :: names[i] != names[j])
    }

    constructor ()
      ensures Valid() && names == []
    {
      seen, names := {}, [];
    }

    method Add(name: string)
      requires Valid()
      modifies this
      ensures Valid() && old(names) <= names && name in names
      ensures forall n | n in names :: n in old(names) || n == name
    {
      if name !in seen {
        seen, names := seen + {name}, names + [name];
      }
    }
  }

  datatype Consent = Always | Never | Ask(interactive: bool)

  /**
   How the user lets missing providers be created; what the prompt for a type, and an explicit name
   if there is one, is answered, unless it fails; and whether local credentials for the type are
   found, unless the search fails.
   */
  datatype User = User(
    consent: Consent, accepts: (string, Option<string>) -> Option<bool>, finds: string -> Option<bool>)

  datatype CreateOutcome = Made(name: string) | Skipped | Failed

  /** The name tried at each attempt for an inferred type. */
  function AttemptName(kind: string, attempt: nat): string
    requires attempt < 10
  {
    if attempt == 0 then kind else kind + "-" + ["0123456789"[attempt]]
  }

  ghost function Variants(kind: string): seq<string> {
    [kind, kind + "-1", kind + "-2", kind + "-3", kind + "-4"]
  }

  lemma AttemptIsVariant(kind: string, attempt: nat)
    requires attempt < 5
    ensures AttemptName(kind, attempt) == Variants(kind)[attempt]
  {
    var digits := "0123456789";
    assert attempt > 0 ==> kind + "-" + [digits[attempt]] == kind + ("-" + [digits[attempt]]);
    assert digits[1] == '1' && digits[2] == '2' && digits[3] == '3' && digits[4] == '4';
  }

  /** Creation is allowed: switched on, or agreed to at the prompt. */
  ghost predicate IsAllowed(user: User, kind: string, name: Option<string>) {
    user.consent.Always? || (user.consent == Ask(true) && user.accepts(kind, name) == Some(true))
  }

  /** The type is skipped: switched off, declined at the prompt, or without anything to create it from. */
  ghost predicate IsSkipped(user: User, kind: string, name: Option<string>) {
    || user.consent.Never?
    || (user.consent == Ask(true) && user.accepts(kind, name) == Some(false))
    || (IsAllowed(user, kind, name) && user.finds(kind) == Some(false))
  }

  /** The type cannot even be tried: nobody to ask, or the prompt or the search fails. */
  ghost predicate IsStuck(user: User, kind: string, name: Option<string>) {
    || user.consent == Ask(false)
    || (user.consent == Ask(true) && user.accepts(kind, name).None?)
    || (IsAllowed(user, kind, name) && user.finds(kind).None?)
  }

  /** Whether creation is allowed, unless that cannot be found out. */
  method MayCreate(user: User, kind: string, name: Option<string>) returns (answer: Option<bool>)
    ensures answer == Some(true) <==> IsAllowed(user, kind, name)
    ensures answer == Some(false) <==>
              user.consent.Never? || (user.consent == Ask(true) && user.accepts(kind, name) == Some(false))
    ensures answer.None? <==>
              user.consent == Ask(false) || (user.consent == Ask(true) && user.accepts(kind, name).None?)
  {
    match user.consent
    case Never => answer := Some(false);
    case Always => answer := Some(true);
    case Ask(interactive) => answer := if interactive then user.accepts(kind, name) else None;
  }

  /** `tries` counts the creations asked for, `last` is the reply to the last of them. */
  method AutoCreateProvider(server: Server, kind: string, preferred: Option<string>, user: User,
                            selection: Selection)
    returns (outcome: CreateOutcome, ghost tries: nat, ghost last: CreateReply)
    requires selection.Valid()
    modifies server`providers, server`createFailed, selection
    ensures selection.Valid() && old(server.providers) <= server.providers && old(selection.names) <= selection.names
    // which of the three it comes to
    ensures outcome.Skipped? <==> IsSkipped(user, kind, preferred)
    ensures IsStuck(user, kind, preferred) ==> outcome.Failed?
    ensures outcome.Failed? ==> IsStuck(user, kind, preferred) || server.createFailed
    ensures old(server.createFailed) ==> server.createFailed
    ensures IsSkipped(user, kind, preferred) ==> server.createFailed == old(server.createFailed)
    // and what it does
    ensures outcome.Made? ==> Provider(outcome.name, kind) in server.providers && outcome.name in selection.names
    ensures outcome.Made? && preferred.Some? ==> outcome.name == preferred.value
    ensures outcome.Made? && preferred.None? ==> 1 <= tries <= 5 && outcome.name == Variants(kind)[tries - 1]
    ensures outcome.Failed? && preferred.None? && tries > 0 ==> !last.AlreadyExists? || tries == 5
    ensures !IsStuck(user, kind, preferred) && !IsSkipped(user, kind, preferred) ==> tries > 0
    ensures outcome.Made? && preferred.None? && !server.createFailed ==> outcome.name == kind
    ensures forall n | n in selection.names :: n in old(selection.names) || (outcome.Made? && n == outcome.name)
    ensures !outcome.Made? ==> selection.names == old(selection.names)
    ensures outcome.Made? ==> server.providers == old(server.providers) + [Provider(outcome.name, kind)]
    ensures outcome.Skipped? ==> server.providers == old(server.providers)
  {
    tries, last := 0, CreateError;
    var answer := MayCreate(user, kind, preferred);
    if answer.None? {
      return Failed, tries, last;
    }
    if !answer.value {
      return Skipped, tries, last;
    }
    var found := user.finds(kind);
    if found.None? {
      return Failed, tries, last;
    }
    if !found.value {
      return Skipped, tries, last;
    }
    if preferred.Some? {
      var r := server.Create(preferred.value, kind);
      tries, last := 1, r;
      if !r.Created? || r.provider.None? {
        return Failed, tries, last;
      }
      selection.Add(preferred.value);
      return Made(preferred.value), tries, last;
    }
    outcome, tries, last := CreateUnderSomeName(server, kind, selection);
  }

  /** Tries the type as the name, then up to four variants of it. */
  method CreateUnderSomeName(server: Server, kind: string, selection: Selection)
    returns (outcome: CreateOutcome, ghost tries: nat, ghost last: CreateReply)
    requires selection.Valid()
    modifies server`providers, server`createFailed, selection
    ensures selection.Valid() && old(server.providers) <= server.providers && old(selection.names) <= selection.names
    ensures !outcome.Skipped? && (outcome.Failed? || old(server.createFailed) ==> server.createFailed)
    ensures outcome.Made? ==> server.providers == old(server.providers) + [Provider(outcome.name, kind)]
    ensures outcome.Made? ==> outcome.name in selection.names
    ensures 1 <= tries <= 5 && (outcome.Made? ==> outcome.name == Variants(kind)[tries - 1])
    ensures outcome.Failed? ==> !last.AlreadyExists? || tries == 5
    ensures outcome.Made? && !server.createFailed ==> outcome.name == kind
    ensures forall n | n in selection.names :: n in old(selection.names) || (outcome.Made? && n == outcome.name)
    ensures !outcome.Made? ==> selection.names == old(selection.names)
  {
    tries, last := 0, CreateError;
    for attempt := 0 to 5
      invariant tries == attempt
      invariant selection.Valid() && selection.names == old(selection.names)
      invariant server.providers == old(server.providers)
      invariant old(server.createFailed) || attempt > 0 ==> server.createFailed
    {
      var name := AttemptName(kind, attempt);
      AttemptIsVariant(kind, attempt);
      var r := server.Create(name, kind);
      tries, last := attempt + 1, r;
      if r.Created? {
        if r.provider.None? {
          return Failed, tries, last;
        }
        selection.Add(name);
        return Made(name), tries, last;
      } else if r.CreateError? {
        return Failed, tries, last;
      }
    }
    outcome := Failed;
  }

  // ------------------------------------------------------------------ the two passes

  /** Each recorded name serves its type, unless creating it was skipped. */
  ghost predicate TypesServed(types: map<string, string>, providers: seq<Provider>, skipped: set<string>) {
    forall kind | kind in types :: Serves(providers, types[kind], kind) || types[kind] in skipped
  }

  lemma ServesStays(providers: seq<Provider>, more: seq<Provider>)
    requires providers <= more
    ensures forall name, kind | Serves(providers, name, kind) :: Serves(more, name, kind)
    ensures forall name | NameExists(providers, name) :: NameExists(more, name)
  {
    forall name, kind | Serves(providers, name, kind)
      ensures Serves(more, name, kind)
    {
      var p :| p in providers && p.name == name && Lower(p.kind) == kind;
      assert p in more;
    }
    forall name | NameExists(providers, name)
      ensures NameExists(more, name)
    {
      var p :| p in providers && p.name == name;
      assert p in more;
    }
  }

  /** A name that is known, or names a type that can be tried. */
  ghost predicate IsUsable(name: string, known: set<string>, user: User, normalize: string -> Option<string>) {
    name in known || (normalize(name).Some? && !IsStuck(user, normalize(name).value, Some(name)))
  }

  ghost predicate IsSkippedName(name: string, known: set<string>, user: User, normalize: string -> Option<string>) {
    name !in known && normalize(name).Some? && IsSkipped(user, normalize(name).value, Some(name))
  }

  /** A usable name, chosen or skipped as the user has it, whose type has a recorded name unless it is known. */
  ghost predicate Handled(name: string, names: seq<string>, known: set<string>, types: map<string, string>,
                          skipped: set<string>, user: User, normalize: string -> Option<string>) {
    && IsUsable(name, known, user, normalize)
    && (if IsSkippedName(name, known, user, normalize) then name in skipped else name in names)
    && (name !in known ==> normalize(name).Some? && Lower(normalize(name).value) in types)
  }

  lemma HandledStays(names: seq<string>, names': seq<string>, known: set<string>,
                     types: map<string, string>, types': map<string, string>,
                     skipped: set<string>, skipped': set<string>, user: User, normalize: string -> Option<string>)
    requires names <= names' && skipped <= skipped' && forall kind | kind in types :: kind in types'
    ensures forall e | Handled(e, names, known, types, skipped, user, normalize) ::
              Handled(e, names', known, types', skipped', user, normalize)
  {
    forall e | Handled(e, names, known, types, skipped, user, normalize)
      ensures Handled(e, names', known, types', skipped', user, normalize)
    {
      assert e in names ==> e in names';
    }
  }

  /** A name that is not known and is taken for a type. */
  ghost predicate StandsFor(name: string, kind: string, known: set<string>, normalize: string -> Option<string>) {
    name !in known && normalize(name).Some? && Lower(normalize(name).value) == kind
  }

  /** The first explicit name that stands for a type. */
  ghost predicate FirstStandsFor(explicit: seq<string>, i: nat, kind: string, known: set<string>,
                                 normalize: string -> Option<string>)
    requires i < |explicit|
  {
    && StandsFor(explicit[i], kind, known, normalize)
    && forall j | 0 <= j < i :: !StandsFor(explicit[j], kind, known, normalize)
  }

  ghost predicate IsStandIn(name: string, kind: string, explicit: seq<string>, known: set<string>,
                            normalize: string -> Option<string>) {
    exists i | 0 <= i < |explicit| :: explicit[i] == name && FirstStandsFor(explicit, i, kind, known, normalize)
  }

  lemma StandInIsUnique(a: string, b: string, kind: string, explicit: seq<string>, known: set<string>,
                        normalize: string -> Option<string>)
    requires IsStandIn(a, kind, explicit, known, normalize) && IsStandIn(b, kind, explicit, known, normalize)
    ensures a == b && a in explicit && StandsFor(a, kind, known, normalize)
  {
    var i :| 0 <= i < |explicit| && explicit[i] == a && FirstStandsFor(explicit, i, kind, known, normalize);
    var j :| 0 <= j < |explicit| && explicit[j] == b && FirstStandsFor(explicit, j, kind, known, normalize);
    assert i == j;
  }

  lemma {:induction false} StandInExists(explicit: seq<string>, i: nat, kind: string, known: set<string>,
                                         normalize: string -> Option<string>) returns (name: string)
    requires i < |explicit| && StandsFor(explicit[i], kind, known, normalize)
    ensures IsStandIn(name, kind, explicit, known, normalize)
  {
    if j :| 0 <= j < i && StandsFor(explicit[j], kind, known, normalize) {
      name := StandInExists(explicit, j, kind, known, normalize);
    } else {
      name := explicit[i];
      assert FirstStandsFor(explicit, i, kind, known, normalize);
    }
  }

  /** The explicit name at `i` is the first to stand for a type that nothing handled before has recorded. */
  lemma NewStandIn(explicit: seq<string>, i: nat, kind: string, names: seq<string>, known: set<string>,
                   types: map<string, string>, skipped: set<string>, user: User, normalize: string -> Option<string>)
    requires i < |explicit| && StandsFor(explicit[i], kind, known, normalize) && kind !in types
    requires forall j | 0 <= j < i :: Handled(explicit[j], names, known, types, skipped, user, normalize)
    ensures IsStandIn(explicit[i], kind, explicit, known, normalize)
  {
    assert FirstStandsFor(explicit, i, kind, known, normalize);
  }

  /** One explicitly named provider: keep it if the server knows it, else create it under that name. */
  method UseExplicit(server: Server, name: string, known: set<string>, types: map<string, string>,
                     normalize: string -> Option<string>, user: User, selection: Selection,
                     skipped: set<string>)
    returns (ok: bool, types': map<string, string>, skipped': set<string>)
    requires selection.Valid() && TypesServed(types, server.providers, skipped)
    requires forall n | n in known :: NameExists(server.providers, n)
    requires forall n | n in selection.names :: NameExists(server.providers, n)
    modifies server`providers, server`createFailed, selection
    ensures selection.Valid() && old(server.providers) <= server.providers && old(selection.names) <= selection.names
    ensures forall n | n in selection.names :: NameExists(server.providers, n)
    ensures forall n | n in selection.names :: n in old(selection.names) || n == name
    ensures TypesServed(types', server.providers, skipped')
    ensures skipped <= skipped' <= skipped + {name}
    ensures name in known ==> ok && name in selection.names && types' == types && skipped' == skipped
    ensures ok ==> Handled(name, selection.names, known, types', skipped', user, normalize)
    ensures forall kind | kind in types :: kind in types' && types'[kind] == types[kind]
    ensures forall kind | kind in types' && kind !in types ::
              types'[kind] == name && StandsFor(name, kind, known, normalize)
    ensures skipped' == skipped || (skipped' == skipped + {name} && IsSkippedName(name, known, user, normalize))
    ensures IsUsable(name, known, user, normalize) ==> ok || server.createFailed
    ensures old(server.createFailed) ==> server.createFailed
    ensures user.consent.Never? ==>
              server.createFailed == old(server.createFailed) && server.providers == old(server.providers)
  {
    types', skipped' := types, skipped;
    if name in known {
      selection.Add(name);
      return true, types, skipped;
    }
    var kind := normalize(name);
    if kind.None? {
      return false, types, skipped;
    }
    var outcome, _, _ := AutoCreateProvider(server, kind.value, Some(name), user, selection);
    ServesStays(old(server.providers), server.providers);
    if outcome.Failed? {
      return false, types, skipped;
    }
    if outcome.Skipped? {
      skipped' := skipped + {name};
    } else {
      assert Serves(server.providers, name, Lower(kind.value));
    }
    if Lower(kind.value) !in types {
      types' := types[Lower(kind.value) := name];
    }
    ok := true;
  }

  method ExplicitPass(server: Server, explicit: seq<string>, known: set<string>, types: map<string, string>,
                      normalize: string -> Option<string>, user: User, selection: Selection)
    returns (ok: bool, types': map<string, string>, skipped: set<string>)
    requires selection.Valid() && selection.names == []
    requires TypesServed(types, server.providers, {})
    requires forall n | n in known :: NameExists(server.providers, n)
    modifies server`providers, server`createFailed, selection
    ensures selection.Valid() && old(server.providers) <= server.providers
    ensures forall n | n in selection.names :: NameExists(server.providers, n) && n in explicit
    ensures TypesServed(types', server.providers, skipped)
    ensures ok ==> forall e | e in explicit :: Handled(e, selection.names, known, types', skipped, user, normalize)
    ensures forall kind | kind in types :: kind in types' && types'[kind] == types[kind]
    ensures forall kind | kind in types' && kind !in types :: IsStandIn(types'[kind], kind, explicit, known, normalize)
    ensures forall n | n in skipped :: n in explicit && n !in known
    ensures forall n | n in skipped :: IsSkippedName(n, known, user, normalize)
    ensures (forall e | e in explicit :: IsUsable(e, known, user, normalize)) ==> ok || server.createFailed
    ensures old(server.createFailed) ==> server.createFailed
    ensures user.consent.Never? ==>
              server.createFailed == old(server.createFailed) && server.providers == old(server.providers)
  {
    types', skipped := types, {};
    for i := 0 to |explicit|
      invariant selection.Valid() && old(server.providers) <= server.providers
      invariant forall n | n in selection.names :: NameExists(server.providers, n) && n in explicit
      invariant forall n | n in known :: NameExists(server.providers, n)
      invariant TypesServed(types', server.providers, skipped)
      invariant forall kind | kind in types :: kind in types' && types'[kind] == types[kind]
      invariant forall j | 0 <= j < i :: Handled(explicit[j], selection.names, known, types', skipped, user, normalize)
      invariant forall kind | kind in types' && kind !in types ::
                  IsStandIn(types'[kind], kind, explicit, known, normalize)
      invariant forall n | n in skipped :: n in explicit && IsSkippedName(n, known, user, normalize)
      invariant old(server.createFailed) ==> server.createFailed
      invariant user.consent.Never? ==>
                  server.createFailed == old(server.createFailed) && server.providers == old(server.providers)
    {
      ghost var before, names, types0, skipped0 := server.providers, selection.names, types', skipped;
      ok, types', skipped := UseExplicit(server, explicit[i], known, types', normalize, user, selection, skipped);
      ServesStays(before, server.providers);
      HandledStays(names, selection.names, known, types0, types', skipped0, skipped, user, normalize);
      forall kind | kind in types' && kind !in types0
        ensures IsStandIn(types'[kind], kind, explicit, known, normalize)
      {
        NewStandIn(explicit, i, kind, names, known, types0, skipped0, user, normalize);
      }
      if !ok {
        return;
      }
    }
    ok := true;
  }

  /** A returned provider of the wanted type, up to case. */
  ghost predicate IsCovered(kind: string, names: seq<string>, providers: seq<Provider>) {
    exists name :: name in names && Serves(providers, name, Lower(kind))
  }

  /** The recorded name of some inferred type. */
  ghost predicate IsRecordedFor(name: string, inferred: seq<string>, types: map<string, string>) {
    exists t :: t in inferred && Lower(t) in types && types[Lower(t)] == name
  }

  /** The name of a provider of some inferred type. */
  ghost predicate ServesInferred(name: string, inferred: seq<string>, providers: seq<Provider>) {
    exists t :: t in inferred && Serves(providers, name, Lower(t))
  }

  /** Adds the recorded name of every inferred type that has one. */
  method AddRecorded(inferred: seq<string>, types: map<string, string>, selection: Selection)
    requires selection.Valid()
    modifies selection
    ensures selection.Valid() && old(selection.names) <= selection.names
    ensures forall t | t in inferred && Lower(t) in types :: types[Lower(t)] in selection.names
    ensures forall n | n in selection.names :: n in old(selection.names) || IsRecordedFor(n, inferred, types)
  {
    for i := 0 to |inferred|
      invariant selection.Valid() && old(selection.names) <= selection.names
      invariant forall j | 0 <= j < i :: Lower(inferred[j]) in types ==> types[Lower(inferred[j])] in selection.names
      invariant forall n | n in selection.names ::
                  n in old(selection.names) || IsRecordedFor(n, inferred, types)
    {
      if Lower(inferred[i]) in types {
        selection.Add(types[Lower(inferred[i])]);
      }
    }
  }

  /** No recorded name covers the type, and it is skipped. */
  ghost predicate NeedsSkip(t: string, types: map<string, string>, user: User) {
    Lower(t) !in types && IsSkipped(user, t, None)
  }

  /** A type that has a recorded name, or can be tried and then is skipped or covered. */
  ghost predicate Settled(t: string, types: map<string, string>, user: User, names: seq<string>,
                          providers: seq<Provider>) {
    Lower(t) in types || (!IsStuck(user, t, None) && (IsSkipped(user, t, None) || IsCovered(t, names, providers)))
  }

  /** No recorded name covers the type, and it cannot be tried. */
  ghost predicate Blocks(t: string, types: map<string, string>, user: User) {
    Lower(t) !in types && IsStuck(user, t, None)
  }

  /** Creates a provider for one type, unless it has one; what was settled and wanted before stays so. */
  method CreateOne(server: Server, t: string, inferred: seq<string>, types: map<string, string>, user: User,
                   selection: Selection) returns (ok: bool, skips: bool)
    requires selection.Valid() && t in inferred
    modifies server`providers, server`createFailed, selection
    ensures selection.Valid() && old(server.providers) <= server.providers && old(selection.names) <= selection.names
    ensures skips ==> ok && NeedsSkip(t, types, user)
    ensures ok && NeedsSkip(t, types, user) ==> skips
    ensures !ok ==> server.createFailed || Blocks(t, types, user)
    ensures old(server.createFailed) ==> server.createFailed
    ensures user.consent.Never? ==>
              ok && server.createFailed == old(server.createFailed) && server.providers == old(server.providers)
    ensures ok ==> Settled(t, types, user, selection.names, server.providers)
    ensures forall u | Settled(u, types, user, old(selection.names), old(server.providers)) ::
              Settled(u, types, user, selection.names, server.providers)
    ensures forall n | n in selection.names ::
              n in old(selection.names) || ServesInferred(n, inferred, server.providers)
    ensures forall n | ServesInferred(n, inferred, old(server.providers)) ::
              ServesInferred(n, inferred, server.providers)
  {
    if Lower(t) in types {
      return true, false;
    }
    ghost var names, providers := selection.names, server.providers;
    var outcome, _, _ := AutoCreateProvider(server, t, None, user, selection);
    CoveredStays(names, selection.names, providers, server.providers);
    if outcome.Made? {
      assert Serves(server.providers, outcome.name, Lower(t));
    }
    ok, skips := !outcome.Failed?, outcome.Skipped?;
  }

  /** The first `i` types are settled, some of them skipped if so said, and only wanted names have been added. */
  ghost predicate Progress(inferred: seq<string>, i: nat, types: map<string, string>, user: User,
                           before: seq<string>, names: seq<string>, providers: seq<Provider>, skippedAny: bool)
    requires i <= |inferred|
  {
    && (forall n | n in names :: n in before || ServesInferred(n, inferred, providers))
    && (forall j | 0 <= j < i :: Settled(inferred[j], types, user, names, providers))
    && (skippedAny <==> exists j | 0 <= j < i :: NeedsSkip(inferred[j], types, user))
  }

  lemma ProgressNext(inferred: seq<string>, i: nat, types: map<string, string>, user: User, before: seq<string>,
                     names: seq<string>, providers: seq<Provider>, skippedAny: bool,
                     names': seq<string>, providers': seq<Provider>, skips: bool)
    requires i < |inferred| && Progress(inferred, i, types, user, before, names, providers, skippedAny)
    requires skips <==> NeedsSkip(inferred[i], types, user)
    requires Settled(inferred[i], types, user, names', providers')
    requires forall u | Settled(u, types, user, names, providers) :: Settled(u, types, user, names', providers')
    requires forall n | n in names' :: n in names || ServesInferred(n, inferred, providers')
    requires forall n | ServesInferred(n, inferred, providers) :: ServesInferred(n, inferred, providers')
    ensures Progress(inferred, i + 1, types, user, before, names', providers', skippedAny || skips)
  {
    if skippedAny {
      var j :| 0 <= j < i && NeedsSkip(inferred[j], types, user);
    }
  }

  lemma ProgressEnds(inferred: seq<string>, types: map<string, string>, user: User, before: seq<string>,
                     names: seq<string>, providers: seq<Provider>, skippedAny: bool)
    requires Progress(inferred, |inferred|, types, user, before, names, providers, skippedAny)
    ensures forall t | t in inferred :: Settled(t, types, user, names, providers)
    ensures skippedAny <==> exists t :: t in inferred && NeedsSkip(t, types, user)
  {
    if t :| t in inferred && NeedsSkip(t, types, user) {
      var j :| 0 <= j < |inferred| && inferred[j] == t;
      assert NeedsSkip(inferred[j], types, user);
    }
  }

  /** Creates a provider for every inferred type that no recorded name covers. */
  method CreateMissing(server: Server, inferred: seq<string>, types: map<string, string>, user: User,
                       selection: Selection) returns (ok: bool, skippedAny: bool)
    requires selection.Valid()
    modifies server`providers, server`createFailed, selection
    ensures selection.Valid() && old(server.providers) <= server.providers && old(selection.names) <= selection.names
    ensures forall n | n in selection.names ::
              n in old(selection.names) || ServesInferred(n, inferred, server.providers)
    ensures ok ==> forall t | t in inferred :: Settled(t, types, user, selection.names, server.providers)
    ensures ok ==> (skippedAny <==> exists t :: t in inferred && NeedsSkip(t, types, user))
    ensures !ok ==> server.createFailed || exists t :: t in inferred && Blocks(t, types, user)
    ensures old(server.createFailed) ==> server.createFailed
    ensures user.consent.Never? ==> ok && server.providers == old(server.providers)
    ensures user.consent.Never? ==> server.createFailed == old(server.createFailed)
  {
    skippedAny := false;
    ghost var before := selection.names;
    for i := 0 to |inferred|
      invariant selection.Valid() && old(server.providers) <= server.providers
      invariant old(selection.names) <= selection.names
      invariant Progress(inferred, i, types, user, before, selection.names, server.providers, skippedAny)
      invariant old(server.createFailed) ==> server.createFailed
      invariant user.consent.Never? ==>
                  server.createFailed == old(server.createFailed) && server.providers == old(server.providers)
    {
      ghost var names, providers := selection.names, server.providers;
      var skips;
      ok, skips := CreateOne(server, inferred[i], inferred, types, user, selection);
      if !ok {
        return;
      }
      ProgressNext(inferred, i, types, user, before, names, providers, skippedAny,
                   selection.names, server.providers, skips);
      skippedAny := skippedAny || skips;
    }
    ProgressEnds(inferred, types, user, before, selection.names, server.providers, skippedAny);
    ok := true;
  }

  lemma CoveredStays(names: seq<string>, more: seq<string>, providers: seq<Provider>, grown: seq<Provider>)
    requires names <= more && providers <= grown
    ensures forall kind | IsCovered(kind, names, providers) :: IsCovered(kind, more, grown)
    ensures forall name, inferred | ServesInferred(name, inferred, providers) :: ServesInferred(name, inferred, grown)
  {
    ServesStays(providers, grown);
    forall kind | IsCovered(kind, names, providers)
      ensures IsCovered(kind, more, grown)
    {
      var name :| name in names && Serves(providers, name, Lower(kind));
      assert name in more;
    }
  }

  /** What a successful call returns. */
  ghost predicate IsSelection(names: seq<string>, explicit: seq<string>, inferred: seq<string>, listed: seq<Provider>,
                              providers: seq<Provider>, skipped: set<string>) {
    && (forall i, j | 0 <= i < j < |names| :: names[i] != names[j])
    && (forall e | e in explicit :: e in names || e in skipped)
    && (forall e | e in explicit && NameExists(listed, e) :: e in names)
    && (forall n | n in names :: IsWanted(n, explicit, inferred, providers, skipped))
  }

  /** The inferred types that have a recorded name are covered by it, unless it was skipped. */
  lemma RecordedCovers(inferred: seq<string>, types: map<string, string>, names: seq<string>, providers: seq<Provider>)
    requires TypesServed(types, providers, {})
    requires forall t | t in inferred && Lower(t) in types :: types[Lower(t)] in names
    ensures forall t | t in inferred && Lower(t) in types :: IsCovered(t, names, providers)
  {
    forall t | t in inferred && Lower(t) in types
      ensures IsCovered(t, names, providers)
    {
      assert Serves(providers, types[Lower(t)], Lower(t));
    }
  }

  /** A chosen name exists or was skipped, and was asked for by name or serves an inferred type. */
  ghost predicate IsWanted(name: string, explicit: seq<string>, inferred: seq<string>, providers: seq<Provider>,
                           skipped: set<string>) {
    && (NameExists(providers, name) || name in skipped)
    && (name in explicit || ServesInferred(name, inferred, providers))
  }

  lemma RecordedAreWanted(explicit: seq<string>, inferred: seq<string>, types: map<string, string>,
                          providers: seq<Provider>, skipped: set<string>)
    requires TypesServed(types, providers, skipped)
    requires forall n | n in skipped :: n in explicit
    ensures forall n | IsRecordedFor(n, inferred, types) :: IsWanted(n, explicit, inferred, providers, skipped)
  {
    forall n | IsRecordedFor(n, inferred, types)
      ensures IsWanted(n, explicit, inferred, providers, skipped)
    {
      var t :| t in inferred && Lower(t) in types && types[Lower(t)] == n;
      assert Serves(providers, n, Lower(t)) || n in skipped;
    }
  }

  lemma WantedStays(explicit: seq<string>, inferred: seq<string>, providers: seq<Provider>, grown: seq<Provider>,
                    skipped: set<string>)
    requires providers <= grown
    ensures forall n | IsWanted(n, explicit, inferred, providers, skipped) ::
              IsWanted(n, explicit, inferred, grown, skipped)
    ensures forall n | ServesInferred(n, inferred, grown) :: IsWanted(n, explicit, inferred, grown, skipped)
  {
    ServesStays(providers, grown);
    CoveredStays([], [], providers, grown);
  }

  /** The pass over the inferred types. */
  method InferredPass(server: Server, explicit: seq<string>, inferred: seq<string>, types: map<string, string>,
                      skipped: set<string>, user: User, selection: Selection)
    returns (ok: bool, skippedAny: bool)
    requires selection.Valid() && TypesServed(types, server.providers, skipped)
    requires forall n | n in skipped :: n in explicit
    requires forall n | n in selection.names :: NameExists(server.providers, n) && n in explicit
    modifies server`providers, server`createFailed, selection
    ensures selection.Valid() && old(server.providers) <= server.providers && old(selection.names) <= selection.names
    ensures forall n | n in selection.names :: IsWanted(n, explicit, inferred, server.providers, skipped)
    ensures forall t | t in inferred && Lower(t) in types :: types[Lower(t)] in selection.names
    ensures forall n | n in selection.names :: NameExists(server.providers, n) || IsRecordedFor(n, inferred, types)
    ensures ok && !skippedAny ==>
              skipped == {} && forall t | t in inferred :: IsCovered(t, selection.names, server.providers)
    ensures ok ==> (skippedAny <==> skipped != {} || exists t :: t in inferred && NeedsSkip(t, types, user))
    ensures ok ==> forall t | t in inferred && Lower(t) !in types :: !IsStuck(user, t, None)
    ensures !ok ==> server.createFailed || exists t :: t in inferred && Lower(t) !in types && IsStuck(user, t, None)
    ensures old(server.createFailed) ==> server.createFailed
    ensures user.consent.Never? ==> ok && server.providers == old(server.providers)
    ensures user.consent.Never? ==> server.createFailed == old(server.createFailed)
  {
    AddRecorded(inferred, types, selection);
    RecordedAreWanted(explicit, inferred, types, server.providers, skipped);
    ghost var chosen, listed := selection.names, server.providers;
    assert forall n | n in chosen :: IsWanted(n, explicit, inferred, listed, skipped);
    ok, skippedAny := CreateMissing(server, inferred, types, user, selection);
    skippedAny := skippedAny || skipped != {};
    WantedStays(explicit, inferred, listed, server.providers, skipped);
    assert forall n | n in chosen :: n in selection.names;
    if ok && skipped == {} {
      ServesStays(listed, server.providers);
      RecordedCovers(inferred, types, selection.names, server.providers);
    }
  }

  // ------------------------------------------------------ names that do not exist

  ghost predicate HasType(listed: seq<Provider>, kind: string) {
    exists p :: p in listed && p.kind != "" && Lower(p.kind) == kind
  }

  ghost function Names(listed: seq<Provider>): set<string> {
    set p | p in listed :: p.name
  }

  /** The first explicit name to stand for `t`, nothing of that type being listed, is not among `providers`. */
  ghost predicate StandInIsMissing(t: string, explicit: seq<string>, listed: seq<Provider>, providers: seq<Provider>,
                                   normalize: string -> Option<string>) {
    && !HasType(listed, Lower(t))
    && exists e :: IsStandIn(e, Lower(t), explicit, Names(listed), normalize) && !NameExists(providers, e)
  }

  /** Some explicit name stands for `t`, and nothing of that type is listed. */
  ghost predicate HasStandIn(t: string, explicit: seq<string>, listed: seq<Provider>,
                             normalize: string -> Option<string>) {
    && !HasType(listed, Lower(t))
    && exists e :: e in explicit && StandsFor(e, Lower(t), Names(listed), normalize)
  }

  /** Every explicit name is listed or the name of a type. */
  ghost predicate NamesOrTypes(explicit: seq<string>, listed: seq<Provider>, normalize: string -> Option<string>) {
    forall e | e in explicit && !NameExists(listed, e) :: normalize(e).Some?
  }

  lemma KnownAreNames(known: set<string>, listed: seq<Provider>)
    requires RecordsNames(known, listed)
    ensures known == Names(listed)
  {
    assert forall name :: name in Names(listed) <==> NameExists(listed, name);
  }

  lemma RecordedHasType(types: map<string, string>, listed: seq<Provider>)
    requires RecordsTypes(types, listed)
    ensures forall kind :: kind in types <==> HasType(listed, kind)
    ensures TypesServed(types, listed, {})
  {
    forall kind | kind in types
      ensures HasType(listed, kind) && Serves(listed, types[kind], kind)
    {
      var i :| 0 <= i < |listed| && FirstAt(listed, types[kind], kind, i);
      assert listed[i] in listed;
    }
  }

  /** What the two passes leave: names that exist or are recorded, and the recorded ones all chosen. */
  ghost predicate IsChoice(names: seq<string>, inferred: seq<string>, types: map<string, string>,
                           providers: seq<Provider>) {
    && (forall n | n in names :: NameExists(providers, n) || IsRecordedFor(n, inferred, types))
    && (forall t | t in inferred && Lower(t) in types :: types[Lower(t)] in names)
  }

  /** The types are those listed, and those of the explicit names that stand for one. */
  ghost predicate TypesExtend(types: map<string, string>, recorded: map<string, string>, explicit: seq<string>,
                              known: set<string>, normalize: string -> Option<string>) {
    && (forall kind | kind in recorded :: kind in types && types[kind] == recorded[kind])
    && (forall kind | kind in types && kind !in recorded ::
          IsStandIn(types[kind], kind, explicit, known, normalize))
    && (forall e | e in explicit && e !in known :: normalize(e).Some? && Lower(normalize(e).value) in types)
  }

  /** A chosen name does not exist exactly when the stand-in of some inferred type does not. */
  lemma MissingNames(names: seq<string>, explicit: seq<string>, inferred: seq<string>, listed: seq<Provider>,
                     providers: seq<Provider>, recorded: map<string, string>, types: map<string, string>,
                     normalize: string -> Option<string>)
    requires RecordsTypes(recorded, listed) && listed <= providers
    requires TypesExtend(types, recorded, explicit, Names(listed), normalize)
    requires IsChoice(names, inferred, types, providers)
    ensures (exists n :: n in names && !NameExists(providers, n)) <==>
            exists t :: t in inferred && StandInIsMissing(t, explicit, listed, providers, normalize)
  {
    RecordedHasType(recorded, listed);
    ServesStays(listed, providers);
    if n :| n in names && !NameExists(providers, n) {
      var t :| t in inferred && Lower(t) in types && types[Lower(t)] == n;
      assert Lower(t) in recorded ==> Serves(providers, n, Lower(t));
      assert StandInIsMissing(t, explicit, listed, providers, normalize);
    }
    if t :| t in inferred && StandInIsMissing(t, explicit, listed, providers, normalize) {
      var e :| IsStandIn(e, Lower(t), explicit, Names(listed), normalize) && !NameExists(providers, e);
      StandInIsUnique(e, e, Lower(t), explicit, Names(listed), normalize);
      StandInIsUnique(e, types[Lower(t)], Lower(t), explicit, Names(listed), normalize);
    }
  }

  /** When nothing has been created, a stand-in is always missing. */
  lemma StandInsAreMissing(explicit: seq<string>, listed: seq<Provider>,
                           normalize: string -> Option<string>)
    ensures forall t :: StandInIsMissing(t, explicit, listed, listed, normalize) <==>
              HasStandIn(t, explicit, listed, normalize)
  {
    forall t
      ensures StandInIsMissing(t, explicit, listed, listed, normalize) <==> HasStandIn(t, explicit, listed, normalize)
    {
      if HasStandIn(t, explicit, listed, normalize) {
        var i :| 0 <= i < |explicit| && StandsFor(explicit[i], Lower(t), Names(listed), normalize);
        var e := StandInExists(explicit, i, Lower(t), Names(listed), normalize);
        StandInIsUnique(e, e, Lower(t), explicit, Names(listed), normalize);
      }
      if StandInIsMissing(t, explicit, listed, listed, normalize) {
        var e :| IsStandIn(e, Lower(t), explicit, Names(listed), normalize);
        StandInIsUnique(e, e, Lower(t), explicit, Names(listed), normalize);
      }
    }
  }

  /** No listed provider and no explicit name stands for the type, so one has to be created. */
  ghost predicate NeedsCreating(t: string, explicit: seq<string>, listed: seq<Provider>,
                                normalize: string -> Option<string>) {
    && !HasType(listed, Lower(t))
    && forall e | e in explicit :: !StandsFor(e, Lower(t), Names(listed), normalize)
  }

  lemma NeededTypes(explicit: seq<string>, listed: seq<Provider>, recorded: map<string, string>,
                    types: map<string, string>, normalize: string -> Option<string>)
    requires RecordsTypes(recorded, listed) && TypesExtend(types, recorded, explicit, Names(listed), normalize)
    ensures forall t :: Lower(t) !in types <==> NeedsCreating(t, explicit, listed, normalize)
  {
    RecordedHasType(recorded, listed);
    forall t
      ensures Lower(t) !in types <==> NeedsCreating(t, explicit, listed, normalize)
    {
      if Lower(t) in types && Lower(t) !in recorded {
        var e := types[Lower(t)];
        StandInIsUnique(e, e, Lower(t), explicit, Names(listed), normalize);
      }
    }
  }

  /** Everything that is asked for and not there can be tried. */
  ghost predicate CanTry(explicit: seq<string>, inferred: seq<string>, listed: seq<Provider>, user: User,
                         normalize: string -> Option<string>) {
    && (forall e | e in explicit :: IsUsable(e, Names(listed), user, normalize))
    && (forall t | t in inferred && NeedsCreating(t, explicit, listed, normalize) :: !IsStuck(user, t, None))
  }

  /** What is left out of a successful call: the explicit names and the types that are skipped. */
  ghost predicate Skips(explicit: seq<string>, inferred: seq<string>, listed: seq<Provider>, user: User,
                        normalize: string -> Option<string>, skipped: set<string>, skippedAny: bool) {
    && (forall n | n in skipped :: n in explicit)
    && (forall e | e in explicit :: e in skipped <==> IsSkippedName(e, Names(listed), user, normalize))
    && (skippedAny <==> (skipped != {} || exists t :: t in inferred && NeedsCreating(t, explicit, listed, normalize)
                                                    && IsSkipped(user, t, None)))
  }

  /** Both kinds of request, given what the server listed. */
  method SelectProviders(server: Server, explicit: seq<string>, inferred: seq<string>, known: set<string>,
                         recorded: map<string, string>, normalize: string -> Option<string>, user: User)
    returns (ok: bool, names: seq<string>, skipped: set<string>, skippedAny: bool)
    requires RecordsTypes(recorded, server.providers) && RecordsNames(known, server.providers)
    modifies server`providers, server`createFailed
    ensures old(server.providers) <= server.providers
    ensures ok ==> IsSelection(names, explicit, inferred, old(server.providers), server.providers, skipped)
    ensures ok && !skippedAny ==> skipped == {} && forall t | t in inferred :: IsCovered(t, names, server.providers)
    ensures ok ==> Skips(explicit, inferred, old(server.providers), user, normalize, skipped, skippedAny)
    ensures ok ==> CanTry(explicit, inferred, old(server.providers), user, normalize)
    ensures CanTry(explicit, inferred, old(server.providers), user, normalize) ==> ok || server.createFailed
    ensures user.consent.Never? ==>
              server.createFailed == old(server.createFailed) && server.providers == old(server.providers)
    ensures ok ==>
              ((exists n :: n in names && !NameExists(server.providers, n)) <==>
               exists t :: t in inferred &&
                 StandInIsMissing(t, explicit, old(server.providers), server.providers, normalize))
  {
    names, skippedAny := [], false;
    ghost var listed := server.providers;
    KnownAreNames(known, listed);
    var selection := new Selection();
    RecordedHasType(recorded, listed);
    var types;
    ok, types, skipped := ExplicitPass(server, explicit, known, recorded, normalize, user, selection);
    if !ok {
      return;
    }
    NeededTypes(explicit, listed, recorded, types, normalize);
    ghost var chosen := selection.names;
    ok, skippedAny := InferredPass(server, explicit, inferred, types, skipped, user, selection);
    names := selection.names;
    assert forall n | n in chosen :: n in names;
    if ok {
      MissingNames(names, explicit, inferred, listed, server.providers, recorded, types, normalize);
    }
  }

  /**
   `skipped` are the explicit names whose creation was skipped, `skippedAny` tells whether any
   creation was. Names are never repeated, every explicit name is returned unless it was skipped, a
   returned name exists unless it was skipped, and nothing is returned that was not asked for.
   */
  method EnsureRequiredProviders(server: Server, explicit: seq<string>, inferred: seq<string>,
                                 normalize: string -> Option<string>, user: User)
    returns (ok: bool, names: seq<string>, skipped: set<string>, skippedAny: bool)
    requires |server.providers| < U32_MAX + LIMIT
    modifies server
    ensures old(server.providers) <= server.providers
    ensures ok ==> IsSelection(names, explicit, inferred, old(server.providers), server.providers, skipped)
    ensures ok && !skippedAny ==> skipped == {} && forall t | t in inferred :: IsCovered(t, names, server.providers)
    // what is skipped is exactly what the user does not want or has nothing for
    ensures ok ==> Skips(explicit, inferred, old(server.providers), user, normalize, skipped, skippedAny)
    // the call succeeds exactly when listing works and all that is missing can be tried, unless a creation fails
    ensures ok ==> !server.listFailed && CanTry(explicit, inferred, old(server.providers), user, normalize)
    ensures !server.listFailed && CanTry(explicit, inferred, old(server.providers), user, normalize) ==>
              ok || server.createFailed
    // with creation switched off nothing is created, so it fails exactly for a name neither listed nor a type
    ensures user.consent.Never? ==> server.providers == old(server.providers)
    ensures user.consent.Never? ==>
              (ok <==> !server.listFailed && NamesOrTypes(explicit, server.providers, normalize))
    // with creation switched on and credentials for all, nothing is skipped and every explicit name is returned
    ensures IsGenerous(user) && !server.listFailed && !server.createFailed &&
            NamesOrTypes(explicit, old(server.providers), normalize) ==>
              ok && !skippedAny && forall e | e in explicit :: e in names
    // a name that does not exist is returned exactly when one stands in for a type and was not created
    ensures ok ==>
              ((exists n :: n in names && !NameExists(server.providers, n)) <==>
               exists t :: t in inferred &&
                 StandInIsMissing(t, explicit, old(server.providers), server.providers, normalize))
    // so, if nothing was created at all, exactly when one stands in for a type of which nothing is listed
    ensures ok && server.providers == old(server.providers) ==>
              ((exists n :: n in names && !NameExists(server.providers, n)) <==>
               exists t :: t in inferred && HasStandIn(t, explicit, server.providers, normalize))
  {
    names, skipped, skippedAny := [], {}, false;
    server.listFailed, server.createFailed := false, false;
    WhatCanBeTried(explicit, inferred, server.providers, user, normalize);
    if explicit == [] && inferred == [] {
      return true, [], {}, false;
    }
    var known, types;
    ok, known, types := FetchAll(server);
    if !ok {
      return;
    }
    StandInsAreMissing(explicit, server.providers, normalize);
    ok, names, skipped, skippedAny := SelectProviders(server, explicit, inferred, known, types, normalize, user);
  }

  /** Creation is switched on and there are local credentials for every type. */
  ghost predicate IsGenerous(user: User) {
    user.consent.Always? && forall kind :: user.finds(kind) == Some(true)
  }

  lemma WhatCanBeTried(explicit: seq<string>, inferred: seq<string>, listed: seq<Provider>, user: User,
                       normalize: string -> Option<string>)
    ensures user.consent.Never? || IsGenerous(user) ==>
              (CanTry(explicit, inferred, listed, user, normalize) <==> NamesOrTypes(explicit, listed, normalize))
    ensures IsGenerous(user) ==> forall kind, name :: !IsSkipped(user, kind, name)
  {
    assert forall name :: name in Names(listed) <==> NameExists(listed, name);
  }

  lemma OnlyName(names: seq<string>, name: string)
    requires names != [] && forall m | m in names :: m in [name]
    requires forall i, j | 0 <= i < j < |names| :: names[i] != names[j]
    ensures names == [name]
  {
    assert |names| > 1 ==> names[0] != names[1];
    forall i | 0 <= i < |names|
      ensures names[i] == name
    {
      assert names[i] in names;
    }
  }

  /** With creation switched off and nothing on the server, asking for `name` twice returns it all the same. */
  method SkippedNameIsReturned(name: string, user: User) returns (server: Server, ok: bool, names: seq<string>)
    requires user.consent.Never?
    ensures !NameExists(server.providers, name)
    ensures ok <==> !server.listFailed
    ensures ok ==> names == [name]
  {
    server := new Server([]);
    var skipped, skippedAny;
    var normalize := (s: string) => Some(s);
    ok, names, skipped, skippedAny := EnsureRequiredProviders(server, [name], [name], normalize, user);
    assert !NameExists(server.providers, name);
    if ok {
      assert name in [name];
      assert StandsFor(name, Lower(name), Names(server.providers), normalize);
      assert HasStandIn(name, [name], server.providers, normalize);
      ghost var n :| n in names && !NameExists(server.providers, n);
      assert forall m | m in names :: m in [name] by {
        assert forall m, t :: !Serves(server.providers, m, t);
      }
      OnlyName(names, name);
    }
  }
}
