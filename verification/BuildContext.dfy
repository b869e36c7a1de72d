/**
 The build-context walk (`walk_and_add` and `create_build_context_tar` in
 crates/clustershell-bootstrap/src/build.rs) over a finite directory tree.
 */
module BuildContext {
  import opened DockerIgnore
  import opened RelativePaths
  import opened Text

  /**
   A directory entry. `readable` is false when listing, opening or reading it fails, `storable` when
   the archive refuses its path or its contents.
   */
  datatype Node =
    | File(name: string, data: string, readable: bool, storable: bool)
    | Dir(name: string, children: seq<Node>, readable: bool)

  /** One archive member. */
  datatype Entry = Entry(path: string, data: string)

  class TarBuilder {
    var entries: seq<Entry>

    constructor ()
      ensures entries == []
    {
      entries := [];
    }
  }

  function Normalize(s: string): string {
    seq(|s|, i requires 0 <= i < |s| => if s[i] == '\\' then '/' else s[i])
  }

  /** The path below the root, as it is matched and as it is stored. */
  function RelativePath(at: seq<string>): string {
    if at == [] then "" else Normalize(Join(at))
  }

  // ------------------------------------------------- what the walk visits, in order

  /** Which paths are left out, given the names that lead to them and whether they are directories. */
  type Filter = (seq<string>, bool) -> bool

  ghost function DroppedBy(rules: seq<IgnorePattern>): Filter {
    (at, isDir) => Ignored(RelativePath(at), isDir, rules)
  }

  /** A file the walk reaches: the names that lead to it, and its contents. */
  datatype Found = Found(at: seq<string>, data: string)

  ghost function CollectOne(node: Node, prefix: seq<string>, drop: Filter): seq<Found>
    decreases node
  {
    var at := prefix + [node.name];
    if drop(at, node.Dir?) then []
    else if node.Dir? then Collect(node.children, at, drop)
    else [Found(at, node.data)]
  }

  ghost function Collect(children: seq<Node>, prefix: seq<string>, drop: Filter): seq<Found>
    decreases children
  {
    if children == [] then []
    else
      var n := |children| - 1;
      Collect(children[..n], prefix, drop) + CollectOne(children[n], prefix, drop)
  }

  /** Every entry the walk comes to can be read, and every file stored. */
  ghost predicate AddableOne(node: Node, prefix: seq<string>, drop: Filter)
    decreases node
  {
    var at := prefix + [node.name];
    drop(at, node.Dir?) || (node.readable && if node.Dir? then Addable(node.children, at, drop) else node.storable)
  }

  ghost predicate Addable(children: seq<Node>, prefix: seq<string>, drop: Filter)
    decreases children
  {
    children == [] || (AddableOne(children[0], prefix, drop) && Addable(children[1..], prefix, drop))
  }

  ghost function Entries(found: seq<Found>): seq<Entry> {
    seq(|found|, i requires 0 <= i < |found| => Entry(RelativePath(found[i].at), found[i].data))
  }

  /** Handling one more entry of a listing appends what that entry contributes. */
  lemma CollectNext(children: seq<Node>, i: nat, prefix: seq<string>, drop: Filter)
    requires i < |children|
    ensures Entries(Collect(children[..i + 1], prefix, drop)) ==
            Entries(Collect(children[..i], prefix, drop)) + Entries(CollectOne(children[i], prefix, drop))
  {
    assert children[..i + 1][..i] == children[..i];
  }

  // ----------------------------------------------------------------- the walk itself

  /** Appends the files below `dir` to the archive; false when some entry cannot be read or stored. */
  method WalkAndAdd(dir: Node, prefix: seq<string>, rules: seq<IgnorePattern>, builder: TarBuilder) returns (ok: bool)
    requires dir.Dir?
    modifies builder
    ensures ok <==> dir.readable && Addable(dir.children, prefix, DroppedBy(rules))
    ensures ok ==> builder.entries == old(builder.entries) + Entries(Collect(dir.children, prefix, DroppedBy(rules)))
    decreases dir, 1
  {
    if !dir.readable {
      return false;
    }
    var children := dir.children;
    ghost var drop, start, added := DroppedBy(rules), builder.entries, [];
    assert children[0..] == children && children[..0] == [];
    ok := true;
    for i := 0 to |children|
      invariant ok
      invariant Addable(children[i..], prefix, drop) == Addable(children, prefix, drop)
      invariant added == Entries(Collect(children[..i], prefix, drop))
      invariant builder.entries == start + added
    {
      CollectNext(children, i, prefix, drop);
      assert children[i..][1..] == children[i + 1..];
      ok := AddEntry(children[i], prefix, rules, builder);
      if !ok {
        return;
      }
      ghost var one := Entries(CollectOne(children[i], prefix, drop));
      assert start + added + one == start + (added + one);
      added := added + one;
    }
    assert children[..|children|] == children;
  }

  /** The body of the walk's loop: skip, descend, or append. */
  method AddEntry(node: Node, prefix: seq<string>, rules: seq<IgnorePattern>, builder: TarBuilder) returns (ok: bool)
    modifies builder
    ensures ok <==> AddableOne(node, prefix, DroppedBy(rules))
    ensures ok ==> builder.entries == old(builder.entries) + Entries(CollectOne(node, prefix, DroppedBy(rules)))
    decreases node, 2
  {
    var at := prefix + [node.name];
    var isIgnored := IsIgnored(RelativePath(at), node.Dir?, rules);
    assert isIgnored == DroppedBy(rules)(at, node.Dir?);
    if isIgnored {
      ok := true;
    } else if node.Dir? {
      ok := WalkAndAdd(node, at, rules, builder);
    } else if node.readable && node.storable {
      builder.entries := builder.entries + [Entry(RelativePath(at), node.data)];
      ok := true;
    } else {
      ok := false;
    }
  }

  method CreateBuildContextTar(root: Node, rules: seq<IgnorePattern>) returns (ok: bool, archive: seq<Entry>)
    requires root.Dir?
    ensures ok <==> root.readable && Addable(root.children, [], DroppedBy(rules))
    ensures ok ==> archive == Entries(Collect(root.children, [], DroppedBy(rules)))
    ensures ok ==> forall entry :: entry in archive <==> IsEntryOfKeptFile(root, rules, entry)
  {
    var builder := new TarBuilder();
    ok := WalkAndAdd(root, [], rules, builder);
    archive := builder.entries;
    forall entry
      ensures entry in Entries(Collect(root.children, [], DroppedBy(rules))) <==>
              IsEntryOfKeptFile(root, rules, entry)
    {
      ArchiveMeaning(root, rules, entry);
    }
  }

  // -------------------------------------------------- which files belong in the archive

  /** Looking names up one by one from a directory listing ends at a file holding `data`. */
  ghost predicate FileAt(children: seq<Node>, names: seq<string>, data: string)
    decreases |names|
  {
    && names != []
    && exists i | 0 <= i < |children| :: LeadsTo(children[i], names, data)
  }

  ghost predicate LeadsTo(node: Node, names: seq<string>, data: string)
    requires names != []
    decreases |names|, 0
  {
    && node.name == names[0]
    && (if |names| == 1 then node.File? && node.data == data
        else node.Dir? && FileAt(node.children, names[1..], data))
  }

  /** Neither the file nor any directory on the way to it below `prefix` is left out. */
  ghost predicate Kept(prefix: seq<string>, names: seq<string>, drop: Filter) {
    forall k | 1 <= k <= |names| :: !drop(prefix + names[..k], k < |names|)
  }

  /** A directory listing: names without slashes, no name twice, at every level. */
  ghost predicate WellFormed(children: seq<Node>)
    decreases children
  {
    && (forall i | 0 <= i < |children| :: IsName(children[i].name))
    && (forall i, j | 0 <= i < j < |children| :: children[i].name != children[j].name)
    && (forall i | 0 <= i < |children| :: children[i].Dir? ==> WellFormed(children[i].children))
  }

  lemma KeptUnfold(prefix: seq<string>, names: seq<string>, drop: Filter)
    requires names != []
    ensures Kept(prefix, names, drop) <==>
            !drop(prefix + [names[0]], 1 < |names|) && Kept(prefix + [names[0]], names[1..], drop)
  {
    var inner, rest := prefix + [names[0]], names[1..];
    assert prefix + names[..1] == inner;
    if Kept(prefix, names, drop) {
      forall k | 1 <= k <= |rest|
        ensures !drop(inner + rest[..k], k < |rest|)
      {
        assert prefix + names[..k + 1] == inner + rest[..k];
      }
    }
    if !drop(inner, 1 < |names|) && Kept(inner, rest, drop) {
      forall k | 1 <= k <= |names|
        ensures !drop(prefix + names[..k], k < |names|)
      {
        if k > 1 {
          assert names[..k] == [names[0]] + rest[..k - 1];
          assert prefix + names[..k] == inner + rest[..k - 1];
        }
      }
    }
  }

  /** Everything below a listing goes through one of its names. */
  ghost predicate Through(found: seq<Found>, prefix: seq<string>, name: string) {
    forall x | x in found :: prefix < x.at && x.at[|prefix|] == name
  }

  lemma {:induction false} OneGoesThroughItsName(node: Node, prefix: seq<string>, drop: Filter)
    ensures Through(CollectOne(node, prefix, drop), prefix, node.name)
    decreases node
  {
    var at := prefix + [node.name];
    if node.Dir? {
      CollectStaysBelow(node.children, at, drop);
    }
    forall x | x in CollectOne(node, prefix, drop)
      ensures prefix < x.at && x.at[|prefix|] == node.name
    {
      assert at <= x.at;
      assert x.at[..|prefix|] == at[..|prefix|] == prefix;
    }
  }

  lemma {:induction false} CollectStaysBelow(children: seq<Node>, prefix: seq<string>, drop: Filter)
    ensures forall x | x in Collect(children, prefix, drop) ::
              prefix < x.at && exists j | 0 <= j < |children| :: children[j].name == x.at[|prefix|]
    decreases children
  {
    if children == [] {
    } else {
      var n := |children| - 1;
      CollectStaysBelow(children[..n], prefix, drop);
      OneGoesThroughItsName(children[n], prefix, drop);
      forall x | x in Collect(children, prefix, drop)
        ensures prefix < x.at && exists j | 0 <= j < |children| :: children[j].name == x.at[|prefix|]
      {
        if x in CollectOne(children[n], prefix, drop) {
          assert children[n].name == x.at[|prefix|];
        } else {
          var j :| 0 <= j < n && children[..n][j].name == x.at[|prefix|];
          assert children[j].name == x.at[|prefix|];
        }
      }
    }
  }

  /**
   The archive holds a file precisely when it is in the tree and neither it nor any
   directory above it, below the root, is left out.
   */
  lemma {:induction false} CollectExact(children: seq<Node>, prefix: seq<string>, drop: Filter,
                                        names: seq<string>, data: string)
    requires names != []
    ensures Found(prefix + names, data) in Collect(children, prefix, drop) <==>
            FileAt(children, names, data) && Kept(prefix, names, drop)
    decreases children
  {
    if children == [] {
    } else {
      var n := |children| - 1;
      var front, last := children[..n], children[n];
      CollectExact(front, prefix, drop, names, data);
      OneExact(last, prefix, drop, names, data);
      if i :| 0 <= i < n && LeadsTo(children[i], names, data) {
        assert front[i] == children[i];
      }
      if i :| 0 <= i < |front| && LeadsTo(front[i], names, data) {
        assert front[i] == children[i];
      }
    }
  }

  lemma {:induction false} OneExact(node: Node, prefix: seq<string>, drop: Filter, names: seq<string>, data: string)
    requires names != []
    ensures Found(prefix + names, data) in CollectOne(node, prefix, drop) <==>
            LeadsTo(node, names, data) && Kept(prefix, names, drop)
    decreases node
  {
    var rest := names[1..];
    KeptUnfold(prefix, names, drop);
    OneGoesThroughItsName(node, prefix, drop);
    assert (prefix + names)[|prefix|] == names[0];
    if node.name == names[0] {
      var at := prefix + [node.name];
      assert at + rest == prefix + names;
      if node.Dir? {
        if rest == [] {
          CollectStaysBelow(node.children, at, drop);
        } else {
          CollectExact(node.children, at, drop, rest, data);
        }
      } else if rest == [] {
        assert prefix + names == at;
      } else {
        assert |prefix + names| > |at|;
      }
    }
  }

  /** Without backslashes, the archive path is just the names with slashes between them. */
  lemma PlainPath(names: seq<string>)
    requires names != [] && NoBackslash(names)
    ensures RelativePath(names) == Join(names)
  {
    JoinHasNoBackslash(names);
    assert Normalize(Join(names)) == Join(names);
  }

  /** A file of the tree that neither it nor a directory above it drops, and the entry it has in the archive. */
  ghost predicate IsKeptFile(root: Node, rules: seq<IgnorePattern>, names: seq<string>, data: string)
    requires root.Dir?
  {
    FileAt(root.children, names, data) && Kept([], names, DroppedBy(rules))
  }

  ghost predicate IsEntryOfKeptFile(root: Node, rules: seq<IgnorePattern>, entry: Entry)
    requires root.Dir?
  {
    exists names :: IsKeptFile(root, rules, names, entry.data) && entry.path == RelativePath(names)
  }

  /** The walk finds exactly the kept files. */
  lemma FoundMeaning(root: Node, rules: seq<IgnorePattern>, names: seq<string>, data: string)
    requires root.Dir?
    ensures Found(names, data) in Collect(root.children, [], DroppedBy(rules)) <==>
            IsKeptFile(root, rules, names, data)
  {
    if names == [] {
      CollectStaysBelow(root.children, [], DroppedBy(rules));
    } else {
      CollectExact(root.children, [], DroppedBy(rules), names, data);
      assert [] + names == names;
    }
  }

  lemma EntriesMeaning(found: seq<Found>, entry: Entry)
    ensures entry in Entries(found) <==>
            exists names :: Found(names, entry.data) in found && entry.path == RelativePath(names)
  {
    var entries := Entries(found);
    if i :| 0 <= i < |entries| && entries[i] == entry {
      assert Found(found[i].at, entry.data) == found[i];
    }
    if names :| Found(names, entry.data) in found && entry.path == RelativePath(names) {
      var i :| 0 <= i < |found| && found[i] == Found(names, entry.data);
      assert entries[i] == entry;
    }
  }

  /** The archive of a context: an entry, with its path and its data, for every kept file and for nothing else. */
  lemma ArchiveMeaning(root: Node, rules: seq<IgnorePattern>, entry: Entry)
    requires root.Dir?
    ensures entry in Entries(Collect(root.children, [], DroppedBy(rules))) <==>
            IsEntryOfKeptFile(root, rules, entry)
  {
    EntriesMeaning(Collect(root.children, [], DroppedBy(rules)), entry);
    forall names
      ensures Found(names, entry.data) in Collect(root.children, [], DroppedBy(rules)) <==>
              IsKeptFile(root, rules, names, entry.data)
    {
      FoundMeaning(root, rules, names, entry.data);
    }
  }

  /** Hence a negated rule cannot bring back a file below an ignored directory. */
  lemma NegationDoesNotReachBelow(children: seq<Node>, rules: seq<IgnorePattern>,
                                  names: seq<string>, data: string, k: nat)
    requires 1 <= k < |names| && Ignored(RelativePath(names[..k]), true, rules)
    ensures Found(names, data) !in Collect(children, [], DroppedBy(rules))
  {
    CollectExact(children, [], DroppedBy(rules), names, data);
    assert [] + names == names && [] + names[..k] == names[..k];
  }

  /** No file is archived twice. */
  lemma {:induction false} CollectDistinct(children: seq<Node>, prefix: seq<string>, drop: Filter)
    requires WellFormed(children)
    ensures Distinct(Collect(children, prefix, drop))
    decreases children
  {
    if children == [] {
    } else {
      var n := |children| - 1;
      var front, last := children[..n], children[n];
      CollectDistinct(front, prefix, drop);
      if last.Dir? {
        CollectDistinct(last.children, prefix + [last.name], drop);
      }
      CollectStaysBelow(front, prefix, drop);
      OneGoesThroughItsName(last, prefix, drop);
      var a, b := Collect(front, prefix, drop), CollectOne(last, prefix, drop);
      forall i, j | 0 <= i < |a| && 0 <= j < |b|
        ensures a[i].at != b[j].at
      {
        assert a[i] in a && b[j] in b;
        var k :| 0 <= k < |front| && front[k].name == a[i].at[|prefix|];
        assert children[k].name != children[n].name;
      }
    }
  }

  ghost predicate Distinct(found: seq<Found>) {
    forall i, j | 0 <= i < j < |found| :: found[i].at != found[j].at
  }

  ghost predicate NoBackslash(names: seq<string>) {
    forall i | 0 <= i < |names| :: '\\' !in names[i]
  }

  /** Without backslashes in file names, different files get different archive paths. */
  lemma ArchivePathsDistinct(a: seq<string>, b: seq<string>)
    requires a != [] && b != [] && AreNames(a) && AreNames(b) && NoBackslash(a) && NoBackslash(b)
    requires RelativePath(a) == RelativePath(b)
    ensures a == b
  {
    JoinHasNoBackslash(a);
    JoinHasNoBackslash(b);
    assert Normalize(Join(a)) == Join(a) && Normalize(Join(b)) == Join(b);
    JoinInjective(a, b);
  }

  lemma {:induction false} JoinHasNoBackslash(names: seq<string>)
    requires names != [] && NoBackslash(names)
    ensures '\\' !in Join(names)
  {
    if |names| > 1 {
      JoinHasNoBackslash(names[1..]);
    }
  }

  /** The archive path of `a`, read as names between slashes: no backslash is left in them. */
  lemma PathNames(a: seq<string>)
    requires a != []
    ensures var b := Split(RelativePath(a));
            AreNames(b) && NoBackslash(b) && RelativePath(b) == RelativePath(a)
  {
    var path := RelativePath(a);
    var b := Split(path);
    assert '\\' !in path;
    JoinSplit(path);
    SplitKeepsCharacters(path, '/');
    assert Normalize(path) == path;
  }

  ghost function Backslashed(s: string): string {
    seq(|s|, i requires 0 <= i < |s| => if s[i] == '/' then '\\' else s[i])
  }

  lemma SlashBetween(names: seq<string>)
    requires names != []
    ensures |names| > 1 ==> '/' in Join(names)
  {
    if |names| > 1 {
      assert Join(names)[|names[0]|] == '/';
    }
  }

  /** A path without slashes and backslashes is that of one name only. */
  lemma OnlyNameOfPath(b: seq<string>, name: string)
    requires b != [] && IsName(name) && '\\' !in name && RelativePath(b) == Normalize(name)
    ensures b == [name]
  {
    var joined := Join(b);
    SlashBetween(b);
    assert forall i | 0 <= i < |joined| :: Normalize(joined)[i] == Normalize(name)[i] == name[i];
    assert joined == name;
  }

  /** With one, two different files can collide under the same archive path. */
  lemma BackslashCollides()
    ensures ["a\\b"] != ["a", "b"] && RelativePath(["a\\b"]) == RelativePath(["a", "b"])
  {
    assert Join(["a", "b"]) == "a/b";
  }

  // --------------------------------------------------- names that are not valid Unicode

  /** A file name as the system keeps it: characters, and stretches of bytes that encode none. */
  datatype Piece = Character(c: char) | Bytes(number: nat)

  const REPLACEMENT := '\U{FFFD}'

  function LossyPiece(p: Piece): char {
    match p
    case Character(c) => c
    case Bytes(_) => REPLACEMENT
  }

  /** `to_string_lossy` */
  function Lossy(name: seq<Piece>): string {
    seq(|name|, i requires 0 <= i < |name| => LossyPiece(name[i]))
  }

  function LossyNames(at: seq<seq<Piece>>): seq<string> {
    seq(|at|, i requires 0 <= i < |at| => Lossy(at[i]))
  }

  function ArchivePath(at: seq<seq<Piece>>): string {
    RelativePath(LossyNames(at))
  }

  ghost predicate AreFileNames(at: seq<seq<Piece>>) {
    at != [] && forall i, j | 0 <= i < |at| && 0 <= j < |at[i]| :: at[i][j] != Character('/')
  }

  ghost predicate HasNoBackslash(at: seq<seq<Piece>>) {
    forall i, j | 0 <= i < |at| && 0 <= j < |at[i]| :: at[i][j] != Character('\\')
  }

  /** Valid Unicode without the replacement character, which is what everything else turns into. */
  ghost predicate IsFaithful(at: seq<seq<Piece>>) {
    forall i, j | 0 <= i < |at| && 0 <= j < |at[i]| :: at[i][j].Character? && at[i][j].c != REPLACEMENT
  }

  lemma LossyNamesKeep(at: seq<seq<Piece>>)
    requires AreFileNames(at)
    ensures LossyNames(at) != [] && AreNames(LossyNames(at))
    ensures HasNoBackslash(at) <==> NoBackslash(LossyNames(at))
  {
    var names := LossyNames(at);
    assert forall i | 0 <= i < |at| :: names[i] == Lossy(at[i]);
    if !HasNoBackslash(at) {
      var i, j :| 0 <= i < |at| && 0 <= j < |at[i]| && at[i][j] == Character('\\');
      assert names[i][j] == '\\';
    }
  }

  /** The names of characters only that a text gives. */
  ghost function Raw(names: seq<string>): seq<seq<Piece>> {
    seq(|names|, i requires 0 <= i < |names| =>
      seq(|names[i]|, j requires 0 <= j < |names[i]| => Character(names[i][j])))
  }

  lemma RawNames(names: seq<string>)
    requires names != [] && AreNames(names)
    ensures AreFileNames(Raw(names)) && LossyNames(Raw(names)) == names
    ensures NoBackslash(names) ==> HasNoBackslash(Raw(names))
  {
    var raw := Raw(names);
    forall i | 0 <= i < |names|
      ensures Lossy(raw[i]) == names[i]
    {}
  }

  /** A faithful name is the only one with its text. */
  lemma FaithfulIsOnly(a: seq<seq<Piece>>, b: seq<seq<Piece>>)
    requires IsFaithful(a) && LossyNames(a) == LossyNames(b)
    ensures a == b
  {
    forall i | 0 <= i < |a|
      ensures a[i] == b[i]
    {
      assert Lossy(a[i]) == LossyNames(a)[i] == LossyNames(b)[i] == Lossy(b[i]);
      forall j | 0 <= j < |a[i]|
        ensures a[i][j] == b[i][j]
      {
        assert Lossy(a[i])[j] == Lossy(b[i])[j];
      }
    }
  }

  /** Any other one has a twin of the same text. */
  lemma UnfaithfulHasTwin(a: seq<seq<Piece>>) returns (b: seq<seq<Piece>>)
    requires AreFileNames(a) && !IsFaithful(a)
    ensures AreFileNames(b) && b != a && LossyNames(b) == LossyNames(a)
    ensures HasNoBackslash(a) ==> HasNoBackslash(b)
  {
    var i, j :| 0 <= i < |a| && 0 <= j < |a[i]| && (a[i][j].Character? ==> a[i][j].c == REPLACEMENT);
    var other := if a[i][j].Character? then Bytes(0) else Character(REPLACEMENT);
    var name := a[i][j := other];
    b := a[i := name];
    assert b[i][j] != a[i][j];
    assert Lossy(name) == Lossy(a[i]);
  }

  /**
   The files whose path can only be theirs, among files without backslashes: exactly those without
   one whose names survive the lossy conversion.
   */
  lemma PathIsOwnExactlyWhen(a: seq<seq<Piece>>)
    requires AreFileNames(a)
    ensures (forall b | AreFileNames(b) && HasNoBackslash(b) && ArchivePath(b) == ArchivePath(a) :: b == a) <==>
            HasNoBackslash(a) && IsFaithful(a)
  {
    LossyNamesKeep(a);
    if !HasNoBackslash(a) {
      var names := LossyNames(a);
      PathNames(names);
      RawNames(Split(RelativePath(names)));
      assert Raw(Split(RelativePath(names))) != a;
    } else if !IsFaithful(a) {
      var b := UnfaithfulHasTwin(a);
      assert ArchivePath(b) == ArchivePath(a);
    } else {
      forall b | AreFileNames(b) && HasNoBackslash(b) && ArchivePath(b) == ArchivePath(a)
        ensures b == a
      {
        LossyNamesKeep(b);
        ArchivePathsDistinct(LossyNames(b), LossyNames(a));
        FaithfulIsOnly(a, b);
      }
    }
  }

  /** Among all files: exactly the files at the top without backslash whose name survives the conversion. */
  lemma PathIsUniqueExactlyWhen(a: seq<seq<Piece>>)
    requires AreFileNames(a)
    ensures (forall b | AreFileNames(b) && ArchivePath(b) == ArchivePath(a) :: b == a) <==>
            |a| == 1 && HasNoBackslash(a) && IsFaithful(a)
  {
    LossyNamesKeep(a);
    if |a| == 1 && HasNoBackslash(a) && IsFaithful(a) {
      forall b | AreFileNames(b) && ArchivePath(b) == ArchivePath(a)
        ensures b == a
      {
        LossyNamesKeep(b);
        OnlyNameOfPath(LossyNames(b), LossyNames(a)[0]);
        FaithfulIsOnly(a, b);
      }
    } else if !HasNoBackslash(a) || !IsFaithful(a) {
      PathIsOwnExactlyWhen(a);
    } else {
      var flat := [Backslashed(Join(LossyNames(a)))];
      BackslashedPath(LossyNames(a));
      RawNames(flat);
      assert |Raw(flat)| != |a|;
    }
  }

  /** All slashes of a path turned into backslashes: one name with the same archive path. */
  lemma BackslashedPath(names: seq<string>)
    requires names != []
    ensures var flat := [Backslashed(Join(names))];
            AreNames(flat) && RelativePath(flat) == RelativePath(names)
  {
    var flat := [Backslashed(Join(names))];
    assert Join(flat) == flat[0];
    assert Normalize(flat[0]) == Normalize(Join(names));
  }
}
