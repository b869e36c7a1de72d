/**
 Replacing the CLI's certificate directory (`store_pki_bundle` and `validate_cli_mtls_bundle_dir`
 in crates/clustershell-bootstrap/src/mtls.rs).

 `ProtocolStep` says which single changes of the three directories are allowed. The method
 `StorePkiBundle` is the repository's sequence of file operations; each of them may fail or be the
 last thing that happens before a crash, and each is shown to be an allowed step. What holds of
 every run of allowed steps therefore holds across any number of calls.
 */
module CertSwap {
  import opened Pki
  import opened Text

  datatype FileName = CaCrt | TlsCrt | TlsKey

  type Dir = map<FileName, string>

  function Files(b: PkiBundle): Dir {
    map[CaCrt := b.caCert, TlsCrt := b.clientCert, TlsKey := b.clientKey]
  }

  predicate NonEmpty(b: PkiBundle) {
    b.caCert != "" && b.clientCert != "" && b.clientKey != ""
  }

  /** The directories next to each other, and the bundles that storing has been asked for so far. */
  datatype State = State(live: Option<Dir>, temp: Option<Dir>, backup: Option<Dir>, known: set<PkiBundle>)

  /** All three files of one requested bundle, none of them empty, and nothing else. */
  ghost predicate IsWhole(dir: Option<Dir>, known: set<PkiBundle>) {
    dir.Some? && exists b :: b in known && NonEmpty(b) && dir.value == Files(b)
  }

  // ------------------------------------------------------------- the abstract protocol

  /** Removing a directory may stop after any of its files. */
  ghost predicate Shrinks(before: Option<Dir>, after: Option<Dir>) {
    after.Some? ==> before.Some? && after.value.Items <= before.value.Items
  }

  /** One allowed change. */
  ghost predicate ProtocolStep(s: State, t: State) {
    && s.known <= t.known
    && (|| (t.live == s.live && t.backup == s.backup)
        || (s.live.Some? && t.live == s.live && Shrinks(s.backup, t.backup))
        || (s.live.Some? && s.backup.None? && t.live.None? && t.backup == s.live)
        || (s.live.None? && IsWhole(s.temp, s.known) && t.live == s.temp && t.backup == s.backup)
        || (s.live.None? && s.backup.Some? && t.live == s.backup && t.backup.None?))
  }

  ghost predicate IsRun(run: seq<State>) {
    forall i | 0 <= i < |run| - 1 :: ProtocolStep(run[i], run[i + 1])
  }

  /** What every allowed step keeps. */
  ghost predicate Consistent(s: State) {
    && (s.live.Some? ==> IsWhole(s.live, s.known))
    && (s.live.None? && s.backup.Some? ==> IsWhole(s.backup, s.known))
  }

  ghost predicate HasWhole(s: State) {
    IsWhole(s.live, s.known) || IsWhole(s.backup, s.known)
  }

  lemma WholeStays(dir: Option<Dir>, known: set<PkiBundle>, more: set<PkiBundle>)
    requires IsWhole(dir, known) && known <= more
    ensures IsWhole(dir, more)
  {
    var b :| b in known && NonEmpty(b) && dir.value == Files(b);
    assert b in more;
  }

  lemma StepKeepsConsistent(s: State, t: State)
    requires Consistent(s) && ProtocolStep(s, t)
    ensures Consistent(t)
    ensures HasWhole(s) ==> HasWhole(t)
  {
    if IsWhole(s.live, s.known) {
      WholeStays(s.live, s.known, t.known);
    }
    if IsWhole(s.backup, s.known) {
      WholeStays(s.backup, s.known, t.known);
    }
    if IsWhole(s.temp, s.known) {
      WholeStays(s.temp, s.known, t.known);
    }
  }

  /** In every state of every run the live directory is absent or one whole bundle. */
  lemma {:induction false} LiveIsNeverMixed(run: seq<State>, i: nat)
    requires IsRun(run) && i < |run| && Consistent(run[0])
    ensures Consistent(run[i])
  {
    if i == 0 {
    } else {
      LiveIsNeverMixed(run, i - 1);
      assert ProtocolStep(run[i - 1], run[i - 1 + 1]);
      StepKeepsConsistent(run[i - 1], run[i]);
    }
  }

  /** Once a whole bundle has been live, a whole bundle exists, live or as backup, in every later state. */
  lemma {:induction false} WholeBundleNeverLost(run: seq<State>, i: nat, j: nat)
    requires IsRun(run) && i <= j < |run| && Consistent(run[0])
    requires run[i].live.Some?
    ensures HasWhole(run[j])
    decreases j - i
  {
    LiveIsNeverMixed(run, i);
    if i < j {
      if run[j - 1].live.Some? {
        LiveIsNeverMixed(run, j - 1);
      } else {
        WholeBundleNeverLost(run, i, j - 1);
        LiveIsNeverMixed(run, j - 1);
      }
      assert ProtocolStep(run[j - 1], run[j - 1 + 1]);
      StepKeepsConsistent(run[j - 1], run[j]);
    }
  }

  /** The live directory was there at `i` and has been absent since, up to `j`. */
  ghost predicate LastLiveAt(run: seq<State>, i: nat, j: nat)
    requires i < j < |run|
  {
    run[i].live.Some? && forall k | i < k <= j :: run[k].live.None?
  }

  /** While the live directory is absent, the backup is exactly what was live last, never an older bundle. */
  lemma {:induction false} BackupIsLastLive(run: seq<State>, i: nat, j: nat)
    requires IsRun(run) && i < j < |run| && LastLiveAt(run, i, j)
    ensures run[j].backup == run[i].live
    decreases j - i
  {
    assert ProtocolStep(run[j - 1], run[j - 1 + 1]);
    if i < j - 1 {
      BackupIsLastLive(run, i, j - 1);
    }
  }

  /** At some moment from `start` on the live directory has been there, and later it is not. */
  ghost predicate Vanishes(run: seq<State>, start: nat) {
    exists i, j | start <= i <= j < |run| :: run[i].live.Some? && run[j].live.None?
  }

  /** From `start` on the live directory has not been touched. */
  ghost predicate LiveIs(run: seq<State>, start: nat, live: Option<Dir>) {
    forall i | start <= i < |run| :: run[i].live == live
  }

  lemma WholeFiles(b: PkiBundle)
    ensures NonEmpty(b) <==> forall name :: name in Files(b) && Files(b)[name] != ""
  {
    forall name: FileName
      ensures name in Files(b) && (NonEmpty(b) ==> Files(b)[name] != "")
    {
      assert name == CaCrt || name == TlsCrt || name == TlsKey;
    }
    assert Files(b)[CaCrt] == b.caCert && Files(b)[TlsCrt] == b.clientCert && Files(b)[TlsKey] == b.clientKey;
  }

  // ---------------------------------------------------------------- the file operations

  /** An operation ends well, reports an error, or never returns because the process dies. */
  datatype Outcome = Done | Failed | Crashed

  datatype StoreResult = Stored | Error | Crash

  class CertStore {
    var live: Option<Dir>
    var temp: Option<Dir>
    var backup: Option<Dir>
    ghost var known: set<PkiBundle>
    /** Every state the directories have been in. */
    ghost var run: seq<State>
    /** Whether any operation of the current call has failed or crashed. */
    ghost var faulty: bool
    /** Whether it has tried in vain to put the backup back. */
    ghost var restoreFailed: bool

    ghost function Now(): State
      reads this
    {
      State(live, temp, backup, known)
    }

    ghost predicate Valid()
      reads this
    {
      run != [] && run[|run| - 1] == Now() && IsRun(run)
    }

    /** Nothing has ever been stored. */
    constructor ()
      ensures Valid() && live.None? && temp.None? && backup.None? && known == {}
      ensures |run| == 1 && Consistent(run[0])
    {
      live, temp, backup, known := None, None, None, {};
      run := [State(None, None, None, {})];
      faulty, restoreFailed := false, false;
    }

    /** Records the state after a change. */
    ghost method Record(before: State)
      requires run != [] && run[|run| - 1] == before && IsRun(run)
      requires ProtocolStep(before, Now())
      modifies this`run
      ensures Valid() && run == old(run) + [Now()]
    {
      run := run + [Now()];
    }

    /** How the next operation ends. */
    method Attempt() returns (o: Outcome)
      modifies this`faulty
      ensures faulty == (old(faulty) || !o.Done?)
    {
      o := *;
      faulty := faulty || !o.Done?;
    }

    /** An operation on the temporary directory: on failure or crash it may leave anything there. */
    method ChangeTemp(wanted: Option<Dir>) returns (o: Outcome)
      requires Valid()
      modifies this`temp, this`run, this`faulty
      ensures faulty == (old(faulty) || !o.Done?)
      ensures Valid() && old(run) <= run && LiveIs(run, |old(run)|, live)
      ensures o.Done? ==> temp == wanted
    {
      o := Attempt();
      ghost var before := Now();
      if o.Done? {
        temp := wanted;
      } else {
        temp := *;
      }
      Record(before);
    }

    /** An operation without effect on the contents of any directory. */
    method Touch() returns (o: Outcome)
      modifies this`faulty
      ensures faulty == (old(faulty) || !o.Done?)
    {
      o := Attempt();
    }

    method RemoveBackup() returns (o: Outcome)
      requires Valid() && live.Some?
      modifies this`backup, this`run, this`faulty
      ensures faulty == (old(faulty) || !o.Done?)
      ensures Valid() && old(run) <= run && LiveIs(run, |old(run)|, live)
      ensures Shrinks(old(backup), backup)
      ensures o.Done? ==> backup.None?
    {
      o := Attempt();
      ghost var before := Now();
      var rest: Dir := *;
      if o.Done? || backup.None? || !(rest.Items <= backup.value.Items) {
        backup := None;
      } else {
        backup := Some(rest);
      }
      Record(before);
    }

    /** Renaming is atomic: an error leaves everything in place, a crash comes before or after. */
    method RenameLiveToBackup() returns (o: Outcome)
      requires Valid() && live.Some? && backup.None?
      modifies this`live, this`backup, this`run, this`faulty
      ensures faulty == (old(faulty) || !o.Done?)
      ensures Valid() && old(run) <= run
      ensures o.Done? ==> live.None? && backup == old(live)
      ensures o.Failed? ==> live == old(live) && backup == old(backup)
      ensures (live == old(live) && backup == old(backup)) || (live.None? && backup == old(live))
    {
      o := Attempt();
      var moved := *;
      ghost var before := Now();
      if o.Done? || (o.Crashed? && moved) {
        live, backup := None, live;
      }
      Record(before);
    }

    method RenameTempToLive() returns (o: Outcome)
      requires Valid() && live.None? && IsWhole(temp, known)
      modifies this`live, this`temp, this`run, this`faulty
      ensures faulty == (old(faulty) || !o.Done?)
      ensures Valid() && run == old(run) + [Now()]
      ensures o.Done? ==> live == old(temp) && temp.None?
      ensures o.Failed? ==> live.None? && temp == old(temp)
      ensures live.None? || live == old(temp)
    {
      o := Attempt();
      var moved := *;
      ghost var before := Now();
      if o.Done? || (o.Crashed? && moved) {
        live, temp := temp, None;
      }
      Record(before);
    }

    method RenameBackupToLive() returns (o: Outcome)
      requires Valid() && live.None? && backup.Some?
      modifies this`live, this`backup, this`run, this`faulty, this`restoreFailed
      ensures faulty == (old(faulty) || !o.Done?) && restoreFailed == (old(restoreFailed) || !o.Done?)
      ensures Valid() && old(run) <= run
      ensures (live.None? && backup == old(backup)) || (live == old(backup) && backup.None?)
      ensures o.Done? ==> live == old(backup) && backup.None?
    {
      o := Attempt();
      restoreFailed := restoreFailed || !o.Done?;
      var moved := *;
      ghost var before := Now();
      if o.Done? || (o.Crashed? && moved) {
        live, backup := backup, None;
      }
      Record(before);
    }

    /** Every required file is present, readable and not empty. */
    method ValidateBundleDir(dir: Option<Dir>) returns (ok: bool)
      modifies this`faulty
      ensures ok ==> faulty == old(faulty)
      ensures ok ==> dir.Some? && forall name :: name in dir.value && dir.value[name] != ""
      ensures !ok && !faulty ==> dir.None? || exists name :: name !in dir.value || dir.value[name] == ""
    {
      var names := [CaCrt, TlsCrt, TlsKey];
      for i := 0 to |names|
        invariant faulty == old(faulty)
        invariant forall j | 0 <= j < i :: dir.Some? && names[j] in dir.value && dir.value[names[j]] != ""
      {
        var o := Touch();
        if !o.Done? || dir.None? || names[i] !in dir.value || dir.value[names[i]] == "" {
          return false;
        }
      }
      assert names[0] == CaCrt && names[1] == TlsCrt && names[2] == TlsKey;
      assert dir.Some?;
      forall name: FileName
        ensures name in dir.value && dir.value[name] != ""
      {
        assert name == names[0] || name == names[1] || name == names[2];
      }
      ok := true;
    }

    // -------------------------------------------------------------- store_pki_bundle

    /** Fills the temporary directory. */
    method WriteTemp(b: PkiBundle) returns (o: Outcome)
      requires Valid()
      modifies this`temp, this`run, this`faulty
      ensures Valid() && old(run) <= run && LiveIs(run, |old(run)|, live)
      ensures o.Done? ==> temp == Some(Files(b))
      ensures faulty == (old(faulty) || !o.Done?)
    {
      if temp.Some? {
        o := ChangeTemp(None);
        if !o.Done? { return; }
      }
      o := ChangeTemp(Some(map[]));
      if !o.Done? { return; }
      o := ChangeTemp(Some(map[CaCrt := b.caCert]));
      if !o.Done? { return; }
      o := ChangeTemp(Some(temp.value[TlsCrt := b.clientCert]));
      if !o.Done? { return; }
      o := ChangeTemp(Some(temp.value[TlsKey := b.clientKey]));
    }

    /** Fills and validates the temporary directory. */
    method PrepareTemp(b: PkiBundle) returns (o: Outcome)
      requires Valid() && b in known
      modifies this`temp, this`run, this`faulty
      ensures Valid() && old(run) <= run && LiveIs(run, |old(run)|, live)
      ensures o.Done? ==> NonEmpty(b) && temp == Some(Files(b)) && faulty == old(faulty)
      ensures !o.Done? ==> faulty || !NonEmpty(b)
    {
      o := WriteTemp(b);
      if !o.Done? { return; }
      o := Touch();
      if !o.Done? { return; }
      WholeFiles(b);
      var ok := ValidateBundleDir(temp);
      if !ok { return Failed; }
    }

    /** Moves a live directory out of the way, dropping an older backup first. */
    method SetAside() returns (o: Outcome, hadBackup: bool)
      requires Valid()
      modifies this`live, this`backup, this`run, this`faulty
      ensures Valid() && old(run) <= run
      ensures old(live).None? ==> run == old(run)
      ensures hadBackup ==> old(live).Some?
      ensures o.Done? ==> live.None? && hadBackup == old(live).Some?
      ensures o.Done? ==> backup == if hadBackup then old(live) else old(backup)
      ensures !o.Done? ==> live == old(live) || (live.None? && backup == old(live))
      ensures o.Failed? ==> live == old(live)
      ensures faulty == (old(faulty) || !o.Done?)
    {
      hadBackup := false;
      if live.None? {
        return Done, false;
      }
      if backup.Some? {
        o := RemoveBackup();
        if !o.Done? { return; }
      }
      o := RenameLiveToBackup();
      hadBackup := o.Done?;
    }

    /** Puts the prepared directory in the place of the live one. */
    method Exchange(b: PkiBundle) returns (r: StoreResult)
      requires Valid() && b in known && NonEmpty(b) && temp == Some(Files(b))
      modifies this`live, this`temp, this`backup, this`run, this`faulty, this`restoreFailed
      ensures Valid() && old(run) <= run
      ensures r.Stored? ==> live == Some(Files(b)) && temp.None?
      ensures r.Stored? ==> backup == if old(live).Some? then None else old(backup)
      ensures r.Stored? ==> faulty == old(faulty)
      ensures !r.Stored? ==> faulty
      ensures live == old(live) || live == Some(Files(b)) || (live.None? && backup == old(live))
      ensures r.Error? && !restoreFailed ==> live == old(live) || live == Some(Files(b))
      ensures old(restoreFailed) ==> restoreFailed
      ensures old(live).None? ==> |run| <= |old(run)| + 1
      ensures r.Stored? && old(live).Some? ==> exists j | |old(run)| <= j < |run| :: run[j].live.None?
    {
      var o, hadBackup := SetAside();
      if !o.Done? {
        return if o.Failed? then Error else Crash;
      }
      ghost var aside := run;
      assert aside[|aside| - 1].live.None?;
      assert IsWhole(temp, known);
      o := RenameTempToLive();
      if o.Failed? {
        if hadBackup {
          o := RenameBackupToLive();
          if o.Crashed? { return Crash; }
        }
        return Error;
      } else if o.Crashed? {
        return Crash;
      }
      o := Touch();
      if !o.Done? {
        return if o.Failed? then Error else Crash;
      }
      if hadBackup {
        o := RemoveBackup();
        if !o.Done? {
          return if o.Failed? then Error else Crash;
        }
      }
      assert run[|aside| - 1] == aside[|aside| - 1];
      r := Stored;
    }

    method StorePkiBundle(b: PkiBundle) returns (r: StoreResult)
      requires Valid()
      modifies this
      ensures Valid() && old(run) <= run && known == old(known) + {b}
      // success means the new bundle is live and nothing else is left of the exchange
      ensures r.Stored? ==> live == Some(Files(b)) && temp.None?
      ensures r.Stored? ==> backup == if old(live).Some? then None else old(backup)
      // it comes exactly when no operation fails and no part of the bundle is empty
      ensures r.Stored? <==> !faulty && NonEmpty(b)
      // in every other case the live directory is the old one, the new one, or set aside
      ensures live == old(live) || (NonEmpty(b) && live == Some(Files(b))) || (live.None? && backup == old(live))
      // an error, as opposed to a crash, leaves it set aside only when putting it back has failed, too
      ensures r.Error? && !restoreFailed ==> live == old(live) || live == Some(Files(b))
      // the files are the parts of the bundle that they are named after
      ensures r.Stored? ==> live.value == map[CaCrt := b.caCert, TlsCrt := b.clientCert, TlsKey := b.clientKey]
      // the exchange is not atomic: a directory that is replaced is absent for a while, and only then
      ensures r.Stored? ==> (Vanishes(run, |old(run)| - 1) <==> old(live).Some?)
      ensures Vanishes(run, |old(run)| - 1) ==> old(live).Some? && NonEmpty(b)
    {
      faulty, restoreFailed := false, false;
      ghost var before, start := Now(), |run| - 1;
      known := known + {b};
      Record(before);
      var o := PrepareTemp(b);
      assert LiveIs(run, start, live);
      if !o.Done? {
        return if o.Failed? then Error else Crash;
      }
      ghost var prepared := run;
      r := Exchange(b);
      StartsAsBefore(prepared, run, start, before.live);
    }
  }

  /** What follows a stretch with the live directory untouched: only then can it vanish. */
  lemma StartsAsBefore(prepared: seq<State>, run: seq<State>, start: nat, live: Option<Dir>)
    requires start < |prepared| && prepared <= run && LiveIs(prepared, start, live)
    ensures live.None? && |run| <= |prepared| + 1 ==> !Vanishes(run, start)
    ensures live.Some? && (exists j | |prepared| <= j < |run| :: run[j].live.None?) ==> Vanishes(run, start)
  {
    assert forall i | start <= i < |prepared| :: run[i] == prepared[i];
    if live.Some? && exists j | |prepared| <= j < |run| :: run[j].live.None? {
      var j :| |prepared| <= j < |run| && run[j].live.None?;
      assert run[start].live.Some?;
    }
  }

  /** Any number of calls, each ending in success, an error or a crash. */
  method StoreMany(bundles: seq<PkiBundle>) returns (store: CertStore)
    ensures store.Valid()
    ensures forall i | 0 <= i < |store.run| :: Consistent(store.run[i])
    ensures forall i, j | 0 <= i <= j < |store.run| && store.run[i].live.Some? :: HasWhole(store.run[j])
    ensures forall i, j | 0 <= i < j < |store.run| && LastLiveAt(store.run, i, j) ::
              store.run[j].backup == store.run[i].live
  {
    store := new CertStore();
    for k := 0 to |bundles|
      invariant fresh(store) && store.Valid() && Consistent(store.run[0])
    {
      var _ := store.StorePkiBundle(bundles[k]);
    }
    forall i | 0 <= i < |store.run|
      ensures Consistent(store.run[i])
    {
      LiveIsNeverMixed(store.run, i);
    }
    forall i, j | 0 <= i <= j < |store.run| && store.run[i].live.Some?
      ensures HasWhole(store.run[j])
    {
      WholeBundleNeverLost(store.run, i, j);
    }
    forall i, j | 0 <= i < j < |store.run| && LastLiveAt(store.run, i, j)
      ensures store.run[j].backup == store.run[i].live
    {
      BackupIsLastLive(store.run, i, j);
    }
  }
}
