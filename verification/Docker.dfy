/**
 The Docker operations of one gateway (crates/clustershell-bootstrap/src/docker.rs): create, start,
 inspect and destroy its container, volume and network, over a daemon whose replies are arbitrary
 except that it is honest about what exists.
 */
module Docker {
  import opened DeployEvents
  import opened Text

  /** Success, status 404, status 409, the "port is already allocated" error, or anything else. */
  datatype Reply = Ok | NotFound | Conflict | PortBusy | OtherError

  datatype Container = Container(volume: Option<nat>, running: bool)

  datatype Existing = Absent | Present(containerExists: bool, running: bool, volumeExists: bool) | CheckFailed

  /** The pauses of a linear back-off of 500 ms, before each of `n` attempts but the first. */
  ghost function Pauses(n: nat): nat {
    if n <= 1 then 0 else Pauses(n - 1) + 500 * (n - 1)
  }

  class Daemon {
    var container: Option<Container>
    /** The gateway's volume and network; each one ever created gets its own stamp. */
    var volume: Option<nat>
    var network: Option<nat>
    var nextStamp: nat
    /** The events of the deployment that is under way. */
    ghost var run: seq<Event>
    /** Whether it has met a call that failed. */
    ghost var faulty: bool

    ghost predicate Clean()
      reads this
    {
      container.None? && volume.None? && network.None?
    }

    /** Marks the deployment as having met a failed call, if `bad`. */
    ghost method Blame(bad: bool)
      modifies this`faulty
      ensures faulty == (old(faulty) || bad)
    {
      faulty := faulty || bad;
    }

    ghost method Note(e: Event)
      modifies this`run
      ensures run == old(run) + [e]
    {
      run := run + [e];
    }

    // ------------------------------------------------------------- the daemon's replies

    method InspectVolume() returns (r: Reply)
      modifies this`faulty
      ensures r.Ok? ==> volume.Some?
      ensures r.NotFound? ==> volume.None?
      ensures faulty == (old(faulty) || (!r.Ok? && !r.NotFound?))
    {
      r := *;
      if (r.Ok? && volume.None?) || (r.NotFound? && volume.Some?) {
        r := OtherError;
      }
      Blame(!r.Ok? && !r.NotFound?);
    }

    method CreateVolume() returns (r: Reply)
      modifies this`volume, this`nextStamp, this`run, this`faulty
      ensures r.Ok? ==> volume.Some?
      ensures faulty == (old(faulty) || !r.Ok?)
      ensures old(volume).Some? ==> volume == old(volume) && run == old(run)
      ensures old(volume).None? ==>
                || (volume.None? && run == old(run))
                || (volume == Some(old(nextStamp)) && run == old(run) + [VolumeCreated(old(nextStamp))])
    {
      r := *;
      var done := *;
      if volume.None? && (r.Ok? || done) {
        volume := Some(nextStamp);
        Note(VolumeCreated(nextStamp));
        nextStamp := nextStamp + 1;
      }
      Blame(!r.Ok?);
    }

    method RemoveVolume() returns (r: Reply)
      modifies this`volume, this`faulty
      ensures r.Ok? || r.NotFound? ==> volume.None?
      ensures r.NotFound? ==> old(volume).None?
      ensures faulty == (old(faulty) || (!r.Ok? && !r.NotFound?))
      ensures volume.Some? ==> volume == old(volume)
    {
      r := *;
      var done := *;
      if r.NotFound? && volume.Some? {
        r := OtherError;
      }
      if r.Ok? || done {
        volume := None;
      }
      Blame(!r.Ok? && !r.NotFound?);
    }

    method InspectContainer() returns (r: Reply)
      modifies this`faulty
      ensures r.Ok? ==> container.Some?
      ensures r.NotFound? ==> container.None?
      ensures faulty == (old(faulty) || (!r.Ok? && !r.NotFound?))
    {
      r := *;
      if (r.Ok? && container.None?) || (r.NotFound? && container.Some?) {
        r := OtherError;
      }
      Blame(!r.Ok? && !r.NotFound?);
    }

    method CreateContainer() returns (r: Reply)
      modifies this`container, this`run, this`faulty
      ensures r.Ok? ==> container.Some?
      ensures faulty == (old(faulty) || !r.Ok?)
      ensures (container == old(container) && run == old(run)) || run == old(run) + [ContainerCreated(volume)]
      ensures run != old(run) ==> container.Some? && container.value.volume == volume
    {
      r := *;
      var done := *;
      if container.Some? {
        r := Conflict;
      } else if r.Ok? || done {
        container := Some(Container(volume, false));
        Note(ContainerCreated(volume));
      }
      Blame(!r.Ok?);
    }

    method RemoveContainer() returns (r: Reply)
      modifies this`container, this`faulty
      ensures r.Ok? || r.NotFound? ==> container.None?
      ensures r.NotFound? ==> old(container).None?
      ensures faulty == (old(faulty) || (!r.Ok? && !r.NotFound?))
      ensures container.Some? ==> container == old(container)
    {
      r := *;
      var done := *;
      if r.NotFound? && container.Some? {
        r := OtherError;
      }
      if r.Ok? || done {
        container := None;
      }
      Blame(!r.Ok? && !r.NotFound?);
    }

    /** Starting or stopping changes at most whether the container runs; a conflict means that it did already. */
    method SetRunning(running: bool) returns (r: Reply)
      modifies this`container
      ensures container.Some? <==> old(container).Some?
      ensures container.Some? ==> container.value.volume == old(container).value.volume
      ensures r.Ok? || r.Conflict? ==> container.Some? && container.value.running == running
    {
      r := *;
      var done := *;
      if container.None? && (r.Ok? || r.Conflict?) {
        r := NotFound;
      } else if container.Some? && r.Conflict? && container.value.running != running {
        r := OtherError;
      }
      if container.Some? && (r.Ok? || done) {
        container := Some(container.value.(running := running));
      }
    }

    method InspectNetwork() returns (r: Reply, attached: nat)
      modifies this`faulty
      ensures r.Ok? ==> network.Some?
      ensures r.NotFound? ==> network.None?
      ensures faulty == (old(faulty) || (!r.Ok? && !r.NotFound?))
    {
      r, attached := *, *;
      if (r.Ok? && network.None?) || (r.NotFound? && network.Some?) {
        r := OtherError;
      }
      Blame(!r.Ok? && !r.NotFound?);
    }

    method CreateNetwork() returns (r: Reply)
      modifies this`network, this`nextStamp, this`faulty
      ensures r.Ok? ==> network == Some(old(nextStamp))
      ensures network == old(network) || network == Some(old(nextStamp))
      ensures nextStamp >= old(nextStamp)
      ensures faulty == (old(faulty) || !r.Ok?)
    {
      r := *;
      var done := *;
      if r.Ok? || done {
        network := Some(nextStamp);
        nextStamp := nextStamp + 1;
      }
      Blame(!r.Ok?);
    }

    method RemoveNetwork() returns (r: Reply)
      modifies this`network, this`faulty
      ensures r.Ok? || r.NotFound? ==> network.None?
      ensures network.Some? ==> network == old(network)
      ensures faulty == (old(faulty) || (!r.Ok? && !r.NotFound?))
    {
      r := *;
      var done := *;
      if r.NotFound? && network.Some? {
        r := OtherError;
      }
      if r.Ok? || done {
        network := None;
      }
      Blame(!r.Ok? && !r.NotFound?);
    }

    /** Operations that neither create nor remove any of the three: their reply is all there is. */
    method Ask() returns (r: Reply)
    {
      r := *;
    }

    // ----------------------------------------------------------------- the operations

    method CheckExistingGateway() returns (found: Existing)
      modifies this`faulty
      ensures found.Absent? ==> container.None? && volume.None?
      ensures found.Present? ==>
                && (found.containerExists <==> container.Some?) && (found.volumeExists <==> volume.Some?)
                && (found.running <==> container.Some? && container.value.running)
                && (container.Some? || volume.Some?)
      ensures faulty == (old(faulty) || found.CheckFailed?)
    {
      var v := InspectVolume();
      if !v.Ok? && !v.NotFound? {
        return CheckFailed;
      }
      var c := InspectContainer();
      if !c.Ok? && !c.NotFound? {
        return CheckFailed;
      }
      if c.NotFound? && v.NotFound? {
        return Absent;
      }
      found := Present(c.Ok?, c.Ok? && container.value.running, v.Ok?);
    }

    method ForceRemoveNetwork() returns (ok: bool)
      modifies this`network, this`faulty
      ensures ok ==> network.None?
      ensures network.Some? ==> network == old(network)
      ensures faulty == (old(faulty) || !ok)
    {
      var r, attached := InspectNetwork();
      if !r.Ok? {
        return r.NotFound?;
      }
      for i := 0 to attached
        invariant network == old(network) && faulty == old(faulty)
      {
        var _ := Ask();
      }
      r := RemoveNetwork();
      ok := r.Ok? || r.NotFound?;
    }

    /**
     Whatever network there was is removed; on success there is one that this call created. `tries`
     counts the attempts, and `last` is the reply to the last creation, unless the removal before it
     has failed.
     */
    method EnsureNetwork() returns (ok: bool, slept: nat, ghost tries: nat, ghost last: Option<Reply>)
      modifies this`network, this`nextStamp, this`faulty
      ensures ok ==> network.Some? && old(nextStamp) <= network.value
      ensures network.Some? ==> network == old(network) || old(nextStamp) <= network.value
      ensures nextStamp >= old(nextStamp)
      ensures (old(faulty) || !ok) ==> faulty
      ensures slept == Pauses(tries) && slept <= 5000
      // conflicts are retried, up to five times, and nothing else is
      ensures ok <==> last == Some(Ok)
      ensures !ok ==> last.None? || last != Some(Conflict) || tries == 5
    {
      slept, tries, last := 0, 0, None;
      ok := ForceRemoveNetwork();
      if !ok {
        return;
      }
      var lastErr: Option<Reply> := None;
      for attempt := 0 to 5
        invariant slept == Pauses(attempt) && tries == attempt
        invariant attempt > 0 ==> lastErr.Some? && faulty && last == Some(Conflict)
        invariant attempt == 0 ==> network.None? && faulty == old(faulty)
        invariant nextStamp >= old(nextStamp)
        invariant network.Some? ==> old(nextStamp) <= network.value
      {
        PausesBounded(attempt + 1);
        tries, last := attempt + 1, None;
        if attempt > 0 {
          slept := slept + 500 * attempt;
          ok := ForceRemoveNetwork();
          if !ok {
            return;
          }
        }
        var r := CreateNetwork();
        last := Some(r);
        ok := r.Ok?;
        if !r.Conflict? {
          return;
        }
        lastErr := Some(r);
      }
      // the error that is reported after the last attempt is always there
      assert lastErr.Some?;
      PausesBounded(5);
      ok := false;
    }

    method EnsureVolume() returns (ok: bool)
      modifies this`volume, this`nextStamp, this`run, this`faulty
      ensures ok ==> volume.Some?
      ensures faulty == (old(faulty) || !ok)
      ensures old(volume).Some? ==> volume == old(volume) && run == old(run)
      ensures old(volume).None? ==>
                || (volume.None? && run == old(run))
                || (volume == Some(old(nextStamp)) && run == old(run) + [VolumeCreated(old(nextStamp))])
    {
      var r := InspectVolume();
      if r.Ok? {
        return true;
      }
      if !r.NotFound? {
        return false;
      }
      r := CreateVolume();
      ok := r.Ok?;
    }

    /** Keeps a container that already runs the wanted image, replaces any other, creates a missing one. */
    method EnsureContainer(imageMatches: bool) returns (ok: bool)
      modifies this`container, this`run, this`faulty
      ensures ok ==> container.Some?
      ensures faulty == (old(faulty) || !ok)
      ensures run == old(run) || run == old(run) + [ContainerCreated(volume)]
      ensures ok && old(container).None? ==> run == old(run) + [ContainerCreated(volume)]
      ensures run != old(run) ==> container.Some? && container.value.volume == volume
      ensures ok && old(container).Some? && imageMatches ==> container == old(container) && run == old(run)
      ensures ok && old(container).Some? && !imageMatches ==> run == old(run) + [ContainerCreated(volume)]
    {
      var r := InspectContainer();
      if r.Ok? {
        if imageMatches {
          return true;
        }
        var _ := SetRunning(false);
        r := RemoveContainer();
        if !r.Ok? {
          return false;
        }
      } else if !r.NotFound? {
        return false;
      }
      r := CreateContainer();
      ok := r.Ok?;
    }

    /** `tries` counts the attempts, `last` is the reply to the last of them. */
    method StartContainer() returns (ok: bool, slept: nat, ghost tries: nat, ghost last: Reply)
      modifies this`container, this`faulty
      ensures faulty == (old(faulty) || !ok)
      ensures container.Some? <==> old(container).Some?
      ensures container.Some? ==> container.value.volume == old(container).value.volume
      ensures ok ==> container.Some? && container.value.running
      ensures slept == Pauses(tries) && slept <= 5000
      // a busy port is retried, up to five times, and nothing else is
      ensures ok <==> last.Ok? || last.Conflict?
      ensures !ok ==> !last.PortBusy? || tries == 5
    {
      slept := 0;
      var attempt: nat := 1;
      while true
        invariant 1 <= attempt <= 5
        invariant slept == Pauses(attempt) && faulty == old(faulty)
        invariant container.Some? <==> old(container).Some?
        invariant container.Some? ==> container.value.volume == old(container).value.volume
        decreases 5 - attempt
      {
        PausesBounded(attempt);
        var r := SetRunning(true);
        if r.Ok? || r.Conflict? {
          return true, slept, attempt, r;
        }
        if !(attempt < 5 && r.PortBusy?) {
          Blame(true);
          return false, slept, attempt, r;
        }
        slept := slept + 500 * attempt;
        attempt := attempt + 1;
      }
    }

    /** Up to five tries, half a second apart; failing to remove the image is not an error. */
    method RemoveImage() returns (slept: nat)
      ensures slept <= 2000
    {
      slept := 0;
      for attempt := 0 to 5
        invariant slept <= if attempt == 0 then 0 else 500 * (attempt - 1)
      {
        if attempt > 0 {
          slept := slept + 500;
        }
        var r := Ask();
        if !r.Conflict? {
          return;
        }
      }
    }

    method DestroyGatewayResources() returns (ok: bool)
      modifies this`container, this`volume, this`network, this`faulty
      ensures ok ==> Clean()
      // nothing is created, and what is still there has not been exchanged
      ensures (container.Some? ==> old(container).Some?) && (volume.Some? ==> volume == old(volume))
      ensures network.Some? ==> network == old(network)
      ensures (old(faulty) || !ok) ==> faulty
    {
      var image := InspectContainer();
      var _ := Ask();
      var _ := SetRunning(false);
      var r := RemoveContainer();
      if !r.Ok? && !r.NotFound? {
        return false;
      }
      if image.Ok? {
        var _ := RemoveImage();
      }
      r := RemoveVolume();
      if !r.Ok? && !r.NotFound? {
        return false;
      }
      ok := ForceRemoveNetwork();
    }
  }

  lemma PausesBounded(n: nat)
    requires n <= 5
    ensures Pauses(n) <= 5000
  {
    assert Pauses(5) == 5000 && Pauses(4) == 3000 && Pauses(3) == 1500 && Pauses(2) == 500;
  }
}
