/** The retry loop around the irreversible handoff: the boot countdown, the
    optional menu marker and the dispatcher that may edit and try again.

    Keys, timers, files and firmware calls are nondeterministic. */
module Handoff {
  import opened Basics

  datatype Status = Success | Aborted | NotReady | Failed(code: nat)

  datatype Action = NoAction | EditAction | CancelAction

  /** The result of a foreign call. */
  method AnyStatus() returns (status: Status) {
    status :| true;
  }

  // ------------------------------------------------------------------ the countdown

  const TICKS: nat := 100  // five seconds of twenty

  /** What the console and the timer answer in one tick. */
  datatype Tick = Quiet | EditKey | CancelKey | Broken(code: nat)

  /** The first tick that is not quiet. */
  function FirstEvent(ticks: seq<Tick>): (k: nat)
    ensures k <= |ticks| && (forall i :: 0 <= i < k ==> ticks[i] == Quiet) && (k < |ticks| ==> ticks[k] != Quiet)
  {
    if ticks == [] || ticks[0] != Quiet then 0 else 1 + FirstEvent(ticks[1..])
  }

  lemma FirstEventIs(ticks: seq<Tick>, k: nat)
    requires k <= |ticks| && (forall i :: 0 <= i < k ==> ticks[i] == Quiet) && (k < |ticks| ==> ticks[k] != Quiet)
    ensures FirstEvent(ticks) == k
  {
  }

  class Countdown {
    var prepared: bool
    var continueSelected: bool
    var cleanReturn: bool
    var action: Action

    /** A clean return is one of a prepared attempt whose countdown never completed. */
    ghost predicate Valid()
      reads this
    {
      cleanReturn ==> prepared && !continueSelected
    }

    constructor ()
      ensures Valid() && !prepared && !continueSelected && !cleanReturn && action == NoAction
    {
      prepared, continueSelected, cleanReturn, action := false, false, false, NoAction;
    }

    method Prepare(target: bool)
      modifies this
      ensures Valid() && prepared == target && !continueSelected && !cleanReturn && action == NoAction
    {
      prepared, continueSelected, cleanReturn, action := false, false, false, NoAction;
      prepared := target;
    }

    /** Success, and only the completed countdown, means no way back to setup: before
        it completes, the first key or failure ends the wait. */
    method Wait(before: Status, ticks: seq<Tick>, after: Status) returns (status: Status)
      requires |ticks| == TICKS
      modifies this
      ensures prepared == old(prepared) && cleanReturn == old(cleanReturn)
      ensures old(!prepared || continueSelected || action != NoAction) ==>
        status == NotReady && continueSelected == old(continueSelected) && action == old(action)
      ensures old(prepared && !continueSelected && action == NoAction) ==>
        if before != Success then status == before && !continueSelected && action == NoAction
        else if FirstEvent(ticks) == 100 then status == after && continueSelected && action == NoAction
        else
          && !continueSelected
          && match ticks[FirstEvent(ticks)]
             case EditKey => status == Aborted && action == EditAction
             case CancelKey => status == Aborted && action == CancelAction
             case Broken(code) => status == Failed(code) && action == NoAction
             case Quiet => false
      ensures !cleanReturn ==> Valid()
    {
      if !prepared || continueSelected || action != NoAction {
        return NotReady;
      }
      status := before;  // log and file barrier
      if status != Success {
        return;
      }
      for tick := 0 to TICKS
        invariant status == Success && !continueSelected && action == NoAction
        invariant prepared == old(prepared) && cleanReturn == old(cleanReturn)
        invariant forall i :: 0 <= i < tick ==> ticks[i] == Quiet
      {
        match ticks[tick] {
          case EditKey =>
            FirstEventIs(ticks, tick);
            action := EditAction;
            return Aborted;
          case CancelKey =>
            FirstEventIs(ticks, tick);
            action := CancelAction;
            return Aborted;
          case Broken(code) =>
            FirstEventIs(ticks, tick);
            return Failed(code);  // keyboard or timer failure
          case Quiet =>
        }
      }
      FirstEventIs(ticks, TICKS);
      continueSelected := true;
      status := after;
    }

    /** Closes a returning attempt; closeStatus says whether the log and the volume
        closed.  A key press is passed on, as Aborted, only from a clean return; any
        other result is the first failure of cleanup, attempt and closing. */
    method Finish(status: Status, planCleanup: Status, closeStatus: Status) returns (result: Status)
      modifies this
      ensures Valid()
      ensures prepared == old(prepared) && continueSelected == old(continueSelected)
      ensures cleanReturn <==> prepared && !continueSelected && planCleanup == Success && closeStatus == Success
      ensures var pressed := old(!continueSelected && action != NoAction) && status == Aborted;
        if pressed && cleanReturn then result == Aborted && action == old(action)
        else
          && action == NoAction
          && (planCleanup != Success ==> result == planCleanup)
          && (planCleanup == Success && !pressed && status != Success ==> result == status)
          && (planCleanup == Success && (pressed || status == Success) ==> result == closeStatus)
    {
      var userAction := !continueSelected && action != NoAction && status == Aborted;
      result := if planCleanup != Success then planCleanup else if userAction then Success else status;
      var closed := closeStatus == Success;
      if result == Success && !closed {
        result := closeStatus;
      }
      cleanReturn := prepared && !continueSelected && planCleanup == Success && closed;
      if userAction && result == Success && cleanReturn {
        return Aborted;
      }
      action := NoAction;
    }

    method RequestEdit() returns (accepted: bool)
      requires Valid()
      modifies `action
      ensures Valid() && (accepted ==> prepared && !continueSelected)
      ensures accepted == cleanReturn
      ensures action == if accepted then EditAction else old(action)
    {
      if !cleanReturn {
        return false;
      }
      action := EditAction;
      accepted := true;
    }

    /** An edit is granted only to a prepared attempt that failed before its
        countdown completed and left no marker behind; the request is used up. */
    method TakeEdit(status: Status, markerStatus: Status) returns (edit: bool)
      requires Valid()
      modifies `action
      ensures Valid() && (edit ==> prepared && !continueSelected)
      ensures edit <==> cleanReturn && old(action) == EditAction && status != Success && markerStatus == Success
      ensures action == NoAction
    {
      edit := cleanReturn && action == EditAction && status != Success && markerStatus == Success;
      action := NoAction;
    }

    /** A cancel is granted under the same conditions; after a failed marker
        restoration no later request can be granted any more. */
    method TakeCancel(status: Status, markerStatus: Status) returns (cancel: bool)
      requires Valid()
      modifies `action, `cleanReturn
      ensures Valid() && (cancel ==> prepared && !continueSelected)
      ensures markerStatus != Success ==> !cancel && !cleanReturn
      ensures cleanReturn == (old(cleanReturn) && markerStatus == Success)
      ensures cancel <==> cleanReturn && old(action) == CancelAction && status == Aborted
      ensures action == if old(action) == CancelAction then NoAction else old(action)
    {
      if markerStatus != Success {
        cleanReturn := false;
      }
      cancel := cleanReturn && action == CancelAction && status == Aborted && markerStatus == Success;
      if action == CancelAction {
        action := NoAction;
      }
    }
  }

  // ---------------------------------------------------------------------- the marker

  /** The 512-byte block written for a profile. */
  function MarkerBlock(header: seq<u8>, profile: seq<u8>): (block: seq<u8>)
    requires |header| <= 64 && |profile| <= 32
    ensures |block| == 512
  {
    var head := header + [0x0A] + PROFILE_KEY + profile;
    head + seq(511 - |head|, _ => 0x20) + [0x0A]
  }

  const PROFILE_KEY: seq<u8> := [0x50, 0x52, 0x4F, 0x46, 0x49, 0x4C, 0x45, 0x3D]  // "PROFILE="

  // A reader of marker blocks, as the boot menu would see them.

  /** The bytes up to the first stop byte. */
  function Until(bytes: seq<u8>, stop: set<u8>): seq<u8> {
    if bytes == [] || bytes[0] in stop then [] else [bytes[0]] + Until(bytes[1..], stop)
  }

  /** The profile named on the second line of a block. */
  function ProfileOf(block: seq<u8>): Option<seq<u8>> {
    var first := Until(block, {0x0A});
    var second := if |first| < |block| then block[|first| + 1..] else [];
    if |second| >= 8 && second[..8] == [0x50, 0x52, 0x4F, 0x46, 0x49, 0x4C, 0x45, 0x3D]
    then Some(Until(second[8..], {0x20, 0x0A})) else None
  }

  /** A file that carries this marker header and a profile line. */
  predicate IsMarker(header: seq<u8>, file: seq<u8>) {
    && |file| == 512 && header + [0x0A] <= file
    && [0x50, 0x52, 0x4F, 0x46, 0x49, 0x4C, 0x45, 0x3D] <= file[|header| + 1..]
  }

  lemma {:induction false} UntilStops(a: seq<u8>, b: seq<u8>, stop: set<u8>)
    requires (forall x :: x in a ==> x !in stop) && b != [] && b[0] in stop
    ensures Until(a + b, stop) == a
  {
    if a == [] {
      assert a + b == b;
    } else {
      assert (a + b)[1..] == a[1..] + b;
      UntilStops(a[1..], b, stop);
    }
  }

  /** The block carries the header and names exactly the profile; the rest is blank
      up to a closing newline. */
  lemma MarkerBlockNames(header: seq<u8>, profile: seq<u8>)
    requires |header| <= 64 && |profile| <= 32
    requires 0x0A !in header && 0x20 !in profile && 0x0A !in profile
    ensures var block := MarkerBlock(header, profile);
      && IsMarker(header, block) && ProfileOf(block) == Some(profile) && block[511] == 0x0A
      && forall i :: |header| + 9 + |profile| <= i < 511 ==> block[i] == 0x20
  {
    var block := MarkerBlock(header, profile);
    var blanks := seq(502 - |header| - |profile|, _ => 0x20 as u8) + [0x0A];
    var second := PROFILE_KEY + profile + blanks;
    assert block == header + ([0x0A] + second);
    UntilStops(header, [0x0A] + second, {0x0A});
    assert block[|header| + 1..] == second;
    assert second[8..] == profile + blanks && second[..8] == PROFILE_KEY;
    UntilStops(profile, blanks, {0x20, 0x0A});
  }

  class Marker {
    var enabled: bool
    var header: seq<u8>
    var profile: seq<u8>
    var original: seq<u8>
    var attempted: bool
    // The marker file on its own partition.
    var file: seq<u8>
    ghost var before: seq<u8>  // the file when this run of the application began
    ghost var applies: nat     // calls of Apply
    ghost var lost: bool       // a pending restoration was forgotten or its original overwritten

    /** Unless a restoration was lost: either the file is untouched, or its saved
        original is. */
    ghost predicate Valid()
      reads this
    {
      && |header| <= 64 && |profile| <= 32
      && (!lost && !attempted ==> file == before)
      && (!lost && attempted ==> original == before)
      && (attempted ==> |original| == 512 && applies > 0)
    }

    constructor (file: seq<u8>)
      ensures Valid() && !attempted && !lost && applies == 0 && this.file == before == file
    {
      enabled, header, profile, original, attempted := false, [], [], [], false;
      this.file, before, applies, lost := file, file, 0, false;
    }

    /** Loading a configuration forgets an attempt.  The file is lost exactly if
        there was one to forget. */
    method Configure(enabled: bool, header: seq<u8>, profile: seq<u8>)
      requires Valid()
      requires |header| <= 64 && |profile| <= 32
      modifies this
      ensures Valid() && !attempted && applies == old(applies) && file == old(file) && before == old(before)
      ensures lost == old(lost || attempted)
      ensures this.enabled == enabled && this.header == header && this.profile == profile
    {
      lost := lost || attempted;
      this.enabled, this.header, this.profile := enabled, header, profile;
      attempted := false;
    }

    /** Writes the block in place and reads it back. */
    method WriteExact(bytes: seq<u8>) returns (status: Status)
      requires |bytes| == 512
      modifies `file
      ensures status == Success ==> file == bytes
    {
      status := AnyStatus();
      if * {
        var torn: seq<u8> :| true;
        file := torn;
      } else {
        file := bytes;
      }
      if status == Success {
        status := AnyStatus();
        if status == Success && file != bytes {
          status := Failed(0);
        }
      }
    }

    /** Reads the file over the saved original, whatever comes of it. */
    method ReadOriginal() returns (status: Status)
      modifies `original, `lost
      ensures |original| == 512 && lost == old(lost || attempted)
      ensures status == Success ==> original == file
    {
      lost := lost || attempted;
      status := AnyStatus();
      if status == Success && |file| == 512 {
        original := file;
        return;
      }
      var partial: seq<u8> := *;
      original := if |partial| == 512 then partial else seq(512, _ => 0);
      if status == Success {
        status := Failed(0);
      }
    }

    /** Saves the file and writes the block.  A second apply on top of a pending
        one would overwrite the saved original. */
    method Apply() returns (status: Status, ghost quiet: bool)
      requires Valid()
      modifies `original, `attempted, `file, `applies, `lost
      ensures Valid() && applies == old(applies) + 1
      ensures lost ==> old(lost || attempted)
      ensures status == Success && enabled ==> attempted && file == MarkerBlock(header, profile)
      ensures !enabled ==> status == Success && file == old(file)
      // A file that is no marker is refused and left alone.
      ensures enabled && !IsMarker(header, old(file)) ==>
        status != Success && file == old(file) && attempted == old(attempted)
      // A marker is written whenever every call succeeds.
      ensures quiet && (!enabled || IsMarker(header, old(file))) ==> status == Success
    {
      applies, quiet := applies + 1, true;
      if !enabled {
        return Success, true;
      }
      status := AnyStatus();  // validity of the settings, opening the file
      if status == Success {
        status := ReadOriginal();
      }
      quiet := status == Success;
      if status == Success && !(header + [0x0A] + PROFILE_KEY <= original) {
        status := Failed(0);
      }
      assert header + [0x0A] + PROFILE_KEY <= original ==> PROFILE_KEY <= original[|header| + 1..];
      if status == Success {
        attempted := true;
        status := WriteExact(MarkerBlock(header, profile));
      }
      if status == Success {
        status := AnyStatus();  // closing
      }
      quiet := quiet && (attempted ==> status == Success);
    }

    /** A successful restoration puts the original block back. */
    method Restore() returns (status: Status, ghost quiet: bool)
      requires Valid()
      modifies `attempted, `file
      ensures Valid()
      ensures status == Success <==> !attempted
      ensures status == Success && !lost ==> file == before
      ensures old(!attempted) ==> status == Success && file == old(file)
      // Only a failed call leaves a restoration pending.
      ensures quiet ==> status == Success
    {
      quiet := true;
      if !attempted {
        return Success, true;
      }
      status := AnyStatus();
      if status == Success {
        status := WriteExact(original);
      }
      if status == Success {
        status := AnyStatus();  // closing
      }
      quiet := status == Success;
      if status == Success {
        attempted := false;
      }
    }
  }
  // ------------------------------------------------------------------ the dispatcher

  /** What the loop can see of one returned boot attempt. */
  datatype Attempt = Attempt(continued: bool, clean: bool)

  class Selector {
    const countdown: Countdown
    const marker: Marker
    var probe: bool
    var autoBoot: bool
    var halted: bool                 // past the irreversible point: never returns
    ghost var disconnects: nat
    ghost var attempts: seq<Attempt>

    constructor (markerFile: seq<u8>)
      ensures fresh(countdown) && fresh(marker) && Valid() && Untouched()
      ensures !halted && marker.before == markerFile && attempts == []
    {
      countdown := new Countdown();
      marker := new Marker(markerFile);
      probe, autoBoot, halted := true, true, false;
      disconnects, attempts := 0, [];
    }

    /** No pending restoration has ever been discarded. */
    ghost predicate Valid()
      reads this, marker, countdown
    {
      marker.Valid() && !marker.lost && countdown.Valid()
    }

    /** Nothing irreversible has happened and nothing awaits restoration. */
    ghost predicate Untouched()
      reads this, marker
    {
      && disconnects == 0 && marker.applies == 0
      && !marker.attempted && marker.file == marker.before
    }

    /** Everything before the loop: the first load, and the load after a fresh
        setup. */
    method Start() returns (status: Status)
      requires Valid() && Untouched()
      modifies `probe, `autoBoot, countdown, marker
      ensures Valid() && Untouched() && marker.before == old(marker.before)
    {
      countdown.Prepare(false);
      status := AnyStatus();  // watchdog, volume
      if status != Success {
        return;
      }
      status := Load();
      if status != Success && status != Aborted {
        status := AnyStatus();  // fresh setup
        if status == Success {
          status := Load();
        }
      }
      var closed := AnyStatus();
      if closed != Success && status == Success {
        status := closed;
      }
    }

    /** The whole application. */
    method Application(rounds: nat) returns (status: Status, finished: bool)
      requires Valid() && Untouched() && !halted && attempts == []
      modifies this, countdown, marker
      ensures Valid()
      ensures disconnects <= 1 && marker.applies <= 1
      ensures forall k :: 0 <= k < |attempts| - 1 ==> !attempts[k].continued && attempts[k].clean
      ensures halted ==> disconnects == 1 && marker.applies == 1
      ensures disconnects == 1 || marker.applies == 1 ==> autoBoot && !probe
      ensures !halted && !marker.attempted ==> marker.file == old(marker.file)
      ensures !halted && marker.attempted ==> finished && status != Success
    {
      status := Start();
      finished := true;
      if status == Success {
        status, finished := Run(rounds);
      }
    }

    /** Discovery, an optional save and the reload of Config.ini.  A first-run save
        loads the new file by itself. */
    method SetupAndReload() returns (status: Status)
      requires Valid() && !marker.attempted
      modifies `probe, `autoBoot, marker
      ensures Valid() && !marker.attempted && marker.applies == old(marker.applies)
      ensures marker.before == old(marker.before)
    {
      var savesFirstRun: bool := *;
      if savesFirstRun {
        var probe', autoBoot' := probe, autoBoot;
        var _ := Load();
        probe, autoBoot := probe', autoBoot';
      }
      status := AnyStatus();
      var bootReady: bool := *;
      if status != Success || !bootReady {
        return;
      }
      status := Load();
      if status == Success && probe {
        status := Failed(0);
      }
    }

    /** Reloading configures the marker, first with defaults and then with the
        parsed settings. */
    method Load() returns (status: Status)
      requires Valid() && !marker.attempted
      modifies `probe, `autoBoot, marker
      ensures Valid() && !marker.attempted && marker.applies == old(marker.applies)
      ensures marker.before == old(marker.before)
    {
      marker.Configure(false, [], []);
      var absent: bool := *;
      if absent {
        probe, autoBoot := true, *;
        return Success;
      }
      status := AnyStatus();
      if status != Success {
        return;
      }
      var enabled: bool, header: seq<u8>, profile: seq<u8> :| |header| <= 64 && |profile| <= 32;
      probe, autoBoot := *, *;
      marker.Configure(enabled, header, profile);
    }

    /** One boot attempt.  It returns only from before the irreversible point. */
    method BootRun() returns (status: Status, ghost quiet: bool)
      requires Valid() && Untouched() && !halted
      requires !countdown.continueSelected && !countdown.cleanReturn && countdown.action == NoAction
      modifies `halted, `disconnects, countdown, marker
      ensures Valid() && marker.before == old(marker.before)
      ensures disconnects <= 1 && marker.applies <= 1
      ensures disconnects == 1 || marker.applies == 1 ==> countdown.continueSelected
      ensures disconnects == 1 ==> marker.applies == 1
      ensures halted ==> disconnects == 1 && marker.applies == 1
      ensures marker.attempted ==> marker.applies == 1
      ensures !halted && countdown.cleanReturn ==> !countdown.continueSelected && Untouched()
      ensures !halted && countdown.action != NoAction ==> countdown.cleanReturn && status == Aborted
      // Without AutoBoot the attempt is read-only; with it, only a failed call or a key
      // keeps the machine from being handed over.
      ensures !autoBoot ==> !halted && Untouched() && !countdown.continueSelected
      ensures quiet && autoBoot && old(countdown.prepared) ==> halted
    {
      quiet := false;
      status := AnyStatus();  // volume, log
      if status != Success {
        return;
      }
      status := Preflight();
      quiet := status == Success;
      if status == Success && autoBoot {
        var before := AnyStatus();
        var after := AnyStatus();
        var drawn: seq<Tick> := *;
        var ticks := if |drawn| == TICKS then drawn else seq(TICKS, _ => Quiet);
        status := countdown.Wait(before, ticks, after);
        quiet := before == Success && FirstEvent(ticks) == TICKS && after == Success;
        if status == Success {
          ghost var applied;
          status, applied := marker.Apply();
          if status == Success {
            status := AnyStatus();  // file barrier
          }
          quiet := status == Success;
          if status == Success {
            disconnects := disconnects + 1;
            status := AnyStatus();
            quiet := status == Success;
            if status == Success {
              // Route transfer, ROM dispatch, BBS transaction and LegacyBoot
              // either boot or stop the machine.
              halted := true;
              return;
            }
          }
        }
      }
      var cleanup := AnyStatus();  // plan release
      var closing := AnyStatus();  // log and volume
      status := countdown.Finish(status, cleanup, closing);
    }

    method Preflight() returns (status: Status) {
      status := AnyStatus();
    }

    /** The main loop, for any number of rounds.  The controller is
        disconnected and the marker applied at most once; every attempt but the
        last closed cleanly before its countdown completed; and unless the
        machine was handed over, the marker is back or its restoration is
        reported as pending. */
    method Run(rounds: nat) returns (status: Status, finished: bool)
      requires Valid() && Untouched() && !halted && attempts == []
      modifies this, countdown, marker
      ensures Valid()
      ensures disconnects <= 1 && marker.applies <= 1
      ensures forall k :: 0 <= k < |attempts| - 1 ==> !attempts[k].continued && attempts[k].clean
      ensures halted ==> disconnects == 1 && marker.applies == 1
      ensures disconnects == 1 || marker.applies == 1 ==> autoBoot && !probe
      ensures !halted && !marker.attempted ==> marker.file == old(marker.file)
      ensures !halted && marker.attempted ==> finished && status != Success
      ensures !finished ==> Untouched()
    {
      status, finished := Success, false;
      for round := 0 to rounds
        invariant Valid() && Untouched() && !halted && !finished
        invariant marker.before == old(marker.before)
        invariant forall k :: 0 <= k < |attempts| ==> !attempts[k].continued && attempts[k].clean
      {
        var again;
        status, again := Round();
        if !again {
          finished := true;
          return;
        }
      }
    }

    method Round() returns (status: Status, again: bool)
      requires Valid() && Untouched() && !halted
      requires forall k :: 0 <= k < |attempts| ==> !attempts[k].continued && attempts[k].clean
      modifies this, countdown, marker
      ensures Valid() && marker.before == old(marker.before)
      ensures again ==> Untouched() && !halted
      ensures again ==> forall k :: 0 <= k < |attempts| ==> !attempts[k].continued && attempts[k].clean
      ensures forall k :: 0 <= k < |attempts| - 1 ==> !attempts[k].continued && attempts[k].clean
      ensures disconnects <= 1 && marker.applies <= 1
      ensures halted ==> disconnects == 1 && marker.applies == 1
      ensures disconnects == 1 || marker.applies == 1 ==> autoBoot && !probe
      ensures !halted && marker.attempted ==> status != Success
    {
      again := false;
      if probe {
        status := SetupAndReload();
        if status != Success || probe {
          return;
        }
      }
      countdown.Prepare(true);
      if autoBoot {
        status := AnyStatus();  // setup window
        if status != Success {
          return;
        }
        var editRequested: bool := *;
        if editRequested {
          probe := true;
          return status, true;
        }
      }
      ghost var quiet;
      status, quiet := BootRun();
      if halted {
        return;
      }
      status, again := AfterBoot(status);
    }

    /** Restoration and the decision whether to edit and try again. */
    method AfterBoot(bootStatus: Status) returns (status: Status, again: bool)
      requires Valid() && !halted && disconnects <= 1 && marker.applies <= 1
      requires countdown.cleanReturn ==> !countdown.continueSelected && Untouched()
      modifies `probe, `attempts, countdown, marker
      ensures Valid() && marker.before == old(marker.before) && marker.applies == old(marker.applies)
      ensures |attempts| == |old(attempts)| + 1 && attempts[..|old(attempts)|] == old(attempts)
      ensures again ==> Untouched()
      ensures probe == (again || old(probe))
      ensures again ==> !attempts[|attempts| - 1].continued && attempts[|attempts| - 1].clean
      ensures marker.attempted ==> status != Success
      // A clean failed attempt with an edit request always leads to another round, and
      // a clean cancel never does.
      ensures old(countdown.cleanReturn && countdown.action == EditAction) && bootStatus != Success ==> again
      ensures old(countdown.cleanReturn && countdown.action == CancelAction) && bootStatus == Aborted ==> !again
    {
      status, again := bootStatus, false;
      ghost var quiet;
      var markerStatus: Status;
      markerStatus, quiet := marker.Restore();
      if markerStatus != Success && status == Success {
        status := markerStatus;
      }
      attempts := attempts + [Attempt(countdown.continueSelected, countdown.cleanReturn && markerStatus == Success)];
      var cancel := countdown.TakeCancel(status, markerStatus);
      if cancel {
        return;
      }
      var edit := countdown.TakeEdit(status, markerStatus);
      if !edit {
        if * {
          var _ := countdown.RequestEdit();  // F2 on an error screen
        }
        edit := countdown.TakeEdit(status, markerStatus);
        if !edit {
          return;
        }
      }
      probe, again := true, true;
    }
  }
}
