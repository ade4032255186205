/** Loading, recovering and setting aside configuration files. */
module ConfigRecovery {
  import opened ConfigVolume
  import opened Basics
  import opened IniText
  import IniParser

  ghost predicate UsableFile(bytes: string) {
    |bytes| <= MAX_BYTES && IniParser.Usable(bytes)
  }

  ghost predicate HasUsable(f: Files, name: Name) {
    name in f && UsableFile(f[name])
  }

  /** What recovery loads from an image: the first usable of the active file,
      the previous file and the temporary file. */
  ghost function Recover(f: Files): Option<string> {
    if HasUsable(f, Active) then Some(f[Active])
    else if HasUsable(f, Previous) then Some(f[Previous])
    else if HasUsable(f, Temp) then Some(f[Temp])
    else None
  }

  /** A file that reads, parses, names its mode and is complete for it. */
  method ReadUsable(volume: Volume, name: Name) returns (status: Status, bytes: string)
    modifies volume`faults
    ensures status == Success ==> name in volume.files && bytes == volume.files[name] && UsableFile(bytes)
    ensures status == NotFound ==> name !in volume.files
    ensures status != Aborted && volume.faults >= old(volume.faults)
    ensures volume.faults == old(volume.faults) ==>
      && (status == Success <==> HasUsable(volume.files, name))
      && (status == NotFound <==> name !in volume.files)
  {
    hide IniParser.Parse;
    status, bytes := volume.ReadFile(name);
    if status != Success {
      return status, "";
    }
    var parsed := IniParser.ParseConfigStrict(bytes);
    if parsed.Err? || !IniParser.UsableConfig(parsed.value) {
      return CompromisedData, "";
    }
  }

  /** The user's answer: recover, give up, or a console failure. */
  method AskToRecover(volume: Volume) returns (answer: Status)
    modifies volume`faults
    ensures answer == Success || answer == Aborted || answer == DeviceError
    ensures volume.faults >= old(volume.faults)
    ensures volume.faults == old(volume.faults) ==> answer == Success || answer == Aborted
  {
    answer := *;
    if answer != Success && answer != Aborted {
      answer := DeviceError;
      volume.faults := volume.faults + 1;
    }
  }

  /** One recovery source.  `found` says that it was usable. */
  method RecoverFrom(volume: Volume, source: Name) returns (status: Status, bytes: string, found: bool)
    requires volume.files in volume.images && source != Active
    modifies volume
    ensures found && status == Success ==>
      && HasUsable(old(volume.files), source) && bytes == old(volume.files)[source]
      && volume.files == old(volume.files)[Active := bytes]
    ensures found ==> HasUsable(old(volume.files), source) && status != NotFound
    ensures !found ==>
      && volume.files == old(volume.files) && volume.images == old(volume.images) && status != Success
      && (status == NotFound ==> source !in volume.files)
    ensures volume.faults == old(volume.faults) && !found ==>
      !HasUsable(volume.files, source) && (status == NotFound <==> source !in volume.files)
    ensures volume.faults == old(volume.faults) && found ==> status == Success || status == Aborted
    ensures found && status == Aborted ==> volume.files == old(volume.files) && volume.images == old(volume.images)
    ensures Differ(volume.files, old(volume.files), {Active})
    ensures volume.files in volume.images && old(volume.images) <= volume.images
    ensures forall m :: m in volume.images && m !in old(volume.images) ==> Differ(m, old(volume.files), {Active})
    ensures volume.faults >= old(volume.faults)
  {
    hide IniParser.Usable;
    found := false;
    status, bytes := ReadUsable(volume, source);
    if status != Success {
      return;
    }
    found := true;
    status := AskToRecover(volume);
    if status != Success {
      return;
    }
    status := volume.RestoreRollback(Active, source);
    if status != Success {
      return;
    }
    status, bytes := ReadUsable(volume, Active);
  }

  /** Loading with recovery.  Only the active file is ever written, so a crash
      inside recovery keeps the source it recovers from.  Without a read failure
      the bytes loaded are those the image stands for, and a first-run status is
      reported only when none of the three files exists. */
  method LoadRecoverable(volume: Volume) returns (status: Status, bytes: string)
    requires volume.files in volume.images
    modifies volume
    ensures status == Success ==>
      && Active in volume.files && volume.files[Active] == bytes && UsableFile(bytes)
      && Recover(volume.files) == Some(bytes)
      && (volume.faults == old(volume.faults) ==> Recover(old(volume.files)) == Some(bytes))
    ensures status == NotFound ==>
      && volume.files == old(volume.files)
      && Active !in volume.files && Previous !in volume.files && Temp !in volume.files
    ensures volume.faults == old(volume.faults) && HasUsable(old(volume.files), Active) ==>
      status == Success && volume.files == old(volume.files) && volume.images == old(volume.images)
    // Without a fault, everything recoverable is recovered unless the user declines.
    ensures volume.faults == old(volume.faults) && Recover(old(volume.files)).Some? ==>
      status == Success || (status == Aborted && volume.files == old(volume.files))
    ensures (&& volume.faults == old(volume.faults)
             && Active !in old(volume.files) && Previous !in old(volume.files) && Temp !in old(volume.files)) ==>
      status == NotFound
    // Without a source nothing is written at all.
    ensures Previous !in old(volume.files) && Temp !in old(volume.files) ==>
      volume.files == old(volume.files) && volume.images == old(volume.images)
    ensures Differ(volume.files, old(volume.files), {Active})
    ensures volume.files in volume.images && old(volume.images) <= volume.images && volume.faults >= old(volume.faults)
    ensures forall m :: m in volume.images && m !in old(volume.images) ==> Differ(m, old(volume.files), {Active})
  {
    hide UsableFile;
    status, bytes := ReadUsable(volume, Active);
    if status == Success {
      return;
    }
    var backup: Status;
    var usable: bool;
    backup, bytes, usable := RecoverFrom(volume, Previous);
    if usable {
      return backup, bytes;
    }
    if backup != NotFound && status == NotFound {
      status := CompromisedData;
    }
    backup, bytes, usable := RecoverFrom(volume, Temp);
    if usable {
      return backup, bytes;
    }
    if backup != NotFound && status == NotFound {
      status := CompromisedData;
    }
  }

  /** A crash inside recovery.  Recovering again loads the same bytes exactly when
      the torn active file is not usable by itself or already is the source. */
  lemma RecoveryCanBeRepeated(f: Files, m: Files)
    requires !HasUsable(f, Active) && Differ(m, f, {Active}) && Recover(f).Some?
    ensures Recover(m) == Recover(f) <==> !HasUsable(m, Active) || m[Active] == Recover(f).value
  {
    hide UsableFile;
    DifferAt(m, f, {Active}, Previous);
    DifferAt(m, f, {Active}, Temp);
  }

  // ---------------------------------------------------------------- fresh setup

  const CONFIG_NAMES: seq<Name> := [Active, Previous, Temp]

  predicate IsConfigName(n: Name) {
    n == Active || n == Previous || n == Temp
  }

  /** The content of n in f is in m under an archive name that f did not use. */
  ghost predicate ArchivedAs(m: Files, f: Files, n: Name, number: nat)
    requires n in f
  {
    1 <= number <= 99 && Archive(n, number) !in f && Archive(n, number) in m && m[Archive(n, number)] == f[n]
  }

  ghost predicate Archived(m: Files, f: Files, n: Name)
    requires n in f
  {
    exists number :: ArchivedAs(m, f, n, number)
  }

  /** Every file that is not a configuration file is as it was. */
  ghost predicate OthersKept(m: Files, f: Files) {
    forall n :: n in f && !IsConfigName(n) ==> n in m && m[n] == f[n]
  }

  /** Nothing is lost: a configuration file is still there, or every one of them
      is archived. */
  ghost predicate NothingLost(m: Files, f: Files) {
    && OthersKept(m, f)
    && (forall n :: n in f && IsConfigName(n) && n in m ==> m[n] == f[n])
    && ((forall n :: n in f && IsConfigName(n) ==> n in m) ||
        (forall n :: n in f && IsConfigName(n) ==> Archived(m, f, n)))
  }

  /** Before any source is deleted: everything is as it was, plus new archives. */
  ghost predicate Grown(m: Files, f: Files) {
    forall n :: n in f ==> n in m && m[n] == f[n]
  }

  ghost predicate SourcesFrom(m: Files, f: Files) {
    forall n :: n in m && IsConfigName(n) ==> n in f
  }

  lemma GrownIsSafe(m: Files, f: Files)
    requires Grown(m, f)
    ensures NothingLost(m, f)
  {
  }

  lemma CopyGrows(f: Files, g: Files, copy: Name)
    requires Grown(g, f) && copy !in f
    ensures forall m :: Differ(m, g, {copy}) ==> Grown(m, f)
  {
    forall m | Differ(m, g, {copy}) ensures Grown(m, f) {
      forall n | n in f ensures n in m && m[n] == f[n] {
        DifferAt(m, g, {copy}, n);
      }
    }
  }

  /** The first free archive number, if any. */
  method FreeNumber(volume: Volume, name: Name) returns (status: Status, number: nat)
    modifies volume`faults
    ensures status == Success ==> 1 <= number <= 99 && Archive(name, number) !in volume.files
    ensures status == VolumeFull ==> forall k :: 1 <= k <= 99 ==> Archive(name, k) in volume.files
    ensures volume.faults >= old(volume.faults)
    ensures volume.faults == old(volume.faults) ==> status == Success || status == VolumeFull
  {
    number := 1;
    while number <= 99
      invariant 1 <= number <= 100
      invariant forall k :: 1 <= k < number ==> Archive(name, k) in volume.files
      invariant volume.faults >= old(volume.faults)
    {
      var present: bool;
      status, present := volume.Exists(Archive(name, number));
      if status != Success || !present {
        return;
      }
      number := number + 1;
    }
    status := VolumeFull;
  }

  /** The file is absent, or it can be read and one of its archive names is free. */
  ghost predicate CanArchive(f: Files, name: Name) {
    name in f ==> Readable(f, name) && exists k :: 1 <= k <= 99 && Archive(name, k) !in f
  }

  /** Copies one present configuration file to a fresh archive. */
  method ArchiveOne(volume: Volume, name: Name, ghost f: Files) returns (status: Status, present: bool)
    requires volume.files in volume.images && IsConfigName(name)
    requires Grown(volume.files, f) && SourcesFrom(volume.files, f)
    modifies volume
    ensures status == Success ==> (present <==> name in f) && (present ==> Archived(volume.files, f, name))
    ensures Grown(volume.files, f) && SourcesFrom(volume.files, f)
    ensures forall n :: n in f && Archived(old(volume.files), f, n) ==> Archived(volume.files, f, n)
    ensures volume.files in volume.images && old(volume.images) <= volume.images
    ensures forall m :: m in volume.images && m !in old(volume.images) ==> Grown(m, f)
    ensures forall n, k :: n != name ==> (Archive(n, k) in volume.files <==> Archive(n, k) in old(volume.files))
    ensures volume.faults >= old(volume.faults)
    ensures volume.faults == old(volume.faults) && CanArchive(old(volume.files), name) ==> status == Success
  {
    status, present := volume.Exists(name);
    if status != Success || !present {
      return;
    }
    var number: nat;
    status, number := FreeNumber(volume, name);
    if status != Success {
      return;
    }
    ghost var before := volume.files;
    CopyGrows(f, before, Archive(name, number));
    status := volume.CreateVerifiedCopy(name, Archive(name, number));
    ArchivesStay(volume.files, before, f, Archive(name, number));
    if status == Success {
      assert ArchivedAs(volume.files, f, name, number);
    }
  }

  lemma ArchivesStay(m: Files, g: Files, f: Files, copy: Name)
    requires Differ(m, g, {copy}) && copy !in g && !IsConfigName(copy)
    ensures forall n :: n in f && Archived(g, f, n) ==> Archived(m, f, n)
    ensures SourcesFrom(g, f) ==> SourcesFrom(m, f)
    ensures forall n, k :: Archive(n, k) != copy ==> (Archive(n, k) in m <==> Archive(n, k) in g)
  {
    forall n, k | Archive(n, k) != copy ensures Archive(n, k) in m <==> Archive(n, k) in g {
      DifferAt(m, g, {copy}, Archive(n, k));
    }
    forall n | n in f && Archived(g, f, n) ensures Archived(m, f, n) {
      var number :| ArchivedAs(g, f, n, number);
      DifferAt(m, g, {copy}, Archive(n, number));
      assert ArchivedAs(m, f, n, number);
    }
    if SourcesFrom(g, f) {
      forall n | n in m && IsConfigName(n) ensures n in f {
        DifferAt(m, g, {copy}, n);
      }
    }
  }

  /** All configuration files archived, some of them possibly deleted. */
  ghost predicate AllArchived(m: Files, f: Files) {
    && OthersKept(m, f)
    && (forall n :: n in m && IsConfigName(n) ==> n in f && m[n] == f[n])
    && (forall n :: n in f && IsConfigName(n) ==> Archived(m, f, n))
  }

  lemma DeleteKeepsArchives(m: Files, f: Files, name: Name)
    requires AllArchived(m, f) && IsConfigName(name)
    ensures AllArchived(m - {name}, f) && NothingLost(m - {name}, f) && NothingLost(m, f)
  {
    forall n | n in f && IsConfigName(n) ensures Archived(m - {name}, f, n) {
      var number :| ArchivedAs(m, f, n, number);
      assert ArchivedAs(m - {name}, f, n, number);
    }
  }

  /** Setting failed configurations aside.  At every crash or failure point
      nothing is lost; on success the three names are free and their contents are
      archived. */
  method PreserveFailedConfigs(volume: Volume) returns (status: Status)
    requires volume.files in volume.images
    modifies volume
    ensures status == Success ==>
      && (forall n :: n in volume.files ==> !IsConfigName(n))
      && (forall n :: n in old(volume.files) && IsConfigName(n) ==> Archived(volume.files, old(volume.files), n))
    ensures NothingLost(volume.files, old(volume.files)) && old(volume.images) <= volume.images
    ensures forall m :: m in volume.images && m !in old(volume.images) ==> NothingLost(m, old(volume.files))
    // Only a fault, an unreadable file or a full set of archive names makes it fail.
    ensures (&& volume.faults == old(volume.faults)
             && forall n :: IsConfigName(n) ==> CanArchive(old(volume.files), n)) ==> status == Success
  {
    hide CanArchive;
    ghost var f := volume.files;
    var present: seq<bool>;
    status, present := ArchiveAll(volume);
    forall m | Grown(m, f) ensures NothingLost(m, f) {
      GrownIsSafe(m, f);
    }
    hide Grown, NothingLost;
    if status != Success {
      return;
    }
    status := DeleteSources(volume, present, f);
  }

  /** The archive names of n in use are those f used. */
  ghost predicate SameArchives(m: Files, f: Files, n: Name) {
    forall k :: Archive(n, k) in m <==> Archive(n, k) in f
  }

  lemma StillCanArchive(m: Files, f: Files, n: Name)
    requires Grown(m, f) && SourcesFrom(m, f) && SameArchives(m, f, n) && IsConfigName(n)
    ensures CanArchive(f, n) ==> CanArchive(m, n)
  {
    if n in m && CanArchive(f, n) {
      var k :| 1 <= k <= 99 && Archive(n, k) !in f;
      assert Archive(n, k) !in m;
    }
  }

  lemma OtherArchives(m: Files, g: Files, f: Files, name: Name)
    requires forall n, k :: n != name ==> (Archive(n, k) in m <==> Archive(n, k) in g)
    ensures forall n :: n != name && SameArchives(g, f, n) ==> SameArchives(m, f, n)
  {
  }

  method ArchiveAll(volume: Volume) returns (status: Status, present: seq<bool>)
    requires volume.files in volume.images
    modifies volume
    ensures status == Success ==>
      && |present| == 3 && (forall i :: 0 <= i < 3 ==> (present[i] <==> CONFIG_NAMES[i] in old(volume.files)))
      && AllArchived(volume.files, old(volume.files))
    ensures Grown(volume.files, old(volume.files))
    ensures volume.files in volume.images && old(volume.images) <= volume.images
    ensures forall m :: m in volume.images && m !in old(volume.images) ==> Grown(m, old(volume.files))
    ensures volume.faults >= old(volume.faults)
    ensures (&& volume.faults == old(volume.faults)
             && forall n :: IsConfigName(n) ==> CanArchive(old(volume.files), n)) ==> status == Success
  {
    ghost var f := volume.files;
    present := [];
    status := Success;
    for index := 0 to 3
      invariant |present| == index && Grown(volume.files, f) && SourcesFrom(volume.files, f)
      invariant forall i :: 0 <= i < index ==> (present[i] <==> CONFIG_NAMES[i] in f)
      invariant forall i :: 0 <= i < index && CONFIG_NAMES[i] in f ==> Archived(volume.files, f, CONFIG_NAMES[i])
      invariant volume.files in volume.images && old(volume.images) <= volume.images && status == Success
      invariant forall m :: m in volume.images && m !in old(volume.images) ==> Grown(m, f)
      invariant volume.faults >= old(volume.faults)
      invariant forall i :: index <= i < 3 ==> SameArchives(volume.files, f, CONFIG_NAMES[i])
    {
      hide Archived, Grown, SourcesFrom, SameArchives, CanArchive;
      var here: bool;
      StillCanArchive(volume.files, f, CONFIG_NAMES[index]);
      ghost var before := volume.files;
      status, here := ArchiveOne(volume, CONFIG_NAMES[index], f);
      OtherArchives(volume.files, before, f, CONFIG_NAMES[index]);
      if status != Success {
        return;
      }
      present := present + [here];
    }
    assert forall n :: IsConfigName(n) ==> n == CONFIG_NAMES[0] || n == CONFIG_NAMES[1] || n == CONFIG_NAMES[2];
  }

  lemma NotASource(m: Files, f: Files, n: Name)
    requires AllArchived(m, f) && IsConfigName(n)
    ensures n !in f ==> n !in m
  {
  }

  method DeleteSources(volume: Volume, present: seq<bool>, ghost f: Files) returns (status: Status)
    requires volume.files in volume.images && AllArchived(volume.files, f)
    requires |present| == 3 && forall i :: 0 <= i < 3 ==> (present[i] <==> CONFIG_NAMES[i] in f)
    modifies volume
    ensures status == Success ==> forall n :: n in volume.files ==> !IsConfigName(n)
    ensures AllArchived(volume.files, f) && NothingLost(volume.files, f) && old(volume.images) <= volume.images
    ensures forall m :: m in volume.images && m !in old(volume.images) ==> NothingLost(m, f)
    ensures volume.faults >= old(volume.faults) && (volume.faults == old(volume.faults) ==> status == Success)
  {
    hide AllArchived, NothingLost;
    status := Success;
    DeleteKeepsArchives(volume.files, f, Active);
    for index := 0 to 3
      invariant AllArchived(volume.files, f) && NothingLost(volume.files, f) && status == Success
      invariant volume.faults >= old(volume.faults)
      invariant forall i :: 0 <= i < index ==> CONFIG_NAMES[i] !in volume.files
      invariant volume.files in volume.images && old(volume.images) <= volume.images
      invariant forall m :: m in volume.images && m !in old(volume.images) ==> NothingLost(m, f)
    {
      NotASource(volume.files, f, CONFIG_NAMES[index]);
      if present[index] {
        DeleteKeepsArchives(volume.files, f, CONFIG_NAMES[index]);
        status := volume.DeleteIfPresent(CONFIG_NAMES[index]);
        if status != Success {
          return;
        }
      }
    }
    assert forall n :: IsConfigName(n) ==> n == CONFIG_NAMES[0] || n == CONFIG_NAMES[1] || n == CONFIG_NAMES[2];
  }
}
