/** First-run generation of the configuration, and the discovery report. */
module ConfigGenerate {
  import opened ConfigVolume
  import opened ConfigRecovery
  import opened ConfigSave
  import opened Basics
  import opened IniText
  import IniParser
  import IniFormat
  import IniFormatMeaning
  import IniWriter
  import opened IniEditCommutes

  // --------------------------------------------------------- checking a new text

  /** The text selects exactly the given targets, or none. */
  ghost predicate Selects(bytes: string, selection: Option<Choice>) {
    match selection
    case Some(n) => Targets(bytes, n)
    case None => match IniParser.Parse(bytes)
      case Err(_) => false
      case Ok(c) => c.targetPci.None? && c.controllerPci.None? && c.disk.None?
  }

  method VerifyGenerated(bytes: string, selection: Option<Choice>) returns (status: Status)
    ensures status == Success <==> Selects(bytes, selection)
  {
    hide IniParser.Parse;
    if selection.Some? {
      status := VerifyComplete(bytes, selection.value);
      return;
    }
    var parsed := IniParser.ParseConfigStrict(bytes);
    if parsed.Err? || parsed.value.targetPci.Some? || parsed.value.controllerPci.Some? || parsed.value.disk.Some? {
      return CompromisedData;
    }
    status := Success;
  }

  method ReadBack(volume: Volume, name: Name, text: string, selection: Option<Choice>) returns (status: Status)
    modifies volume`faults
    ensures status == Success ==> Readable(volume.files, name) && volume.files[name] == text && Selects(text, selection)
    ensures volume.faults >= old(volume.faults)
    ensures (&& volume.faults == old(volume.faults) && Readable(volume.files, name) && volume.files[name] == text
             && Selects(text, selection)) ==> status == Success
  {
    status := volume.Confirm(name, text);
    if status == Success {
      status := VerifyGenerated(text, selection);
    }
  }

  // ------------------------------------------------------------------- first run

  /** An image of the first run: an existing configuration or recovery copy is
      never touched, and a new configuration is complete.  (With a recovery copy
      already there, the final load may put that copy back as the configuration.) */
  ghost predicate FirstRunImage(m: Files, f: Files, text: string) {
    && Differ(m, f, {Active, Temp, Previous})
    && (Active in f ==> Active in m && m[Active] == f[Active])
    && (Previous in f ==> Previous in m && m[Previous] == f[Previous])
    && (Active !in f && Previous !in f && Active in m ==> m[Active] == text)
  }

  lemma FirstRunHeld(f: Files, text: string)
    ensures forall m :: Held(m, f, Active, Temp, MustNotExist, text) ==> FirstRunImage(m, f, text)
  {
    forall m | Held(m, f, Active, Temp, MustNotExist, text) ensures FirstRunImage(m, f, text) {
      var touched := {Active, Temp};
      assert Touched(Active, Temp, MustNotExist) == touched;
      DifferAt(m, f, touched, Previous);
      DifferMore(m, f, f, touched, {Previous});
      assert touched + {Previous} == {Active, Temp, Previous};
    }
  }

  lemma FirstRunCopy(f: Files, g: Files, text: string)
    requires FirstRunImage(g, f, text)
    ensures Active !in f ==> FirstRunImage(g - {Active}, f, text)
    ensures Previous !in f ==> forall m :: Differ(m, g, {Previous}) ==> FirstRunImage(m, f, text)
    ensures Previous in f && Active !in f ==> forall m :: Differ(m, g, {Active}) ==> FirstRunImage(m, f, text)
  {
    assert g - {Active} - {Active, Temp, Previous} == g - {Active, Temp, Previous};
    if Previous in f && Active !in f {
      forall m | Differ(m, g, {Active}) ensures FirstRunImage(m, f, text) {
        DifferAt(m, g, {Active}, Previous);
        DifferMore(m, g, f, {Active}, {Active, Temp, Previous});
        assert {Active} + {Active, Temp, Previous} == {Active, Temp, Previous};
      }
    }
    if Previous !in f {
      forall m | Differ(m, g, {Previous}) ensures FirstRunImage(m, f, text) {
        DifferAt(m, g, {Previous}, Active);
        DifferMore(m, g, f, {Previous}, {Active, Temp, Previous});
        assert {Previous} + {Active, Temp, Previous} == {Active, Temp, Previous};
      }
    }
  }

  /** Writes the new configuration, reads it back and loads it, and then adds its
      recovery copy.  A configuration that fails these checks is deleted again:
      `written` says that the file was in place, `checkFaults` how many faults there
      had been when the checks ended. */
  method PublishActive(volume: Volume, text: string, n: Choice)
    returns (status: Status, ghost written: bool, ghost checkFaults: nat)
    requires volume.files in volume.images
    modifies volume
    ensures status == Success ==>
      && Targets(text, n) && Active !in old(volume.files)
      && volume.files == (old(volume.files) - {Temp})[Active := text][Previous := text]
    ensures old(volume.images) <= volume.images && volume.files in volume.images
    ensures FirstRunImage(volume.files, old(volume.files), text)
    ensures forall m :: m in volume.images && m !in old(volume.images) ==> FirstRunImage(m, old(volume.files), text)
    ensures volume.faults >= old(volume.faults)
    ensures (&& volume.faults == old(volume.faults) && Active !in old(volume.files) && Previous !in old(volume.files)
             && Targets(text, n) && 0 < |text| <= MAX_BYTES) ==> status == Success
    // After a failed check the directory has no configuration, unless the deletion faults.
    ensures status == Success ==> written
    ensures !written && Active !in old(volume.files) && 0 < |text| <= MAX_BYTES ==> volume.faults > old(volume.faults)
    ensures written && status != Success && volume.faults == checkFaults && Previous !in old(volume.files) ==>
      Active !in volume.files
  {
    hide Targets, FirstRunImage, Held;
    written, checkFaults := false, volume.faults;
    SelectsTargets(text, n);
    FirstRunStart(volume.files, text);
    ghost var start := volume.files;
    var preserved: bool;
    FirstRunHeld(start, text);
    status, preserved := volume.WriteViaTemp(Active, Temp, MustNotExist, text);
    if status != Success {
      return;
    }
    written := true;
    SavedFirstRun(start, text);
    FirstRunCopy(start, volume.files, text);
    status := ReadBack(volume, Active, text, Some(n));
    if status == Success {
      TargetsBoot(text, n);
      status := ReloadActive(volume);
      FirstRunCopy(start, volume.files, text);
    }
    checkFaults := volume.faults;
    if status != Success {
      var cleanup := volume.DeleteIfPresent(Active);
      status := if cleanup != Success then cleanup else status;
      return;
    }
    status := volume.CreateVerifiedCopy(Active, Previous);
  }

  lemma SavedFirstRun(f: Files, text: string)
    requires Active !in f
    ensures var g := Saved(f, Active, Temp, MustNotExist, text);
      && Temp !in g && Active in g && g[Active] == text && (Previous in g <==> Previous in f)
      && g[Previous := text] == (f - {Temp})[Active := text][Previous := text]
  {
  }

  lemma FirstRunStart(f: Files, text: string)
    ensures FirstRunImage(f, f, text)
  {
  }

  /** A complete boot configuration with a disk name. */
  predicate Boots(bytes: string) {
    match IniParser.Parse(bytes)
    case Err(_) => false
    case Ok(c) => IniParser.BootReady(c) && c.disk.Some?
  }

  lemma TargetsBoot(bytes: string, n: Choice)
    requires Targets(bytes, n)
    ensures Boots(bytes) && IniParser.Usable(bytes)
  {
    TargetsAreUsable(bytes, n);
    hide IniParser.Parse;
  }

  /** The final load of the new file and its boot requirements.  The load may
      recover, so with a recovery copy present it may rewrite the active file. */
  method ReloadActive(volume: Volume) returns (status: Status)
    requires volume.files in volume.images
    modifies volume
    ensures status == Success ==> Active in volume.files && Boots(volume.files[Active])
    ensures Previous !in old(volume.files) && Temp !in old(volume.files) ==>
      volume.files == old(volume.files) && volume.images == old(volume.images)
    ensures Differ(volume.files, old(volume.files), {Active})
    ensures volume.files in volume.images && old(volume.images) <= volume.images && volume.faults >= old(volume.faults)
    ensures forall m :: m in volume.images && m !in old(volume.images) ==> Differ(m, old(volume.files), {Active})
    ensures (&& volume.faults == old(volume.faults) && HasUsable(old(volume.files), Active)
             && Boots(old(volume.files)[Active])) ==> status == Success && volume.files == old(volume.files)
  {
    hide IniParser.Parse, UsableFile, Differ;
    var bytes: string;
    status, bytes := LoadRecoverable(volume);
    if status == NotFound {
      return CompromisedData;  // the defaults are no boot configuration
    }
    if status != Success {
      return;
    }
    var parsed := IniParser.ParseConfigStrict(bytes);
    if parsed.Err? || !IniParser.BootReady(parsed.value) || parsed.value.disk.None? {
      status := CompromisedData;
    }
  }

  // ------------------------------------------------------------------ the report

  /** An image of a report: no configuration file is touched, and the report is
      old, new, or still in its rollback copy. */
  ghost predicate ReportImage(m: Files, f: Files, text: string) {
    && Differ(m, f, {Probe, ProbeTemp, ProbeRollback})
    && (Probe in f ==>
          || (Probe in m && (m[Probe] == f[Probe] || m[Probe] == text))
          || (ProbeRollback in m && m[ProbeRollback] == f[Probe]))
  }

  const REPORT: set<Name> := {Probe, ProbeTemp, ProbeRollback}

  lemma ReportHeld(f: Files, text: string)
    ensures forall m :: Held(m, f, Probe, ProbeTemp, Replace(ProbeRollback), text) ==> ReportImage(m, f, text)
  {
    assert Touched(Probe, ProbeTemp, Replace(ProbeRollback)) == REPORT;
  }

  /** Restoring from the copy, while the copy is intact. */
  lemma ReportRestore(f: Files, g: Files, text: string)
    requires ReportImage(g, f, text) && Probe in f && ProbeRollback in g && g[ProbeRollback] == f[Probe]
    ensures forall m :: Differ(m, g, {Probe}) ==> ReportImage(m, f, text)
  {
    forall m | Differ(m, g, {Probe}) ensures ReportImage(m, f, text) {
      DifferAt(m, g, {Probe}, ProbeRollback);
      DifferMore(m, g, f, {Probe}, REPORT);
      assert {Probe} + REPORT == REPORT;
    }
  }

  lemma ReportCleanup(f: Files, g: Files, text: string, name: Name)
    requires ReportImage(g, f, text) && name in REPORT
    requires Probe in f ==> name == ProbeRollback && Probe in g && (g[Probe] == f[Probe] || g[Probe] == text)
    ensures ReportImage(g - {name}, f, text)
  {
    assert g - {name} - REPORT == g - REPORT;
  }

  /** Puts the old report back after a failure. */
  method UndoReport(volume: Volume, ghost f: Files, ghost text: string) returns (status: Status)
    requires volume.files in volume.images && ReportImage(volume.files, f, text) && Probe in f
    requires ProbeRollback in volume.files && volume.files[ProbeRollback] == f[Probe]
    modifies volume
    ensures old(volume.images) <= volume.images && volume.files in volume.images
    ensures ReportImage(volume.files, f, text)
    ensures status == Success ==> Probe in volume.files && volume.files[Probe] == f[Probe]
    ensures volume.faults >= old(volume.faults)
    ensures forall m :: m in volume.images && m !in old(volume.images) ==> ReportImage(m, f, text)
  {
    hide ReportImage;
    ReportRestore(f, volume.files, text);
    status := volume.RestoreRollback(Probe, ProbeRollback);
    if status == Success {
      ReportCleanup(f, volume.files, text, ProbeRollback);
      status := volume.DeleteIfPresent(ProbeRollback);
    }
  }

  method PublishReport(volume: Volume, text: string, selection: Option<Choice>) returns (status: Status)
    requires volume.files in volume.images
    modifies volume
    ensures status == Success ==>
      Selects(text, selection) && volume.files == old(volume.files)[Probe := text] - {ProbeTemp} - {ProbeRollback}
    ensures old(volume.images) <= volume.images && volume.files in volume.images
    ensures ReportImage(volume.files, old(volume.files), text)
    ensures forall m :: m in volume.images && m !in old(volume.images) ==> ReportImage(m, old(volume.files), text)
    ensures volume.faults >= old(volume.faults)
    ensures (&& volume.faults == old(volume.faults) && ProbeRollback !in old(volume.files)
             && (Probe in old(volume.files) ==> Readable(old(volume.files), Probe))
             && Selects(text, selection) && 0 < |text| <= MAX_BYTES) ==> status == Success
  {
    hide Selects, ReportImage;
    ghost var start := volume.files;
    var preserved: bool;
    ReportHeld(start, text);
    status, preserved := volume.WriteViaTemp(Probe, ProbeTemp, Replace(ProbeRollback), text);
    if status != Success {
      if preserved {
        var undone := UndoReport(volume, start, text);
        status := if undone != Success then undone else status;
      }
      return;
    }
    status := FinishReport(volume, text, selection, preserved, start);
  }

  method FinishReport(volume: Volume, text: string, selection: Option<Choice>, preserved: bool, ghost f: Files)
    returns (status: Status)
    requires volume.files in volume.images && ReportImage(volume.files, f, text)
    requires volume.files == Saved(f, Probe, ProbeTemp, Replace(ProbeRollback), text) && (preserved <==> Probe in f)
    requires ProbeRollback !in f
    requires preserved ==> ProbeRollback in volume.files && volume.files[ProbeRollback] == f[Probe]
    modifies volume
    ensures status == Success ==>
      Selects(text, selection) && volume.files == f[Probe := text] - {ProbeTemp} - {ProbeRollback}
    ensures old(volume.images) <= volume.images && volume.files in volume.images
    ensures ReportImage(volume.files, f, text)
    ensures forall m :: m in volume.images && m !in old(volume.images) ==> ReportImage(m, f, text)
    ensures volume.faults >= old(volume.faults)
    ensures volume.faults == old(volume.faults) && Selects(text, selection) && |text| <= MAX_BYTES ==> status == Success
  {
    hide Selects, ReportImage;
    status := ReadBack(volume, Probe, text, selection);
    if status != Success {
      var cleanup: Status;
      if preserved {
        cleanup := UndoReport(volume, f, text);
      } else {
        ReportCleanup(f, volume.files, text, Probe);
        cleanup := volume.DeleteIfPresent(Probe);
      }
      status := if cleanup != Success then cleanup else status;
      return;
    }
    if preserved {
      ReportCleanup(f, volume.files, text, ProbeRollback);
      status := volume.DeleteIfPresent(ProbeRollback);
    }
  }

  // -------------------------------------------------------------- the operation

  function Selected(displays: seq<IniFormat.Display>, sd: Option<nat>, storage: seq<IniFormat.Storage>,
                    ss: Option<nat>):
    Option<Choice>
    requires (sd.Some? ==> sd.value < |displays|) && (ss.Some? ==> ss.value < |storage|)
  {
    if sd.Some? && ss.Some?
    then Some(Choice(displays[sd.value].address, storage[ss.value].address,
                     IniFormat.CString(storage[ss.value].description)))
    else None
  }

  /** Nothing is in the way of a first-run configuration, or of a report. */
  predicate MayPublish(f: Files, active: bool) {
    if active then Active !in f && Previous !in f
    else ProbeRollback !in f && (Probe in f ==> Readable(f, Probe))
  }

  function GeneratedText(displays: seq<IniFormat.Display>, sd: Option<nat>, storage: seq<IniFormat.Storage>,
                         ss: Option<nat>): string {
    IniFormat.Join(IniFormat.IniLinesOf(displays, sd, storage, ss))
  }

  /** The operation.  An edit saves the selected targets into the existing
      configuration; otherwise a text is generated and published. */
  method WriteCandidateIni(volume: Volume, displays: seq<IniFormat.Display>, sd: Option<nat>,
                           storage: seq<IniFormat.Storage>, ss: Option<nat>, firstRun: bool, editing: bool)
    returns (status: Status)
    requires volume.files in volume.images && (forall s :: s in storage ==> s.Valid())
    requires (forall d :: d in displays ==> AddressFields(d.address))
    requires forall s :: s in storage ==> AddressFields(s.address)
    modifies volume
    ensures status == Success ==> (sd.Some? ==> sd.value < |displays|) && (ss.Some? ==> ss.value < |storage|)
    // An edit.
    ensures editing && status == Success ==>
      && Selected(displays, sd, storage, ss).Some?
      && Edited(volume.files, old(volume.files), Selected(displays, sd, storage, ss).value)
    ensures editing && (sd.None? || ss.None? || !HasUsable(old(volume.files), Active)) ==>
      status != Success && volume.files == old(volume.files) && volume.images == old(volume.images)
    ensures (&& editing && sd.Some? && ss.Some? && sd.value < |displays| && ss.value < |storage|
             && HasUsable(old(volume.files), Active)) ==>
      forall m :: m in volume.images && m !in old(volume.images) ==>
        SafeEdit(m, old(volume.files), Selected(displays, sd, storage, ss).value)
    // A generation.
    ensures !editing && status == Success ==>
      && IniFormat.ValidSelections(displays, sd, storage, ss)
      && Selects(GeneratedText(displays, sd, storage, ss), Selected(displays, sd, storage, ss))
      && volume.files == Generated(old(volume.files), GeneratedText(displays, sd, storage, ss),
                                   firstRun && sd.Some? && ss.Some?)
    ensures !editing ==>
      forall m :: m in volume.images && m !in old(volume.images) ==>
        GeneratedImage(m, old(volume.files), GeneratedText(displays, sd, storage, ss),
                       firstRun && sd.Some? && ss.Some?)
    ensures (&& !editing && volume.faults == old(volume.faults) && IniFormat.ValidSelections(displays, sd, storage, ss)
             && Selects(GeneratedText(displays, sd, storage, ss), Selected(displays, sd, storage, ss))
             && MayPublish(old(volume.files), firstRun && sd.Some? && ss.Some?)) ==> status == Success
  {
    hide IniFormat.Join, IniFormat.IniLinesOf, IniFormat.CString, Selects, GeneratedImage, SafeEdit, UsableFile;
    hide Targets;
    hide OnlyTargetsChange;
    hide IniParser.Representable, IniFormat.SelectsExactly, EditedText;
    if |displays| > IniFormat.MAX_DISPLAYS || |storage| > IniFormat.MAX_STORAGE ||
       (sd.Some? && sd.value >= |displays|) || (ss.Some? && ss.value >= |storage|) {
      return InvalidParameter;
    }
    if !editing {
      status := Generate(volume, displays, sd, storage, ss, firstRun);
      return;
    }
    if sd.None? || ss.None? {
      return NotFound;
    }
    status := SaveEditedTargets(volume, Selected(displays, sd, storage, ss).value);
  }

  /** The directory after a successful edit. */
  ghost predicate Edited(g: Files, f: Files, n: Choice)
    requires AddressFields(n.gpu) && AddressFields(n.controller)
  {
    && HasUsable(f, Active) && EditedText(f[Active], n).Some?
    && Targets(EditedText(f[Active], n).value, n)
    && OnlyTargetsChange(f[Active], EditedText(f[Active], n).value, n)
    && g == (f - {Temp})[Previous := f[Active]][Active := EditedText(f[Active], n).value]
  }

  /** The directory after a successful generation. */
  function Generated(f: Files, text: string, active: bool): Files {
    if active then (f - {Temp})[Active := text][Previous := text]
    else f[Probe := text] - {ProbeTemp} - {ProbeRollback}
  }

  ghost predicate GeneratedImage(m: Files, f: Files, text: string, active: bool) {
    if active then FirstRunImage(m, f, text) else ReportImage(m, f, text)
  }

  /** Generates and publishes: the active configuration on a complete first run,
      and otherwise only the report. */
  method Generate(volume: Volume, displays: seq<IniFormat.Display>, sd: Option<nat>,
                  storage: seq<IniFormat.Storage>, ss: Option<nat>, firstRun: bool) returns (status: Status)
    requires volume.files in volume.images && (forall s :: s in storage ==> s.Valid())
    requires (sd.Some? ==> sd.value < |displays|) && (ss.Some? ==> ss.value < |storage|)
    modifies volume
    ensures status == Success ==>
      && IniFormat.ValidSelections(displays, sd, storage, ss)
      && Selects(GeneratedText(displays, sd, storage, ss), Selected(displays, sd, storage, ss))
      && volume.files == Generated(old(volume.files), GeneratedText(displays, sd, storage, ss),
                                   firstRun && sd.Some? && ss.Some?)
    ensures forall m :: m in volume.images && m !in old(volume.images) ==>
      GeneratedImage(m, old(volume.files), GeneratedText(displays, sd, storage, ss), firstRun && sd.Some? && ss.Some?)
    // Only a fault, or a name in the way, makes a correct selection fail.
    ensures (&& volume.faults == old(volume.faults) && IniFormat.ValidSelections(displays, sd, storage, ss)
             && Selects(GeneratedText(displays, sd, storage, ss), Selected(displays, sd, storage, ss))
             && MayPublish(old(volume.files), firstRun && sd.Some? && ss.Some?)) ==> status == Success
  {
    hide IniFormat.Join, IniFormat.IniLinesOf, IniFormat.CString, Selects, FirstRunImage, ReportImage;
    hide IniParser.Representable, IniFormat.SelectsExactly;
    var formatted := IniWriter.FormatCandidateIni(displays, sd, storage, ss, IniFormat.INI_BYTES);
    if !formatted.Success? {
      return BadBufferSize;
    }
    var text, selection := formatted.text, Selected(displays, sd, storage, ss);
    status := VerifyGenerated(text, selection);
    if status != Success {
      return;
    }
    SelectsNotEmpty(text, selection);
    if firstRun && selection.Some? {
      SelectsTargets(text, selection.value);
      ghost var written, checkFaults;
      status, written, checkFaults := PublishActive(volume, text, selection.value);
    } else {
      status := PublishReport(volume, text, selection);
    }
  }

  lemma SelectsNotEmpty(text: string, selection: Option<Choice>)
    requires Selects(text, selection)
    ensures text != ""
  {
    hide IniParser.Meaning, IniParser.Conclude;
  }

  lemma SelectsTargets(text: string, n: Choice)
    ensures Selects(text, Some(n)) <==> Targets(text, n)
  {
    hide Targets;
  }

  /** A parse with the generated policies selects what its targets say. */
  lemma ParsedSelects(bytes: string, c: IniParser.Config, selection: Option<Choice>)
    requires IniParser.Parse(bytes) == IniParser.Ok(c) && c.settings == IniFormatMeaning.GENERATED_SETTINGS
    requires match selection
      case None => c.targetPci.None? && c.controllerPci.None? && c.disk.None?
      case Some(n) => c.targetPci == Some(n.gpu) && c.controllerPci == Some(n.controller) && c.disk == Some(n.disk)
    ensures Selects(bytes, selection)
  {
    hide IniParser.Parse;
  }

  lemma RefusedSelects(bytes: string, selection: Option<Choice>)
    requires IniParser.Parse(bytes).Err?
    ensures !Selects(bytes, selection)
  {
    hide IniParser.Parse;
  }

  /** The check of the generated text never refuses a well-formed selection of
      two different addresses, and refuses one whose addresses coincide. */
  lemma GeneratedTextSelects(displays: seq<IniFormat.Display>, sd: Option<nat>,
                             storage: seq<IniFormat.Storage>, ss: Option<nat>)
    requires IniFormatMeaning.WellFormedCandidates(displays, sd, storage, ss)
    ensures Selects(GeneratedText(displays, sd, storage, ss), Selected(displays, sd, storage, ss)) <==>
            !(sd.Some? && ss.Some? && displays[sd.value].address == storage[ss.value].address)
  {
    hide IniParser.Parse, IniFormat.Join, IniFormat.IniLinesOf, IniFormat.CString, Selects;
    hide IniParser.Representable, IniFormat.SelectsExactly;
    IniFormatMeaning.FormatParseRoundTrip(displays, sd, storage, ss);
    var text := GeneratedText(displays, sd, storage, ss);
    var selection := Selected(displays, sd, storage, ss);
    if sd.Some? && ss.Some? && displays[sd.value].address == storage[ss.value].address {
      RefusedSelects(text, selection);
    } else {
      ParsedSelects(text, IniFormatMeaning.Selection(displays, sd, storage, ss), selection);
    }
  }
}
