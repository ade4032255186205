/** Saving a configuration: the edit of an existing one and the first-run
    generation, from the chosen targets down to the file operations. */
module ConfigSave {
  import opened ConfigVolume
  import opened ConfigRecovery
  import opened Basics
  import opened IniText
  import IniParser
  import IniEdit
  import opened IniEditCommutes
  import IniEditExact
  import IniEditCondition

  // --------------------------------------------------------- checking a new text

  /** The text boots from exactly these targets. */
  ghost predicate Targets(bytes: string, n: Choice) {
    match IniParser.Parse(bytes)
    case Err(_) => false
    case Ok(c) => IniParser.BootReady(c) && c.targetPci == Some(n.gpu) && c.controllerPci == Some(n.controller) &&
                  c.disk == Some(n.disk)
  }

  lemma TargetsAreUsable(bytes: string, n: Choice)
    requires Targets(bytes, n)
    ensures IniParser.Usable(bytes) && bytes != ""
  {
    hide IniParser.Meaning, IniParser.Conclude;
  }

  method VerifyComplete(bytes: string, n: Choice) returns (status: Status)
    ensures status == Success <==> Targets(bytes, n)
    ensures status != NotFound
  {
    hide IniParser.Parse;
    var parsed := IniParser.ParseConfigStrict(bytes);
    if parsed.Err? {
      return CompromisedData;
    }
    var core := parsed.value;
    if !IniParser.BootReady(core) || core.disk.None? ||
       core.targetPci.value != n.gpu || core.controllerPci.value != n.controller || core.disk.value != n.disk {
      return CompromisedData;
    }
    return Success;
  }

  // --------------------------------------------------------------------- editing

  /** The values as the save prints them. */
  ghost function PrintedValues(n: Choice): IniEdit.Values
    requires AddressFields(n.gpu) && AddressFields(n.controller) && n.disk != ""
    ensures n.Valid() ==> PrintedValues(n) == n.Texts()
  {
    IniEdit.Values(PrintAddress(n.gpu), PrintAddress(n.controller), IniParser.Encode(n.disk))
  }

  /** The text an edit produces, if it produces one that fits. */
  ghost function EditedText(was: string, n: Choice): Option<string>
    requires AddressFields(n.gpu) && AddressFields(n.controller)
  {
    if !IniParser.Representable(n.disk) then None
    else match IniEdit.Edit(was, PrintedValues(n))
      case None => None
      case Some(pieces) => if |IniEdit.Results(pieces)| < MAX_BYTES then Some(IniEdit.Results(pieces)) else None
  }

  method EditText(was: string, n: Choice) returns (status: Status, text: string)
    requires AddressFields(n.gpu) && AddressFields(n.controller)
    ensures status == Success <==> EditedText(was, n).Some?
    ensures status == Success ==> text == EditedText(was, n).value
  {
    hide IniEdit.Edit, IniEdit.Results, IniParser.Representable, IniParser.Encode;
    var gpu, controller := PrintAddress(n.gpu), PrintAddress(n.controller);
    var edited: IniEdit.Status;
    edited, text := IniEdit.EditTargets(was, gpu, controller, n.disk, MAX_BYTES);
    status := if edited == IniEdit.Edited then Success
              else if edited == IniEdit.Capacity then BadBufferSize else CompromisedData;
  }

  /** The replacement of a usable configuration by an equally usable one, as file
      operations.  Every image recovers to the old bytes or to the new bytes. */
  method ReplaceActive(volume: Volume, text: string) returns (status: Status)
    requires volume.files in volume.images && HasUsable(volume.files, Active) && UsableFile(text)
    modifies volume
    ensures status == Success ==>
      volume.files == (old(volume.files) - {Temp})[Previous := old(volume.files)[Active]][Active := text]
    ensures old(volume.images) <= volume.images && volume.files in volume.images
    ensures forall m :: m in volume.images && m !in old(volume.images) ==> OldOrNew(m, old(volume.files), text)
    ensures OldOrNew(volume.files, old(volume.files), text)
    ensures volume.faults >= old(volume.faults) && (volume.faults == old(volume.faults) ==> status == Success)
  {
    hide IniParser.Usable, OldOrNew;
    ghost var start := volume.files;
    UsableIsNotEmpty(text);
    RotationIsSafe(start, text);
    status := volume.DeleteIfPresent(Previous);
    if status != Success {
      return;
    }
    ghost var rotated := volume.files;
    SaveIsSafe(start, rotated, text);
    var preserved: bool;
    status, preserved := volume.WriteViaTemp(Active, Temp, Replace(Previous), text);
    SavedShape(start, rotated, text);
    if status != Success {
      return;
    }
    var readback: string;
    status, readback := ReadUsable(volume, Active);
    if status == Success && readback != text {
      status := CompromisedData;
    }
  }

  lemma UsableIsNotEmpty(text: string)
    requires UsableFile(text)
    ensures text != "" && |text| <= MAX_BYTES
  {
    hide IniParser.Meaning, IniParser.Conclude;
  }

  /** An image of an edit: nothing but the three configuration names changes, and
      recovery loads exactly the old or exactly the new bytes. */
  ghost predicate OldOrNew(m: Files, f: Files, text: string)
    requires Active in f
  {
    && Differ(m, f, {Active, Temp, Previous})
    && (Recover(m) == Some(f[Active]) || Recover(m) == Some(text))
  }

  lemma RotationIsSafe(f: Files, text: string)
    requires HasUsable(f, Active)
    ensures OldOrNew(f, f, text) && OldOrNew(f - {Previous}, f, text)
  {
    hide UsableFile;
    assert (f - {Previous}) - {Active, Temp, Previous} == f - {Active, Temp, Previous};
  }

  lemma SaveIsSafe(f: Files, g: Files, text: string)
    requires HasUsable(f, Active) && UsableFile(text) && g == f - {Previous}
    ensures forall m :: Held(m, g, Active, Temp, Replace(Previous), text) ==> OldOrNew(m, f, text)
  {
    hide UsableFile;
    forall m | Held(m, g, Active, Temp, Replace(Previous), text) ensures OldOrNew(m, f, text) {
      var touched := {Active, Temp, Previous};
      assert Touched(Active, Temp, Replace(Previous)) == touched;
      assert g - touched == f - touched;
    }
  }

  lemma SavedShape(f: Files, g: Files, text: string)
    requires Active in f && g == f - {Previous}
    ensures Saved(g, Active, Temp, Replace(Previous), text) == (f - {Temp})[Previous := f[Active]][Active := text]
  {
  }

  /** Saving edited targets. */
  method SaveEditedTargets(volume: Volume, n: Choice) returns (status: Status)
    requires volume.files in volume.images && AddressFields(n.gpu) && AddressFields(n.controller)
    modifies volume
    ensures status == Success ==>
      && HasUsable(old(volume.files), Active)
      && EditedText(old(volume.files)[Active], n).Some?
      && Targets(EditedText(old(volume.files)[Active], n).value, n)
      && ValidAddress(n.gpu) && ValidAddress(n.controller)
      && OnlyTargetsChange(old(volume.files)[Active], EditedText(old(volume.files)[Active], n).value, n)
      && volume.files == (old(volume.files) - {Temp})[Previous := old(volume.files)[Active]]
                           [Active := EditedText(old(volume.files)[Active], n).value]
    ensures old(volume.images) <= volume.images && volume.files in volume.images
    ensures !HasUsable(old(volume.files), Active) ==>
      status != Success && volume.files == old(volume.files) && volume.images == old(volume.images)
    ensures HasUsable(old(volume.files), Active) ==>
      forall m :: m in volume.images && m !in old(volume.images) ==> SafeEdit(m, old(volume.files), n)
    // Only a fault makes a save fail that has a correct edit.
    ensures volume.faults >= old(volume.faults)
    ensures (&& volume.faults == old(volume.faults) && HasUsable(old(volume.files), Active)
             && EditedText(old(volume.files)[Active], n).Some?
             && Targets(EditedText(old(volume.files)[Active], n).value, n)) ==> status == Success
  {
    hide UsableFile, Targets, EditedText, OldOrNew, OnlyTargetsChange;
    var was: string;
    status, was := ReadUsable(volume, Active);
    if status != Success {
      return;
    }
    var text: string;
    status, text := EditText(was, n);
    if status != Success {
      return;
    }
    EditedFits(was, n);
    status := VerifyComplete(text, n);
    if status != Success {
      return;
    }
    TargetsFile(text, n);
    TargetsAreValid(text, n);
    UsableParses(was);
    EditKeepsMeaning(was, n);
    status := ReplaceActive(volume, text);
  }

  /** An image during an edit with these targets. */
  ghost predicate SafeEdit(m: Files, f: Files, n: Choice)
    requires Active in f && AddressFields(n.gpu) && AddressFields(n.controller)
  {
    EditedText(f[Active], n).Some? && OldOrNew(m, f, EditedText(f[Active], n).value)
  }

  lemma EditedFits(was: string, n: Choice)
    requires AddressFields(n.gpu) && AddressFields(n.controller) && EditedText(was, n).Some?
    ensures |EditedText(was, n).value| < MAX_BYTES
  {
    hide IniEdit.Edit, IniEdit.Results, IniParser.Representable;
  }

  /** A text can only select addresses the format can express, so a save with any
      other address is refused. */
  lemma TargetsAreValid(text: string, n: Choice)
    requires Targets(text, n)
    ensures ValidAddress(n.gpu) && ValidAddress(n.controller)
  {
    IniParser.ParsedTargetsAreValid(text);
    hide IniParser.Parse;
  }

  lemma TargetsFile(text: string, n: Choice)
    requires Targets(text, n) && |text| < MAX_BYTES
    ensures UsableFile(text)
  {
    TargetsAreUsable(text, n);
  }

  /** The new text means the old configuration with the three targets replaced and
      everything else as it was. */
  ghost predicate OnlyTargetsChange(was: string, text: string, n: Choice) {
    && IniParser.Parse(was).Ok?
    && IniParser.Parse(text) == IniParser.Ok(IniEditExact.Retargeted(IniParser.Parse(was).value, n))
  }

  lemma UsableParses(was: string)
    requires UsableFile(was)
    ensures IniParser.Parse(was).Ok?
  {
    hide IniParser.Parse;
  }

  lemma EditedTextIs(was: string, n: Choice)
    requires AddressFields(n.gpu) && AddressFields(n.controller) && EditedText(was, n).Some?
    requires ValidAddress(n.gpu) && ValidAddress(n.controller)
    ensures n.Valid() && IniEditExact.EditOf(was, n) == EditedText(was, n)
  {
    hide IniEdit.Edit, IniEdit.Results;
  }

  /** Whatever the old text looks like, an edit that passes the check changes
      nothing but the targets. */
  lemma EditKeepsMeaning(was: string, n: Choice)
    requires AddressFields(n.gpu) && AddressFields(n.controller) && IniParser.Parse(was).Ok?
    requires EditedText(was, n).Some? && Targets(EditedText(was, n).value, n)
    ensures OnlyTargetsChange(was, EditedText(was, n).value, n)
  {
    TargetsAreValid(EditedText(was, n).value, n);
    EditedTextIs(was, n);
    hide EditedText, IniParser.Parse, IniEditExact.EditOf, IniParser.Representable;
    IniEditExact.EditCommutesExactly(was, n);
  }

  /** For a boot configuration the check accepts exactly the edits that change
      nothing but the targets. */
  lemma CheckAcceptsExactly(was: string, n: Choice)
    requires AddressFields(n.gpu) && AddressFields(n.controller) && EditedText(was, n).Some?
    requires IniParser.Parse(was).Ok? && IniParser.BootReady(IniParser.Parse(was).value)
    ensures Targets(EditedText(was, n).value, n) <==> OnlyTargetsChange(was, EditedText(was, n).value, n)
  {
    if Targets(EditedText(was, n).value, n) {
      EditKeepsMeaning(was, n);
    }
    hide EditedText, IniParser.Parse;
  }

  /** Told from the old text alone: an edit of a boot configuration that fits passes
      the check exactly when the text is editable. */
  lemma CheckAcceptsEditable(was: string, n: Choice)
    requires n.Valid() && n.gpu != n.controller && EditedText(was, n).Some?
    requires IniParser.Parse(was).Ok? && IniParser.BootReady(IniParser.Parse(was).value)
    ensures Targets(EditedText(was, n).value, n) <==> IniEditCondition.Editable(was, n)
  {
    EditedTextIs(was, n);
    CheckAcceptsExactly(was, n);
    hide EditedText, IniParser.Parse, IniEditExact.EditOf, IniParser.Representable, IniEditCondition.Editable, Targets;
    IniEditCondition.EditCommutesIffEditable(was, n);
  }

  /** With carriage returns only in runs at line ends and a well-formed choice, the
      check never refuses the edit of a boot configuration. */
  lemma TidyEditIsAccepted(was: string, n: Choice)
    requires TidyReturns(was) && IniParser.Parse(was).Ok? && IniParser.BootReady(IniParser.Parse(was).value)
    requires n.Valid() && n.gpu != n.controller && EditedText(was, n).Some?
    ensures Targets(EditedText(was, n).value, n)
  {
    EditCommutesWithParsing(was, n);
    hide IniEdit.Edit, IniEdit.Results, IniParser.Parse, IniParser.Representable;
  }
}
