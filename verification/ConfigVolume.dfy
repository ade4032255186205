/** The configuration directory as a sequence of file operations, any of which
    may fail or be cut short.

    The volume keeps the set of every directory image that a crash could have
    left behind.  A write may be torn: any bytes, but no more than were to be
    written.  A delete or a rename is atomic; its status is not believed, it may
    report failure after taking effect or success without effect.  Reads are
    honest, but they may fail. */
module ConfigVolume {

  datatype Name =
    | Active                              // Config.ini
    | Previous                            // Config.ini.previous
    | Temp                                // Config.ini.tmp
    | Probe | ProbeTemp | ProbeRollback   // the discovery report and its helpers
    | Archive(of: Name, number: nat)      // *.invalid-NN

  type Files = map<Name, string>

  const MAX_BYTES: nat := 65536

  datatype Status = Success | NotFound | AccessDenied | CompromisedData | BadBufferSize
                  | InvalidParameter | VolumeFull | Aborted | DeviceError

  /** How a save treats a target that exists. */
  datatype Mode = MustNotExist | Replace(rollback: Name)

  /** A file of a size that reading accepts. */
  predicate Readable(f: Files, name: Name) {
    name in f && |f[name]| <= MAX_BYTES
  }

  /** Two images that differ at most in the named files. */
  ghost predicate Differ(a: Files, b: Files, names: set<Name>) {
    a - names == b - names
  }

  lemma DifferAt(a: Files, b: Files, names: set<Name>, k: Name)
    requires Differ(a, b, names) && k !in names
    ensures k in a <==> k in b
    ensures k in a ==> a[k] == b[k]
  {
    assert k in a <==> k in a - names;
    assert k in b <==> k in b - names;
    assert k in a ==> (a - names)[k] == a[k];
    assert k in b ==> (b - names)[k] == b[k];
  }

  lemma DifferIntro(a: Files, b: Files, names: set<Name>)
    requires forall k :: k !in names ==> (k in a <==> k in b) && (k in a ==> a[k] == b[k])
    ensures Differ(a, b, names)
  {
    var x, y := a - names, b - names;
    assert forall k :: k in x <==> k in y;
    assert forall k :: k in x ==> x[k] == y[k];
  }

  lemma DifferMore(a: Files, b: Files, c: Files, n: set<Name>, m: set<Name>)
    requires Differ(a, b, n) && Differ(b, c, m)
    ensures Differ(a, c, n + m)
  {
    forall k | k !in n + m ensures (k in a <==> k in c) && (k in a ==> a[k] == c[k]) {
      DifferAt(a, b, n, k);
      DifferAt(b, c, m, k);
    }
    DifferIntro(a, c, n + m);
  }

  class Volume {
    var files: Files
    /** Every image a crash could have left. */
    ghost var images: iset<Files>
    /** How often an operation failed, or did not do what it reported. */
    ghost var faults: nat

    constructor (initial: Files)
      ensures files == initial && images == iset{initial} && faults == 0
    {
      files := initial;
      images := iset{initial};
      faults := 0;
    }

    // ------------------------------------------------------- the firmware's calls

    method Fails() returns (failed: bool)
      modifies this`faults
      ensures failed ==> faults == old(faults) + 1
      ensures !failed ==> faults == old(faults)
    {
      failed := *;
      if failed {
        faults := faults + 1;
      }
    }

    method Delete(name: Name) returns (ok: bool)
      modifies this
      ensures files == old(files) || files == old(files) - {name}
      ensures images == old(images) + iset{files} && faults >= old(faults)
      ensures faults == old(faults) ==> ok && files == old(files) - {name}
    {
      ok := *;
      var effective := *;
      if effective {
        files := files - {name};
      }
      images := images + iset{files};
      if !ok || !effective {
        faults := faults + 1;
      }
    }

    method Create(name: Name) returns (ok: bool)
      requires name !in files
      modifies this
      ensures files == old(files)[name := ""] || (!ok && files == old(files))
      ensures images == old(images) + iset{files} && faults >= old(faults)
      ensures faults == old(faults) ==> ok
    {
      ok := *;
      var effective := *;
      if ok || effective {
        files := files[name := ""];
      }
      images := images + iset{files};
      if !ok {
        faults := faults + 1;
      }
    }

    /** A write into an empty file.  Any bytes may arrive, at any moment. */
    method Write(name: Name, text: string) returns (ok: bool)
      requires name in files && files[name] == ""
      modifies this
      ensures name in files && |files[name]| <= |text| && files == old(files)[name := files[name]]
      ensures files in images && old(images) <= images && faults >= old(faults)
      ensures faults == old(faults) ==> ok && files[name] == text
      ensures forall torn: string :: |torn| <= |text| ==> old(files)[name := torn] in images
      ensures forall m :: m in images && m !in old(images) ==> Differ(m, old(files), {name})
    {
      ok := *;
      var arrived: string := *;
      if |arrived| > |text| {
        arrived := text;
      }
      images := images + (iset torn: string | |torn| <= |text| :: files[name := torn]);
      files := files[name := arrived];
      if !ok || arrived != text {
        faults := faults + 1;
      }
    }

    /** A rename of an open file; `at` is where the file is afterwards. */
    method Rename(from: Name, to: Name) returns (ok: bool, at: Name)
      requires from in files
      modifies this
      ensures (at == from && files == old(files)) ||
              (at == to && to !in old(files) && files == old(files)[to := old(files)[from]] - {from})
      ensures images == old(images) + iset{files} && faults >= old(faults)
      ensures faults == old(faults) ==> if to in old(files) then !ok else ok && at == to
    {
      ok := *;
      at := from;
      var effective := *;
      if effective && to !in files {
        at := to;
        files := files[to := files[from]] - {from};
      }
      images := images + iset{files};
      if ok != (to !in old(files)) || (ok && at == from) {
        faults := faults + 1;
      }
    }

    // --------------------------------------------------------- reading and deleting

    method ReadFile(name: Name) returns (status: Status, bytes: string)
      modifies this`faults
      ensures status == Success ==> name in files && bytes == files[name] && |bytes| <= MAX_BYTES
      ensures status == NotFound ==> name !in files
      ensures status != Aborted && faults >= old(faults)
      ensures faults == old(faults) ==>
        status == if name !in files then NotFound else if |files[name]| > MAX_BYTES then BadBufferSize else Success
    {
      bytes := "";
      var failed := Fails();
      if failed {
        return DeviceError, "";
      }
      if name !in files {
        return NotFound, "";
      }
      if |files[name]| > MAX_BYTES {
        return BadBufferSize, "";
      }
      return Success, files[name];
    }

    method Exists(name: Name) returns (status: Status, present: bool)
      modifies this`faults
      ensures status == Success || status == DeviceError
      ensures status == Success ==> (present <==> name in files)
      ensures faults >= old(faults) && (faults == old(faults) ==> status == Success)
    {
      var failed := Fails();
      if failed {
        return DeviceError, false;
      }
      return Success, name in files;
    }

    method DeleteIfPresent(name: Name) returns (status: Status)
      requires files in images
      modifies this
      ensures status == Success || status == DeviceError
      ensures files == old(files) || files == old(files) - {name}
      ensures status == Success ==> files == old(files) - {name}
      ensures files in images && images <= old(images) + iset{old(files) - {name}} && old(images) <= images
      ensures faults >= old(faults) && (faults == old(faults) ==> status == Success)
    {
      var failed := Fails();
      if failed {
        return DeviceError;
      }
      if name !in files {
        assert files - {name} == files;
        return Success;
      }
      var ok := Delete(name);
      if !ok {
        return DeviceError;
      }
      var exists_: bool;
      status, exists_ := Exists(name);
      if status != Success {
        return status;
      }
      assert !exists_ ==> name !in files;
      status := if exists_ then DeviceError else Success;
    }

    // ------------------------------------------------------------- verified writing

    method WriteAll(name: Name, text: string) returns (status: Status)
      requires name in files && files[name] == "" && files in images
      modifies this
      ensures name in files && |files[name]| <= |text| && files == old(files)[name := files[name]]
      ensures files in images && old(images) <= images && faults >= old(faults)
      ensures faults == old(faults) && text != "" ==> status == Success && files[name] == text
      ensures forall m :: m in images && m !in old(images) ==> Differ(m, old(files), {name})
      ensures status != NotFound && status != Aborted
    {
      if text == "" {
        return InvalidParameter;
      }
      var ok := Write(name, text);
      status := if ok then Success else DeviceError;
    }

    /** Compares the leading bytes of a file with the expected ones. */
    method VerifyOpen(name: Name, expected: string) returns (status: Status)
      requires name in files
      modifies this`faults
      ensures status == Success ==> expected != "" && expected <= files[name]
      ensures faults == old(faults) && expected != "" && expected <= files[name] ==> status == Success
      ensures status != NotFound && status != Aborted && faults >= old(faults)
    {
      if expected == "" {
        return InvalidParameter;
      }
      var failed := Fails();
      if failed {
        return DeviceError;
      }
      status := if expected <= files[name] then Success else CompromisedData;
    }

    /** Fills a file that does not exist yet.  On success it holds the text. */
    method Fill(name: Name, text: string) returns (status: Status, isOpen: bool)
      requires name !in files && files in images
      modifies this
      ensures status == Success ==> isOpen
      ensures status == Success ==> files == old(files)[name := text]
      ensures status != NotFound && status != Aborted && (faults == old(faults) ==> status == Success)
      ensures Differ(files, old(files), {name})
      ensures files in images && old(images) <= images && faults >= old(faults)
      ensures forall m :: m in images && m !in old(images) ==> Differ(m, old(files), {name})
    {
      ghost var before := files;
      var created := Create(name);
      if !created {
        return DeviceError, false;
      }
      isOpen := true;
      if text == "" {
        var failed := Fails();
        status := if failed then DeviceError else Success;
        return;
      }
      status := WriteAll(name, text);
      if status == Success {
        status := VerifyOpen(name, text);
        assert status == Success ==> files[name] == text;
      }
    }

    /** Reads a file back and compares it. */
    method Confirm(name: Name, expected: string) returns (status: Status)
      modifies this`faults
      ensures status == Success ==> Readable(files, name) && files[name] == expected
      ensures status == NotFound ==> name !in files
      ensures status != Aborted && faults >= old(faults)
      ensures faults == old(faults) && name in files && files[name] == expected && |expected| <= MAX_BYTES ==>
        status == Success
    {
      var bytes: string;
      status, bytes := ReadFile(name);
      if status == Success && bytes != expected {
        status := CompromisedData;
      }
    }

    /** A verified copy under a name that does not exist yet.  Nothing but that
        name is ever touched, and an existing file is never overwritten. */
    method CreateVerifiedCopy(target: Name, copy: Name) returns (status: Status)
      requires files in images
      modifies this
      ensures status == Success ==> target in old(files) && files == old(files)[copy := old(files)[target]]
      ensures copy in old(files) ==> status != Success && files == old(files) && images == old(images)
      ensures Differ(files, old(files), {copy}) && files in images && old(images) <= images
      ensures forall m :: m in images && m !in old(images) ==> Differ(m, old(files), {copy})
      ensures faults >= old(faults)
      ensures faults == old(faults) && Readable(old(files), target) && copy !in old(files) ==> status == Success
    {
      if target == copy {
        return InvalidParameter;
      }
      var present: bool;
      status, present := Exists(copy);
      if status != Success {
        return;
      }
      if present {
        return AccessDenied;
      }
      var original: string;
      status, original := ReadFile(target);
      if status != Success {
        return;
      }
      var isOpen: bool;
      status, isOpen := Fill(copy, original);
      if !isOpen {
        return;
      }
      if status != Success {
        var ok := Delete(copy);
        return if ok then status else DeviceError;
      }
      status := Confirm(copy, original);
      if status != Success {
        var cleanup := DeleteIfPresent(copy);
        return if cleanup != Success then cleanup else status;
      }
    }

    /** Replaces the target by the copy.  The copy itself is never touched. */
    method RestoreRollback(target: Name, copy: Name) returns (status: Status)
      requires files in images
      modifies this
      ensures status == Success ==> copy in old(files) && files == old(files)[target := old(files)[copy]]
      ensures status != Aborted && (copy in old(files) ==> status != NotFound)
      ensures Differ(files, old(files), {target}) && files in images && old(images) <= images
      ensures forall m :: m in images && m !in old(images) ==> Differ(m, old(files), {target})
      ensures faults >= old(faults)
      ensures faults == old(faults) && Readable(old(files), copy) && target != copy ==> status == Success
    {
      if target == copy {
        return InvalidParameter;
      }
      var original: string;
      status, original := ReadFile(copy);
      if status != Success {
        return;
      }
      status := DeleteIfPresent(target);
      if status != Success {
        return;
      }
      ghost var deleted := files;
      var isOpen: bool;
      status, isOpen := Fill(target, original);
      if status != Success {
        return;
      }
      status := Confirm(target, original);
    }

    /** The new text, verified, under the temporary name. */
    method PrepareTemp(temp: Name, text: string) returns (status: Status)
      requires files in images && text != ""
      modifies this
      ensures status == Success ==> files == old(files)[temp := text]
      ensures Differ(files, old(files), {temp}) && files in images && old(images) <= images
      ensures forall m :: m in images && m !in old(images) ==> Differ(m, old(files), {temp})
      ensures faults >= old(faults) && (faults == old(faults) ==> status == Success)
    {
      status := DeleteIfPresent(temp);
      if status != Success {
        return;
      }
      var isOpen: bool;
      status, isOpen := Fill(temp, text);
      if status != Success && isOpen {
        var ok := Delete(temp);
        status := if ok then status else DeviceError;
      }
    }

    /** Moves the target out of the way: a verified copy first, then the delete.
        On failure the temporary file is discarded. */
    method Displace(target: Name, temp: Name, rollback: Name) returns (status: Status, preserved: bool)
      requires files in images && target in files && rollback !in files
      requires target != temp && target != rollback && temp != rollback
      modifies this
      ensures status == Success ==>
        preserved && files == old(files)[rollback := old(files)[target]] - {target}
      ensures preserved ==> rollback in files && files[rollback] == old(files)[target]
      ensures Aside(files, old(files), target, temp, rollback) && files in images && old(images) <= images
      ensures forall m :: m in images && m !in old(images) ==> Aside(m, old(files), target, temp, rollback)
      ensures faults >= old(faults)
      ensures faults == old(faults) && Readable(old(files), target) ==> status == Success
    {
      ghost var before := files;
      preserved := false;
      status := CreateVerifiedCopy(target, rollback);
      AsideCopy(before, target, temp, rollback);
      if status != Success {
        ghost var torn := files;
        var ok := Delete(temp);
        AsideDelete(torn, before, target, temp, rollback);
        return if ok then status else DeviceError, false;
      }
      preserved := true;
      ghost var copied := files;
      status := DeleteIfPresent(target);
      AsideGone(copied, before, target, temp, rollback);
      if status != Success {
        ghost var torn := files;
        var ok := Delete(temp);
        AsideDelete(torn, before, target, temp, rollback);
      }
    }

    /** Renames the temporary file to the target name; on failure the open file
        is deleted, wherever it is by then. */
    method Publish(target: Name, temp: Name) returns (status: Status)
      requires temp in files && target !in files && files in images
      modifies this
      ensures status == Success ==> files == old(files)[target := old(files)[temp]] - {temp}
      ensures Published(files, old(files), target, temp) && files in images && old(images) <= images
      ensures forall m :: m in images && m !in old(images) ==> Published(m, old(files), target, temp)
      ensures faults >= old(faults) && (faults == old(faults) ==> status == Success)
    {
      ghost var before := files;
      var renamed, at := Rename(temp, target);
      PublishedRemoval(before, target, temp);
      if !renamed {
        var ok := Delete(at);
        return DeviceError;
      }
      var failed := Fails();
      if failed {
        return DeviceError;
      }
      var present: bool;
      status, present := Exists(target);
      if status == Success && !present {
        status := DeviceError;
      }
    }

    /** The checks before anything is written. */
    method CheckTarget(target: Name, mode: Mode) returns (status: Status, existed: bool)
      modifies this`faults
      ensures status == Success ==> (existed <==> target in files)
      ensures status == Success && mode.MustNotExist? ==> !existed
      ensures status == Success && mode.Replace? ==> mode.rollback !in files
      ensures faults >= old(faults)
      ensures faults == old(faults) && (if mode.MustNotExist? then target else mode.rollback) !in files ==>
        status == Success
    {
      status, existed := Exists(target);
      if status != Success {
        return;
      }
      if mode.MustNotExist? {
        status := if existed then AccessDenied else Success;
        return;
      }
      var present: bool;
      status, present := Exists(mode.rollback);
      if status == Success && present {
        status := AccessDenied;
      }
    }

    /** The verified save.  A crash or failure at any point leaves the target
        with its old or its new content, or leaves its verified copy. */
    method WriteViaTemp(target: Name, temp: Name, mode: Mode, text: string) returns (status: Status, preserved: bool)
      requires files in images
      modifies this
      ensures status == Success ==>
        && preserved == (mode.Replace? && target in old(files))
        && files == Saved(old(files), target, temp, mode, text)
        && (if mode.MustNotExist? then target else mode.rollback) !in old(files)
      ensures preserved ==>
        && mode.Replace? && target in old(files)
        && mode.rollback in files && files[mode.rollback] == old(files)[target]
      ensures Held(files, old(files), target, temp, mode, text) && files in images && old(images) <= images
      ensures forall m :: m in images && m !in old(images) ==> Held(m, old(files), target, temp, mode, text)
      ensures faults >= old(faults)
      // Only a fault or a refused request makes a save fail.
      ensures faults == old(faults) && MaySave(old(files), target, temp, mode, text) ==> status == Success
    {
      preserved := false;
      ghost var start := files;
      if text == "" || target == temp ||
         (mode.Replace? && (mode.rollback == target || mode.rollback == temp)) {
        return InvalidParameter, false;
      }
      var existed: bool;
      status, existed := CheckTarget(target, mode);
      if status != Success {
        return;
      }
      HeldStart(start, target, temp, mode, text);
      status, preserved := SaveChecked(target, temp, mode, existed, text);
    }

    /** The save after its checks. */
    method SaveChecked(target: Name, temp: Name, mode: Mode, existed: bool, text: string)
      returns (status: Status, preserved: bool)
      requires files in images && text != "" && target != temp && (existed <==> target in files)
      requires mode.MustNotExist? ==> !existed
      requires mode.Replace? ==> mode.rollback !in files && mode.rollback != target && mode.rollback != temp
      modifies this
      ensures status == Success ==>
        preserved == (mode.Replace? && existed) && files == Saved(old(files), target, temp, mode, text)
      ensures preserved ==>
        mode.Replace? && existed && mode.rollback in files && files[mode.rollback] == old(files)[target]
      ensures Held(files, old(files), target, temp, mode, text) && files in images && old(images) <= images
      ensures forall m :: m in images && m !in old(images) ==> Held(m, old(files), target, temp, mode, text)
      ensures faults >= old(faults)
      ensures faults == old(faults) && (existed ==> Readable(old(files), target)) ==> status == Success
    {
      hide Held, Differ, Aside, Published, Saved;
      ghost var start := files;
      preserved := false;
      status := PrepareTemp(temp, text);
      HeldPrepared(start, target, temp, mode, text);
      if status != Success {
        return;
      }
      status, preserved := MakeRoom(target, temp, mode, existed);
      HeldAside(start, target, temp, mode, text);
      if status != Success {
        return;
      }
      assert files == Ready(start, target, temp, mode, text);
      HeldPublished(start, target, temp, mode, text);
      PublishedKeeps(files, target, temp, mode);
      status := Publish(target, temp);
    }

    /** Makes the target name free. */
    method MakeRoom(target: Name, temp: Name, mode: Mode, existed: bool) returns (status: Status, preserved: bool)
      requires files in images && target != temp && (existed <==> target in files) && temp in files
      requires mode.MustNotExist? ==> !existed
      requires mode.Replace? ==> mode.rollback !in files && mode.rollback != target && mode.rollback != temp
      modifies this
      ensures status == Success ==>
        && preserved == existed
        && files == if existed then old(files)[mode.rollback := old(files)[target]] - {target} else old(files)
      ensures preserved ==> existed && mode.rollback in files && files[mode.rollback] == old(files)[target]
      ensures files in images && old(images) <= images
      ensures !existed ==> files == old(files) || files == old(files) - {temp}
      ensures !existed ==> images <= old(images) + iset{old(files) - {temp}}
      ensures existed ==>
        && Aside(files, old(files), target, temp, mode.rollback)
        && forall m :: m in images && m !in old(images) ==> Aside(m, old(files), target, temp, mode.rollback)
      ensures faults >= old(faults)
      ensures faults == old(faults) && (existed ==> Readable(old(files), target)) ==> status == Success
    {
      preserved := false;
      if mode.MustNotExist? {
        var present: bool;
        status, present := Exists(target);
        if status != Success || present {
          var ok := Delete(temp);
          return if status != Success then status else if ok then AccessDenied else DeviceError, false;
        }
        return;
      }
      status := Success;
      if existed {
        status, preserved := Displace(target, temp, mode.rollback);
      }
    }
  }

  // ------------------------------------------------------------------- the images

  /** While the target is moved aside: only the three names change, and the old
      content stays in the target or, once the target is gone, in its copy. */
  ghost predicate Aside(m: Files, f: Files, target: Name, temp: Name, rollback: Name)
    requires target in f
  {
    && Differ(m, f, {target, temp, rollback})
    && (target in m ==> m[target] == f[target])
    && (target !in m ==> rollback in m && m[rollback] == f[target])
  }

  lemma AsideCopy(f: Files, target: Name, temp: Name, rollback: Name)
    requires target in f && target != rollback
    ensures forall m :: Differ(m, f, {rollback}) ==> Aside(m, f, target, temp, rollback)
  {
    forall m | Differ(m, f, {rollback}) ensures Aside(m, f, target, temp, rollback) {
      DifferAt(m, f, {rollback}, target);
      DifferMore(m, f, f, {rollback}, {target, temp});
      assert {rollback} + {target, temp} == {target, temp, rollback};
    }
  }

  lemma AsideDelete(m: Files, f: Files, target: Name, temp: Name, rollback: Name)
    requires target in f && target != temp && temp != rollback && Aside(m, f, target, temp, rollback)
    ensures Aside(m - {temp}, f, target, temp, rollback)
  {
    assert m - {temp} - {target, temp, rollback} == m - {target, temp, rollback};
  }

  lemma AsideGone(m: Files, f: Files, target: Name, temp: Name, rollback: Name)
    requires target in f && target != rollback && m == f[rollback := f[target]]
    ensures Aside(m, f, target, temp, rollback) && Aside(m - {target}, f, target, temp, rollback)
  {
    assert m - {target, temp, rollback} == f - {target, temp, rollback};
    assert m - {target} - {target, temp, rollback} == m - {target, temp, rollback};
  }

  /** What a rename, and the delete after a failed one, can leave. */
  ghost predicate Published(m: Files, f: Files, target: Name, temp: Name)
    requires temp in f
  {
    || m == f
    || m == f - {temp}
    || m == f[target := f[temp]] - {temp}
  }

  lemma PublishedRemoval(f: Files, target: Name, temp: Name)
    requires temp in f && target !in f
    ensures f[target := f[temp]] - {temp} - {target} == f - {temp}
  {
  }

  /** A save that is not refused: distinct names, a text, a free rollback name or a
      free target, and an old target that can be copied. */
  predicate MaySave(f: Files, target: Name, temp: Name, mode: Mode, text: string) {
    && text != "" && target != temp
    && match mode
       case MustNotExist => target !in f
       case Replace(rollback) =>
         rollback != target && rollback != temp && rollback !in f && (target in f ==> Readable(f, target))
  }

  function Touched(target: Name, temp: Name, mode: Mode): set<Name> {
    {target, temp} + if mode.Replace? then {mode.rollback} else {}
  }

  /** The directory after a successful save. */
  function Saved(f: Files, target: Name, temp: Name, mode: Mode, text: string): Files {
    var copied := if mode.Replace? && target in f then f[mode.rollback := f[target]] else f;
    copied[target := text] - {temp}
  }

  /** Every image during a save: nothing else changes, a target that may not be
      replaced never changes, and otherwise the target is old, new, or absent with
      its old content in the rollback copy. */
  ghost predicate Held(m: Files, f: Files, target: Name, temp: Name, mode: Mode, text: string) {
    && Differ(m, f, Touched(target, temp, mode))
    && (target !in f && target in m ==> m[target] == text)
    && (target in f && mode.MustNotExist? ==> target in m && m[target] == f[target])
    && (target in f && mode.Replace? ==>
          && (target in m ==> m[target] == f[target] || m[target] == text)
          && (target !in m ==> mode.rollback in m && m[mode.rollback] == f[target]))
  }

  lemma HeldStart(f: Files, target: Name, temp: Name, mode: Mode, text: string)
    requires target != temp
    ensures Held(f, f, target, temp, mode, text)
  {
  }

  /** The rename and its cleanup leave the rollback copy alone. */
  lemma PublishedKeeps(f: Files, target: Name, temp: Name, mode: Mode)
    requires temp in f && mode.Replace? ==> mode.rollback != target && mode.rollback != temp
    ensures temp in f && mode.Replace? && mode.rollback in f ==>
      forall m :: Published(m, f, target, temp) ==> mode.rollback in m && m[mode.rollback] == f[mode.rollback]
  {
  }

  lemma HeldPrepared(f: Files, target: Name, temp: Name, mode: Mode, text: string)
    requires target != temp
    ensures forall m :: Differ(m, f, {temp}) ==> Held(m, f, target, temp, mode, text)
  {
    forall m | Differ(m, f, {temp}) ensures Held(m, f, target, temp, mode, text) {
      DifferAt(m, f, {temp}, target);
      DifferMore(m, f, f, {temp}, Touched(target, temp, mode));
      assert {temp} + Touched(target, temp, mode) == Touched(target, temp, mode);
    }
  }

  lemma HeldAside(f: Files, target: Name, temp: Name, mode: Mode, text: string)
    requires target != temp
    ensures Held(f[temp := text] - {temp}, f, target, temp, mode, text)
    ensures target in f && mode.Replace? ==>
      forall m :: Aside(m, f[temp := text], target, temp, mode.rollback) ==> Held(m, f, target, temp, mode, text)
  {
    var g := f[temp := text];
    DifferIntro(g - {temp}, f, {temp});
    HeldPrepared(f, target, temp, mode, text);
    if target in f && mode.Replace? {
      forall m | Aside(m, g, target, temp, mode.rollback) ensures Held(m, f, target, temp, mode, text) {
        DifferIntro(g, f, {temp});
        DifferMore(m, g, f, {target, temp, mode.rollback}, {temp});
        assert {target, temp, mode.rollback} + {temp} == Touched(target, temp, mode);
      }
    }
  }

  /** The directory just before the rename. */
  function Ready(f: Files, target: Name, temp: Name, mode: Mode, text: string): Files {
    if target in f && mode.Replace? then f[temp := text][mode.rollback := f[target]] - {target} else f[temp := text]
  }

  lemma HeldPublishedAt(m: Files, f: Files, target: Name, temp: Name, mode: Mode, text: string)
    requires target != temp && (mode.Replace? ==> mode.rollback != target && mode.rollback != temp)
    requires target in f ==> mode.Replace?
    requires temp in Ready(f, target, temp, mode, text)
    requires Published(m, Ready(f, target, temp, mode, text), target, temp)
    ensures Held(m, f, target, temp, mode, text)
  {
    var ready := Ready(f, target, temp, mode, text);
    var touched := Touched(target, temp, mode);
    assert ready[temp] == text;
    forall k | k !in touched ensures (k in m <==> k in f) && (k in m ==> m[k] == f[k]) {
      assert k != target && k != temp && (mode.Replace? ==> k != mode.rollback);
    }
    DifferIntro(m, f, touched);
    assert target in m ==> m[target] == text;
    assert target in f ==> m[mode.rollback] == f[target];
  }

  lemma SavedByRename(f: Files, target: Name, temp: Name, mode: Mode, text: string)
    requires target != temp && (mode.Replace? ==> mode.rollback != target && mode.rollback != temp)
    requires target in f ==> mode.Replace?
    ensures var ready := Ready(f, target, temp, mode, text);
      temp in ready && ready[target := ready[temp]] - {temp} == Saved(f, target, temp, mode, text)
  {
    var ready := Ready(f, target, temp, mode, text);
    assert ready[temp] == text;
    var x, y := ready[target := text] - {temp}, Saved(f, target, temp, mode, text);
    assert forall k :: k in x <==> k in y;
    assert forall k :: k in x ==> x[k] == y[k];
  }

  lemma HeldPublished(f: Files, target: Name, temp: Name, mode: Mode, text: string)
    requires target != temp && (mode.Replace? ==> mode.rollback != target && mode.rollback != temp)
    requires target in f ==> mode.Replace?
    ensures var ready := Ready(f, target, temp, mode, text);
      && temp in ready && ready[target := ready[temp]] - {temp} == Saved(f, target, temp, mode, text)
      && forall m :: Published(m, ready, target, temp) ==> Held(m, f, target, temp, mode, text)
  {
    SavedByRename(f, target, temp, mode, text);
    var ready := Ready(f, target, temp, mode, text);
    hide Published, Held, Saved, Ready;
    forall m | Published(m, ready, target, temp) ensures Held(m, f, target, temp, mode, text) {
      HeldPublishedAt(m, f, target, temp, mode, text);
    }
  }
}
