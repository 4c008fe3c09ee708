/** The settings file and its .bak, .tmp and .good companions: update, start-up recovery, backup.

    A call is the list of disk states it passes through, in order; a crash leaves any one of them.
    Every file operation of an update may fail. */
module Settings {
  import opened Common

  type Doc = string

  datatype Disk = Disk(main: Option<Doc>, bak: Option<Doc>, tmp: Option<Doc>, good: Option<Doc>)

  /** States passed through after the first, and what the call returns. */
  datatype Path = Path(states: seq<Disk>, ok: bool)

  /** Outcomes of the file operations of one update. `fragments` are the contents that the temporary
      file may be found with before it is synced. */
  datatype Faults = Faults(backupRename: bool, open: bool, fragments: seq<Doc>, write: bool, flush: bool, sync: bool,
                           commitRename: bool, restoreRename: bool, dropBackup: bool)

  type Parser = Doc -> bool

  /** Braces open after reading part of a JSON text, outside of strings. */
  datatype Scan = Scan(depth: int, inString: bool, escaped: bool)

  function ScanText(d: Doc): Scan {
    if d == "" then Scan(0, false, false) else
    var s := ScanText(Front(d));
    var c := Last(d);
    if s.escaped then s.(escaped := false)
    else if s.inString then s.(inString := c != '"', escaped := c == '\\')
    else if c == '"' then s.(inString := true)
    else if c == '{' then s.(depth := s.depth + 1)
    else if c == '}' then s.(depth := s.depth - 1)
    else s
  }

  /** validate_settings_file. */
  predicate ValidFile(parses: Parser, f: Option<Doc>) {
    f.Some? && |f.value| >= 10 && parses(f.value)
  }

  predicate ValidDoc(parses: Parser, d: Doc) {
    ValidFile(parses, Some(d))
  }

  /** No proper prefix of the document would be taken for a settings file. */
  ghost predicate NoValidPrefix(parses: Parser, d: Doc) {
    forall p: Doc :: p < d ==> !ValidDoc(parses, p)
  }

  /** One JSON object and nothing after it, which is what an update writes. */
  ghost predicate ClosesAtEnd(d: Doc) {
    d != "" && ScanText(d).depth == 0 && forall k :: 0 < k < |d| ==> ScanText(d[..k]).depth > 0
  }

  /** An object of `n` characters, and white space behind it. */
  ghost predicate ObjectThenBlanks(d: Doc, n: nat) {
    n <= |d| && ClosesAtEnd(d[..n]) && forall i :: n <= i < |d| ==> d[i] in " \t\r\n"
  }

  lemma CutIsOpen(d: Doc, n: nat, p: Doc)
    requires ObjectThenBlanks(d, n) && p <= d && 0 < |p| < n
    ensures ScanText(p).depth > 0
  {
    assert d[..n][..|p|] == p;
  }

  /** A parser that rejects a cut text with a brace left open takes a part of such a document for
      a settings file only when nothing but white space is cut off; behind a document that an update
      wrote there is none. */
  lemma CutObjectIsWhole(parses: Parser, d: Doc, n: nat, p: Doc)
    requires ObjectThenBlanks(d, n)
    requires forall q: Doc :: q <= d && parses(q) ==> ScanText(q).depth <= 0
    requires p <= d && ValidDoc(parses, p)
    ensures n <= |p| && ObjectThenBlanks(p, n) && p[..n] == d[..n]
    ensures n == |d| ==> p == d
  {
    if 0 < |p| < n {
      CutIsOpen(d, n, p);
    } else {
      assert p[..n] == d[..n];
    }
  }

  /** The content that a restart brings back. */
  function Effective(parses: Parser, d: Disk): (r: Option<Doc>)
    ensures r.Some? ==> ValidFile(parses, r)
  {
    if ValidFile(parses, d.main) then d.main
    else if ValidFile(parses, d.bak) then d.bak
    else if ValidFile(parses, d.good) then d.good
    else None
  }

  /** The settings file or the .bak an update made of it is valid. */
  predicate AtHand(parses: Parser, d: Disk) {
    ValidFile(parses, d.main) || ValidFile(parses, d.bak)
  }

  /** A running service has a valid settings file, or lost it to a failed restore and has a valid .bak. */
  predicate Serviceable(parses: Parser, d: Disk) {
    ValidFile(parses, d.main) || (d.main == None && ValidFile(parses, d.bak))
  }

  // ---------------------------------------------------------------------
  // update_setting
  // ---------------------------------------------------------------------

  function WithBackup(d: Disk): Disk {
    if d.main.Some? then d.(main := None, bak := d.main) else d
  }

  function Fragments(d: Disk, fragments: seq<Doc>): seq<Disk> {
    seq(|fragments|, i requires 0 <= i < |fragments| => d.(tmp := Some(fragments[i])))
  }

  lemma FragmentsOnly(d: Disk, e: Disk, fragments: seq<Doc>)
    requires d.(tmp := None) == e.(tmp := None)
    ensures Fragments(d, fragments) == Fragments(e, fragments)
  {
  }

  /** Giving up: the temporary file goes, the backup comes back if the rename works. */
  function Restored(d: Disk, f: Faults): Disk {
    if d.bak.Some? && f.restoreRename then d.(main := d.bak, bak := None) else d
  }

  /** From the opened temporary file on; `moved` has the old settings file moved out of the way. */
  function WritePath(moved: Disk, doc: Doc, f: Faults): Path {
    var writing := [moved.(tmp := Some(""))] + Fragments(moved, f.fragments);
    var clean := moved.(tmp := None);
    if !f.write || !f.flush || !f.sync then Path(writing + [clean, Restored(clean, f)], false) else
    var synced := moved.(tmp := Some(doc));
    if !f.commitRename then Path(writing + [synced, clean, Restored(clean, f)], false) else
    var committed := moved.(main := Some(doc), tmp := None);
    var final := if committed.bak.Some? && f.dropBackup then committed.(bak := None) else committed;
    Path(writing + [synced, committed, final], true)
  }

  function UpdatePath(d: Disk, doc: Doc, f: Faults): Path {
    if d.main.Some? && !f.backupRename then Path([], false) else
    var moved := WithBackup(d);
    if !f.open then Path([moved, Restored(moved, f)], false) else
    var rest := WritePath(moved, doc, f);
    Path([moved] + rest.states, rest.ok)
  }

  /** Disk after `k` steps. */
  function At(d: Disk, p: Path, k: nat): Disk
    requires k <= |p.states|
  {
    if k == 0 then d else p.states[k - 1]
  }

  function End(d: Disk, p: Path): Disk {
    At(d, p, |p.states|)
  }

  /** The call got as far as renaming the temporary file onto the settings file. */
  predicate Committed(p: Path, k: nat) {
    p.ok && k + 1 >= |p.states|
  }

  /** An update is atomic: crashed after any number of steps, or failed at any operation, it leaves
      the old content in effect before the commit. From the commit on the new document is in effect
      if and only if it validates, which nothing makes sure of (SequenceText says why it may not). */
  lemma UpdateIsAtomic(parses: Parser, d: Disk, doc: Doc, f: Faults, k: nat)
    requires Serviceable(parses, d)
    requires k <= |UpdatePath(d, doc, f).states|
    ensures var p := UpdatePath(d, doc, f);
            var now := Effective(parses, At(d, p, k));
            && (!Committed(p, k) ==> now == Effective(parses, d))
            && (Committed(p, k) ==> (now == Some(doc) <==> ValidDoc(parses, doc)))
            && (!Committed(p, k) || ValidDoc(parses, doc) ==> Serviceable(parses, At(d, p, k)))
            && At(d, p, k).good == d.good
  {
  }

  /** What the caller is told is what happened. */
  lemma UpdateReturns(parses: Parser, d: Disk, doc: Doc, f: Faults)
    requires Serviceable(parses, d)
    ensures var p := UpdatePath(d, doc, f);
            var e := End(d, p);
            && (p.ok ==> e.main == Some(doc) && e.tmp == None)
            && (!p.ok ==> Effective(parses, e) == Effective(parses, d))
            && (!p.ok && f.restoreRename ==> e.main == Effective(parses, d))
  {
  }

  /** An update succeeds exactly when no file operation fails, and then leaves nothing but the new document
      and the good copy (and the backup, if that cannot be removed). A failed one whose restoring
      rename works leaves what was there. */
  lemma UpdateSucceedsExactly(parses: Parser, d: Disk, doc: Doc, f: Faults)
    requires Serviceable(parses, d)
    ensures var p, e := UpdatePath(d, doc, f), End(d, UpdatePath(d, doc, f));
            && (p.ok <==> (d.main.Some? ==> f.backupRename) && f.open && f.write && f.flush && f.sync && f.commitRename)
            && (p.ok && f.dropBackup ==> e == Disk(Some(doc), None, None, d.good))
            && (p.ok && !f.dropBackup ==> e == Disk(Some(doc), if d.main.Some? then d.main else d.bak, None, d.good))
            && (!p.ok && f.restoreRename && f.backupRename && f.open ==>
                e == Disk(Effective(parses, d), None, None, d.good))
  {
  }

  /** A committed document that does not validate leaves only the good copy, once the backup is gone. */
  lemma InvalidDocument(parses: Parser, d: Disk, doc: Doc, f: Faults)
    requires Serviceable(parses, d) && !ValidDoc(parses, doc)
    requires UpdatePath(d, doc, f).ok && f.dropBackup
    ensures Effective(parses, End(d, UpdatePath(d, doc, f))) == if ValidFile(parses, d.good) then d.good else None
  {
  }

  // ---------------------------------------------------------------------
  // ensure_valid_settings_file
  // ---------------------------------------------------------------------

  /** Outcomes of the file operations of one recovery. The copy of the good file may be found at any
      of the lengths `cuts`, and stops after `copied` characters. */
  datatype Outcome = Outcome(rename: bool, openSource: bool, openTarget: bool, cuts: seq<nat>, copied: nat)

  predicate Complete(d: Disk, o: Outcome) {
    o.rename && o.openSource && o.openTarget && (d.good.Some? ==> o.copied >= |d.good.value|)
  }

  function Cut(source: Doc, n: nat): (p: Doc)
    ensures p <= source
  {
    source[..Min(n, |source|)]
  }

  /** The settings file while the good copy is being written over it. */
  function Copying(d: Disk, source: Doc, cuts: seq<nat>): seq<Disk> {
    seq(|cuts|, i requires 0 <= i < |cuts| => d.(main := Some(Cut(source, cuts[i]))))
  }

  /** Both files are opened, the target emptied, before either outcome is looked at. */
  function CopyBack(d: Disk, source: Doc, o: Outcome): seq<Disk> {
    if !o.openTarget then [] else
    [d.(main := Some(""))] +
    if !o.openSource then [] else Copying(d, source, o.cuts) + [d.(main := Some(Cut(source, o.copied)))]
  }

  /** None when no file can be restored and the defaults have to be written. */
  function RecoverPath(parses: Parser, d: Disk, o: Outcome): Option<Path> {
    if ValidFile(parses, d.main) then Some(Path([], true))
    else if ValidFile(parses, d.bak) && o.rename then Some(Path([d.(main := d.bak, bak := None)], true))
    else if ValidFile(parses, d.good) then Some(Path(CopyBack(d, d.good.value, o), true))
    else None
  }

  /** The whole call: recovery, or the update that writes the defaults. */
  function StartPath(parses: Parser, d: Disk, o: Outcome, defaults: Doc, f: Faults): Path {
    match RecoverPath(parses, d, o)
    case Some(p) => p
    case None => UpdatePath(d, defaults, f)
  }

  /** While the good file is copied, the settings file is as it was or a part of that file. */
  lemma CopyBackStep(parses: Parser, d: Disk, o: Outcome, k: nat)
    requires ValidFile(parses, d.good)
    requires k <= |CopyBack(d, d.good.value, o)|
    ensures var s := At(d, Path(CopyBack(d, d.good.value, o), true), k);
            && s.(main := None) == d.(main := None)
            && (s.main == d.main || (s.main.Some? && s.main.value <= d.good.value))
  {
  }

  lemma CopyBackEnds(d: Disk, source: Doc, o: Outcome)
    requires o.openSource && o.openTarget && o.copied >= |source|
    ensures CopyBack(d, source, o) != [] && Last(CopyBack(d, source, o)).main == Some(source)
  {
    assert Cut(source, o.copied) == source;
  }

  /** Recovery needs the defaults exactly when no file is valid, or the only valid one is a .bak that
      cannot be renamed. It ends with the content in effect in the settings file when its file
      operations work. As long as a valid .bak can be renamed, then up to there, even half-way through
      the copy, that content stays in effect if the settings file or .bak is valid, and if only the
      good copy is, then it or a valid part of it. RecoveryKeepsExactly says what else can happen. */
  lemma RecoveryRestores(parses: Parser, d: Disk, o: Outcome)
    ensures RecoverPath(parses, d, o) == None <==>
            Effective(parses, d) == None
              || (!o.rename && !ValidFile(parses, d.main) && ValidFile(parses, d.bak) && !ValidFile(parses, d.good))
    ensures Effective(parses, d).Some? && Complete(d, o) ==>
            End(d, RecoverPath(parses, d, o).value).main == Effective(parses, d)
    ensures Effective(parses, d).Some? && o.rename ==>
              var p := RecoverPath(parses, d, o).value;
              forall k :: 0 <= k <= |p.states| ==>
                var now := Effective(parses, At(d, p, k));
                && now.Some? && now.value <= Effective(parses, d).value
                && (AtHand(parses, d) ==> now == Effective(parses, d) && AtHand(parses, At(d, p, k)))
  {
    if !AtHand(parses, d) && ValidFile(parses, d.good) && Complete(d, o) {
      CopyBackEnds(d, d.good.value, o);
    }
    hide CopyBack;
    if Effective(parses, d).Some? && o.rename && !AtHand(parses, d) {
      var p := RecoverPath(parses, d, o).value;
      forall k | 0 <= k <= |p.states|
        ensures var now := Effective(parses, At(d, p, k));
                now.Some? && now.value <= Effective(parses, d).value
      {
        CopyBackStep(parses, d, o, k);
      }
    }
  }

  /** Start-up, crashed after `k` steps, leaves the content in effect as it was. */
  ghost predicate KeptAt(parses: Parser, d: Disk, o: Outcome, defaults: Doc, f: Faults, k: nat) {
    var p := StartPath(parses, d, o, defaults, f);
    k <= |p.states| ==> Effective(parses, At(d, p, k)) == Effective(parses, d)
  }

  /** The settings file is valid, or the .bak is and can be renamed, or the good copy is, cannot be
      cut to something valid, and equals a valid .bak if there is one. */
  ghost predicate RecoveryKeeps(parses: Parser, d: Disk, rename: bool) {
    || ValidFile(parses, d.main)
    || (ValidFile(parses, d.bak) && rename)
    || (ValidFile(parses, d.good) && NoValidPrefix(parses, d.good.value)
        && (ValidFile(parses, d.bak) ==> d.good == d.bak))
  }

  lemma CopyBackKeeps(parses: Parser, d: Disk, o: Outcome, k: nat)
    requires !ValidFile(parses, d.main) && ValidFile(parses, d.good) && NoValidPrefix(parses, d.good.value)
    requires ValidFile(parses, d.bak) ==> d.good == d.bak
    requires k <= |CopyBack(d, d.good.value, o)|
    ensures Effective(parses, At(d, Path(CopyBack(d, d.good.value, o), true), k)) == d.good == Effective(parses, d)
  {
    var good := d.good.value;
    CopyBackStep(parses, d, o, k);
    hide CopyBack;
    var s := At(d, Path(CopyBack(d, good, o), true), k);
    assert s.main != d.main ==> s.main.value == good || s.main.value < good;
    assert ValidFile(parses, s.main) ==> ValidDoc(parses, s.main.value);
  }

  /** A copy that is cut to `p` and crashes there, with `p` valid. */
  lemma CutIsTaken(parses: Parser, d: Disk, p: Doc, rename: bool)
    requires !ValidFile(parses, d.main) && !(ValidFile(parses, d.bak) && rename)
    requires ValidFile(parses, d.good) && p <= d.good.value && ValidDoc(parses, p)
    ensures var o := Outcome(rename, true, true, [|p|], |p|);
            var path := RecoverPath(parses, d, o);
            path.Some? && |path.value.states| >= 2 && Effective(parses, At(d, path.value, 2)) == Some(p)
  {
    var good := d.good.value;
    var o := Outcome(rename, true, true, [|p|], |p|);
    var states := CopyBack(d, good, o);
    assert Cut(good, |p|) == p;
    assert states[1] == Copying(d, good, o.cuts)[0] == d.(main := Some(p));
  }

  /** Every crash of every start-up keeps the content in effect if and only if RecoveryKeeps. */
  lemma RecoveryKeepsExactly(parses: Parser, d: Disk, rename: bool, defaults: Doc)
    requires Effective(parses, d).Some? && ValidDoc(parses, defaults) && Effective(parses, d) != Some(defaults)
    ensures (forall o: Outcome, f: Faults, k: nat :: o.rename == rename ==> KeptAt(parses, d, o, defaults, f, k))
            <==> RecoveryKeeps(parses, d, rename)
  {
    if RecoveryKeeps(parses, d, rename) {
      forall o: Outcome, f: Faults, k: nat | o.rename == rename
        ensures KeptAt(parses, d, o, defaults, f, k)
      {
        KeepsAll(parses, d, o, defaults, f, k);
      }
    } else if ValidFile(parses, d.good) {
      var p: Doc := LostCut(parses, d);
      CutIsTaken(parses, d, p, rename);
      assert !KeptAt(parses, d, Outcome(rename, true, true, [|p|], |p|), defaults, WORKING, 2);
    } else {
      var o := Outcome(rename, true, true, [], 0);
      assert RecoverPath(parses, d, o) == None;
      DefaultsKeepExactly(parses, d, defaults, WORKING, |UpdatePath(d, defaults, WORKING).states|);
      assert !KeptAt(parses, d, o, defaults, WORKING, |UpdatePath(d, defaults, WORKING).states|);
    }
  }

  /** Every file operation works. */
  const WORKING: Faults := Faults(true, true, [], true, true, true, true, true, true)

  /** What a copy of the good file can be cut to that is not the content in effect: a valid proper
      prefix, or all of it when it is older than the .bak. */
  ghost function LostCut(parses: Parser, d: Disk): (p: Doc)
    requires ValidFile(parses, d.good) && !ValidFile(parses, d.main)
    requires !ValidFile(parses, d.bak) || d.good == d.bak ==> !NoValidPrefix(parses, d.good.value)
    ensures p <= d.good.value && ValidDoc(parses, p) && Effective(parses, d) != Some(p)
  {
    if ValidFile(parses, d.bak) && d.good != d.bak then d.good.value
    else
      var p: Doc :| p < d.good.value && ValidDoc(parses, p);
      p
  }

  lemma KeepsAll(parses: Parser, d: Disk, o: Outcome, defaults: Doc, f: Faults, k: nat)
    requires RecoveryKeeps(parses, d, o.rename)
    ensures KeptAt(parses, d, o, defaults, f, k)
  {
    if !ValidFile(parses, d.main) && !(ValidFile(parses, d.bak) && o.rename) {
      if k <= |CopyBack(d, d.good.value, o)| {
        CopyBackKeeps(parses, d, o, k);
      }
    }
    hide CopyBack;
  }

  /** With a .bak that cannot be renamed and no good copy the defaults are written. The .bak is the
      content in effect only until they are committed, and if a broken settings file is there, which
      the update moves over the .bak, not even that long. */
  lemma DefaultsKeepExactly(parses: Parser, d: Disk, doc: Doc, f: Faults, k: nat)
    requires !ValidFile(parses, d.main) && !ValidFile(parses, d.good) && ValidFile(parses, d.bak)
    requires ValidDoc(parses, doc) && doc != d.bak.value
    requires k <= |UpdatePath(d, doc, f).states|
    ensures Effective(parses, At(d, UpdatePath(d, doc, f), k)) == Effective(parses, d)
            <==> k == 0 || (d.main == None && !Committed(UpdatePath(d, doc, f), k))
  {
  }

  /** An input where it is not kept: the good copy of a settings file with a line end behind the
      object, as it is installed at first, cut in front of the line end. What is lost is only that. */
  lemma LineEndIsLost(parses: Parser)
    requires parses("{\"index\":1}") && parses("{\"index\":1}\r\n")
    ensures var d := Disk(None, None, None, Some("{\"index\":1}\r\n"));
            var p := RecoverPath(parses, d, Outcome(true, true, true, [11], 13)).value;
            Effective(parses, At(d, p, 2)) == Some("{\"index\":1}") != Effective(parses, d)
  {
    assert Cut("{\"index\":1}\r\n", 11) == "{\"index\":1}";
  }

  /** Another: a .bak that cannot be renamed, and an older good copy. A backup of `b0`, an update to
      `b1`, and a crash of the next update after its first rename leave such a disk; start-up then
      copies `b0` over the settings file and goes on with it. */
  lemma OlderCopyComesBack(parses: Parser, b0: Doc, b1: Doc, b2: Doc, o: Outcome)
    requires ValidDoc(parses, b0) && ValidDoc(parses, b1) && b0 != b1
    requires !o.rename && o.openSource && o.openTarget && o.copied >= |b0|
    ensures var d0 := Disk(Some(b0), None, None, None);
            var d1 := End(d0, BackupPath(parses, d0, CopyFaults(true, true, [], None)));
            var d2 := End(d1, UpdatePath(d1, b1, WORKING));
            var d3 := At(d2, UpdatePath(d2, b2, WORKING), 1);
            var p := RecoverPath(parses, d3, o);
            && d3 == Disk(None, Some(b1), None, Some(b0)) && Effective(parses, d3) == Some(b1)
            && p.Some? && End(d3, p.value).main == Some(b0) == Effective(parses, End(d3, p.value))
  {
    CopyBackEnds(Disk(None, Some(b1), None, Some(b0)), b0, o);
    hide CopyBack;
  }

  // ---------------------------------------------------------------------
  // create_settings_backup
  // ---------------------------------------------------------------------

  /** Outcomes of the file operations of one backup: `fragments` is what the copy may be found with,
      and `short` what it ends as when a write fails, which nobody looks at. */
  datatype CopyFaults = CopyFaults(openSource: bool, openTarget: bool, fragments: seq<Doc>, short: Option<Doc>)

  function BackupPath(parses: Parser, d: Disk, c: CopyFaults): Path {
    if !ValidFile(parses, d.main) then Path([], true) else
    var dropped := d.(good := None);
    if !c.openTarget then Path([dropped], true) else
    var emptied := [dropped, d.(good := Some(""))];
    if !c.openSource then Path(emptied, true) else
    Path(emptied + seq(|c.fragments|, i requires 0 <= i < |c.fragments| => d.(good := Some(c.fragments[i])))
         + [d.(good := if c.short.Some? then c.short else d.main)], true)
  }

  /** Whatever becomes of the good copy, settings file and .bak, and so the content in effect, stay. */
  lemma BackupKeepsContent(parses: Parser, d: Disk, c: CopyFaults, k: nat)
    requires k <= |BackupPath(parses, d, c).states|
    ensures var s := At(d, BackupPath(parses, d, c), k);
            s.main == d.main && s.bak == d.bak
    ensures Effective(parses, d).Some? ==> Effective(parses, At(d, BackupPath(parses, d, c), k)) == Effective(parses, d)
    ensures ValidFile(parses, d.main) && c.openSource && c.openTarget && c.short == None ==>
              End(d, BackupPath(parses, d, c)).good == d.main
  {
  }

  // ---------------------------------------------------------------------
  // Whole runs: start-up, any number of updates, crashes anywhere, start-up again.
  // ---------------------------------------------------------------------

  datatype Action =
    | Start(o: Outcome, defaults: Doc, f: Faults)
    | Backup(c: CopyFaults)
    | Update(doc: Doc, f: Faults)

  /** One call and, possibly, a crash after some of its steps. */
  datatype Event = Event(action: Action, crash: Option<nat>)

  datatype Mode = Starting | Loaded | Up

  /** `content` is the document whose commit happened last. */
  datatype System = System(disk: Disk, mode: Mode, content: Doc)

  function PathOf(parses: Parser, d: Disk, a: Action): Path {
    match a
    case Start(o, defaults, f) => StartPath(parses, d, o, defaults, f)
    case Backup(c) => BackupPath(parses, d, c)
    case Update(doc, f) => UpdatePath(d, doc, f)
  }

  /** The start-up order of the calls. */
  predicate InOrder(s: System, a: Action) {
    match a
    case Start(_, _, _) => s.mode == Starting
    case Backup(_) => s.mode == Loaded
    case Update(_, _) => s.mode == Up
  }

  ghost predicate Next(parses: Parser, s: System, e: Event, s': System) {
    var p := PathOf(parses, s.disk, e.action);
    var k := if e.crash.Some? then e.crash.value else |p.states|;
    && InOrder(s, e.action)
    && k <= |p.states|
    && s'.disk == At(s.disk, p, k)
    && s'.mode == ModeAfter(parses, e, s'.disk)
    && s'.content == if e.action.Update? && Committed(p, k) then e.action.doc else s.content
  }

  /** Start-up goes on only with a settings file that loads, and otherwise ends like a crash. */
  function ModeAfter(parses: Parser, e: Event, d: Disk): Mode {
    if e.crash.Some? || (e.action.Start? && !ValidFile(parses, d.main)) then Starting
    else if e.action.Start? then Loaded
    else Up
  }

  /** Successive states of a run. */
  ghost predicate IsRun(parses: Parser, run: seq<System>, events: seq<Event>) {
    && |run| == |events| + 1
    && forall i :: 0 <= i < |events| ==> Next(parses, run[i], events[i], run[i + 1])
  }

  /** Every committed document validates. */
  ghost predicate DocumentsValid(parses: Parser, run: seq<System>) {
    forall i :: 0 <= i < |run| ==> ValidDoc(parses, run[i].content)
  }

  /** Every valid .bak that start-up needs can be renamed. */
  ghost predicate RenamesWork(run: seq<System>, events: seq<Event>) {
    forall i :: 0 <= i < |events| && events[i].action.Start? ==> events[i].action.o.rename
  }

  /** Start-ups happen only on disks whose content they keep. */
  ghost predicate StartsKeep(parses: Parser, run: seq<System>, events: seq<Event>)
    requires |run| == |events| + 1
  {
    forall i :: 0 <= i < |events| && events[i].action.Start? ==>
      RecoveryKeeps(parses, run[i].disk, events[i].action.o.rename)
  }

  /** The content in effect is the one committed last, or a valid part of it. */
  ghost predicate Sound(parses: Parser, s: System) {
    && Effective(parses, s.disk).Some? && Effective(parses, s.disk).value <= s.content
    && (s.mode != Starting ==> Serviceable(parses, s.disk))
    && (s.mode == Loaded ==> s.disk.main == Effective(parses, s.disk))
  }

  lemma NextIsSound(parses: Parser, s: System, e: Event, s': System)
    requires Sound(parses, s) && Next(parses, s, e, s') && ValidDoc(parses, s'.content)
    requires e.action.Start? ==> e.action.o.rename
    ensures Sound(parses, s')
  {
    hide RecoverPath; hide UpdatePath; hide BackupPath;
    var p := PathOf(parses, s.disk, e.action);
    var k := if e.crash.Some? then e.crash.value else |p.states|;
    match e.action
    case Start(o, _, _) => RecoveryRestores(parses, s.disk, o);
    case Backup(c) => BackupKeepsContent(parses, s.disk, c, k);
    case Update(doc, f) => UpdateIsAtomic(parses, s.disk, doc, f, k);
  }

  /** A service started with some valid file and stopped at any points of any calls never falls back
      to the defaults: the content in effect is always the one committed last, or a valid part of it
      (CutObjectIsWhole says how little that can leave out), and a started service has it at hand. */
  lemma {:induction false} RunIsSound(parses: Parser, run: seq<System>, events: seq<Event>)
    requires IsRun(parses, run, events) && RenamesWork(run, events) && DocumentsValid(parses, run)
    requires run[0].mode == Starting && Effective(parses, run[0].disk) == Some(run[0].content)
    ensures forall i :: 0 <= i < |run| ==> Sound(parses, run[i])
    ensures forall i, o: Outcome :: 0 <= i < |run| && o.rename ==> RecoverPath(parses, run[i].disk, o).Some?
  {
    if events != [] {
      hide Next;
      RunIsSound(parses, Front(run), Front(events));
      assert Sound(parses, Front(run)[|run| - 2]);
      NextIsSound(parses, run[|run| - 2], Last(events), Last(run));
    }
    forall i, o: Outcome | 0 <= i < |run| && o.rename
      ensures RecoverPath(parses, run[i].disk, o).Some?
    {
      assert Sound(parses, run[i]);
      RecoveryRestores(parses, run[i].disk, o);
    }
  }

  /** The content in effect is the one committed last, and a started service has it at hand. */
  ghost predicate Exact(parses: Parser, s: System) {
    && Effective(parses, s.disk) == Some(s.content)
    && (s.mode != Starting ==> Serviceable(parses, s.disk))
    && (s.mode == Loaded ==> s.disk.main == Some(s.content))
  }

  lemma NextIsExact(parses: Parser, s: System, e: Event, s': System)
    requires Exact(parses, s) && Next(parses, s, e, s') && ValidDoc(parses, s'.content)
    requires e.action.Start? ==> RecoveryKeeps(parses, s.disk, e.action.o.rename)
    ensures Exact(parses, s')
  {
    hide StartPath; hide UpdatePath; hide BackupPath; hide RecoveryKeeps;
    var p := PathOf(parses, s.disk, e.action);
    var k := if e.crash.Some? then e.crash.value else |p.states|;
    match e.action
    case Start(o, defaults, f) => KeepsAll(parses, s.disk, o, defaults, f, k);
    case Backup(c) => BackupKeepsContent(parses, s.disk, c, k);
    case Update(doc, f) => UpdateIsAtomic(parses, s.disk, doc, f, k);
  }

  lemma {:induction false} RunIsExact(parses: Parser, run: seq<System>, events: seq<Event>)
    requires IsRun(parses, run, events) && StartsKeep(parses, run, events) && DocumentsValid(parses, run)
    requires run[0].mode == Starting && Effective(parses, run[0].disk) == Some(run[0].content)
    ensures forall i :: 0 <= i < |run| ==> Exact(parses, run[i])
  {
    if events != [] {
      hide Next; hide RecoveryKeeps; hide Exact; hide Effective;
      var before := Front(run);
      RunIsExact(parses, before, Front(events));
      assert Exact(parses, before[|run| - 2]);
      NextIsExact(parses, run[|run| - 2], Last(events), Last(run));
      forall i | 0 <= i < |run|
        ensures Exact(parses, run[i])
      {
        assert i < |before| ==> before[i] == run[i];
      }
    }
  }

  /** Over any run whose start-ups find disks that they keep (RecoveryKeepsExactly), the content in
      effect is always exactly the one committed last if and only if every committed document
      validates; and a start-up that went on has it in the settings file in full. */
  lemma RunKeepsContent(parses: Parser, run: seq<System>, events: seq<Event>)
    requires IsRun(parses, run, events) && StartsKeep(parses, run, events)
    requires run[0].mode == Starting && Effective(parses, run[0].disk) == Some(run[0].content)
    ensures (forall i :: 0 <= i < |run| ==> Effective(parses, run[i].disk) == Some(run[i].content))
            <==> DocumentsValid(parses, run)
    ensures DocumentsValid(parses, run) ==> forall i :: 0 <= i < |run| ==> Exact(parses, run[i])
  {
    if DocumentsValid(parses, run) {
      RunIsExact(parses, run, events);
    }
    hide IsRun; hide StartsKeep;
  }

  /** A disk that start-ups keep whenever the .bak can be renamed. */
  ghost predicate Recoverable(parses: Parser, d: Disk) {
    AtHand(parses, d) || (ValidFile(parses, d.good) && NoValidPrefix(parses, d.good.value))
  }

  lemma NextIsRecoverable(parses: Parser, s: System, e: Event, s': System)
    requires Exact(parses, s) && Recoverable(parses, s.disk) && Next(parses, s, e, s') && ValidDoc(parses, s'.content)
    requires e.action.Start? ==> e.action.o.rename
    ensures Recoverable(parses, s'.disk)
  {
    hide UpdatePath; hide BackupPath; hide CopyBack;
    var p := PathOf(parses, s.disk, e.action);
    var k := if e.crash.Some? then e.crash.value else |p.states|;
    match e.action
    case Start(o, defaults, f) =>
      if !AtHand(parses, s.disk) {
        CopyBackStep(parses, s.disk, o, k);
      }
    case Backup(c) => BackupKeepsContent(parses, s.disk, c, k);
    case Update(doc, f) => UpdateIsAtomic(parses, s.disk, doc, f, k);
  }

  lemma {:induction false} RenamesSuffice(parses: Parser, run: seq<System>, events: seq<Event>)
    requires IsRun(parses, run, events) && RenamesWork(run, events) && DocumentsValid(parses, run)
    requires run[0].mode == Starting && Effective(parses, run[0].disk) == Some(run[0].content)
    requires Recoverable(parses, run[0].disk)
    ensures StartsKeep(parses, run, events) && Recoverable(parses, Last(run).disk)
  {
    if events != [] {
      hide Next; hide Exact; hide AtHand;
      var before := Front(run);
      var s := Last(before);
      RenamesSuffice(parses, before, Front(events));
      RunKeepsContent(parses, before, Front(events));
      assert s == run[|run| - 2] && Exact(parses, s);
      NextIsRecoverable(parses, s, Last(events), Last(run));
      forall i | 0 <= i < |events| && events[i].action.Start?
        ensures RecoveryKeeps(parses, run[i].disk, events[i].action.o.rename)
      {
        if i < |events| - 1 {
          assert Front(events)[i] == events[i] && before[i] == run[i];
        } else {
          RecoverableKeeps(parses, s.disk);
        }
      }
    }
  }

  lemma RecoverableKeeps(parses: Parser, d: Disk)
    requires Recoverable(parses, d)
    ensures RecoveryKeeps(parses, d, true)
  {
  }

  /** From a valid settings file or .bak, whatever the parser accepts, and from a good copy without a
      valid proper prefix, a run with crashes anywhere keeps exactly the content committed last, if
      and only if every committed document validates. */
  lemma RunIsCrashSafe(parses: Parser, run: seq<System>, events: seq<Event>)
    requires IsRun(parses, run, events) && RenamesWork(run, events)
    requires run[0].mode == Starting && Effective(parses, run[0].disk) == Some(run[0].content)
    requires AtHand(parses, run[0].disk) || NoValidPrefix(parses, run[0].content)
    ensures (forall i :: 0 <= i < |run| ==> Effective(parses, run[i].disk) == Some(run[i].content))
            <==> DocumentsValid(parses, run)
    ensures DocumentsValid(parses, run) ==> forall i :: 0 <= i < |run| ==> Exact(parses, run[i])
  {
    if DocumentsValid(parses, run) {
      RenamesSuffice(parses, run, events);
      RunKeepsContent(parses, run, events);
    }
  }

  // ---------------------------------------------------------------------
  // The three calls as they are written, one file operation after another.
  // ---------------------------------------------------------------------

  class Store {
    var disk: Disk
    ghost var log: seq<Disk>  // the states the current call has passed through

    method Put(d: Disk)
      modifies this
      ensures disk == d && log == old(log) + [d]
    {
      disk := d;
      log := log + [d];
    }

    method Restore(f: Faults)
      modifies this
      ensures disk == Restored(old(disk), f) && log == old(log) + [disk]
    {
      if disk.bak.Some? && f.restoreRename {
        Put(disk.(main := disk.bak, bak := None));
      } else {
        Put(disk);
      }
    }

    method WriteFragments(fragments: seq<Doc>)
      modifies this
      ensures disk.(tmp := None) == old(disk).(tmp := None)
      ensures log == old(log) + Fragments(old(disk), fragments)
    {
      ghost var d0 := disk;
      for i := 0 to |fragments|
        invariant disk.(tmp := None) == d0.(tmp := None)
        invariant log == old(log) + Fragments(d0, fragments)[..i]
      {
        Put(disk.(tmp := Some(fragments[i])));
      }
    }

    method WriteAndCommit(doc: Doc, f: Faults) returns (ok: bool)
      modifies this
      ensures var p := WritePath(old(disk), doc, f);
              ok == p.ok && disk == End(old(disk), p) && log == old(log) + p.states && p.states != []
    {
      hide Fragments;
      ghost var moved := disk;
      Put(disk.(tmp := Some("")));
      FragmentsOnly(disk, moved, f.fragments);
      WriteFragments(f.fragments);
      assert log == old(log) + ([moved.(tmp := Some(""))] + Fragments(moved, f.fragments));
      if !f.write || !f.flush || !f.sync {
        Put(disk.(tmp := None));
        Restore(f);
        return false;
      }
      Put(disk.(tmp := Some(doc)));
      if !f.commitRename {
        Put(disk.(tmp := None));
        Restore(f);
        return false;
      }
      Put(disk.(main := disk.tmp, tmp := None));
      if disk.bak.Some? && f.dropBackup {
        Put(disk.(bak := None));
      } else {
        Put(disk);
      }
      ok := true;
    }

    method UpdateSetting(doc: Doc, f: Faults) returns (ok: bool)
      modifies this
      ensures var p := UpdatePath(old(disk), doc, f);
              ok == p.ok && disk == End(old(disk), p) && log == p.states
    {
      hide WritePath;
      log := [];
      if disk.main.Some? {
        if !f.backupRename {
          return false;
        }
        Put(disk.(main := None, bak := disk.main));
      } else {
        Put(disk);
      }
      if !f.open {
        Restore(f);
        return false;
      }
      ok := WriteAndCommit(doc, f);
    }

    /** Recovery, and the defaults when nothing can be restored. */
    method EnsureValidSettingsFile(parses: Parser, o: Outcome, defaults: Doc, f: Faults)
      modifies this
      ensures var p := StartPath(parses, old(disk), o, defaults, f);
              disk == End(old(disk), p) && log == p.states
    {
      hide UpdatePath; hide CopyBack;
      log := [];
      if !ValidFile(parses, disk.main) {
        if ValidFile(parses, disk.bak) {
          if o.rename {
            Put(disk.(main := disk.bak, bak := None));
            return;
          }
        }
        if ValidFile(parses, disk.good) {
          CopyGood(disk.good.value, o);
          return;
        }
        var _ := UpdateSetting(defaults, f);
      }
    }

    method CopyGood(source: Doc, o: Outcome)
      requires log == []
      modifies this
      ensures log == CopyBack(old(disk), source, o)
      ensures disk == if log == [] then old(disk) else Last(log)
    {
      ghost var d0 := disk;
      if o.openTarget {
        Put(disk.(main := Some("")));
        if o.openSource {
          for i := 0 to |o.cuts|
            invariant disk.(main := None) == d0.(main := None)
            invariant log == [d0.(main := Some(""))] + Copying(d0, source, o.cuts)[..i]
          {
            Put(disk.(main := Some(Cut(source, o.cuts[i]))));
          }
          Put(disk.(main := Some(Cut(source, o.copied))));
        }
      }
    }

    method CreateSettingsBackup(parses: Parser, c: CopyFaults)
      modifies this
      ensures var p := BackupPath(parses, old(disk), c);
              disk == End(old(disk), p) && log == p.states
    {
      log := [];
      if ValidFile(parses, disk.main) {
        ghost var d0 := disk;
        Put(disk.(good := None));
        if c.openTarget {
          Put(disk.(good := Some("")));
          if c.openSource {
            for i := 0 to |c.fragments|
              invariant disk.(good := None) == d0.(good := None)
              invariant log == BackupPath(parses, d0, c).states[..i + 2]
            {
              Put(disk.(good := Some(c.fragments[i])));
            }
            Put(disk.(good := if c.short.Some? then c.short else disk.main));
          }
        }
      }
    }
  }
}
