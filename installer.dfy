/**
 * The install worker (the thread spawned at src/main.rs:238-298): it waits
 * for the user's choice, announces each stage on the progress channel before
 * doing it, downloads the artifact, unpacks it into the game directory and
 * runs MiniInstaller. Every `unwrap` and `assert!` that fails panics, and the
 * panic hook (src/main.rs:55-59) ends the process, so a failed stage sends
 * nothing more.
 *
 * The network, the zip decoder and the child process are inputs: a
 * `Download`, the decoded entries (or none, for an archive that does not
 * open) and an `Exit`.
 */
module Installer {
  import opened Base
  import opened Fs
  import Updater

  // ---------------------------------------------------------------------
  // Inputs and observable actions.

  /** What the selection page hands to the worker: version, game directory and
      the interpreter found for MiniInstaller.exe, if any. */
  datatype Job = Job(version: Updater.EverestVersion, game: Path, mono: Option<string>)

  /** `reqwest::get`: a transport error, or a response with its status and
      its body (none when reading it fails). */
  datatype Download = TransportError | Response(status: nat, body: Option<seq<byte>>)

  /** One zip entry: its name, its decompressed bytes, and whether reading it
      and the operating system's calls for it succeed (apart from the
      conflicts the filesystem model decides itself). */
  datatype Entry = Entry(name: seq<byte>, data: seq<byte>, ioOk: bool)

  /** `Command::status`: the child could not be spawned, or its exit status. */
  datatype Exit = SpawnFailed | Exited(success: bool)

  /** A child process request. */
  datatype Command = Command(program: string, args: seq<string>, cwd: Path)

  /** What the worker does, in order: a message on the progress channel, a
      download, the handling of one zip entry, a process launch. */
  datatype Action = Sent(msg: string) | Fetch(url: string) | Unpack(name: seq<byte>) | Spawn(cmd: Command)

  /** The stage messages, in the order the worker sends them. */
  const Downloading: string := "downloading"
  const Extracting: string := "extracting"
  const Installing: string := "installing"
  const Done: string := "done"
  const Stages: seq<string> := [Downloading, Extracting, Installing, Done]
  const InstallerExe: string := "MiniInstaller.exe"

  /** The length of the wrapper directory name every entry starts with. */
  const WrapperLength: nat := 5

  /** The download went through: no transport error, a 2xx status, a body
      that could be read. */
  predicate Fetched(d: Download)
  {
    d.Response? && 200 <= d.status < 300 && d.body.Some?
  }

  /** The messages of a log, in order: what the progress channel carries. */
  function Outbox(log: seq<Action>): (out: seq<string>)
    ensures |out| <= |log|
    decreases |log|
  {
    if log == [] then []
    else Outbox(log[..|log| - 1]) + (if log[|log| - 1].Sent? then [log[|log| - 1].msg] else [])
  }

  /** One Unpack action per entry, in entry order. */
  function Unpacks(es: seq<Entry>): (log: seq<Action>)
    ensures |log| == |es|
    decreases |es|
  {
    if es == [] then [] else Unpacks(es[..|es| - 1]) + [Unpack(es[|es| - 1].name)]
  }

  // ---------------------------------------------------------------------
  // The installer command (src/main.rs:282-293).

  /** The executable a command ends up running: the interpreter's first
      argument, or the program itself. */
  function Runs(c: Command): string
  {
    if c.args != [] then c.args[0] else c.program
  }

  /** With an interpreter, `mono MiniInstaller.exe`; without, MiniInstaller.exe
      directly; both in the game directory. */
  function InstallerCommand(mono: Option<string>, game: Path): (c: Command)
    ensures c.cwd == game
    ensures Runs(c) == InstallerExe
    ensures mono.Some? ==> c.program == mono.value && |c.args| == 1
    ensures mono.None? ==> c.program == InstallerExe && c.args == []
  {
    match mono
    case Some(m) => Command(m, [InstallerExe], game)
    case None => Command(InstallerExe, [], game)
  }

  // ---------------------------------------------------------------------
  // One zip entry (src/main.rs:260-277).

  /** `str::is_char_boundary` on UTF-8 bytes. */
  predicate IsCharBoundary(s: seq<byte>, i: nat)
  {
    i == 0 || i == |s| || (i < |s| && !(0x80 <= s[i] < 0xC0))
  }

  predicate EndsWithSlash(name: seq<byte>)
  {
    |name| > 0 && name[|name| - 1] == Slash
  }

  /** `game.push(&name[5..])`. */
  function Destination(game: Path, name: seq<byte>): Path
    requires WrapperLength <= |name|
  {
    Join(game, ParsePath(name[WrapperLength..]))
  }

  /** The filesystem after one entry, or none when the worker panics: the
      slice `name[5..]` is out of range or cuts a character, the entry cannot
      be read or written, or the filesystem refuses the call. A file entry
      named by the wrapper alone pushes an empty remainder, which leaves a
      trailing '/' on the game directory; opening that for writing fails
      whatever is there. */
  function Step(fs: FileSystem, game: Path, e: Entry): Option<FileSystem>
  {
    if !IsCharBoundary(e.name, WrapperLength) || !e.ioOk then None
    else if EndsWithSlash(e.name) then CreateDirAll(fs, Destination(game, e.name))
    else if |e.name| == WrapperLength then None
    else WriteFile(fs, Destination(game, e.name), e.data)
  }

  /** The state an extraction reaches: the filesystem, how many entries went
      through (a failing entry is not counted), and whether all of them did. */
  datatype Extracted = Extracted(fs: FileSystem, applied: nat, ok: bool)

  /** The extraction loop over the entries in index order, stopping at the
      first entry that fails. */
  function Extraction(fs: FileSystem, game: Path, es: seq<Entry>): (x: Extracted)
    ensures x.applied <= |es|
    ensures x.ok <==> x.applied == |es|
    decreases |es|
  {
    if es == [] then Extracted(fs, 0, true)
    else
      var prev := Extraction(fs, game, es[..|es| - 1]);
      if !prev.ok then prev
      else match Step(prev.fs, game, es[|es| - 1])
        case None => Extracted(prev.fs, |es| - 1, false)
        case Some(f) => Extracted(f, |es|, true)
  }

  // ---------------------------------------------------------------------
  // The whole run.

  /** What a run leaves behind: its log and the filesystem. */
  datatype Trace = Trace(log: seq<Action>, fs: FileSystem)

  /** The last stage: announce it, launch the installer, and announce the end
      only if the installer exited successfully. */
  function Launch(j: Job, exit: Exit): seq<Action>
  {
    [Sent(Installing), Spawn(InstallerCommand(j.mono, j.game))]
      + (if exit == Exited(true) then [Sent(Done)] else [])
  }

  /** The log from the opening of the archive on, for an extraction that took
      up the first `taken` entries and went through or not. */
  function Unzipping(j: Job, es: seq<Entry>, taken: nat, ok: bool, exit: Exit): seq<Action>
    requires taken <= |es|
  {
    Unpacks(es[..taken]) + (if ok then Launch(j, exit) else [])
  }

  /** The log of a run once the job has arrived, for any outcome of the
      extraction: a failed download, or an archive that does not open, ends
      the run. */
  function RunLog(j: Job, dl: Download, zip: Option<seq<Entry>>, taken: nat, ok: bool, exit: Exit): seq<Action>
    requires zip.Some? ==> taken <= |zip.value|
  {
    [Sent(Downloading), Fetch(j.version.url)]
      + (if !Fetched(dl) then []
         else [Sent(Extracting)] + (if zip.None? then [] else Unzipping(j, zip.value, taken, ok, exit)))
  }

  /** How many entries an extraction took up: all of them, or those before
      the failing one and the failing one itself. */
  function Taken(x: Extracted, n: nat): nat
  {
    if x.ok then n else x.applied + 1
  }

  /** The worker's run for its inputs, starting from filesystem fs. `None`
      for the job is the handoff channel closing before a choice was made. */
  function Pipeline(job: Option<Job>, dl: Download, zip: Option<seq<Entry>>, exit: Exit, fs: FileSystem): Trace
  {
    match job
    case None => Trace([], fs)
    case Some(j) =>
      if Fetched(dl) && zip.Some? then
        var x := Extraction(fs, j.game, zip.value);
        Trace(RunLog(j, dl, zip, Taken(x, |zip.value|), x.ok, exit), x.fs)
      else Trace(RunLog(j, dl, zip, 0, false, exit), fs)
  }

  /** The worker thread, with the filesystem it writes and the log of what
      it has done. */
  class Worker {
    var log: seq<Action>
    var fs: FileSystem

    constructor (disk: FileSystem)
      ensures log == [] && fs == disk
    {
      log := [];
      fs := disk;
    }

    /** `tx.send(msg)`. */
    method Send(msg: string)
      modifies this
      ensures log == old(log) + [Sent(msg)] && fs == old(fs)
    {
      log := log + [Sent(msg)];
    }

    /** The body of the extraction loop for one entry: the slice that drops
        the wrapper directory, then `create_dir_all` for a name ending in
        '/', or an open for writing and a copy for any other name. */
    method TakeUp(game: Path, entry: Entry) returns (ok: bool)
      modifies this
      ensures Step(old(fs), game, entry) == if ok then Some(fs) else None
      ensures !ok ==> fs == old(fs)
      ensures log == old(log)
    {
      if !IsCharBoundary(entry.name, WrapperLength) || !entry.ioOk {
        return false;
      }
      var path := Destination(game, entry.name);
      var next: Option<FileSystem>;
      if EndsWithSlash(entry.name) {
        next := CreateDirAll(fs, path);
      } else if |entry.name| == WrapperLength {
        return false;
      } else {
        next := WriteFile(fs, path, entry.data);
      }
      if next.None? {
        return false;
      }
      fs := next.value;
      return true;
    }

    /** The loop `for i in 0..zip.len()`: each entry is taken up in index
        order; the first failure stops the worker. */
    method Extract(game: Path, entries: seq<Entry>) returns (ok: bool)
      modifies this
      ensures var x := Extraction(old(fs), game, entries);
        && ok == x.ok && fs == x.fs
        && log == old(log) + Unpacks(entries[..Taken(x, |entries|)])
    {
      var i := 0;
      while i < |entries|
        invariant 0 <= i <= |entries|
        invariant Extraction(old(fs), game, entries[..i]) == Extracted(fs, i, true)
        invariant log == old(log) + Unpacks(entries[..i])
      {
        UnpacksSnoc(entries, i);
        log := log + [Unpack(entries[i].name)];
        ghost var before := fs;
        var stepped := TakeUp(game, entries[i]);
        ExtractionAdvances(old(fs), game, entries, i, before);
        if !stepped {
          return false;
        }
        i := i + 1;
      }
      assert entries[..|entries|] == entries;
      return true;
    }

    /** The worker closure: wait for the job, then announce and run each
        stage in turn. */
    method Run(job: Option<Job>, dl: Download, zip: Option<seq<Entry>>, exit: Exit)
      modifies this
      ensures var t := Pipeline(job, dl, zip, exit, old(fs));
        log == old(log) + t.log && fs == t.fs
    {
      if job.None? {
        return;
      }
      var j := job.value;
      ghost var start := log;
      Send(Downloading);
      log := log + [Fetch(j.version.url)];
      if !Fetched(dl) {
        return;
      }
      Send(Extracting);
      if zip.None? {
        return;
      }
      ghost var head := log;
      assert head == start + [Sent(Downloading), Fetch(j.version.url), Sent(Extracting)];
      Unzip(j, zip.value, exit);
      ghost var x := Extraction(old(fs), j.game, zip.value);
      ghost var rest := Unzipping(j, zip.value, Taken(x, |zip.value|), x.ok, exit);
      assert RunLog(j, dl, zip, Taken(x, |zip.value|), x.ok, exit)
        == [Sent(Downloading), Fetch(j.version.url)] + ([Sent(Extracting)] + rest);
      assert log == head + rest;
    }

    /** From the opening of the archive on: the extraction loop, then the
        installer if every entry went through. */
    method Unzip(j: Job, es: seq<Entry>, exit: Exit)
      modifies this
      ensures var x := Extraction(old(fs), j.game, es);
        log == old(log) + Unzipping(j, es, Taken(x, |es|), x.ok, exit) && fs == x.fs
    {
      var ok := Extract(j.game, es);
      if ok {
        Install(j, exit);
      }
    }

    /** The last stage, announced before the launch. The installer's own
        writes to the game directory are not part of the model: `fs` keeps
        what the extraction left. */
    method Install(j: Job, exit: Exit)
      modifies this
      ensures log == old(log) + Launch(j, exit) && fs == old(fs)
    {
      Send(Installing);
      var command := InstallerCommand(j.mono, j.game);
      log := log + [Spawn(command)];
      if exit != Exited(true) {
        return;
      }
      Send(Done);
    }
  }

  // ---------------------------------------------------------------------
  // Properties of the extraction.

  /** Taking up entry i after the first i succeeded: the extraction goes on
      with the new filesystem, or stops there for good. */
  lemma ExtractionAdvances(fs: FileSystem, game: Path, es: seq<Entry>, i: nat, f: FileSystem)
    requires i < |es|
    requires Extraction(fs, game, es[..i]) == Extracted(f, i, true)
    ensures forall g :: Step(f, game, es[i]) == Some(g) ==> Extraction(fs, game, es[..i + 1]) == Extracted(g, i + 1, true)
    ensures Step(f, game, es[i]).None? ==> Extraction(fs, game, es) == Extracted(f, i, false)
  {
    assert es[..i + 1][..i] == es[..i];
    if Step(f, game, es[i]).None? {
      ExtractionStaysStopped(fs, game, es, i + 1);
    }
  }

  lemma UnpacksSnoc(es: seq<Entry>, i: nat)
    requires i < |es|
    ensures Unpacks(es[..i + 1]) == Unpacks(es[..i]) + [Unpack(es[i].name)]
  {
    assert es[..i + 1][..i] == es[..i];
  }

  /** Once an extraction has stopped, later entries change nothing. */
  lemma {:induction false} ExtractionStaysStopped(fs: FileSystem, game: Path, es: seq<Entry>, n: nat)
    requires n <= |es|
    requires !Extraction(fs, game, es[..n]).ok
    ensures Extraction(fs, game, es) == Extraction(fs, game, es[..n])
    decreases |es| - n
  {
    if n < |es| {
      assert es[..n + 1][..n] == es[..n];
      ExtractionStaysStopped(fs, game, es, n + 1);
    } else {
      assert es[..n] == es;
    }
  }

  /** A directory entry only ever adds directories, and only along its
      destination: no regular file appears, disappears or changes, and every
      directory stays. */
  lemma DirectoryEntryWritesNoFile(fs: FileSystem, game: Path, e: Entry)
    requires EndsWithSlash(e.name)
    requires Step(fs, game, e).Some?
    ensures forall q :: IsFile(Step(fs, game, e).value, q) <==> IsFile(fs, q)
    ensures forall q :: IsFile(fs, q) ==> q in Step(fs, game, e).value && Step(fs, game, e).value[q] == fs[q]
    ensures IsDir(Step(fs, game, e).value, Destination(game, e.name))
    ensures forall q :: IsDir(fs, q) ==> IsDir(Step(fs, game, e).value, q)
    ensures forall q :: q in Step(fs, game, e).value ==> q in fs || IsAncestor(q, Destination(game, e.name))
  {
    CreateDirAllEffect(fs, Destination(game, e.name));
  }

  /** A file entry writes its bytes from offset 0 into its destination, keeps
      any longer old tail, and touches nothing else. */
  lemma FileEntryOverwrites(fs: FileSystem, game: Path, e: Entry)
    requires !EndsWithSlash(e.name)
    requires Step(fs, game, e).Some?
    ensures var f, p := Step(fs, game, e).value, Destination(game, e.name);
      && IsFile(f, p)
      && f[p].bytes[..|e.data|] == e.data
      && (|Existing(fs, p)| > |e.data| ==> f[p].bytes[|e.data|..] == Existing(fs, p)[|e.data|..])
      && f[p].bytes == Overwrite(Existing(fs, p), e.data)
      && (forall q :: q != p ==> (q in f <==> q in fs))
      && forall q :: q in fs && q != p ==> q in f && f[q] == fs[q]
  {
    WriteFileEffect(fs, Destination(game, e.name), e.data);
    var f, p := Step(fs, game, e).value, Destination(game, e.name);
    var prior := Existing(fs, p);
    assert f[p].bytes == Overwrite(prior, e.data);
    if |prior| > |e.data| {
      assert f[p].bytes == e.data + prior[|e.data|..];
    }
  }

  /** A file entry named by the wrapper alone, such as "wrapX", fails
      whatever the filesystem holds, even where the game directory is absent
      or a regular file. */
  lemma BareWrapperFileEntryFails(fs: FileSystem, game: Path, e: Entry)
    requires |e.name| == WrapperLength && !EndsWithSlash(e.name)
    ensures Step(fs, game, e).None?
  {
  }

  /** Taking up the same entry a second time succeeds and changes nothing. */
  lemma StepIdempotent(fs: FileSystem, game: Path, e: Entry)
    requires Step(fs, game, e).Some?
    ensures Step(Step(fs, game, e).value, game, e) == Step(fs, game, e)
  {
    if EndsWithSlash(e.name) {
      CreateDirAllIdempotent(fs, Destination(game, e.name));
    } else {
      WriteFileIdempotent(fs, Destination(game, e.name), e.data);
    }
  }

  /** An entry name whose remainder is relative is appended to the game
      directory: the game's components followed by the remainder's, `..`
      included. The model does not resolve `..`; on a real filesystem such a
      component leaves the game directory. */
  lemma RelativeEntryAppendsToGame(game: Path, name: seq<byte>)
    requires WrapperLength < |name| && name[WrapperLength] != Slash
    ensures Destination(game, name) == Path(game.absolute, game.parts + Components(name[WrapperLength..]))
  {
  }

  /** Nothing confines the destination: when the remainder of the name
      starts with '/', it replaces the game directory altogether. */
  lemma AbsoluteEntryIgnoresGame(game: Path, other: Path, name: seq<byte>)
    requires WrapperLength < |name| && name[WrapperLength] == Slash
    ensures Destination(game, name).absolute
    ensures Destination(game, name) == Destination(other, name)
  {
  }

  /** An entry named "wrap//etc/x" is written at /etc/x, whatever the game
      directory. */
  lemma AbsoluteEntryExample(game: Path)
    ensures var name: seq<byte> := [0x77, 0x72, 0x61, 0x70, 0x2F, 0x2F, 0x65, 0x74, 0x63, 0x2F, 0x78];
      Destination(game, name) == Path(true, [[0x65, 0x74, 0x63], [0x78]])
  {
    var name: seq<byte> := [0x77, 0x72, 0x61, 0x70, 0x2F, 0x2F, 0x65, 0x74, 0x63, 0x2F, 0x78];
    var rest: seq<byte> := [0x2F, 0x65, 0x74, 0x63, 0x2F, 0x78];
    assert name[WrapperLength..] == rest;
    var etc: seq<byte> := [0x65, 0x74, 0x63, 0x2F, 0x78];
    assert rest[1..] == etc;
    assert etc[1..][1..][1..] == [0x2F, 0x78];
    assert SegmentLength(etc[1..][1..][1..]) == 0;
    assert SegmentLength(etc) == 3;
    assert etc[..3] == [0x65, 0x74, 0x63];
    assert etc[3..] == [0x2F, 0x78];
    var x: seq<byte> := [0x78];
    assert [0x2F, 0x78][1..] == x;
    assert x[1..] == [];
    assert SegmentLength(x) == 1;
    assert x[..1] == x;
    assert Components(x) == [x];
    assert Components(etc) == [[0x65, 0x74, 0x63], x];
  }

  /** An entry named "wrap/../x" is pushed as the game directory followed by
      `..` and `x`: the file beside the game directory, not inside it. */
  lemma ParentEntryExample(game: Path)
    ensures var name: seq<byte> := [0x77, 0x72, 0x61, 0x70, 0x2F, 0x2E, 0x2E, 0x2F, 0x78];
      Destination(game, name) == Path(game.absolute, game.parts + [[0x2E, 0x2E], [0x78]])
  {
    var name: seq<byte> := [0x77, 0x72, 0x61, 0x70, 0x2F, 0x2E, 0x2E, 0x2F, 0x78];
    var up: seq<byte> := [0x2E, 0x2E];
    var x: seq<byte> := [0x78];
    assert name[WrapperLength..] == up + [Slash] + x;
    ComponentsSplit(up, x);
    SingleComponent(up);
    SingleComponent(x);
  }

  // ---------------------------------------------------------------------
  // Properties of the stage protocol.

  lemma {:induction false} OutboxAppend(a: seq<Action>, b: seq<Action>)
    ensures Outbox(a + b) == Outbox(a) + Outbox(b)
    decreases |b|
  {
    if b == [] {
      assert a + b == a;
    } else {
      var b' := b[..|b| - 1];
      assert (a + b)[..|a + b| - 1] == a + b';
      OutboxAppend(a, b');
    }
  }

  /** Unpacking sends nothing. */
  lemma {:induction false} UnpacksSendNothing(es: seq<Entry>)
    ensures Outbox(Unpacks(es)) == []
    decreases |es|
  {
    if es != [] {
      var es' := es[..|es| - 1];
      assert Unpacks(es)[..|es| - 1] == Unpacks(es');
      UnpacksSendNothing(es');
    }
  }

  /** The messages of the last stage. */
  lemma LaunchOutbox(j: Job, exit: Exit)
    ensures Outbox(Launch(j, exit)) == if exit == Exited(true) then [Installing, Done] else [Installing]
  {
    var spawn := Spawn(InstallerCommand(j.mono, j.game));
    var start := [Sent(Installing), spawn];
    OutboxOne(Sent(Installing));
    OutboxOne(spawn);
    OutboxAppend([Sent(Installing)], [spawn]);
    assert [Sent(Installing)] + [spawn] == start;
    assert Outbox(start) == [Installing];
    if exit == Exited(true) {
      OutboxOne(Sent(Done));
      OutboxAppend(start, [Sent(Done)]);
      assert Launch(j, exit) == start + [Sent(Done)];
    } else {
      assert Launch(j, exit) == start;
    }
  }

  /** How many stage messages a run whose job arrived sends, for any outcome
      of the extraction. */
  function Reached(dl: Download, zip: Option<seq<Entry>>, ok: bool, exit: Exit): nat
  {
    if !Fetched(dl) then 1
    else if zip.None? || !ok then 2
    else if exit != Exited(true) then 3
    else 4
  }

  /** The message of a single action. */
  lemma OutboxOne(a: Action)
    ensures Outbox([a]) == if a.Sent? then [a.msg] else []
  {
    assert [a][..0] == [];
  }

  /** The stage messages of a run are the first few stages, as many as the
      run reached, whatever the extraction did. */
  lemma RunLogOutbox(j: Job, dl: Download, zip: Option<seq<Entry>>, taken: nat, ok: bool, exit: Exit)
    requires zip.Some? ==> taken <= |zip.value|
    ensures Outbox(RunLog(j, dl, zip, taken, ok, exit)) == Stages[..Reached(dl, zip, ok, exit)]
  {
    var head := [Sent(Downloading), Fetch(j.version.url)];
    HeadOutbox(j);
    var rest := RunLog(j, dl, zip, taken, ok, exit)[2..];
    assert RunLog(j, dl, zip, taken, ok, exit) == head + rest;
    OutboxAppend(head, rest);
    if Fetched(dl) {
      ExtractingOutbox(j, zip, taken, ok, exit);
    }
    StagesPrefix(Reached(dl, zip, ok, exit));
  }

  lemma HeadOutbox(j: Job)
    ensures Outbox([Sent(Downloading), Fetch(j.version.url)]) == [Downloading]
  {
    OutboxOne(Sent(Downloading));
    OutboxOne(Fetch(j.version.url));
    OutboxAppend([Sent(Downloading)], [Fetch(j.version.url)]);
    assert [Sent(Downloading)] + [Fetch(j.version.url)] == [Sent(Downloading), Fetch(j.version.url)];
  }

  /** The messages from the announcement of the extraction on. */
  lemma ExtractingOutbox(j: Job, zip: Option<seq<Entry>>, taken: nat, ok: bool, exit: Exit)
    requires zip.Some? ==> taken <= |zip.value|
    ensures var tail := if zip.None? then [] else Unzipping(j, zip.value, taken, ok, exit);
      Outbox([Sent(Extracting)] + tail)
        == if zip.None? || !ok then [Extracting]
           else if exit != Exited(true) then [Extracting, Installing]
           else [Extracting, Installing, Done]
  {
    OutboxOne(Sent(Extracting));
    if zip.Some? {
      var tail := Unzipping(j, zip.value, taken, ok, exit);
      OutboxAppend([Sent(Extracting)], tail);
      UnzippingOutbox(j, zip.value, taken, ok, exit);
    } else {
      assert [Sent(Extracting)] + [] == [Sent(Extracting)];
    }
  }

  /** Unpacking sends nothing; the installer's stage sends its messages. */
  lemma UnzippingOutbox(j: Job, es: seq<Entry>, taken: nat, ok: bool, exit: Exit)
    requires taken <= |es|
    ensures Outbox(Unzipping(j, es, taken, ok, exit))
      == if !ok then [] else if exit != Exited(true) then [Installing] else [Installing, Done]
  {
    UnpacksSendNothing(es[..taken]);
    var last: seq<Action> := if ok then Launch(j, exit) else [];
    OutboxAppend(Unpacks(es[..taken]), last);
    if ok {
      LaunchOutbox(j, exit);
    } else {
      assert last == [];
    }
  }

  /** The first n stages, written out. */
  lemma StagesPrefix(n: nat)
    requires 1 <= n <= 4
    ensures Stages[..n] == [Downloading] + (if n == 1 then [] else if n == 2 then [Extracting]
      else if n == 3 then [Extracting, Installing] else [Extracting, Installing, Done])
  {
  }

  /** How many stage messages a run sends. */
  function StagesReached(job: Option<Job>, dl: Download, zip: Option<seq<Entry>>, exit: Exit, fs: FileSystem): nat
  {
    if job.None? then 0
    else Reached(dl, zip, zip.Some? && Extraction(fs, job.value.game, zip.value).ok, exit)
  }

  /** The stage messages of a run are the first few stages, as many as the
      run reached. */
  lemma PipelineOutbox(job: Option<Job>, dl: Download, zip: Option<seq<Entry>>, exit: Exit, fs: FileSystem)
    ensures Outbox(Pipeline(job, dl, zip, exit, fs).log) == Stages[..StagesReached(job, dl, zip, exit, fs)]
  {
    if job.Some? {
      var j := job.value;
      if Fetched(dl) && zip.Some? {
        var x := Extraction(fs, j.game, zip.value);
        RunLogOutbox(j, dl, zip, Taken(x, |zip.value|), x.ok, exit);
      } else {
        RunLogOutbox(j, dl, zip, 0, false, exit);
      }
    }
  }

  /** A run that gets through every stage sends exactly the four stage
      messages, in order. */
  lemma SuccessfulRunAnnouncesEveryStage(j: Job, dl: Download, es: seq<Entry>, fs: FileSystem)
    requires Fetched(dl)
    requires Extraction(fs, j.game, es).ok
    ensures Outbox(Pipeline(Some(j), dl, Some(es), Exited(true), fs).log)
      == [Downloading, Extracting, Installing, Done]
  {
    PipelineOutbox(Some(j), dl, Some(es), Exited(true), fs);
    assert Stages[..4] == Stages;
  }

  /** A failed download ends the run after its announcement: nothing else is
      sent, nothing is unpacked or launched, and the filesystem is as it was. */
  lemma FailedDownloadStopsTheRun(j: Job, dl: Download, zip: Option<seq<Entry>>, exit: Exit, fs: FileSystem)
    requires !Fetched(dl)
    ensures var t := Pipeline(Some(j), dl, zip, exit, fs);
      && Outbox(t.log) == [Downloading]
      && (forall a :: a in t.log ==> !a.Unpack? && !a.Spawn?)
      && t.fs == fs
  {
    PipelineOutbox(Some(j), dl, zip, exit, fs);
    assert Pipeline(Some(j), dl, zip, exit, fs).log == [Sent(Downloading), Fetch(j.version.url)];
  }

  /** "done" goes out exactly when the job arrived, the download, the archive
      and every entry went through and the installer exited successfully. */
  lemma DoneIffInstallerSucceeded(job: Option<Job>, dl: Download, zip: Option<seq<Entry>>, exit: Exit, fs: FileSystem)
    ensures Done in Outbox(Pipeline(job, dl, zip, exit, fs).log)
      <==> && job.Some? && Fetched(dl) && zip.Some?
           && Extraction(fs, job.value.game, zip.value).ok
           && exit == Exited(true)
  {
    PipelineOutbox(job, dl, zip, exit, fs);
    var n := StagesReached(job, dl, zip, exit, fs);
    assert Done !in Stages[..3];
    if n < 4 {
      assert Stages[..n] == Stages[..3][..n];
    } else {
      assert Stages[..n][3] == Done;
    }
  }

  /** The messages of any run are a prefix of the four stages: no message
      repeats, none is skipped, and "done" can only come last. */
  lemma OutboxFollowsStages(job: Option<Job>, dl: Download, zip: Option<seq<Entry>>, exit: Exit, fs: FileSystem)
    ensures var out := Outbox(Pipeline(job, dl, zip, exit, fs).log);
      |out| <= 4 && out == Stages[..|out|]
  {
    PipelineOutbox(job, dl, zip, exit, fs);
  }

  /** The stage message a piece of work must follow. */
  function Announcement(a: Action): Option<string>
  {
    match a
    case Sent(_) => None
    case Fetch(_) => Some(Downloading)
    case Unpack(_) => Some(Extracting)
    case Spawn(_) => Some(Installing)
  }

  /** Every piece of work in the log comes after the message of its stage. */
  predicate AnnouncedFirst(log: seq<Action>)
  {
    forall i :: 0 <= i < |log| && Announcement(log[i]).Some? ==> Sent(Announcement(log[i]).value) in log[..i]
  }

  /** Two logs that each announce their work first still do so one after
      the other. */
  lemma AnnouncedFirstConcat(a: seq<Action>, b: seq<Action>)
    requires AnnouncedFirst(a) && AnnouncedFirst(b)
    ensures AnnouncedFirst(a + b)
  {
    forall i | 0 <= i < |a + b| && Announcement((a + b)[i]).Some?
      ensures Sent(Announcement((a + b)[i]).value) in (a + b)[..i]
    {
      if i < |a| {
        assert (a + b)[..i] == a[..i];
      } else {
        var k := i - |a|;
        assert (a + b)[i] == b[k];
        assert (a + b)[..i] == a + b[..k];
      }
    }
  }

  /** The extraction's part of the log holds nothing but unpacked entries. */
  lemma {:induction false} UnpacksOnlyUnpack(es: seq<Entry>)
    ensures forall a :: a in Unpacks(es) ==> a.Unpack?
    decreases |es|
  {
    if es != [] {
      UnpacksOnlyUnpack(es[..|es| - 1]);
    }
  }

  lemma HeadAnnounced(j: Job)
    ensures AnnouncedFirst([Sent(Downloading), Fetch(j.version.url)])
  {
    var head := [Sent(Downloading), Fetch(j.version.url)];
    assert head[..1] == [Sent(Downloading)];
  }

  lemma UnpackingAnnounced(es: seq<Entry>)
    ensures AnnouncedFirst([Sent(Extracting)] + Unpacks(es))
  {
    var log := [Sent(Extracting)] + Unpacks(es);
    UnpacksOnlyUnpack(es);
    forall i | 0 <= i < |log| && Announcement(log[i]).Some?
      ensures Sent(Announcement(log[i]).value) in log[..i]
    {
      assert log[i] in Unpacks(es);
      assert log[..i][0] == Sent(Extracting);
    }
  }

  lemma LaunchAnnounced(j: Job, exit: Exit)
    ensures AnnouncedFirst(Launch(j, exit))
  {
    var log := Launch(j, exit);
    assert log[..1] == [Sent(Installing)];
    assert log[..2][0] == Sent(Installing);
  }

  /** Each message is sent before its stage's work, whatever the extraction
      did: the download after the downloading message, every entry after the
      extracting one, the installer after the installing one. */
  lemma RunLogAnnounced(j: Job, dl: Download, zip: Option<seq<Entry>>, taken: nat, ok: bool, exit: Exit)
    requires zip.Some? ==> taken <= |zip.value|
    ensures AnnouncedFirst(RunLog(j, dl, zip, taken, ok, exit))
  {
    var log := RunLog(j, dl, zip, taken, ok, exit);
    var head := [Sent(Downloading), Fetch(j.version.url)];
    HeadAnnounced(j);
    if Fetched(dl) {
      var extracting: seq<Action> := [Sent(Extracting)];
      if zip.Some? {
        UnpackingAnnounced(zip.value[..taken]);
        extracting := [Sent(Extracting)] + Unpacks(zip.value[..taken]);
        if ok {
          LaunchAnnounced(j, exit);
          AnnouncedFirstConcat(extracting, Launch(j, exit));
          extracting := extracting + Launch(j, exit);
        }
      }
      assert log == head + extracting;
      AnnouncedFirstConcat(head, extracting);
    } else {
      assert log == head;
    }
  }

  /** Each message of a run is sent before its stage's work. */
  lemma AnnouncedBeforeWork(job: Option<Job>, dl: Download, zip: Option<seq<Entry>>, exit: Exit, fs: FileSystem)
    ensures AnnouncedFirst(Pipeline(job, dl, zip, exit, fs).log)
  {
    if job.Some? {
      var j := job.value;
      if Fetched(dl) && zip.Some? {
        var x := Extraction(fs, j.game, zip.value);
        RunLogAnnounced(j, dl, zip, Taken(x, |zip.value|), x.ok, exit);
      } else {
        RunLogAnnounced(j, dl, zip, 0, false, exit);
      }
    }
  }

  /** The only process a run launches is MiniInstaller.exe in the game
      directory, and it is launched exactly when the extraction went through. */
  lemma RunLogLaunches(j: Job, dl: Download, zip: Option<seq<Entry>>, taken: nat, ok: bool, exit: Exit)
    requires zip.Some? ==> taken <= |zip.value|
    ensures var log := RunLog(j, dl, zip, taken, ok, exit);
      && (forall a :: a in log && a.Spawn? ==> a.cmd == InstallerCommand(j.mono, j.game))
      && ((exists a :: a in log && a.Spawn?) <==> Fetched(dl) && zip.Some? && ok)
  {
    var log := RunLog(j, dl, zip, taken, ok, exit);
    var head := [Sent(Downloading), Fetch(j.version.url)];
    if !Fetched(dl) {
      assert log == head;
    } else if zip.None? {
      assert log == head + [Sent(Extracting)];
    } else {
      var u := Unpacks(zip.value[..taken]);
      UnpacksOnlyUnpack(zip.value[..taken]);
      if ok {
        var spawn := Spawn(InstallerCommand(j.mono, j.game));
        assert log == head + [Sent(Extracting)] + u + Launch(j, exit);
        assert Launch(j, exit)[1] == spawn;
      } else {
        assert log == head + [Sent(Extracting)] + u;
      }
    }
  }

  /** The only process the worker launches is MiniInstaller.exe, run in the
      game directory, and it is launched exactly when the extraction went
      through. */
  lemma LaunchesInstallerInGame(j: Job, dl: Download, zip: Option<seq<Entry>>, exit: Exit, fs: FileSystem)
    ensures var log := Pipeline(Some(j), dl, zip, exit, fs).log;
      && (forall a :: a in log && a.Spawn? ==> a.cmd == InstallerCommand(j.mono, j.game) && a.cmd.cwd == j.game)
      && ((exists a :: a in log && a.Spawn?) <==> Fetched(dl) && zip.Some? && Extraction(fs, j.game, zip.value).ok)
  {
    if Fetched(dl) && zip.Some? {
      var x := Extraction(fs, j.game, zip.value);
      RunLogLaunches(j, dl, zip, Taken(x, |zip.value|), x.ok, exit);
    } else {
      RunLogLaunches(j, dl, zip, 0, false, exit);
    }
  }
}
