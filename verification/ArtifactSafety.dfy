/** What every reachable state of the store keeps, whatever the interleaving, the failures and the crashes. */
module ArtifactSafety {
  import opened Wrappers
  import opened Fips180
  import opened PathSafety
  import opened ArtifactProtocol
  import Hex

  /** A stored file decodes to bytes whose digest is the file's name. */
  predicate Good(host: Host, hash: string, extension: string, stored: Bytes) {
    match CompressionFromExtension(extension)
    case Err(_) => false
    case Ok(c) =>
      var bytes := host.decompress(c, stored);
      bytes.Some? && host.hash(bytes.value) == hash
  }

  ghost predicate TargetsGood(host: Host, files: Files) {
    forall hash, extension :: Target(hash, extension) in files ==>
      Good(host, hash, extension, files[Target(hash, extension)])
  }

  /** What a waiting write knows: its packed bytes decode to its input, and its temporary file holds what it wrote. */
  predicate WriterOk(host: Host, files: Files, bytes: Bytes, c: Compression, pc: WritePc) {
    var hash := host.hash(bytes);
    match pc
    case MakingDirectory(packed) => Packs(host, c, bytes, packed)
    case Opening(packed, _) => Packs(host, c, bytes, packed)
    case Filling(packed, nonce, k) =>
      Packs(host, c, bytes, packed) && k <= |packed|
      && Temp(hash, nonce) in files && files[Temp(hash, nonce)] == packed[..k]
    case Syncing(packed, nonce) =>
      Packs(host, c, bytes, packed) && Temp(hash, nonce) in files && files[Temp(hash, nonce)] == packed
    case Closing(packed, nonce, intact) =>
      Packs(host, c, bytes, packed)
      && (intact ==> Temp(hash, nonce) in files && files[Temp(hash, nonce)] == packed)
    case Renaming(packed, nonce) =>
      Packs(host, c, bytes, packed) && Temp(hash, nonce) in files && files[Temp(hash, nonce)] == packed
    case WriteReturned(r) =>
      && r.contentHash == hash && r.compression == c
      && r.storageUri == UriForHash(hash, c) && r.uncompressedSizeBytes == |bytes|
    case _ => true
  }

  predicate ReaderOk(host: Host, pc: ReadPc) {
    match pc
    case Decoding(hash, extension, stored) => Good(host, hash, extension, stored)
    case ReadReturned(r) => host.hash(r.bytes) == r.contentHash
    case ReadThrew(failure) => failure != StoredHashMismatch && failure != DecodeFailed
    case _ => true
  }

  predicate ProcessOk(host: Host, files: Files, p: Process) {
    match p
    case Writer(bytes, c, pc) => WriterOk(host, files, bytes, c, pc)
    case Reader(_, _, pc) => ReaderOk(host, pc)
    case _ => true
  }

  /** No two waiting writers hold the same temporary name. */
  ghost predicate TempsExclusive(host: Host, s: State) {
    forall p, q, tmp :: Holds(host, s, p, tmp) && Holds(host, s, q, tmp) ==> p == q
  }

  ghost predicate Inv(host: Host, s: State) {
    && TargetsGood(host, s.files)
    && (forall pid :: Live(s, pid) ==> ProcessOk(host, s.files, s.procs[pid]))
    && TempsExclusive(host, s)
  }

  // ---- one step ----

  /** A step touches target files and the temporary file its own call holds, nothing else. */
  lemma StepFrame(host: Host, p: Process, files: Files, p': Process, files': Files, tmp: Path)
    requires ProcessStep(host, p, files, p', files')
    requires tmp.Temp? && HeldTemp(host, p) != Some(tmp)
    ensures tmp in files' <==> tmp in files
    ensures tmp in files ==> files'[tmp] == files[tmp]
  {
  }

  lemma WriteStepKeepsTargets(host: Host, bytes: Bytes, c: Compression, pc: WritePc, files: Files,
                              pc': WritePc, files': Files)
    requires WriteStep(host, bytes, c, pc, files, pc', files')
    requires TargetsGood(host, files) && WriterOk(host, files, bytes, c, pc)
    ensures TargetsGood(host, files') && WriterOk(host, files', bytes, c, pc')
  {
    UriRoundTripCodec(c);
  }

  lemma UriRoundTripCodec(c: Compression)
    ensures CompressionFromExtension(ExtensionForCompression(c)) == Ok(c)
  {
  }

  lemma ProcessStepKeepsInvariant(host: Host, p: Process, files: Files, p': Process, files': Files)
    requires ProcessStep(host, p, files, p', files')
    requires TargetsGood(host, files) && ProcessOk(host, files, p)
    ensures TargetsGood(host, files') && ProcessOk(host, files', p')
  {
    match p
    case Writer(bytes, c, pc) => WriteStepKeepsTargets(host, bytes, c, pc, files, p'.wpc, files');
    case Reader(uri, expected, pc) =>
    case Deleter(uri, pc) =>
    case Prober(hash, pc) =>
  }

  /** Another call's step leaves what this call knows untouched. */
  lemma OthersUndisturbed(host: Host, s: State, pid: Pid, p': Process, files': Files, q: Pid)
    requires Live(s, pid) && Live(s, q) && q != pid
    requires TempsExclusive(host, s)
    requires ProcessStep(host, s.procs[pid], s.files, p', files')
    requires ProcessOk(host, s.files, s.procs[q])
    ensures ProcessOk(host, files', s.procs[q])
  {
    var held := HeldTemp(host, s.procs[q]);
    if held.Some? {
      assert Holds(host, s, q, held.value);
      assert !Holds(host, s, pid, held.value);
      StepFrame(host, s.procs[pid], s.files, p', files', held.value);
    }
  }

  /** A call never changes the temporary name it holds; it only takes one or lets it go. */
  lemma HeldTempStable(host: Host, p: Process, files: Files, p': Process, files': Files)
    requires ProcessStep(host, p, files, p', files')
    ensures HeldTemp(host, p).Some? ==> HeldTemp(host, p') == HeldTemp(host, p) || HeldTemp(host, p') == None
  {
  }

  lemma TempsStayExclusive(host: Host, s: State, e: Event, s': State)
    requires TempsExclusive(host, s) && Next(host, s, e, s')
    ensures TempsExclusive(host, s')
  {
    if e.Act? {
      HeldTempStable(host, s.procs[e.pid], s.files, s'.procs[e.pid], s'.files);
      forall p, q, tmp | Holds(host, s', p, tmp) && Holds(host, s', q, tmp)
        ensures p == q
      {
        assert p != e.pid ==> Holds(host, s, p, tmp);
        assert q != e.pid ==> Holds(host, s, q, tmp);
        assert Holds(host, s, e.pid, tmp) || HeldTemp(host, s.procs[e.pid]) == None
               || HeldTemp(host, s'.procs[e.pid]) != Some(tmp);
      }
    } else {
      forall p, q, tmp | Holds(host, s', p, tmp) && Holds(host, s', q, tmp)
        ensures p == q
      {
        assert Holds(host, s, p, tmp) && Holds(host, s, q, tmp);
      }
    }
  }

  lemma InvariantKept(host: Host, s: State, e: Event, s': State)
    requires Inv(host, s) && Next(host, s, e, s')
    ensures Inv(host, s')
  {
    TempsStayExclusive(host, s, e, s');
    if e.Act? {
      ProcessStepKeepsInvariant(host, s.procs[e.pid], s.files, s'.procs[e.pid], s'.files);
      forall q | Live(s', q)
        ensures ProcessOk(host, s'.files, s'.procs[q])
      {
        if q != e.pid {
          assert Live(s, q);
          OthersUndisturbed(host, s, e.pid, s'.procs[e.pid], s'.files, q);
        }
      }
    } else {
      forall q | Live(s', q)
        ensures ProcessOk(host, s'.files, s'.procs[q])
      {
        assert (e.Spawn? && q == e.pid) || Live(s, q);
      }
    }
  }

  // ---- whole runs ----

  /** A directory of good files and no call in flight. */
  ghost predicate Initial(host: Host, s: State) {
    TargetsGood(host, s.files) && s.procs == map[] && s.crashed == {}
  }

  lemma {:induction false} RunKeepsInvariant(host: Host, states: seq<State>, events: seq<Event>, n: nat)
    requires IsRun(host, states, events) && Inv(host, states[0])
    requires n < |states|
    ensures Inv(host, states[n])
  {
    if n > 0 {
      RunKeepsInvariant(host, states, events, n - 1);
      InvariantKept(host, states[n - 1], events[n - 1], states[n]);
    }
  }

  /**
    In every state of every run: each file at a target path decodes to bytes whose digest is its name, and no
    read of a present file has failed to decode or to match.
   */
  lemma EveryTargetMatchesItsName(host: Host, states: seq<State>, events: seq<Event>, n: nat)
    requires IsRun(host, states, events) && Initial(host, states[0]) && n < |states|
    ensures forall hash, extension :: Target(hash, extension) in states[n].files ==>
              Good(host, hash, extension, states[n].files[Target(hash, extension)])
    ensures forall pid :: Live(states[n], pid) && states[n].procs[pid].Reader? ==>
              && states[n].procs[pid].rpc != ReadThrew(StoredHashMismatch)
              && states[n].procs[pid].rpc != ReadThrew(DecodeFailed)
  {
    assert Inv(host, states[0]);
    RunKeepsInvariant(host, states, events, n);
    forall pid | Live(states[n], pid) && states[n].procs[pid].Reader?
      ensures states[n].procs[pid].rpc != ReadThrew(StoredHashMismatch)
      ensures states[n].procs[pid].rpc != ReadThrew(DecodeFailed)
    {
      assert ProcessOk(host, states[n].files, states[n].procs[pid]);
    }
  }

  // ---- what a successful write leaves behind ----

  /** A read of `uri` that starts now and finds no failing call returns `bytes`. */
  predicate ReadsBack(host: Host, files: Files, uri: string, contentHash: string) {
    match ParseCasUri(uri)
    case Err(_) => false
    case Ok(CasUri(hash, extension)) =>
      && hash == contentHash
      && Target(hash, extension) in files
      && Good(host, hash, extension, files[Target(hash, extension)])
  }

  predicate HashesAreHex(host: Host, bytes: Bytes) {
    IsSha256Hex(host.hash(bytes))
  }

  /** A digest of 32 bytes, which SHA-256 has, gives such names. */
  lemma DigestsAreHex(host: Host, bytes: Bytes, digest: seq<Byte>)
    requires |digest| == 32 && host.hash(bytes) == Hex.Text(digest)
    ensures HashesAreHex(host, bytes)
  {
  }

  /** The event is the last step of a write that succeeds. */
  predicate Returns(e: Event, s: State) {
    e.Act? && e.pid in s.procs && s.procs[e.pid].Writer? && s.procs[e.pid].wpc.WriteReturned?
  }

  lemma WriteReturnsWithTargetPresent(host: Host, bytes: Bytes, c: Compression, pc: WritePc, files: Files,
                                      r: WriteResult, files': Files)
    requires WriteStep(host, bytes, c, pc, files, WriteReturned(r), files')
    ensures TargetOf(host, bytes, c) in files'
    ensures r == Outcome(host, bytes, c, r.sizeBytes, r.deduplicated)
    ensures TargetsGood(host, files) && WriterOk(host, files, bytes, c, pc) ==>
              r.sizeBytes == |files'[TargetOf(host, bytes, c)]|
  {
  }

  predicate DeletesNothing(s: State, e: Event) {
    e.Act? && e.pid in s.procs ==> !s.procs[e.pid].Deleter?
  }

  /** Only a delete call takes a target away. */
  lemma TargetsSurvive(host: Host, s: State, e: Event, s': State, target: Path)
    requires Next(host, s, e, s') && DeletesNothing(s, e)
    requires target.Target? && target in s.files
    ensures target in s'.files
  {
  }

  lemma RunStep(host: Host, states: seq<State>, events: seq<Event>, k: nat)
    requires IsRun(host, states, events) && k < |states| - 1
    ensures k < |events| && Next(host, states[k], events[k], states[k + 1])
  {
    hide Next;
  }

  lemma {:induction false} TargetsSurviveRun(host: Host, states: seq<State>, events: seq<Event>, i: nat, j: nat,
                                             target: Path)
    requires IsRun(host, states, events) && i <= j < |states|
    requires forall k :: i <= k < j ==> DeletesNothing(states[k], events[k])
    requires target.Target? && target in states[i].files
    ensures target in states[j].files
  {
    hide *;
    if i < j {
      TargetsSurviveRun(host, states, events, i, j - 1, target);
      RunStep(host, states, events, j - 1);
      TargetsSurvive(host, states[j - 1], events[j - 1], states[j], target);
    }
  }

  /**
    A write that returns at step `i`, fresh or deduplicated, leaves its URI readable in every later state up to
    which no delete call steps.
   */
  lemma ReturnedUriStaysReadable(host: Host, states: seq<State>, events: seq<Event>, i: nat, j: nat)
    requires IsRun(host, states, events) && Initial(host, states[0]) && 0 < i <= j < |states|
    requires Returns(events[i - 1], states[i])
    requires HashesAreHex(host, states[i].procs[events[i - 1].pid].bytes)
    requires forall k :: i <= k < j ==> DeletesNothing(states[k], events[k])
    ensures var w := states[i].procs[events[i - 1].pid];
            ReadsBack(host, states[j].files, w.wpc.result.storageUri, host.hash(w.bytes))
  {
    var pid := events[i - 1].pid;
    var w := states[i].procs[pid];
    var before := states[i - 1].procs[pid];
    assert Next(host, states[i - 1], events[i - 1], states[i]);
    WriteReturnsWithTargetPresent(host, w.bytes, w.compression, before.wpc, states[i - 1].files, w.wpc.result,
                                  states[i].files);
    TargetsSurviveRun(host, states, events, i, j, TargetOf(host, w.bytes, w.compression));
    EveryTargetMatchesItsName(host, states, events, j);
    UriRoundTrip(host.hash(w.bytes), w.compression);
    assert Lower(host.hash(w.bytes)) == host.hash(w.bytes);
  }

  /** A read of a readable URI whose file call does not fail returns bytes with the digest asked for. */
  lemma ReadOfReadable(host: Host, files: Files, uri: string, contentHash: string, expected: Option<string>,
                       pc1: ReadPc, pc2: ReadPc, pc3: ReadPc, later: Files)
    requires ReadsBack(host, files, uri, contentHash) && (expected == None || expected == Some(contentHash))
    requires Lower(contentHash) == contentHash
    requires ReadStep(host, uri, expected, ReadStart, files, pc1)
    requires pc2 != ReadThrew(NotFound) && ReadStep(host, uri, expected, pc1, files, pc2)
    requires ReadStep(host, uri, expected, pc2, later, pc3)
    ensures pc3.ReadReturned? && host.hash(pc3.result.bytes) == contentHash == pc3.result.contentHash
  {
  }

  /** Where the digest does not collide with the written content, reading back gives that content. */
  lemma ReadBackIsTheContent(host: Host, files: Files, bytes: Bytes, c: Compression, stored: Bytes)
    requires HashesAreHex(host, bytes)
    requires ReadsBack(host, files, UriForHash(host.hash(bytes), c), host.hash(bytes))
    requires forall other :: host.hash(other) == host.hash(bytes) ==> other == bytes
    ensures host.decompress(c, files[TargetOf(host, bytes, c)]) == Some(bytes)
  {
    UriRoundTrip(host.hash(bytes), c);
    assert Lower(host.hash(bytes)) == host.hash(bytes);
  }

  // ---- temporary files ----

  /** A temporary file that no waiting writer holds. */
  ghost predicate Stray(host: Host, s: State, tmp: Path) {
    tmp.Temp? && tmp in s.files && forall pid :: !Holds(host, s, pid, tmp)
  }

  /** No stray file, and a writer that lost the race and has unlinked really has no file left. */
  ghost predicate Tidy(host: Host, s: State) {
    && (forall tmp :: !Stray(host, s, tmp))
    && (forall pid :: Live(s, pid) && s.procs[pid].Writer? && s.procs[pid].wpc.LostSize? ==>
          Temp(host.hash(s.procs[pid].bytes), s.procs[pid].wpc.nonce) !in s.files)
  }

  /** The step does not crash a call, and if it unlinks then the file is gone. */
  predicate Clean(host: Host, s: State, e: Event, s': State) {
    match e
    case Spawn(_, _) => true
    case Crash(_) => false
    case Act(pid) =>
      pid in s.procs && s.procs[pid].Writer? && (s.procs[pid].wpc.LostUnlink? || s.procs[pid].wpc.CleaningUp?)
      ==> Temp(host.hash(s.procs[pid].bytes), s.procs[pid].wpc.nonce) !in s'.files
  }

  /** Letting a temporary name go in a clean step means its file is gone. */
  lemma ReleaseLeavesNoFile(host: Host, s: State, pid: Pid, s': State, tmp: Path)
    requires Next(host, s, Act(pid), s') && Clean(host, s, Act(pid), s') && Tidy(host, s)
    requires HeldTemp(host, s.procs[pid]) == Some(tmp) && HeldTemp(host, s'.procs[pid]) == None
    ensures tmp !in s'.files
  {
    var w := s.procs[pid];
    assert ProcessStep(host, w, s.files, s'.procs[pid], s'.files);
    if w.wpc.LostSize? {
      assert Live(s, pid);
    }
  }

  lemma TidyKept(host: Host, s: State, e: Event, s': State)
    requires Tidy(host, s) && TempsExclusive(host, s) && Next(host, s, e, s') && Clean(host, s, e, s')
    ensures Tidy(host, s')
  {
    forall tmp: Path | tmp.Temp? && tmp in s'.files
      ensures exists pid :: Holds(host, s', pid, tmp)
    {
      TemporaryStaysHeld(host, s, e, s', tmp);
    }
    forall pid | Live(s', pid) && s'.procs[pid].Writer? && s'.procs[pid].wpc.LostSize?
      ensures Temp(host.hash(s'.procs[pid].bytes), s'.procs[pid].wpc.nonce) !in s'.files
    {
      var tmp := Temp(host.hash(s'.procs[pid].bytes), s'.procs[pid].wpc.nonce);
      if e != Act(pid) {
        assert Live(s, pid) && Holds(host, s, pid, tmp);
        if e.Act? {
          assert !Holds(host, s, e.pid, tmp);
          StepFrame(host, s.procs[e.pid], s.files, s'.procs[e.pid], s'.files, tmp);
        }
      }
    }
  }

  lemma TemporaryStaysHeld(host: Host, s: State, e: Event, s': State, tmp: Path)
    requires Tidy(host, s) && TempsExclusive(host, s) && Next(host, s, e, s') && Clean(host, s, e, s')
    requires tmp.Temp? && tmp in s'.files
    ensures exists pid :: Holds(host, s', pid, tmp)
  {
    match e
    case Spawn(_, _) =>
      assert !Stray(host, s, tmp);
      var pid :| Holds(host, s, pid, tmp);
      assert Holds(host, s', pid, tmp);
    case Crash(_) =>
    case Act(pid) =>
      if HeldTemp(host, s.procs[pid]) == Some(tmp) {
        HeldTempStable(host, s.procs[pid], s.files, s'.procs[pid], s'.files);
        if HeldTemp(host, s'.procs[pid]) == None {
          ReleaseLeavesNoFile(host, s, pid, s', tmp);
        }
        assert Holds(host, s', pid, tmp);
      } else {
        StepFrame(host, s.procs[pid], s.files, s'.procs[pid], s'.files, tmp);
        assert !Stray(host, s, tmp);
        var q :| Holds(host, s, q, tmp);
        assert Holds(host, s', q, tmp);
      }
  }

  lemma {:induction false} RunKeepsTidy(host: Host, states: seq<State>, events: seq<Event>, n: nat)
    requires IsRun(host, states, events) && Inv(host, states[0]) && Tidy(host, states[0]) && n < |states|
    requires forall k :: 0 <= k < n ==> Clean(host, states[k], events[k], states[k + 1])
    ensures Tidy(host, states[n])
  {
    if n > 0 {
      RunKeepsTidy(host, states, events, n - 1);
      RunKeepsInvariant(host, states, events, n - 1);
      TidyKept(host, states[n - 1], events[n - 1], states[n]);
    }
  }

  /**
    In a run from a directory without temporary files, with no crash and with working unlinks, every temporary
    file belongs to exactly one call in flight.
   */
  lemma EveryTemporaryHasOneWriter(host: Host, states: seq<State>, events: seq<Event>, n: nat, tmp: Path)
    requires IsRun(host, states, events) && Initial(host, states[0]) && n < |states|
    requires forall p :: p in states[0].files ==> p.Target?
    requires forall k :: 0 <= k < n ==> Clean(host, states[k], events[k], states[k + 1])
    requires tmp.Temp? && tmp in states[n].files
    ensures exists pid :: Holds(host, states[n], pid, tmp) && forall q :: Holds(host, states[n], q, tmp) ==> q == pid
  {
    RunKeepsInvariant(host, states, events, n);
    RunKeepsTidy(host, states, events, n);
    assert !Stray(host, states[n], tmp);
    var pid :| Holds(host, states[n], pid, tmp);
  }

  /** ... and is gone in the state in which that call returns or throws. */
  lemma FinishedWriterLeavesNoTemporary(host: Host, states: seq<State>, events: seq<Event>, n: nat, tmp: Path)
    requires IsRun(host, states, events) && Initial(host, states[0]) && n < |events|
    requires forall p :: p in states[0].files ==> p.Target?
    requires forall k :: 0 <= k <= n ==> Clean(host, states[k], events[k], states[k + 1])
    requires events[n].Act? && Live(states[n], events[n].pid)
    requires HeldTemp(host, states[n].procs[events[n].pid]) == Some(tmp)
    requires events[n].pid in states[n + 1].procs && HeldTemp(host, states[n + 1].procs[events[n].pid]) == None
    ensures tmp !in states[n + 1].files
  {
    RunKeepsTidy(host, states, events, n);
    ReleaseLeavesNoFile(host, states[n], events[n].pid, states[n + 1], tmp);
  }

  // ---- why the random names must differ ----

  /** Three writers of the same content that hold the same temporary name, after `k` steps of the run below. */
  function SharedNameState(host: Host, bytes: Bytes, packed: Bytes, nonce: Nonce, k: nat): State {
    var tmp, target := Temp(host.hash(bytes), nonce), TargetOf(host, bytes, NONE);
    var files :=
      if k < 2 then map[tmp := packed]
      else if k == 2 then map[]
      else if k == 3 then map[tmp := []]
      else map[target := []];
    var first := if k < 4 then Renaming(packed, nonce)
                 else WriteReturned(Outcome(host, bytes, NONE, |packed|, false));
    var second := if k == 0 then Opening(packed, nonce) else if k == 1 then CleaningUp(packed, nonce)
                  else WriteThrew(IoError);
    var third := if k < 3 then Opening(packed, nonce) else Filling(packed, nonce, 0);
    State(files,
          map[0 := Writer(bytes, NONE, first), 1 := Writer(bytes, NONE, second), 2 := Writer(bytes, NONE, third)],
          {})
  }

  function SharedNameEvent(k: nat): Event {
    if k < 2 then Act(1) else if k == 2 then Act(2) else Act(0)
  }

  lemma SharedNameStep(host: Host, bytes: Bytes, packed: Bytes, nonce: Nonce, k: nat)
    requires k < 4
    ensures Next(host, SharedNameState(host, bytes, packed, nonce, k), SharedNameEvent(k),
                 SharedNameState(host, bytes, packed, nonce, k + 1))
  {
    var s, s' := SharedNameState(host, bytes, packed, nonce, k), SharedNameState(host, bytes, packed, nonce, k + 1);
    var pid := SharedNameEvent(k).pid;
    assert s'.procs == s.procs[pid := s'.procs[pid]];
    if k == 1 {
      assert s'.files == s.files - {Temp(host.hash(bytes), nonce)};
    } else if k == 2 {
      assert s'.files == s.files[Temp(host.hash(bytes), nonce) := []];
    } else if k == 3 {
      assert s'.files == s.files[TargetOf(host, bytes, NONE) := []] - {Temp(host.hash(bytes), nonce)};
    }
  }

  // ---- ... and how three writers come to hold one name ----

  /** The writer that gets ahead, after `j` of its steps, and the files then. */
  function FirstWriterAt(packed: Bytes, nonce: Nonce, j: nat): WritePc {
    if j == 0 then WriteStart else if j == 1 then FirstStat else if j == 2 then Compressing
    else if j == 3 then MakingDirectory(packed) else if j == 4 then Opening(packed, nonce)
    else if j == 5 then Filling(packed, nonce, 0) else if j == 6 then Filling(packed, nonce, |packed|)
    else if j == 7 then Syncing(packed, nonce) else if j == 8 then Closing(packed, nonce, true)
    else Renaming(packed, nonce)
  }

  function FirstFilesAt(tmp: Path, packed: Bytes, j: nat): Files {
    if j < 5 then map[] else if j == 5 then map[tmp := []] else map[tmp := packed]
  }

  /** A writer that stops before it opens its temporary file. */
  function OtherWriterAt(packed: Bytes, nonce: Nonce, j: nat): WritePc {
    if j < 4 then FirstWriterAt(packed, nonce, j) else Opening(packed, nonce)
  }

  function Minus(k: nat, n: nat): nat {
    if k < n then 0 else k - n
  }

  /** The three calls from an empty directory up to the point where all hold the name. */
  function MeetingState(host: Host, bytes: Bytes, packed: Bytes, nonce: Nonce, k: nat): State {
    var first := Writer(bytes, NONE, FirstWriterAt(packed, nonce, Minus(k, 3)));
    var second := Writer(bytes, NONE, OtherWriterAt(packed, nonce, Minus(k, 12)));
    var third := Writer(bytes, NONE, OtherWriterAt(packed, nonce, Minus(k, 16)));
    var procs: map<Pid, Process> :=
      if k == 0 then map[] else if k == 1 then map[0 := first] else if k == 2 then map[0 := first, 1 := second]
      else map[0 := first, 1 := second, 2 := third];
    State(FirstFilesAt(Temp(host.hash(bytes), nonce), packed, Minus(k, 3)), procs, {})
  }

  function MeetingEvent(bytes: Bytes, k: nat): Event {
    if k < 3 then Spawn(k, Writer(bytes, NONE, WriteStart))
    else if k < 12 then Act(0) else if k < 16 then Act(1) else Act(2)
  }

  /** What lets the three writes go ahead. */
  predicate Fits(host: Host, bytes: Bytes, packed: Bytes) {
    && Packs(host, NONE, bytes, packed) && packed != []
    && |bytes| <= host.maxUncompressedBytes && |packed| <= host.maxCompressedBytes
  }

  lemma FirstAdvances(host: Host, bytes: Bytes, packed: Bytes, nonce: Nonce, j: nat)
    requires Fits(host, bytes, packed) && j < 9
    ensures var tmp := Temp(host.hash(bytes), nonce);
      WriteStep(host, bytes, NONE, FirstWriterAt(packed, nonce, j), FirstFilesAt(tmp, packed, j),
                FirstWriterAt(packed, nonce, j + 1), FirstFilesAt(tmp, packed, j + 1))
  {
    assert packed[..|packed|] == packed;
  }

  lemma OtherAdvances(host: Host, bytes: Bytes, packed: Bytes, nonce: Nonce, j: nat, files: Files)
    requires Fits(host, bytes, packed) && j < 4
    ensures WriteStep(host, bytes, NONE, OtherWriterAt(packed, nonce, j), files, OtherWriterAt(packed, nonce, j + 1),
                      files)
  {
  }

  lemma MeetingStep(host: Host, bytes: Bytes, packed: Bytes, nonce: Nonce, k: nat)
    requires Fits(host, bytes, packed) && k < 20
    ensures NextAnyNonce(host, MeetingState(host, bytes, packed, nonce, k), MeetingEvent(bytes, k),
                         MeetingState(host, bytes, packed, nonce, k + 1))
  {
    if 3 <= k < 12 {
      FirstAdvances(host, bytes, packed, nonce, k - 3);
    } else if 12 <= k < 16 {
      OtherAdvances(host, bytes, packed, nonce, k - 12, map[Temp(host.hash(bytes), nonce) := packed]);
    } else if 16 <= k {
      OtherAdvances(host, bytes, packed, nonce, k - 16, map[Temp(host.hash(bytes), nonce) := packed]);
    }
    hide WriteStep, Fits;
    var s, s' := MeetingState(host, bytes, packed, nonce, k), MeetingState(host, bytes, packed, nonce, k + 1);
    if k >= 3 {
      var pid := MeetingEvent(bytes, k).pid;
      assert s'.procs == s.procs[pid := s'.procs[pid]];
    }
  }

  function SharedRunState(host: Host, bytes: Bytes, packed: Bytes, nonce: Nonce, k: nat): State {
    if k < 20 then MeetingState(host, bytes, packed, nonce, k) else SharedNameState(host, bytes, packed, nonce, k - 20)
  }

  function SharedRunEvent(bytes: Bytes, k: nat): Event {
    if k < 20 then MeetingEvent(bytes, k) else SharedNameEvent(k - 20)
  }

  lemma SharedRunStep(host: Host, bytes: Bytes, packed: Bytes, nonce: Nonce, k: nat)
    requires Fits(host, bytes, packed) && k < 24
    ensures NextAnyNonce(host, SharedRunState(host, bytes, packed, nonce, k), SharedRunEvent(bytes, k),
                         SharedRunState(host, bytes, packed, nonce, k + 1))
  {
    if k < 20 {
      MeetingStep(host, bytes, packed, nonce, k);
      assert k == 19 ==> MeetingState(host, bytes, packed, nonce, 20) == SharedNameState(host, bytes, packed, nonce, 0);
    } else {
      SharedNameStep(host, bytes, packed, nonce, k - 20);
    }
    hide NextAnyNonce, Next, MeetingState, SharedNameState, MeetingEvent, SharedNameEvent;
  }

  /**
    If names could be shared, three writers of one content could publish an empty file from an empty directory: one
    fills the file, the second fails to open it and unlinks it, the third creates it again, and the first renames that.
    The last four steps are ordinary steps of the protocol; only the names were drawn alike.
   */
  lemma SharedTemporaryNameCorruptsTarget(host: Host, bytes: Bytes, packed: Bytes, nonce: Nonce,
                                          states: seq<State>, events: seq<Event>)
    requires Packs(host, NONE, bytes, packed)
    requires |bytes| <= host.maxUncompressedBytes && |packed| <= host.maxCompressedBytes
    requires host.decompress(NONE, []) == Some([]) && host.hash([]) != host.hash(bytes)
    requires states == seq(25, k requires 0 <= k < 25 => SharedRunState(host, bytes, packed, nonce, k))
    requires events == seq(24, k requires 0 <= k < 24 => SharedRunEvent(bytes, k))
    ensures IsRunAnyNonce(host, states, events)
    ensures states[0] == State(map[], map[], {})
    ensures TargetOf(host, bytes, NONE) in states[24].files && states[24].files[TargetOf(host, bytes, NONE)] == []
    ensures !TargetsGood(host, states[24].files)
  {
    assert packed != [];
    assert Fits(host, bytes, packed);
    forall k | 0 <= k < 24
      ensures NextAnyNonce(host, states[k], events[k], states[k + 1])
    {
      SharedRunStep(host, bytes, packed, nonce, k);
    }
    assert states[24] == SharedNameState(host, bytes, packed, nonce, 4);
    assert states[0] == MeetingState(host, bytes, packed, nonce, 0);
    hide NextAnyNonce, SharedRunState, SharedRunEvent;
  }

  // ---- which URIs a write can make readable ----

  /** No file at a path without an extension. */
  ghost predicate NoBareTarget(files: Files) {
    forall hash :: Target(hash, "") !in files
  }

  /** A read of a URI without an extension that has found no file. */
  predicate BareReadFails(p: Process) {
    p.Reader? && ParseCasUri(p.uri).Ok? && ParseCasUri(p.uri).value.extension == "" ==>
      || p.rpc == ReadStart
      || p.rpc == ReadingFile(ParseCasUri(p.uri).value.contentHash, "")
      || p.rpc == ReadThrew(ExpectedHashMismatch)
      || p.rpc == ReadThrew(NotFound)
  }

  lemma StepKeepsBare(host: Host, p: Process, files: Files, p': Process, files': Files)
    requires ProcessStep(host, p, files, p', files') && NoBareTarget(files) && BareReadFails(p)
    ensures NoBareTarget(files') && BareReadFails(p')
  {
    hide ParseCasUri;
  }

  lemma {:induction false} BareUriNeverFound(host: Host, states: seq<State>, events: seq<Event>, n: nat)
    requires IsRun(host, states, events) && NoBareTarget(states[0].files) && states[0].procs == map[] && n < |states|
    ensures NoBareTarget(states[n].files)
    ensures forall pid :: pid in states[n].procs ==> BareReadFails(states[n].procs[pid])
  {
    if n > 0 {
      BareUriNeverFound(host, states, events, n - 1);
      RunStep(host, states, events, n - 1);
      var s, e, s' := states[n - 1], events[n - 1], states[n];
      hide BareReadFails, NoBareTarget, ProcessStep, NonceFresh, IsRun;
      if e.Act? {
        StepKeepsBare(host, s.procs[e.pid], s.files, s'.procs[e.pid], s'.files);
      } else if e.Spawn? {
        FreshBare(e.call);
      }
    }
  }

  lemma FreshBare(p: Process)
    requires IsFresh(p)
    ensures BareReadFails(p)
  {
    hide ParseCasUri;
  }

  /**
    In a store that began without such files, a read of a URI without an extension never returns: it raises NOT_FOUND,
    unless the caller's own hash already differs.
   */
  lemma BareUriAlwaysNotFound(host: Host, states: seq<State>, events: seq<Event>, n: nat, pid: Pid)
    requires IsRun(host, states, events) && NoBareTarget(states[0].files) && states[0].procs == map[] && n < |states|
    requires pid in states[n].procs && states[n].procs[pid].Reader?
    requires ParseCasUri(states[n].procs[pid].uri).Ok? && ParseCasUri(states[n].procs[pid].uri).value.extension == ""
    ensures !states[n].procs[pid].rpc.ReadReturned?
    ensures states[n].procs[pid].rpc.ReadThrew? ==>
      states[n].procs[pid].rpc.failure == NotFound || states[n].procs[pid].rpc.failure == ExpectedHashMismatch
  {
    BareUriNeverFound(host, states, events, n);
    assert BareReadFails(states[n].procs[pid]);
    hide IsRun, ParseCasUri;
  }

  /**
    The URIs that name what a write stored are exactly those of its shape: the hash in either case, with the codec's
    extension.
   */
  lemma UrisOfWriteExactly(uri: string, hash: string, c: Compression)
    requires IsSha256Hex(hash)
    ensures ParseCasUri(uri) == Ok(CasUri(hash, ExtensionForCompression(c))) <==>
            exists written :: IsAnyCaseHash(written) && Lower(written) == hash
                              && Trim(uri) == PREFIX + written + ExtensionForCompression(c)
  {
    if ParseCasUri(uri) == Ok(CasUri(hash, ExtensionForCompression(c))) {
      var written := UriParts(uri);
    }
    if written :|
         IsAnyCaseHash(written) && Lower(written) == hash &&
         Trim(uri) == PREFIX + written + ExtensionForCompression(c) {
      ParseAcceptsExactly(uri, written, ExtensionForCompression(c));
    }
    hide ParseCasUri, Trim, Lower;
  }
}
