/**
  The content-addressed store of packages/artifact-store/src/local-fs-store.ts as a protocol: any number of
  writers, readers, deleters and probes share one directory, every awaited filesystem call is one atomic step,
  steps of different calls interleave freely, calls fail where the filesystem may fail, and a call may crash
  (never step again) anywhere.
 */
module ArtifactProtocol {
  import opened Wrappers
  import opened Fips180
  import opened PathSafety

  type Bytes = seq<Byte>
  type Pid = nat
  type Nonce = nat

  /** What the store takes from outside: the digest in hex, the decoders, and its bounds. */
  datatype Host = Host(hash: Bytes -> string,
                       decompress: (Compression, Bytes) -> Option<Bytes>,
                       maxUncompressedBytes: nat,
                       maxCompressedBytes: nat)

  datatype Path = Target(hash: string, extension: string) | Temp(hash: string, nonce: Nonce)

  type Files = map<Path, Bytes>

  datatype Failure =
    | PayloadTooLarge | CompressionFailed | IoError | InvalidUri | NotFound
    | ExpectedHashMismatch | StoredHashMismatch | DecodeFailed

  datatype WriteResult = WriteResult(contentHash: string, storageUri: string, compression: Compression,
                                     sizeBytes: nat, uncompressedSizeBytes: nat, deduplicated: bool)

  datatype ReadResult = ReadResult(contentHash: string, compression: Compression, sizeBytes: nat, bytes: Bytes)

  // ---- program counters, one for every point where a call waits ----

  datatype WritePc =
    | WriteStart
    | FirstStat
    | SecondStat
    | Compressing
    | MakingDirectory(packed: Bytes)
    | Opening(packed: Bytes, nonce: Nonce)
    | Filling(packed: Bytes, nonce: Nonce, written: nat)
    | Syncing(packed: Bytes, nonce: Nonce)
    | Closing(packed: Bytes, nonce: Nonce, intact: bool)
    | Renaming(packed: Bytes, nonce: Nonce)
    | LostStat(packed: Bytes, nonce: Nonce)
    | LostUnlink(packed: Bytes, nonce: Nonce)
    | LostSize(packed: Bytes, nonce: Nonce)
    | CleaningUp(packed: Bytes, nonce: Nonce)
    | WriteReturned(result: WriteResult)
    | WriteThrew(failure: Failure)

  datatype ReadPc =
    | ReadStart
    | ReadingFile(hash: string, extension: string)
    | Decoding(hash: string, extension: string, stored: Bytes)
    | ReadReturned(result: ReadResult)
    | ReadThrew(failure: Failure)

  datatype DeletePc =
    | DeleteStart
    | Removing(hash: string, extension: string)
    | DeleteReturned(removed: bool)
    | DeleteThrew(failure: Failure)

  datatype ExistsPc = Probing(tried: nat) | ExistsReturned(found: bool) | ExistsThrew

  datatype Process =
    | Writer(bytes: Bytes, compression: Compression, wpc: WritePc)
    | Reader(uri: string, expected: Option<string>, rpc: ReadPc)
    | Deleter(uri: string, dpc: DeletePc)
    | Prober(hash: string, epc: ExistsPc)

  datatype State = State(files: Files, procs: map<Pid, Process>, crashed: set<Pid>)

  // ---- the write call ----

  function TargetOf(host: Host, bytes: Bytes, c: Compression): Path {
    Target(host.hash(bytes), ExtensionForCompression(c))
  }

  function Outcome(host: Host, bytes: Bytes, c: Compression, size: nat, deduplicated: bool): WriteResult {
    WriteResult(host.hash(bytes), UriForHash(host.hash(bytes), c), c, size, |bytes|, deduplicated)
  }

  /** What any compressor may return: something its decoder maps back. */
  predicate Packs(host: Host, c: Compression, bytes: Bytes, packed: Bytes) {
    host.decompress(c, packed) == Some(bytes)
  }

  /** One step of `write`. A call that may fail has both outcomes. */
  predicate WriteStep(host: Host, bytes: Bytes, c: Compression, pc: WritePc, files: Files, pc': WritePc,
                      files': Files) {
    var target := TargetOf(host, bytes, c);
    match pc
    case WriteStart =>
      files' == files
      && pc' == if |bytes| > host.maxUncompressedBytes then WriteThrew(PayloadTooLarge) else FirstStat
    case FirstStat =>
      files' == files && ((pc' == SecondStat && target in files) || pc' == Compressing)
    case SecondStat =>
      files' == files
      && (|| (target in files && pc' == WriteReturned(Outcome(host, bytes, c, |files[target]|, true)))
          || pc' == Compressing)
    case Compressing =>
      files' == files
      && (|| pc' == WriteThrew(CompressionFailed)
          || pc' == WriteThrew(PayloadTooLarge)
          || (pc'.MakingDirectory? && Packs(host, c, bytes, pc'.packed) && |pc'.packed| <= host.maxCompressedBytes))
    case MakingDirectory(packed) =>
      files' == files && (pc' == WriteThrew(IoError) || (pc'.Opening? && pc'.packed == packed))
    case Opening(packed, nonce) =>
      var tmp := Temp(host.hash(bytes), nonce);
      || (tmp !in files && files' == files[tmp := []] && pc' == Filling(packed, nonce, 0))
      || (files' == files && pc' == CleaningUp(packed, nonce))
    case Filling(packed, nonce, k) =>
      var tmp := Temp(host.hash(bytes), nonce);
      || (&& pc'.Filling? && pc'.packed == packed && pc'.nonce == nonce
          && k < pc'.written <= |packed| && files' == files[tmp := packed[..pc'.written]])
      || (k == |packed| && files' == files && pc' == Syncing(packed, nonce))
      || (files' == files && pc' == Closing(packed, nonce, false))
    case Syncing(packed, nonce) =>
      files' == files && (pc' == Closing(packed, nonce, true) || pc' == Closing(packed, nonce, false))
    case Closing(packed, nonce, intact) =>
      files' == files && ((intact && pc' == Renaming(packed, nonce)) || pc' == CleaningUp(packed, nonce))
    case Renaming(packed, nonce) =>
      var tmp := Temp(host.hash(bytes), nonce);
      || (&& tmp in files && files' == files[target := files[tmp]] - {tmp}
          && pc' == WriteReturned(Outcome(host, bytes, c, |packed|, false)))
      || (files' == files && pc' == LostStat(packed, nonce))
    case LostStat(packed, nonce) =>
      files' == files && ((target in files && pc' == LostUnlink(packed, nonce)) || pc' == CleaningUp(packed, nonce))
    case LostUnlink(packed, nonce) =>
      (files' == files - {Temp(host.hash(bytes), nonce)} || files' == files) && pc' == LostSize(packed, nonce)
    case LostSize(packed, nonce) =>
      files' == files
      && (|| (target in files && pc' == WriteReturned(Outcome(host, bytes, c, |files[target]|, true)))
          || pc' == CleaningUp(packed, nonce))
    case CleaningUp(packed, nonce) =>
      (files' == files - {Temp(host.hash(bytes), nonce)} || files' == files) && pc' == WriteThrew(IoError)
    case WriteReturned(_) => false
    case WriteThrew(_) => false
  }

  // ---- the other calls ----

  /** The caller's own hash, when it gives one, differs from the URI's. */
  predicate Contradicts(expected: Option<string>, hash: string) {
    expected.Some? && expected.value != "" && Lower(expected.value) != hash
  }

  predicate ReadStep(host: Host, uri: string, expected: Option<string>, pc: ReadPc, files: Files, pc': ReadPc) {
    match pc
    case ReadStart =>
      pc' == (match ParseCasUri(uri)
              case Err(_) => ReadThrew(InvalidUri)
              case Ok(CasUri(hash, extension)) =>
                if Contradicts(expected, hash)
                then ReadThrew(ExpectedHashMismatch)
                else ReadingFile(hash, extension))
    case ReadingFile(hash, extension) =>
      || (Target(hash, extension) in files && pc' == Decoding(hash, extension, files[Target(hash, extension)]))
      || pc' == ReadThrew(NotFound)
    case Decoding(hash, extension, stored) =>
      pc' == (match CompressionFromExtension(extension)
              case Err(_) => ReadThrew(InvalidUri)
              case Ok(c) =>
                match host.decompress(c, stored)
                case None => ReadThrew(DecodeFailed)
                case Some(bytes) =>
                  if host.hash(bytes) != hash then ReadThrew(StoredHashMismatch)
                  else ReadReturned(ReadResult(hash, c, |stored|, bytes)))
    case ReadReturned(_) => false
    case ReadThrew(_) => false
  }

  predicate DeleteStep(uri: string, pc: DeletePc, files: Files, pc': DeletePc, files': Files) {
    match pc
    case DeleteStart =>
      files' == files
      && pc' == (match ParseCasUri(uri)
                 case Err(_) => DeleteThrew(InvalidUri)
                 case Ok(CasUri(hash, extension)) => Removing(hash, extension))
    case Removing(hash, extension) =>
      || (&& Target(hash, extension) in files && files' == files - {Target(hash, extension)}
          && pc' == DeleteReturned(true))
      || (files' == files && pc' == DeleteReturned(false))
    case DeleteReturned(_) => false
    case DeleteThrew(_) => false
  }

  const PROBE_ORDER: seq<Compression> := [GZIP, ZSTD, NONE]

  predicate ExistsStep(contentHash: string, pc: ExistsPc, files: Files, pc': ExistsPc) {
    var hash := Lower(Trim(contentHash));
    match pc
    case Probing(tried) =>
      if !IsSha256Hex(hash) then pc' == ExistsThrew
      else if tried >= |PROBE_ORDER| then pc' == ExistsReturned(false)
      else
        || (Target(hash, ExtensionForCompression(PROBE_ORDER[tried])) in files && pc' == ExistsReturned(true))
        || pc' == Probing(tried + 1)
    case ExistsReturned(_) => false
    case ExistsThrew => false
  }

  // ---- the whole system ----

  predicate IsFresh(p: Process) {
    match p
    case Writer(_, _, pc) => pc == WriteStart
    case Reader(_, _, pc) => pc == ReadStart
    case Deleter(_, pc) => pc == DeleteStart
    case Prober(_, pc) => pc == Probing(0)
  }

  /** The nonce a waiting writer holds. */
  function HeldNonce(pc: WritePc): Option<Nonce> {
    match pc
    case Opening(_, n) => Some(n)
    case Filling(_, n, _) => Some(n)
    case Syncing(_, n) => Some(n)
    case Closing(_, n, _) => Some(n)
    case Renaming(_, n) => Some(n)
    case LostStat(_, n) => Some(n)
    case LostUnlink(_, n) => Some(n)
    case LostSize(_, n) => Some(n)
    case CleaningUp(_, n) => Some(n)
    case _ => None
  }

  function HeldTemp(host: Host, p: Process): Option<Path> {
    if p.Writer? && HeldNonce(p.wpc).Some? then Some(Temp(host.hash(p.bytes), HeldNonce(p.wpc).value)) else None
  }

  predicate Live(s: State, pid: Pid) {
    pid in s.procs && pid !in s.crashed
  }

  predicate Holds(host: Host, s: State, pid: Pid, tmp: Path) {
    Live(s, pid) && HeldTemp(host, s.procs[pid]) == Some(tmp)
  }

  /** One step of one process, whatever its kind. */
  predicate ProcessStep(host: Host, p: Process, files: Files, p': Process, files': Files) {
    match p
    case Writer(bytes, c, pc) =>
      p'.Writer? && p'.bytes == bytes && p'.compression == c && WriteStep(host, bytes, c, pc, files, p'.wpc, files')
    case Reader(uri, expected, pc) =>
      p'.Reader? && p'.uri == uri && p'.expected == expected && files' == files
      && ReadStep(host, uri, expected, pc, files, p'.rpc)
    case Deleter(uri, pc) =>
      p'.Deleter? && p'.uri == uri && DeleteStep(uri, pc, files, p'.dpc, files')
    case Prober(hash, pc) =>
      p'.Prober? && p'.hash == hash && files' == files && ExistsStep(hash, pc, files, p'.epc)
  }

  /** The random part of a temporary name is not one that another waiting writer of the same content holds. */
  predicate NonceFresh(host: Host, s: State, pid: Pid, p': Process)
    requires pid in s.procs
  {
    var tmp := HeldTemp(host, p');
    tmp.Some? && HeldTemp(host, s.procs[pid]) == None ==>
      forall q :: q in s.procs && q != pid ==> !Holds(host, s, q, tmp.value)
  }

  datatype Event = Spawn(pid: Pid, call: Process) | Crash(pid: Pid) | Act(pid: Pid)

  /** One step of the system, with no promise about temporary names. */
  predicate NextAnyNonce(host: Host, s: State, e: Event, s': State) {
    match e
    case Spawn(pid, call) =>
      pid !in s.procs && pid !in s.crashed && IsFresh(call) && s' == s.(procs := s.procs[pid := call])
    case Crash(pid) =>
      Live(s, pid) && s' == s.(crashed := s.crashed + {pid})
    case Act(pid) =>
      && Live(s, pid)
      && pid in s'.procs
      && ProcessStep(host, s.procs[pid], s.files, s'.procs[pid], s'.files)
      && s'.procs == s.procs[pid := s'.procs[pid]]
      && s'.crashed == s.crashed
  }

  predicate Next(host: Host, s: State, e: Event, s': State) {
    && NextAnyNonce(host, s, e, s')
    && (e.Act? ==> NonceFresh(host, s, e.pid, s'.procs[e.pid]))
  }

  /** `states[i]` goes to `states[i + 1]` by `events[i]`. */
  predicate IsRun(host: Host, states: seq<State>, events: seq<Event>) {
    && |states| == |events| + 1
    && forall i :: 0 <= i < |events| ==> Next(host, states[i], events[i], states[i + 1])
  }

  predicate IsRunAnyNonce(host: Host, states: seq<State>, events: seq<Event>) {
    && |states| == |events| + 1
    && forall i :: 0 <= i < |events| ==> NextAnyNonce(host, states[i], events[i], states[i + 1])
  }
}
