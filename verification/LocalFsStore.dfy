/**
  The store's methods as they run, over a directory they change in place. Each method's steps are steps of
  `ArtifactProtocol`, so what holds of every run of the protocol holds of these methods too.
 */
module LocalFsStore {
  import opened Wrappers
  import opened PathSafety
  import opened ArtifactProtocol
  import opened ArtifactSafety

  /** The directory behind the store. `fails` is the environment's say in each call. */
  class Directory {
    var files: Files

    constructor (initial: Files)
      ensures files == initial
    {
      files := initial;
    }

    method Stat(path: Path, fails: bool) returns (size: Option<nat>)
      ensures size == if !fails && path in files then Some(|files[path]|) else None
    {
      size := if !fails && path in files then Some(|files[path]|) else None;
    }

    /** `open(path, "wx")`. */
    method OpenExclusive(path: Path, fails: bool) returns (ok: bool)
      modifies this
      ensures ok == (!fails && path !in old(files))
      ensures files == if ok then old(files)[path := []] else old(files)
    {
      ok := !fails && path !in files;
      if ok {
        files := files[path := []];
      }
    }

    /** Writes a prefix of `data`: all of it, or what got out before a failure. */
    method WriteFile(path: Path, data: Bytes, written: nat)
      requires written <= |data|
      modifies this
      ensures files == old(files)[path := data[..written]]
    {
      files := files[path := data[..written]];
    }

    method Rename(source: Path, target: Path, fails: bool) returns (ok: bool)
      modifies this
      ensures ok == (!fails && source in old(files))
      ensures files == if ok then old(files)[target := old(files)[source]] - {source} else old(files)
    {
      ok := !fails && source in files;
      if ok {
        files := files[target := files[source]] - {source};
      }
    }

    method Unlink(path: Path, fails: bool) returns (ok: bool)
      modifies this
      ensures ok == (!fails && path in old(files))
      ensures files == if ok then old(files) - {path} else old(files)
    {
      ok := !fails && path in files;
      if ok {
        files := files - {path};
      }
    }

    method ReadFile(path: Path, fails: bool) returns (stored: Option<Bytes>)
      ensures stored == if !fails && path in files then Some(files[path]) else None
    {
      stored := if !fails && path in files then Some(files[path]) else None;
    }
  }

  /** Which calls of one write fail, how far a failing write gets, and the random part of the name. */
  datatype WriteLuck = WriteLuck(firstStat: bool, secondStat: bool, mkdir: bool, open: bool,
                                 fill: Option<nat>, sync: bool, close: bool, rename: bool,
                                 lostStat: bool, lostUnlink: bool, lostSize: bool, cleanup: bool,
                                 nonce: Nonce)

  /** How many bytes `writeFile` gets out. */
  function Written(luck: WriteLuck, packed: Bytes): (n: nat)
    ensures n <= |packed| && (luck.fill.None? ==> n == |packed|)
  {
    if luck.fill.None? || luck.fill.value > |packed| then |packed| else luck.fill.value
  }

  /** The temporary file gets created, filled, synced and closed. */
  predicate Fills(luck: WriteLuck, files: Files, tmp: Path) {
    !luck.open && tmp !in files && luck.fill.None? && !luck.sync && !luck.close
  }

  /** ... and renamed, or the rename is lost to a target that is there. */
  predicate Publishes(luck: WriteLuck, files: Files, tmp: Path, target: Path) {
    Fills(luck, files, tmp) && (!luck.rename || (!luck.lostStat && !luck.lostSize && target in files))
  }

  /** Both stats at the start see the target. */
  predicate Finds(luck: WriteLuck, files: Files, target: Path) {
    !luck.firstStat && !luck.secondStat && target in files
  }

  // ---- a write on its own, as a run of the protocol's write steps ----

  datatype Snapshot = Snapshot(pc: WritePc, files: Files)

  ghost predicate IsWriteRun(host: Host, bytes: Bytes, c: Compression, run: seq<Snapshot>) {
    && |run| > 0
    && forall i :: 0 < i < |run| ==>
         WriteStep(host, bytes, c, run[i - 1].pc, run[i - 1].files, run[i].pc, run[i].files)
  }

  ghost predicate RunsTo(host: Host, bytes: Bytes, c: Compression, run: seq<Snapshot>, pc: WritePc, files: Files) {
    IsWriteRun(host, bytes, c, run) && run[|run| - 1] == Snapshot(pc, files)
  }

  lemma Extend(host: Host, bytes: Bytes, c: Compression, run: seq<Snapshot>, pc: WritePc, files: Files,
               pc': WritePc, files': Files)
    requires RunsTo(host, bytes, c, run, pc, files)
    requires WriteStep(host, bytes, c, pc, files, pc', files')
    ensures RunsTo(host, bytes, c, run + [Snapshot(pc', files')], pc', files')
  {
    hide WriteStep;
  }

  /** A run of write steps keeps good targets good. */
  lemma {:induction false} WriteRunKeepsTargets(host: Host, bytes: Bytes, c: Compression, run: seq<Snapshot>, n: nat)
    requires IsWriteRun(host, bytes, c, run) && n < |run|
    requires run[0].pc == WriteStart && TargetsGood(host, run[0].files)
    ensures TargetsGood(host, run[n].files) && WriterOk(host, run[n].files, bytes, c, run[n].pc)
  {
    if n > 0 {
      WriteRunKeepsTargets(host, bytes, c, run, n - 1);
      WriteStepKeepsTargets(host, bytes, c, run[n - 1].pc, run[n - 1].files, run[n].pc, run[n].files);
    }
  }

  lemma WriteLeavesReadable(host: Host, bytes: Bytes, c: Compression, run: seq<Snapshot>)
    requires IsWriteRun(host, bytes, c, run) && run[0].pc == WriteStart && |run| > 1
    ensures TargetsGood(host, run[0].files) ==> TargetsGood(host, run[|run| - 1].files)
    ensures run[|run| - 1].pc.WriteReturned? && TargetsGood(host, run[0].files) && IsSha256Hex(host.hash(bytes))
            ==> ReadsBack(host, run[|run| - 1].files, run[|run| - 1].pc.result.storageUri, host.hash(bytes))
  {
    var n := |run| - 1;
    if TargetsGood(host, run[0].files) {
      WriteRunKeepsTargets(host, bytes, c, run, n);
      if run[n].pc.WriteReturned? && IsSha256Hex(host.hash(bytes)) {
        WriteReturnsWithTargetPresent(host, bytes, c, run[n - 1].pc, run[n - 1].files, run[n].pc.result, run[n].files);
        UriRoundTrip(host.hash(bytes), c);
        assert Lower(host.hash(bytes)) == host.hash(bytes);
      }
    }
  }

  class LocalFsArtifactStore {
    const directory: Directory
    const host: Host
    const defaultCompression: Compression

    constructor (directory: Directory, host: Host, defaultCompression: Compression)
      ensures this.directory == directory && this.host == host && this.defaultCompression == defaultCompression
    {
      this.directory := directory;
      this.host := host;
      this.defaultCompression := defaultCompression;
    }

    /** One more step of the run, from `files` to what the directory holds now. */
    ghost method Advance(bytes: Bytes, c: Compression, pc: WritePc, files: Files, pc': WritePc, before: seq<Snapshot>)
      returns (run: seq<Snapshot>)
      requires RunsTo(host, bytes, c, before, pc, files)
      requires WriteStep(host, bytes, c, pc, files, pc', directory.files)
      ensures before <= run && RunsTo(host, bytes, c, run, pc', directory.files)
    {
      Extend(host, bytes, c, before, pc, files, pc', directory.files);
      run := before + [Snapshot(pc', directory.files)];
    }

    /** The outer `catch`: unlink the temporary file, whatever comes of it, and rethrow. */
    method CleanUp(bytes: Bytes, c: Compression, packed: Bytes, luck: WriteLuck, ghost before: seq<Snapshot>)
      returns (ghost run: seq<Snapshot>)
      requires RunsTo(host, bytes, c, before, CleaningUp(packed, luck.nonce), directory.files)
      modifies directory
      ensures before <= run && RunsTo(host, bytes, c, run, WriteThrew(IoError), directory.files)
      ensures directory.files == if luck.cleanup then old(directory.files)
                                 else old(directory.files) - {Temp(host.hash(bytes), luck.nonce)}
    {
      var _ := directory.Unlink(Temp(host.hash(bytes), luck.nonce), luck.cleanup);
      run := Advance(bytes, c, CleaningUp(packed, luck.nonce), old(directory.files), WriteThrew(IoError), before);
    }

    /** `handle.writeFile`: everything, or the prefix that got out before it failed. */
    method WriteHandle(bytes: Bytes, c: Compression, packed: Bytes, luck: WriteLuck, ghost before: seq<Snapshot>)
      returns (intact: bool, ghost run: seq<Snapshot>)
      requires RunsTo(host, bytes, c, before, Filling(packed, luck.nonce, 0), directory.files)
      requires Temp(host.hash(bytes), luck.nonce) in directory.files
      requires directory.files[Temp(host.hash(bytes), luck.nonce)] == []
      modifies directory
      ensures before <= run && intact == luck.fill.None?
      ensures RunsTo(host, bytes, c, run,
                     if intact then Syncing(packed, luck.nonce)
                       else Closing(packed, luck.nonce, false), directory.files)
      ensures directory.files ==
        old(directory.files)[Temp(host.hash(bytes), luck.nonce) := packed[..Written(luck, packed)]]
    {
      var tmp := Temp(host.hash(bytes), luck.nonce);
      run, intact := before, luck.fill.None?;
      var written := Written(luck, packed);
      directory.WriteFile(tmp, packed, written);
      if written > 0 {
        run := Advance(bytes, c, Filling(packed, luck.nonce, 0), old(directory.files),
                       Filling(packed, luck.nonce, written), run);
      }
      assert directory.files == old(directory.files)[tmp := packed[..written]];
      assert written == 0 ==> directory.files == old(directory.files);
      ghost var next := if intact then Syncing(packed, luck.nonce) else Closing(packed, luck.nonce, false);
      run := Advance(bytes, c, Filling(packed, luck.nonce, written), directory.files, next, run);
    }

    /** Exclusive create, fill, sync and close; `ok` when the temporary file is complete. */
    method FillTemporary(bytes: Bytes, c: Compression, packed: Bytes, luck: WriteLuck, ghost before: seq<Snapshot>)
      returns (ok: bool, ghost run: seq<Snapshot>)
      requires RunsTo(host, bytes, c, before, Opening(packed, luck.nonce), directory.files)
      modifies directory
      ensures before <= run
      ensures RunsTo(host, bytes, c, run, if ok then Renaming(packed, luck.nonce) else CleaningUp(packed, luck.nonce),
                     directory.files)
      ensures ok == Fills(luck, old(directory.files), Temp(host.hash(bytes), luck.nonce))
      ensures directory.files - {Temp(host.hash(bytes), luck.nonce)}
           == old(directory.files) - {Temp(host.hash(bytes), luck.nonce)}
      ensures ok ==> directory.files == old(directory.files)[Temp(host.hash(bytes), luck.nonce) := packed]
      ensures !ok && Temp(host.hash(bytes), luck.nonce) in old(directory.files) ==>
        directory.files == old(directory.files)
    {
      hide IsWriteRun, TargetOf;
      var tmp := Temp(host.hash(bytes), luck.nonce);
      run := before;
      ok := directory.OpenExclusive(tmp, luck.open);
      ghost var created := if ok then Filling(packed, luck.nonce, 0) else CleaningUp(packed, luck.nonce);
      run := Advance(bytes, c, Opening(packed, luck.nonce), old(directory.files), created, run);
      if !ok {
        return;
      }
      var intact;
      intact, run := WriteHandle(bytes, c, packed, luck, run);
      if intact {
        intact := !luck.sync;
        run := Advance(bytes, c, Syncing(packed, luck.nonce), directory.files, Closing(packed, luck.nonce, intact),
                       run);
      }
      assert packed[..|packed|] == packed;
      ok := intact && !luck.close;
      ghost var next := if ok then Renaming(packed, luck.nonce) else CleaningUp(packed, luck.nonce);
      run := Advance(bytes, c, Closing(packed, luck.nonce, intact), directory.files, next, run);
    }

    /** The `catch` of a failed rename: success by deduplication when the target is there, twice. */
    method RecoverLostRename(bytes: Bytes, c: Compression, packed: Bytes, luck: WriteLuck, ghost before: seq<Snapshot>)
      returns (found: Option<WriteResult>, ghost run: seq<Snapshot>)
      requires RunsTo(host, bytes, c, before, LostStat(packed, luck.nonce), directory.files)
      modifies directory
      ensures before <= run
      ensures RunsTo(host, bytes, c, run, if found.Some? then WriteReturned(found.value)
                     else CleaningUp(packed, luck.nonce),
                     directory.files)
      ensures found.Some? ==> found.value.deduplicated
      ensures found.Some? <==> !luck.lostStat && !luck.lostSize && TargetOf(host, bytes, c) in old(directory.files)
      ensures directory.files == old(directory.files)
           || directory.files == old(directory.files) - {Temp(host.hash(bytes), luck.nonce)}
      ensures found.Some? && !luck.lostUnlink ==> Temp(host.hash(bytes), luck.nonce) !in directory.files
    {
      var tmp, target := Temp(host.hash(bytes), luck.nonce), TargetOf(host, bytes, c);
      run, found := before, None;
      var present := directory.Stat(target, luck.lostStat);
      if present.None? {
        run := Advance(bytes, c, LostStat(packed, luck.nonce), directory.files, CleaningUp(packed, luck.nonce), run);
        return;
      }
      run := Advance(bytes, c, LostStat(packed, luck.nonce), directory.files, LostUnlink(packed, luck.nonce), run);

      var _ := directory.Unlink(tmp, luck.lostUnlink);
      run := Advance(bytes, c, LostUnlink(packed, luck.nonce), old(directory.files), LostSize(packed, luck.nonce), run);

      var size := directory.Stat(target, luck.lostSize);
      ghost var next := CleaningUp(packed, luck.nonce);
      if size.Some? {
        found := Some(Outcome(host, bytes, c, size.value, true));
        next := WriteReturned(found.value);
      }
      run := Advance(bytes, c, LostSize(packed, luck.nonce), directory.files, next, run);
    }

    /** The part of `write` from the exclusive open to the rename and its fallback. */
    method Publish(bytes: Bytes, c: Compression, packed: Bytes, luck: WriteLuck, ghost before: seq<Snapshot>)
      returns (r: Result<WriteResult, Failure>, ghost run: seq<Snapshot>)
      requires RunsTo(host, bytes, c, before, Opening(packed, luck.nonce), directory.files)
      modifies directory
      ensures before <= run
      ensures RunsTo(host, bytes, c, run, if r.Ok? then WriteReturned(r.value)
                     else WriteThrew(r.error), directory.files)
      ensures r.Ok? <==> Publishes(luck, old(directory.files), Temp(host.hash(bytes), luck.nonce),
                                   TargetOf(host, bytes, c))
      ensures r.Ok? ==> r.value.deduplicated == luck.rename && TargetOf(host, bytes, c) in directory.files
      ensures !luck.lostUnlink && !luck.cleanup ==> Temp(host.hash(bytes), luck.nonce) !in directory.files
      ensures r.Err? || r.value.deduplicated
              ==> directory.files - {Temp(host.hash(bytes), luck.nonce)}
                  == old(directory.files) - {Temp(host.hash(bytes), luck.nonce)}
      ensures r.Ok? && !r.value.deduplicated
              ==> directory.files
                  == (old(directory.files) - {Temp(host.hash(bytes), luck.nonce)})[TargetOf(host, bytes, c) := packed]
    {
      var tmp, target := Temp(host.hash(bytes), luck.nonce), TargetOf(host, bytes, c);
      r := Err(IoError);
      var complete;
      complete, run := FillTemporary(bytes, c, packed, luck, before);
      ghost var filled := directory.files;
      if complete {
        var renamed := directory.Rename(tmp, target, luck.rename);
        if renamed {
          r := Ok(Outcome(host, bytes, c, |packed|, false));
          run := Advance(bytes, c, Renaming(packed, luck.nonce), filled, WriteReturned(r.value), run);
          assert directory.files == (old(directory.files) - {tmp})[target := packed];
          return;
        }
        run := Advance(bytes, c, Renaming(packed, luck.nonce), filled, LostStat(packed, luck.nonce), run);
        var found;
        found, run := RecoverLostRename(bytes, c, packed, luck, run);
        if found.Some? {
          return Ok(found.value), run;
        }
      }
      run := CleanUp(bytes, c, packed, luck, run);
    }

    /** From the compressor to the end. */
    method CompressAndPublish(bytes: Bytes, c: Compression, packed: Option<Bytes>, luck: WriteLuck,
                              ghost before: seq<Snapshot>)
      returns (r: Result<WriteResult, Failure>, ghost run: seq<Snapshot>)
      requires packed.Some? ==> Packs(host, c, bytes, packed.value)
      requires RunsTo(host, bytes, c, before, Compressing, directory.files)
      modifies directory
      ensures before <= run
      ensures RunsTo(host, bytes, c, run, if r.Ok? then WriteReturned(r.value)
                     else WriteThrew(r.error), directory.files)
      ensures var tmp, target := Temp(host.hash(bytes), luck.nonce), TargetOf(host, bytes, c);
              r.Ok? <==> && packed.Some? && |packed.value| <= host.maxCompressedBytes && !luck.mkdir
                         && Publishes(luck, old(directory.files), tmp, target)
      ensures r.Ok? ==> r.value.deduplicated == luck.rename && TargetOf(host, bytes, c) in directory.files
      ensures r.Ok? && !luck.rename ==> directory.files[TargetOf(host, bytes, c)] == packed.value
      ensures r.Ok? && luck.rename ==>
                && TargetOf(host, bytes, c) in old(directory.files)
                && directory.files[TargetOf(host, bytes, c)] == old(directory.files)[TargetOf(host, bytes, c)]
      ensures var tmp, target := Temp(host.hash(bytes), luck.nonce), TargetOf(host, bytes, c);
              && directory.files - {tmp, target} == old(directory.files) - {tmp, target}
              && (r.Err? ==> directory.files - {tmp} == old(directory.files) - {tmp})
              && (!luck.lostUnlink && !luck.cleanup && tmp !in old(directory.files) ==> tmp !in directory.files)
    {
      if packed.None? {
        run := Advance(bytes, c, Compressing, directory.files, WriteThrew(CompressionFailed), before);
        return Err(CompressionFailed), run;
      }
      if |packed.value| > host.maxCompressedBytes {
        run := Advance(bytes, c, Compressing, directory.files, WriteThrew(PayloadTooLarge), before);
        return Err(PayloadTooLarge), run;
      }
      run := Advance(bytes, c, Compressing, directory.files, MakingDirectory(packed.value), before);
      if luck.mkdir {
        run := Advance(bytes, c, MakingDirectory(packed.value), directory.files, WriteThrew(IoError), run);
        return Err(IoError), run;
      }
      run := Advance(bytes, c, MakingDirectory(packed.value), directory.files, Opening(packed.value, luck.nonce), run);
      r, run := Publish(bytes, c, packed.value, luck, run);
      ghost var tmp, target := Temp(host.hash(bytes), luck.nonce), TargetOf(host, bytes, c);
      assert directory.files - {tmp, target} == directory.files - {tmp} - {target};
      assert old(directory.files) - {tmp, target} == old(directory.files) - {tmp} - {target};
      if r.Ok? && !r.value.deduplicated {
        assert directory.files - {tmp, target} == old(directory.files) - {tmp, target};
      } else if r.Ok? {
        assert target in directory.files - {tmp} && (directory.files - {tmp})[target] == directory.files[target];
        assert target in old(directory.files) - {tmp};
      }
    }

    /**
      `write`. `packed` is what the compressor returns, or `None` when it throws. The ghost run shows that the
      call made exactly steps that the protocol allows.
     */
    method Write(bytes: Bytes, compression: Option<Compression>, packed: Option<Bytes>, luck: WriteLuck)
      returns (r: Result<WriteResult, Failure>, ghost run: seq<Snapshot>)
      requires packed.Some? ==> Packs(host, compression.GetOr(defaultCompression), bytes, packed.value)
      modifies directory
      ensures var c := compression.GetOr(defaultCompression);
              && [Snapshot(WriteStart, old(directory.files))] <= run
              && RunsTo(host, bytes, c, run, if r.Ok? then WriteReturned(r.value)
                        else WriteThrew(r.error), directory.files)
      ensures TargetsGood(host, old(directory.files)) ==> TargetsGood(host, directory.files)
      ensures r.Ok? && TargetsGood(host, old(directory.files)) && IsSha256Hex(host.hash(bytes))
              ==> ReadsBack(host, directory.files, r.value.storageUri, host.hash(bytes))
      ensures |bytes| > host.maxUncompressedBytes ==> r == Err(PayloadTooLarge)
      ensures var tmp, target := Temp(host.hash(bytes), luck.nonce),
        TargetOf(host, bytes, compression.GetOr(defaultCompression));
              r.Ok? <==> && |bytes| <= host.maxUncompressedBytes
                         && (|| Finds(luck, old(directory.files), target)
                             || (&& packed.Some? && |packed.value| <= host.maxCompressedBytes && !luck.mkdir
                                 && Publishes(luck, old(directory.files), tmp, target)))
      ensures var target := TargetOf(host, bytes, compression.GetOr(defaultCompression));
              r.Ok? ==> && (r.value.deduplicated <==> Finds(luck, old(directory.files), target) || luck.rename)
                        && target in directory.files
                        && if r.value.deduplicated
                           then target in old(directory.files) &&
                               directory.files[target] == old(directory.files)[target]
                           else packed.Some? && directory.files[target] == packed.value
      ensures var tmp, target := Temp(host.hash(bytes), luck.nonce),
        TargetOf(host, bytes, compression.GetOr(defaultCompression));
              && directory.files - {tmp, target} == old(directory.files) - {tmp, target}
              && (r.Err? ==> directory.files - {tmp} == old(directory.files) - {tmp})
              && (!luck.lostUnlink && !luck.cleanup && tmp !in old(directory.files) ==> tmp !in directory.files)
    {
      var c := compression.GetOr(defaultCompression);
      var target := TargetOf(host, bytes, c);
      run := [Snapshot(WriteStart, directory.files)];
      if |bytes| > host.maxUncompressedBytes {
        run := Advance(bytes, c, WriteStart, directory.files, WriteThrew(PayloadTooLarge), run);
        return Err(PayloadTooLarge), run;
      }
      run := Advance(bytes, c, WriteStart, directory.files, FirstStat, run);
      var present := directory.Stat(target, luck.firstStat);
      if present.Some? {
        run := Advance(bytes, c, FirstStat, directory.files, SecondStat, run);
        var size := directory.Stat(target, luck.secondStat);
        if size.Some? {
          r := Ok(Outcome(host, bytes, c, size.value, true));
          run := Advance(bytes, c, SecondStat, directory.files, WriteReturned(r.value), run);
          WriteLeavesReadable(host, bytes, c, run);
          return;
        }
        run := Advance(bytes, c, SecondStat, directory.files, Compressing, run);
      } else {
        run := Advance(bytes, c, FirstStat, directory.files, Compressing, run);
      }
      r, run := CompressAndPublish(bytes, c, packed, luck, run);
      WriteLeavesReadable(host, bytes, c, run);
    }

    // ---- read, delete, exists ----

    method Read(uri: string, expected: Option<string>, fails: bool) returns (r: Result<ReadResult, Failure>)
      ensures r == Err(InvalidUri) <==> ParseCasUri(uri).Err?
      ensures ParseCasUri(uri).Ok?
              ==> (r == Err(ExpectedHashMismatch) <==> Contradicts(expected, ParseCasUri(uri).value.contentHash))
      ensures ParseCasUri(uri).Ok? && !Contradicts(expected, ParseCasUri(uri).value.contentHash)
              ==> var CasUri(hash, extension) := ParseCasUri(uri).value;
                  && (r == Err(NotFound) <==> fails || Target(hash, extension) !in directory.files)
                  && (!fails && Target(hash, extension) in directory.files
                      ==> (r.Ok? <==> Good(host, hash, extension, directory.files[Target(hash, extension)])))
      ensures r.Ok? ==> host.hash(r.value.bytes) == r.value.contentHash == ParseCasUri(uri).value.contentHash
      ensures r.Ok? ==>
                var CasUri(hash, extension) := ParseCasUri(uri).value;
                && Target(hash, extension) in directory.files
                && CompressionFromExtension(extension) == Ok(r.value.compression)
                && r.value.sizeBytes == |directory.files[Target(hash, extension)]|
                && host.decompress(r.value.compression, directory.files[Target(hash, extension)]) == Some(r.value.bytes)
      ensures TargetsGood(host, directory.files) ==> r != Err(StoredHashMismatch) && r != Err(DecodeFailed)
    {
      var parsed := ParseCasUri(uri);
      if parsed.Err? {
        return Err(InvalidUri);
      }
      var CasUri(hash, extension) := parsed.value;
      if Contradicts(expected, hash) {
        return Err(ExpectedHashMismatch);
      }
      var stored := directory.ReadFile(Target(hash, extension), fails);
      if stored.None? {
        return Err(NotFound);
      }
      var c := CompressionFromExtension(extension);
      var bytes := host.decompress(c.value, stored.value);
      if bytes.None? {
        return Err(DecodeFailed);
      }
      if host.hash(bytes.value) != hash {
        return Err(StoredHashMismatch);
      }
      r := Ok(ReadResult(hash, c.value, |stored.value|, bytes.value));
    }

    method Delete(uri: string, fails: bool) returns (r: Result<bool, Failure>)
      modifies directory
      ensures ParseCasUri(uri).Err? ==> r == Err(InvalidUri) && directory.files == old(directory.files)
      ensures ParseCasUri(uri).Ok?
              ==> var CasUri(hash, extension) := ParseCasUri(uri).value;
                  && r == Ok(!fails && Target(hash, extension) in old(directory.files))
                  && directory.files == if r == Ok(true) then old(directory.files) - {Target(hash, extension)}
                                        else old(directory.files)
      ensures TargetsGood(host, old(directory.files)) ==> TargetsGood(host, directory.files)
    {
      var parsed := ParseCasUri(uri);
      if parsed.Err? {
        return Err(InvalidUri);
      }
      var CasUri(hash, extension) := parsed.value;
      var removed := directory.Unlink(Target(hash, extension), fails);
      r := Ok(removed);
    }

    /** Tries the codecs in order; `fails[i]` is whether the `i`-th stat call fails for another reason. */
    method Exists(contentHash: string, fails: seq<bool>) returns (r: Result<bool, PathError>)
      requires |fails| == |PROBE_ORDER|
      ensures r.Err? <==> !IsSha256Hex(Lower(Trim(contentHash)))
      ensures r.Ok? ==> (r.value <==> exists i :: 0 <= i < |PROBE_ORDER| && !fails[i]
                                        && Target(Lower(Trim(contentHash)),
                                                  ExtensionForCompression(PROBE_ORDER[i])) in directory.files)
    {
      var hash := Lower(Trim(contentHash));
      if !IsSha256Hex(hash) {
        return Err(INVALID_HASH);
      }
      for i := 0 to |PROBE_ORDER|
        invariant forall k :: 0 <= k < i ==>
                    fails[k] || Target(hash, ExtensionForCompression(PROBE_ORDER[k])) !in directory.files
      {
        var found := directory.Stat(Target(hash, ExtensionForCompression(PROBE_ORDER[i])), fails[i]);
        if found.Some? {
          return Ok(true);
        }
      }
      r := Ok(false);
    }
  }
}
