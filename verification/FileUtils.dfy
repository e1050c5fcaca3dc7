/** Writing a file completely, and writing it so that no reader ever sees half of it. */
module FileUtils {
  import opened Slices
  import opened Bytes
  import opened Text
  import opened Paths

  datatype WriteOutcome = Interrupted | Failed | Written(n: nat)

  /** A directory: its files by name, and every state it has been in. Signals may interrupt a write. */
  class Directory {
    var files: map<string, Bytes>
    var signals: nat
    ghost var history: seq<map<string, Bytes>>

    constructor (files: map<string, Bytes>, signals: nat)
      ensures this.files == files && this.signals == signals && history == [files]
    {
      this.files := files;
      this.signals := signals;
      history := [files];
    }

    /** One system call: takes between none and all of the bytes. */
    method Write(name: string, data: Bytes) returns (outcome: WriteOutcome)
      requires name in files && data != []
      modifies this
      ensures history == old(history) + [files]
      ensures outcome.Interrupted? ==> files == old(files) && signals < old(signals)
      ensures outcome.Failed? ==> files == old(files)
      ensures outcome.Written? ==>
        outcome.n <= |data| && files == old(files)[name := old(files)[name] + data[..outcome.n]] && signals == old(signals)
    {
      var signalled: bool, failed: bool := *, *;
      if signalled && signals > 0 {
        signals := signals - 1;
        outcome := Interrupted;
      } else if failed {
        outcome := Failed;
      } else {
        var n: nat :| n <= |data| by {
          assert 0 <= |data|;
        }
        files := files[name := files[name] + data[..n]];
        outcome := Written(n);
      }
      history := history + [files];
    }

    /** `writeAll`: goes on until all bytes are written; an error or an empty write gives up. */
    method WriteAll(name: string, data: Bytes) returns (ok: bool)
      requires name in files && files[name] == []
      modifies this
      ensures name in files && files[name] <= data && (ok ==> files[name] == data)
      ensures files - {name} == old(files) - {name}
      ensures old(history) <= history
      ensures forall i :: |old(history)| <= i < |history| ==> history[i] - {name} == old(files) - {name}
    {
      var offset: nat := 0;
      while offset < |data|
        invariant offset <= |data| && name in files && files[name] == data[..offset]
        invariant files - {name} == old(files) - {name} && old(history) <= history
        invariant forall i :: |old(history)| <= i < |history| ==> history[i] - {name} == old(files) - {name}
        decreases signals, |data| - offset
      {
        var outcome := Write(name, data[offset..]);
        if outcome.Interrupted? {
          continue;
        }
        if outcome.Failed? {
          return false;
        }
        if outcome.n == 0 {
          return false;
        }
        assert data[..offset] + data[offset..][..outcome.n] == data[..offset + outcome.n];
        offset := offset + outcome.n;
      }
      return true;
    }

    /** `fsyncFd`: repeated while signals interrupt it; it may fail, and changes no file. */
    method Sync() returns (ok: bool)
      modifies this`signals
    {
      ok := *;
      var signalled: bool := *;
      while signalled && signals > 0
        decreases signals
      {
        signals := signals - 1;
        signalled := *;
      }
    }

    /**
     * `writeFileAtomic`: at every moment each file but the temporary one is as it was before, or else the
     * whole write is done. It can fail before the rename, which leaves at most a part of the data in the
     * temporary file, or behind it, when the directory cannot be synced; then the file is replaced nevertheless.
     */
    method WriteFileAtomic(name: string, data: Bytes, pid: nat, now: nat) returns (ok: bool, ghost replaced: bool)
      modifies this
      ensures ok ==> replaced
      ensures var temp := TempName(name, pid, now);
              && (replaced ==> files == (old(files) - {temp})[name := data])
              && (!replaced ==> files - {temp} == old(files) - {temp})
              && (!replaced && temp in files && temp !in old(files) ==> files[temp] <= data)
              && (temp in old(files) ==> !replaced && files == old(files))
              && old(history) <= history
              && forall i :: |old(history)| <= i < |history| ==>
                   history[i] - {temp} == old(files) - {temp} || history[i] == (old(files) - {temp})[name := data]
    {
      hide TempName;
      var temp := TempName(name, pid, now);
      if temp in files {
        return false, false;
      }
      TempIsAnother(name, pid, now);
      files := files[temp := []];
      history := history + [files];
      assert files - {temp} == old(files) - {temp};
      var written := WriteAll(temp, data);
      if !written {
        return false, false;
      }
      var synced := Sync();
      if !synced {
        return false, false;
      }
      var renamed: bool := *;
      if !renamed {
        files := files - {temp};
        history := history + [files];
        return false, false;
      }
      files := (files - {temp})[name := files[temp]];
      history := history + [files];
      var directorySynced := Sync();
      return directorySynced, true;
    }
  }

  lemma TempIsAnother(name: string, pid: nat, now: nat)
    ensures TempName(name, pid, now) != name
  {
    hide Decimal;
    assert |TempName(name, pid, now)| >= |name| + 5;
  }
}
