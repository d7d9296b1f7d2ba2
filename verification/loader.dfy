/** The image loader as it runs: sequential reads with a file cursor and a native table whose
    hashes are overwritten by thunks. */
module Loader {
  import opened Words
  import opened Image

  /** First-match search of the registered thunks. */
  method FindThunk(thunks: seq<ThunkRecord>, hash: u32) returns (proc: u32)
    ensures proc == LookupThunk(thunks, hash)
  {
    var i := 0;
    while i < |thunks|
      invariant i <= |thunks| && LookupThunk(thunks, hash) == LookupThunk(thunks[i..], hash)
    {
      if thunks[i].hash == hash {
        return thunks[i].proc;
      }
      i := i + 1;
    }
    return 0;
  }

  class Reader {
    const file: seq<u8>
    const thunks: seq<ThunkRecord>
    var at: nat

    constructor (bytes: seq<u8>, registered: seq<ThunkRecord>)
      ensures file == bytes && thunks == registered && at == 0
    {
      file, thunks, at := bytes, registered, 0;
    }

    /** Reads up to `n` bytes, fewer at the end of the file. */
    method ReadBytes(n: nat) returns (bytes: seq<u8>)
      modifies this
      ensures |bytes| == n <==> ReadAt(file, old(at), n).Some?
      ensures |bytes| == n ==> bytes == ReadAt(file, old(at), n).value && at == old(at) + n
    {
      var end := if at + n <= |file| then at + n else if at <= |file| then |file| else at;
      bytes := if at <= |file| then file[at..end] else [];
      at := at + |bytes|;
    }

    /** Replaces the hash in every cell by the thunk registered for it. */
    method FixUpTable(table: array<u32>, ghost stored: seq<u8>) returns (ok: bool)
      requires |stored| == 4 * table.Length
      requires forall i :: 0 <= i < table.Length ==> table[i] == Fetch32(stored[4 * i..4 * i + 4])
      modifies table
      ensures ok <==> FixUp(thunks, stored, table.Length).Some?
      ensures ok ==> table[..] == FixUp(thunks, stored, table.Length).value
    {
      hide LookupThunk, Fetch32;
      var index := 0;
      while index < table.Length
        invariant index <= table.Length
        invariant FixUp(thunks, stored[..4 * index], index) == Some(table[..index])
        invariant forall i :: index <= i < table.Length ==> table[i] == Fetch32(stored[4 * i..4 * i + 4])
      {
        ghost var upTo := stored[..4 * (index + 1)];
        assert upTo[..4 * index] == stored[..4 * index];
        assert upTo[4 * index..] == stored[4 * index..4 * index + 4];
        var proc := FindThunk(thunks, table[index]);
        if proc == 0 {
          FixUpStops(thunks, stored, index + 1, table.Length);
          return false;
        }
        table[index] := proc;
        index := index + 1;
        assert table[..index] == table[..index - 1] + [proc];
      }
      assert stored[..4 * index] == stored && table[..index] == table[..];
      ok := true;
    }

    /** Reads the signature and the fields behind it. */
    method ReadHeader() returns (fields: Option<Fields>)
      requires at == 0
      modifies this
      ensures fields == ReadFields(file)
    {
      hide Fetch32, Fetch16;
      var signature := ReadBytes(4);
      if |signature| != 4 || signature != SIGNATURE {
        return None;
      }
      var memSize := ReadBytes(4);
      if |memSize| != 4 {
        return None;
      }
      var fileSize := ReadBytes(4);
      if |fileSize| != 4 {
        return None;
      }
      var entry := ReadBytes(4);
      if |entry| != 4 {
        return None;
      }
      var count := ReadBytes(2);
      if |count| != 2 {
        return None;
      }
      fields := Some(Fields(Fetch32(memSize), Fetch32(fileSize), Fetch32(entry), Fetch16(count)));
    }

    /** Loads the module at `base`, or panics where the specification has no module. */
    method LoadModule(base: u32) returns (loaded: Option<Module>)
      requires at == 0
      modifies this
      ensures loaded == Load(file, base, thunks)
    {
      hide FixUp, ReadFields, ReadAt, Fetch32, Fetch16;
      var fields := ReadHeader();
      if fields.None? {
        return None;
      }
      var f := fields.value;
      at := HEADER_SIZE;
      var body := ReadBytes(f.fileSize);
      if |body| != f.fileSize {
        return None;
      }
      var start := Wrap(base + f.entry);
      var n: nat := f.natives;
      if n == 0 {
        return Some(Module(f.memSize, start, body, None));
      }
      var stored := ReadBytes(4 * n);
      if |stored| != 4 * n {
        return None;
      }
      var table := new u32[n](i requires 0 <= i < n && 4 * n == |stored| => Fetch32(stored[4 * i..4 * i + 4]));
      var ok := FixUpTable(table, stored);
      if !ok {
        return None;
      }
      loaded := Some(Module(f.memSize, start, body, Some(table[..])));
    }
  }

  lemma {:induction false} FixUpStops(thunks: seq<ThunkRecord>, stored: seq<u8>, i: nat, n: nat)
    requires i <= n && |stored| == 4 * n && FixUp(thunks, stored[..4 * i], i) == None
    ensures FixUp(thunks, stored, n) == None
    decreases n
  {
    if i < n {
      assert stored[..4 * (n - 1)][..4 * i] == stored[..4 * i];
      FixUpStops(thunks, stored[..4 * (n - 1)], i, n - 1);
    } else {
      assert stored[..4 * i] == stored;
    }
  }
}
