/** The image file: header, body cut at the bss boundary and native-call hash table, and the
    loader that reads it back at an arbitrary base. */
module Image {
  import opened Numbers
  import opened Words
  import opened Opcodes
  import opened Machine
  import opened Layout
  import opened Agreement
  import opened Simulation

  const HEADER_SIZE := 32

  /** The name hash folds each (signed) character in. */
  function HashStep(hash: u32, c: char): u32 {
    BitXor(Wrap(hash * 61 + Signed8((c as int) % 0x100)), hash / 0x1_0000)
  }

  function HashName(name: string): u32 {
    if |name| == 0 then 0 else HashStep(HashName(name[..|name| - 1]), name[|name| - 1])
  }

  /** The hash of nothing is zero; one more character multiplies by 61, adds the signed character and
      folds in the high half, bit by bit. */
  lemma HashMeans(name: string, c: char, k: nat)
    requires k < 32
    ensures HashName("") == 0
    ensures
      var h, v := HashName(name), if c as int % 0x100 < 0x80 then c as int % 0x100 else c as int % 0x100 - 0x100;
      HashName(name + [c]) / Power(2, k) % 2 ==
        ((h * 61 + v) % 0x1_0000_0000 / Power(2, k) % 2 + h / 0x1_0000 / Power(2, k) % 2) % 2
  {
    hide BitXor, Power;
    var h, v := HashName(name), if c as int % 0x100 < 0x80 then c as int % 0x100 else c as int % 0x100 - 0x100;
    assert (name + [c])[..|name + [c]| - 1] == name;
    BitsMean((h * 61 + v) % 0x1_0000_0000, h / 0x1_0000, k);
  }

  /** The hash of one plain character is its code. */
  lemma HashOfOne(c: char)
    requires c as int < 0x80
    ensures HashName([c]) == c as int
  {
    hide BitXor;
    assert [c][..|[c]| - 1] == [];
    assert HashName([]) == 0;
    PlainXor(c as int);
  }

  lemma PlainXor(v: u32)
    requires v < 0x80
    ensures BitXor(v, 0) == v
  {
    PowerOfWord();
    hide Power, Bitwise;
    XorNothing(32, v);
  }

  function Hashes(names: seq<string>): (h: seq<u8>)
    ensures |h| == 4 * |names|
  {
    if |names| == 0 then [] else Hashes(names[..|names| - 1]) + Le32(HashName(names[|names| - 1]))
  }

  const SIGNATURE: seq<u8> := [0x42, 0x41, 0x52, 0x46]

  function Filler(): (f: seq<u8>)
    ensures |f| == 14
  {
    Le16(0xFFFF) + Le32(0xFFFF) + Le32(0xFFFF) + Le32(0xFFFF)
  }

  /** Sizes, entry offset and native count, then filler up to 32 bytes. */
  function Header(memSize: u32, fileSize: u32, entry: u32, natives: u16): (h: seq<u8>)
    ensures |h| == HEADER_SIZE
  {
    SIGNATURE + Le32(memSize) + Le32(fileSize) + Le32(entry) + Le16(natives) + Filler()
  }

  const START_SYMBOL := "start"

  /** The start symbol, when defined, is a label of a listed instruction. */
  predicate StartIsLabel(p: Program) {
    match E.Lookup(p.world.globals, START_SYMBOL)
    case Some(s) => s.Label? && s.location < |p.insns|
    case None => true
  }

  function StartLocation(p: Program): Option<nat>
    requires StartIsLabel(p)
  {
    match E.Lookup(p.world.globals, START_SYMBOL)
    case Some(s) => Some(s.location)
    case None => None
  }

  function ImageBytes(p: Program, l: Placement, at: nat, body: seq<u8>): seq<u8>
    requires at < |l.addrs|
  {
    Header(Wrap(l.next - p.startVa), Wrap(l.bss - p.startVa), Wrap(l.addrs[at] - p.startVa), |p.natives| % 0x1_0000)
    + body + Hashes(p.natives)
  }

  /** The file the assembler writes; None when it reports an error or finds no start symbol. */
  function Generate(p: Program): Option<seq<u8>>
    requires p.Valid() && StartIsLabel(p)
  {
    match Pass1(p, |p.insns|)
    case None => None
    case Some(l) =>
      match StartLocation(p)
      case None => None
      case Some(at) =>
        match Pass2(p, l, Cut(l))
        case None => None
        case Some(e) => Some(ImageBytes(p, l, at, e.out))
  }

  // ---------- Loading ----------

  datatype ThunkRecord = ThunkRecord(hash: u32, proc: u32)

  /** First match wins; zero when there is none. */
  function LookupThunk(thunks: seq<ThunkRecord>, hash: u32): u32 {
    if |thunks| == 0 then 0
    else if thunks[0].hash == hash then thunks[0].proc
    else LookupThunk(thunks[1..], hash)
  }

  /** Replaces each stored hash by its thunk; None when one is unknown. */
  function FixUp(thunks: seq<ThunkRecord>, table: seq<u8>, n: nat): (r: Option<seq<u32>>)
    requires |table| == 4 * n
    ensures r.Some? ==> |r.value| == n
  {
    if n == 0 then Some([]) else
    match FixUp(thunks, table[..4 * (n - 1)], n - 1)
    case None => None
    case Some(front) =>
      var proc := LookupThunk(thunks, Fetch32(table[4 * (n - 1)..]));
      if proc == 0 then None else Some(front + [proc])
  }

  datatype Module = Module(memSize: u32, entry: u32, body: seq<u8>, natives: Option<seq<u32>>)

  /** A read of exactly `n` bytes at offset `at`; a short read is a failure. */
  function ReadAt(file: seq<u8>, at: nat, n: nat): (r: Option<seq<u8>>)
    ensures r.Some? ==> |r.value| == n
  {
    if n == 0 then Some([]) else if at + n <= |file| then Some(file[at..at + n]) else None
  }

  datatype Fields = Fields(memSize: u32, fileSize: u32, entry: u32, natives: u16)

  /** The fields behind a correct signature. */
  function ReadFields(file: seq<u8>): Option<Fields> {
    if ReadAt(file, 0, 4) != Some(SIGNATURE) then None else
    var memSize, fileSize := ReadAt(file, 4, 4), ReadAt(file, 8, 4);
    var entry, count := ReadAt(file, 12, 4), ReadAt(file, 16, 2);
    if memSize.None? || fileSize.None? || entry.None? || count.None? then None
    else Some(Fields(Fetch32(memSize.value), Fetch32(fileSize.value), Fetch32(entry.value), Fetch16(count.value)))
  }

  /** What loading a file at `base` yields; None when the loader panics. */
  function Load(file: seq<u8>, base: u32, thunks: seq<ThunkRecord>): Option<Module> {
    match ReadFields(file)
    case None => None
    case Some(f) =>
      var body := ReadAt(file, HEADER_SIZE, f.fileSize);
      if body.None? then None else
      var start := Wrap(base + f.entry);
      if f.natives == 0 then Some(Module(f.memSize, start, body.value, None)) else
      var table := ReadAt(file, HEADER_SIZE + f.fileSize, 4 * f.natives);
      if table.None? then None else
      match FixUp(thunks, table.value, f.natives)
      case None => None
      case Some(procs) => Some(Module(f.memSize, start, body.value, Some(procs)))
  }

  // ---------- Round trip ----------

  lemma HeaderFields(memSize: u32, fileSize: u32, entry: u32, natives: u16, rest: seq<u8>)
    ensures var file := Header(memSize, fileSize, entry, natives) + rest;
      && file[..4] == SIGNATURE && file[4..8] == Le32(memSize) && file[8..12] == Le32(fileSize)
      && file[12..16] == Le32(entry) && file[16..18] == Le16(natives) && file[HEADER_SIZE..] == rest
  {
    hide Le32, Le16, Filler;
    FetchInvertsStore32(memSize);
    FetchInvertsStore32(fileSize);
    FetchInvertsStore32(entry);
    FetchInvertsStore16(natives);
  }

  /** The header byte for byte: `BARF`, three words, the native count, filler. */
  lemma HeaderBytes(memSize: u32, fileSize: u32, entry: u32, natives: u16)
    ensures
      var h := Header(memSize, fileSize, entry, natives);
      && |h| == 32 && h[..4] == ['B' as int, 'A' as int, 'R' as int, 'F' as int]
      && Fetch32(h[4..8]) == memSize && Fetch32(h[8..12]) == fileSize && Fetch32(h[12..16]) == entry
      && Fetch16(h[16..18]) == natives
      && h[18..] == [0xFF, 0xFF, 0xFF, 0xFF, 0, 0, 0xFF, 0xFF, 0, 0, 0xFF, 0xFF, 0, 0]
  {
    HeaderFields(memSize, fileSize, entry, natives, []);
    var h := Header(memSize, fileSize, entry, natives);
    assert h + [] == h;
    assert h[18..] == Filler();
    FetchInvertsStore32(memSize);
    FetchInvertsStore32(fileSize);
    FetchInvertsStore32(entry);
    FetchInvertsStore16(natives);
  }

  // ---------- Which files load ----------

  ghost predicate FirstOf(thunks: seq<ThunkRecord>, hash: u32, i: nat) {
    i < |thunks| && thunks[i].hash == hash && forall j :: 0 <= j < i ==> thunks[j].hash != hash
  }

  /** The thunk of a hash is the first registered one, or zero. */
  lemma {:induction false} FirstThunk(thunks: seq<ThunkRecord>, hash: u32)
    ensures (forall i :: 0 <= i < |thunks| ==> thunks[i].hash != hash) ==> LookupThunk(thunks, hash) == 0
    ensures forall i: nat :: FirstOf(thunks, hash, i) ==> LookupThunk(thunks, hash) == thunks[i].proc
  {
    if |thunks| > 0 && thunks[0].hash != hash {
      FirstThunk(thunks[1..], hash);
      forall i: nat | FirstOf(thunks, hash, i) ensures LookupThunk(thunks, hash) == thunks[i].proc {
        assert thunks[1..][i - 1] == thunks[i];
        assert forall j :: 0 <= j < i - 1 ==> thunks[1..][j] == thunks[j + 1];
        assert FirstOf(thunks[1..], hash, i - 1);
      }
    }
  }

  /** The thunk of the `i`-th hash of a table. */
  function ThunkAt(thunks: seq<ThunkRecord>, table: seq<u8>, i: nat): u32 {
    if 4 * i + 4 <= |table| then LookupThunk(thunks, Fetch32(table[4 * i..4 * i + 4])) else 0
  }

  /** Fixing a table up succeeds exactly when every stored hash has a thunk, and then holds them. */
  lemma {:induction false} FixedUp(thunks: seq<ThunkRecord>, table: seq<u8>, n: nat)
    requires |table| == 4 * n
    ensures FixUp(thunks, table, n).Some? <==> forall i: nat | i < n :: ThunkAt(thunks, table, i) != 0
    ensures FixUp(thunks, table, n).Some? ==>
      forall i: nat | i < n :: FixUp(thunks, table, n).value[i] == ThunkAt(thunks, table, i)
  {
    hide LookupThunk, Fetch32;
    if n > 0 {
      var front := table[..4 * (n - 1)];
      FixedUp(thunks, front, n - 1);
      forall i: nat | i < n - 1 ensures ThunkAt(thunks, front, i) == ThunkAt(thunks, table, i) {
        assert front[4 * i..4 * i + 4] == table[4 * i..4 * i + 4];
      }
      assert table[4 * (n - 1)..] == table[4 * (n - 1)..4 * (n - 1) + 4];
      assert ThunkAt(thunks, table, n - 1) == LookupThunk(thunks, Fetch32(table[4 * (n - 1)..]));
    }
  }

  // What a file that begins properly says of itself.
  datatype Sizes = Sizes(body: nat, natives: nat)

  function SizesOf(file: seq<u8>): Sizes
    requires |file| >= 18
  {
    Sizes(Fetch32(file[8..12]), Fetch16(file[16..18]))
  }

  /** The table of native hashes, as far as the file has it. */
  function TableOf(file: seq<u8>): seq<u8>
    requires |file| >= 18
  {
    var from := 32 + SizesOf(file).body;
    var to := from + 4 * SizesOf(file).natives;
    if to <= |file| then file[from..to] else []
  }

  /** A file loads exactly when it begins with `BARF` and the fields, holds the body and the table its
      sizes promise, and every hash in the table has a thunk; a size of zero asks for nothing. */
  lemma LoadAccepts(file: seq<u8>, base: u32, thunks: seq<ThunkRecord>)
    ensures Load(file, base, thunks).Some? <==>
      && |file| >= 18 && file[..4] == ['B' as int, 'A' as int, 'R' as int, 'F' as int]
      && (SizesOf(file).body == 0 || 32 + SizesOf(file).body <= |file|)
      && forall i: nat | i < SizesOf(file).natives :: ThunkAt(thunks, TableOf(file), i) != 0
  {
    hide FixUp, LookupThunk, Fetch32, Fetch16;
    if |file| >= 18 {
      LoadUnfolds(file, base, thunks);
      var n := SizesOf(file).natives;
      if n > 0 && |TableOf(file)| == 4 * n {
        FixedUp(thunks, TableOf(file), n);
      } else if n > 0 {
        assert ThunkAt(thunks, TableOf(file), 0) == 0;
      }
    }
  }

  lemma LoadUnfolds(file: seq<u8>, base: u32, thunks: seq<ThunkRecord>)
    requires |file| >= 18
    ensures
      var body, n := SizesOf(file).body, SizesOf(file).natives;
      var rest := ReadAt(file, 32, body);
      var memSize, start := Fetch32(file[4..8]), (base + Fetch32(file[12..16])) % 0x1_0000_0000;
      Load(file, base, thunks) ==
        if file[..4] != ['B' as int, 'A' as int, 'R' as int, 'F' as int] || rest.None? then None
        else if n == 0 then Some(Module(memSize, start, rest.value, None))
        else if |TableOf(file)| != 4 * n || FixUp(thunks, TableOf(file), n).None? then None
        else Some(Module(memSize, start, rest.value, FixUp(thunks, TableOf(file), n)))
  {
    hide FixUp, Fetch32, Fetch16;
    assert file[0..4] == file[..4];
  }

  /** What a loaded module takes from the file. */
  lemma LoadTakes(file: seq<u8>, base: u32, thunks: seq<ThunkRecord>)
    requires Load(file, base, thunks).Some?
    ensures |file| >= 18
    ensures
      var m, n := Load(file, base, thunks).value, SizesOf(file).natives;
      && m.memSize == Fetch32(file[4..8]) && |m.body| == SizesOf(file).body
      && m.entry == (base + Fetch32(file[12..16])) % 0x1_0000_0000
      && (|m.body| > 0 ==> 32 + |m.body| <= |file| && m.body == file[32..32 + |m.body|])
      && (m.natives.None? <==> n == 0)
      && (m.natives.Some? ==> |m.natives.value| == n)
      && (m.natives.Some? ==> forall i: nat | i < n :: m.natives.value[i] == ThunkAt(thunks, TableOf(file), i))
  {
    hide FixUp, LookupThunk, Fetch32, Fetch16, ThunkAt;
    LoadUnfolds(file, base, thunks);
    var n := SizesOf(file).natives;
    if n > 0 {
      FixedUp(thunks, TableOf(file), n);
    }
  }

  function Procs(thunks: seq<ThunkRecord>, names: seq<string>): (r: seq<u32>)
    ensures |r| == |names|
  {
    if |names| == 0 then []
    else Procs(thunks, names[..|names| - 1]) + [LookupThunk(thunks, HashName(names[|names| - 1]))]
  }

  /** Every used name's hash is found. */
  ghost predicate AllKnown(thunks: seq<ThunkRecord>, names: seq<string>) {
    forall i :: 0 <= i < |names| ==> LookupThunk(thunks, HashName(names[i])) != 0
  }

  /** Fixing up a written hash table looks every name up, and fails exactly when one is unknown. */
  lemma {:induction false} FixUpFindsProcs(thunks: seq<ThunkRecord>, names: seq<string>)
    ensures FixUp(thunks, Hashes(names), |names|) ==
      if AllKnown(thunks, names) then Some(Procs(thunks, names)) else None
  {
    hide LookupThunk, HashName, Le32, Fetch32;
    if |names| > 0 {
      var front, last := names[..|names| - 1], names[|names| - 1];
      FixUpFindsProcs(thunks, front);
      FetchInvertsStore32(HashName(last));
      var h := Hashes(names);
      assert h[..4 * (|names| - 1)] == Hashes(front) && h[4 * (|names| - 1)..] == Le32(HashName(last));
      assert AllKnown(thunks, names) <==> AllKnown(thunks, front) && LookupThunk(thunks, HashName(last)) != 0 by {
        assert forall i :: 0 <= i < |front| ==> names[i] == front[i];
      }
    }
  }

  lemma {:induction false} ProcsAt(thunks: seq<ThunkRecord>, names: seq<string>, i: nat)
    requires i < |names|
    ensures Procs(thunks, names)[i] == LookupThunk(thunks, HashName(names[i]))
  {
    if i < |names| - 1 {
      ProcsAt(thunks, names[..|names| - 1], i);
    }
  }

  /** The names the 16-bit count of the header covers. */
  function Counted(names: seq<string>): (r: seq<string>)
    ensures |r| == |names| % 0x1_0000
  {
    names[..|names| % 0x1_0000]
  }

  /** What a faithful load of program `p` at `base` looks like. */
  function LoadedModule(p: Program, l: Placement, at: nat, base: u32, thunks: seq<ThunkRecord>): Module
    requires Emits(p, l) && at < |l.addrs|
  {
    var names := Counted(p.natives);
    Module(Wrap(l.next - p.startVa), Wrap(base + (l.addrs[at] - p.startVa)), Body(p, l),
           if |names| == 0 then None else Some(Procs(thunks, names)))
  }

  /** Native ids fit the 16-bit operand and the header's count. */
  predicate FewNatives(p: Program) {
    |p.natives| < 0x1_0000
  }

  ghost predicate Written(p: Program, l: Placement, at: nat, file: seq<u8>) {
    && Laid(p, l) && StartIsLabel(p) && StartLocation(p) == Some(at)
    && Generate(p) == Some(file)
  }

  lemma ThreeParts(file: seq<u8>, header: seq<u8>, body: seq<u8>, table: seq<u8>)
    requires file == header + (body + table)
    ensures |file| == |header| + |body| + |table|
    ensures file[|header|..|header| + |body|] == body
    ensures forall n :: 0 <= n <= |table| ==> file[|header| + |body|..|header| + |body| + n] == table[..n]
  {
  }

  lemma FieldsReadBack(file: seq<u8>, memSize: u32, fileSize: u32, entry: u32, n: u16)
    requires |file| >= HEADER_SIZE
    requires file[..4] == SIGNATURE && file[4..8] == Le32(memSize) && file[8..12] == Le32(fileSize)
    requires file[12..16] == Le32(entry) && file[16..18] == Le16(n)
    ensures ReadFields(file) == Some(Fields(memSize, fileSize, entry, n))
  {
    hide Le32, Le16, Fetch32, Fetch16;
    FetchInvertsStore32(memSize);
    FetchInvertsStore32(fileSize);
    FetchInvertsStore32(entry);
    FetchInvertsStore16(n);
  }

  lemma {:induction false} HashesPrefix(names: seq<string>, n: nat)
    requires n <= |names|
    ensures Hashes(names)[..4 * n] == Hashes(names[..n])
    decreases |names|
  {
    hide HashName, Le32;
    if n < |names| {
      var front := names[..|names| - 1];
      HashesPrefix(front, n);
      assert front[..n] == names[..n];
      FetchInvertsStore32(HashName(names[|names| - 1]));
      assert Hashes(names)[..4 * n] == Hashes(front)[..4 * n];
    } else {
      assert names[..n] == names;
    }
  }

  lemma NoneUnknown(thunks: seq<ThunkRecord>, names: seq<string>)
    ensures |names| == 0 ==> AllKnown(thunks, names)
  {
  }

  lemma BssBelow(p: Program, l: Placement)
    requires Emits(p, l)
    ensures p.startVa <= l.bss
  {
    hide Pass1, Pass2, Extent;
    BodyLength(p, l);
  }

  lemma LoadedBodyFits(file: seq<u8>, base: u32, thunks: seq<ThunkRecord>)
    ensures Load(file, base, thunks).Some? ==> |Load(file, base, thunks).value.body| < 0x1_0000_0000
  {
  }

  /** A body shorter than declared, completed from the table behind it: enough bytes are left, and
      the words that stand where the loader then looks for hashes are all known. */
  ghost predicate Mistaken(thunks: seq<ThunkRecord>, fileSize: nat, body: seq<u8>, names: seq<string>) {
    var n, rest := |names| % 0x1_0000, body + Hashes(names);
    |rest| >= fileSize + 4 * n && FixUp(thunks, rest[fileSize..fileSize + 4 * n], n).Some?
  }

  lemma NoMistake(thunks: seq<ThunkRecord>, fileSize: nat, body: seq<u8>, names: seq<string>)
    requires |body| < fileSize && |names| < 0x1_0000
    ensures !Mistaken(thunks, fileSize, body, names)
  {
    hide FixUp;
  }

  lemma BehindHeader(file: seq<u8>, header: seq<u8>, rest: seq<u8>, a: nat, n: nat)
    requires file == header + rest
    ensures |file| == |header| + |rest|
    ensures a + n <= |rest| ==> file[|header| + a..|header| + a + n] == rest[a..a + n]
  {
  }

  /** Loading a header, a body no longer than declared and a hash table. When the body has its
      declared size it works exactly when every counted hash is known; when it is shorter, exactly
      when bytes of the table can be mistaken for the rest. */
  lemma LoadsParts(file: seq<u8>, memSize: u32, fileSize: u32, entry: u32, body: seq<u8>, names: seq<string>,
                   base: u32, thunks: seq<ThunkRecord>)
    requires |body| <= fileSize
    requires file == Header(memSize, fileSize, entry, |names| % 0x1_0000) + (body + Hashes(names))
    ensures |body| == fileSize ==>
      var natives := if |Counted(names)| == 0 then None else Some(Procs(thunks, Counted(names)));
      Load(file, base, thunks) ==
        if AllKnown(thunks, Counted(names)) then Some(Module(memSize, Wrap(base + entry), body, natives)) else None
    ensures |body| < fileSize ==> (Load(file, base, thunks).Some? <==> Mistaken(thunks, fileSize, body, names))
    ensures Load(file, base, thunks).Some? ==> |Load(file, base, thunks).value.body| == fileSize
  {
    hide Header, Hashes, FixUp, ReadFields, AllKnown, Procs, Wrap, Le32, Le16, Fetch32, Fetch16, HashName, LookupThunk;
    var n := |names| % 0x1_0000;
    var header, rest := Header(memSize, fileSize, entry, n), body + Hashes(names);
    HeaderFields(memSize, fileSize, entry, n, rest);
    FieldsReadBack(file, memSize, fileSize, entry, n);
    BehindHeader(file, header, rest, fileSize, 4 * n);
    NothingFixed(thunks);
    if |body| == fileSize {
      ThreeParts(file, header, body, Hashes(names));
      HashesPrefix(names, n);
      FixUpFindsProcs(thunks, Counted(names));
      NoneUnknown(thunks, Counted(names));
    }
  }

  lemma NothingFixed(thunks: seq<ThunkRecord>)
    ensures FixUp(thunks, [], 0) == Some([])
  {
  }

  /** Whether the loader accepts the file written for `p`. */
  ghost predicate Accepts(p: Program, l: Placement, thunks: seq<ThunkRecord>)
    requires Emits(p, l)
  {
    if !CutInsidePadding(p, l) then AllKnown(thunks, Counted(p.natives))
    else l.bss >= p.startVa && Mistaken(thunks, l.bss - p.startVa, Body(p, l), p.natives)
  }

  /** Reading a generated file back: the loader finds the fields, the body and the table where they
      were written exactly when the body fills its declared size and every counted native name is
      known. With native names that fit the count it gives up on any other generated file. */
  lemma LoadsWhatWasWritten(p: Program, l: Placement, at: nat, file: seq<u8>, base: u32, thunks: seq<ThunkRecord>)
    requires Written(p, l, at, file)
    ensures Emits(p, l) && at < |l.addrs|
    ensures Load(file, base, thunks).Some? <==> Accepts(p, l, thunks)
    ensures Load(file, base, thunks) == Some(LoadedModule(p, l, at, base, thunks))
      <==> !CutInsidePadding(p, l) && AllKnown(thunks, Counted(p.natives))
    ensures FewNatives(p) || !CutInsidePadding(p, l) ==>
      Load(file, base, thunks).None? || Load(file, base, thunks) == Some(LoadedModule(p, l, at, base, thunks))
  {
    hide Pass1, Pass2, Header, Hashes, Extent, Load, AllKnown, Procs, Counted, Mistaken;
    assert Emits(p, l);
    var body := Body(p, l);
    BodyLength(p, l);
    BssBelow(p, l);
    var memSize, fileSize := Wrap(l.next - p.startVa), Wrap(l.bss - p.startVa);
    var entry := Wrap(l.addrs[at] - p.startVa);
    assert file == Header(memSize, fileSize, entry, |p.natives| % 0x1_0000) + (body + Hashes(p.natives));
    LoadsParts(file, memSize, fileSize, entry, body, p.natives, base, thunks);
    WrapAdd(base, l.addrs[at] - p.startVa);
    if |body| < fileSize && FewNatives(p) {
      NoMistake(thunks, fileSize, body, p.natives);
    }
  }

  /** A file is written exactly when pass 1 reports no error, `start` is defined and pass 2 reports no
      error up to the cut. */
  lemma GeneratesExactly(p: Program)
    requires p.Valid() && StartIsLabel(p)
    ensures Generate(p).Some? <==>
      && Pass1(p, |p.insns|).Some? && E.Lookup(p.world.globals, "start").Some?
      && Pass2(p, Pass1(p, |p.insns|).value, Cut(Pass1(p, |p.insns|).value)).Some?
  {
    hide Pass1, Pass2, ImageBytes, E.Lookup;
  }

  lemma {:induction false} HashesAt(names: seq<string>, i: nat)
    requires i < |names|
    ensures Fetch32(Hashes(names)[4 * i..4 * i + 4]) == HashName(names[i])
    decreases |names|
  {
    hide HashName, Le32, Fetch32;
    var front, last := names[..|names| - 1], names[|names| - 1];
    FetchInvertsStore32(HashName(last));
    if i < |front| {
      HashesAt(front, i);
      assert Hashes(names)[4 * i..4 * i + 4] == Hashes(front)[4 * i..4 * i + 4];
    } else {
      assert Hashes(names)[4 * i..4 * i + 4] == Le32(HashName(last));
    }
  }

  /** The file the assembler writes: `BARF`, total size, body size, start offset and native count, the
      body from byte 32 on, and behind it the names' hashes in order. */
  lemma FileLayout(p: Program, l: Placement, at: nat, file: seq<u8>)
    requires Written(p, l, at, file)
    ensures Emits(p, l) && at < |l.addrs| && |file| == 32 + |Body(p, l)| + 4 * |p.natives|
    ensures E.Lookup(p.world.globals, "start") == Some(E.Label(at))
    ensures file[..4] == ['B' as int, 'A' as int, 'R' as int, 'F' as int]
    ensures Fetch32(file[4..8]) == l.next - p.startVa && Fetch32(file[8..12]) == l.bss - p.startVa
    ensures Fetch32(file[12..16]) == l.addrs[at] - p.startVa && Fetch16(file[16..18]) == |p.natives| % 0x1_0000
    ensures file[32..32 + |Body(p, l)|] == Body(p, l)
    ensures forall i: nat | i < |p.natives| ::
      var from := 32 + |Body(p, l)| + 4 * i;
      Fetch32(file[from..from + 4]) == HashName(p.natives[i])
  {
    hide Pass1, Pass2, Header, Hashes, Extent, Fetch32, Fetch16, HashName;
    var body, table := Body(p, l), Hashes(p.natives);
    BssBelow(p, l);
    PlacedFrom(p, l, at);
    var header := Header(l.next - p.startVa, l.bss - p.startVa, l.addrs[at] - p.startVa, |p.natives| % 0x1_0000);
    assert file == header + body + table;
    HeaderBytes(l.next - p.startVa, l.bss - p.startVa, l.addrs[at] - p.startVa, |p.natives| % 0x1_0000);
    assert file[..32] == header;
    HeaderInFile(file, header);
    forall i: nat | i < |p.natives|
      ensures
        var from := 32 + |body| + 4 * i;
        Fetch32(file[from..from + 4]) == HashName(p.natives[i])
    {
      HashesAt(p.natives, i);
      assert file[32 + |body| + 4 * i..32 + |body| + 4 * i + 4] == table[4 * i..4 * i + 4];
    }
  }

  lemma HeaderInFile(file: seq<u8>, header: seq<u8>)
    requires |header| == 32 && |file| >= 32 && file[..32] == header
    ensures file[..4] == header[..4] && file[4..8] == header[4..8] && file[8..12] == header[8..12]
    ensures file[12..16] == header[12..16] && file[16..18] == header[16..18]
  {
  }

  lemma PlacedFrom(p: Program, l: Placement, at: nat)
    requires Laid(p, l) && at < |p.insns|
    ensures |l.addrs| == |p.insns| && p.startVa <= l.addrs[at] && p.startVa <= l.next
  {
    hide Pass1, AlignUp;
    ExtentMonotone(p, l.counts, 0, at);
    ExtentMonotone(p, l.counts, 0, |p.insns|);
    PlacedAtExtent(p, l, at);
    NextIsExtent(p, l, |p.insns|);
  }

  // ---------- Native linkage ----------

  datatype Registration = Registration(name: string, proc: u32)

  function Records(regs: seq<Registration>): seq<ThunkRecord> {
    if |regs| == 0 then [] else [ThunkRecord(HashName(regs[0].name), regs[0].proc)] + Records(regs[1..])
  }

  function Registered(regs: seq<Registration>, name: string): u32 {
    if |regs| == 0 then 0
    else if regs[0].name == name then regs[0].proc
    else Registered(regs[1..], name)
  }

  /** No registered name other than `name` itself has its hash. */
  ghost predicate HashApart(regs: seq<Registration>, name: string) {
    forall r :: 0 <= r < |regs| && HashName(regs[r].name) == HashName(name) ==> regs[r].name == name
  }

  ghost predicate AllApart(regs: seq<Registration>, names: seq<string>) {
    forall i :: 0 <= i < |names| ==> HashApart(regs, names[i])
  }

  ghost predicate AllRegistered(regs: seq<Registration>, names: seq<string>) {
    forall i :: 0 <= i < |names| ==> Registered(regs, names[i]) != 0
  }

  /** A table whose entries are the thunks registered under the names, or none without names. */
  ghost predicate NamedTable(natives: Option<seq<u32>>, regs: seq<Registration>, names: seq<string>) {
    match natives
    case None => |names| == 0
    case Some(table) =>
      |table| == |names| > 0 && forall id :: 0 <= id < |table| ==> table[id] == Registered(regs, names[id])
  }

  lemma {:induction false} LookupByName(regs: seq<Registration>, name: string)
    requires HashApart(regs, name)
    ensures LookupThunk(Records(regs), HashName(name)) == Registered(regs, name)
  {
    hide HashName;
    if |regs| > 0 {
      assert HashApart(regs[1..], name) by {
        assert forall r :: 0 <= r < |regs[1..]| ==> regs[1..][r] == regs[r + 1];
      }
      assert Records(regs)[1..] == Records(regs[1..]);
      LookupByName(regs[1..], name);
    }
  }

  lemma CountedNames(p: Program, l: Placement, at: nat, base: u32, thunks: seq<ThunkRecord>)
    requires Emits(p, l) && at < |l.addrs|
    ensures forall i :: 0 <= i < |Counted(p.natives)| ==> Counted(p.natives)[i] == p.natives[i]
    ensures FewNatives(p) ==> Counted(p.natives) == p.natives
    ensures LoadedModule(p, l, at, base, thunks).natives ==
      if |Counted(p.natives)| == 0 then None else Some(Procs(thunks, Counted(p.natives)))
  {
    hide Pass1, Pass2, Extent, Body, Procs;
  }

  /** Native-call linkage: when no counted name shares its hash with another registered name, entry
      `id` of a loaded program's table is the thunk registered under the `id`-th name, and a file
      whose body fills its size fails to load exactly when a counted name is not registered. */
  lemma NativesLinkedByName(p: Program, l: Placement, at: nat, file: seq<u8>, base: u32, regs: seq<Registration>)
    requires Written(p, l, at, file)
    requires AllApart(regs, Counted(p.natives))
    ensures Emits(p, l) && at < |l.addrs|
    ensures Load(file, base, Records(regs)) == Some(LoadedModule(p, l, at, base, Records(regs))) <==>
      !CutInsidePadding(p, l) && AllRegistered(regs, Counted(p.natives))
    ensures FewNatives(p) && Load(file, base, Records(regs)).Some? ==>
      Load(file, base, Records(regs)) == Some(LoadedModule(p, l, at, base, Records(regs)))
    ensures NamedTable(LoadedModule(p, l, at, base, Records(regs)).natives, regs, Counted(p.natives))
  {
    hide Load, HashName, LookupThunk, Procs, Pass1, Pass2, Extent, Header, Hashes, Generate, Body, Mistaken, Records;
    hide LoadedModule, Counted, CutInsidePadding, Cut;
    var thunks, names := Records(regs), Counted(p.natives);
    LoadsWhatWasWritten(p, l, at, file, base, thunks);
    CountedNames(p, l, at, base, thunks);
    forall i | 0 <= i < |names|
      ensures LookupThunk(thunks, HashName(names[i])) == Registered(regs, names[i])
      ensures Procs(thunks, names)[i] == Registered(regs, names[i])
    {
      LookupByName(regs, names[i]);
      ProcsAt(thunks, names, i);
    }
  }

  /** Where a native call leaves the source machine. */
  function AfterNative(result: NativeResult, next: nat, s: State<nat>): SourceOutcome {
    match result
    case Exit => Ran(Halted(Exited))
    case Returned(data, mem) =>
      if |data| > DATA_CAPACITY then Ran(Halted(Panic(StackOverflow)))
      else Ran(Running(State(next, data, s.control, s.locals, mem)))
  }

  lemma ExecNative(env: Env, id: u32, core: Core)
    ensures Exec(env, NCALL, id, [], core) == CallNative(env, id, core)
  {
  }

  lemma NativeOperand(p: Program, l: Placement, base: u32, i: nat)
    requires p.Valid() && i < |p.insns| && p.insns[i].Mach? && p.insns[i].op == NCALL
    ensures p.insns[i].operand < |p.natives| && Meant(p, l, base, i) == p.insns[i].operand % 0x1_0000
  {
    assert p.InsnValid(i);
  }

  /** An NCALL in the listing hands the data stack to the thunk registered under the name its
      16-bit id counts to; with fewer than 65536 names that is its own. */
  lemma NativeStep(p: Program, l: Placement, at: nat, file: seq<u8>, base: u32, regs: seq<Registration>,
                   env: Env, s: State<nat>)
    requires Written(p, l, at, file) && Emits(p, l) && at < |l.addrs|
    requires AllApart(regs, Counted(p.natives))
    requires env.natives == LoadedModule(p, l, at, base, Records(regs)).natives
    requires AtMachine(p, l, s.pos) && p.insns[Settle(p, l, s.pos)].op == NCALL
    ensures
      var o := p.insns[Settle(p, l, s.pos)].operand;
      && o < |p.natives| && (FewNatives(p) ==> o % 0x1_0000 == o < |Counted(p.natives)|)
      && SourceStep(p, l, base, env, s) ==
         (if |Counted(p.natives)| == 0 then Ran(Halted(Panic(NoNativeCalls)))
          else if o % 0x1_0000 >= |Counted(p.natives)| then Ran(Halted(Undefined))
          else AfterNative(env.native(Registered(regs, Counted(p.natives)[o % 0x1_0000]), s.data, s.mem),
                           Settle(p, l, s.pos) + 1, s))
  {
    hide Load, Pass1, Pass2, Extent, Settle, HashName, Records, Registered, Generate, Exec, Cut, Meant, LoadedModule;
    NativesLinkedByName(p, l, at, file, base, regs);
    var i := Settle(p, l, s.pos);
    NativeOperand(p, l, base, i);
    assert s.data[..0] == [] && s.data[0..] == s.data;
    ExecNative(env, p.insns[i].operand % 0x1_0000, Core(s.data, s.locals, s.mem));
  }

  // ---------- From source to running image ----------

  /** The state `vm_context_create` starts a loaded module in. */
  function InitialState(m: Module, mem: Memory): State<u32> {
    State(m.entry, [], [], NoLocals, mem)
  }

  /** A run of at least one step starts in front of a machine instruction, which is never padded. */
  lemma RunStartsUnpadded(p: Program, l: Placement, base: u32, envs: nat -> Env, s: State<nat>, k: nat)
    requires Laid(p, l) && s.pos < |p.insns| && k > 0 && SourceRun(p, l, base, envs, s, k).Ran?
    ensures l.aligns[s.pos] == 0
  {
    hide Extent, Pass1, OperandBytes, Exec;
    RanBefore(p, l, base, envs, s, 1, k);
    assert SourceRun(p, l, base, envs, s, 0) == Ran(Running(s));
    assert AtMachine(p, l, s.pos);
    if l.aligns[s.pos] != 0 {
      MachineUnpadded(p, l, s.pos);
    }
  }

  /** The whole pipeline: assemble, write, load at any base and run. While control stays on listed
      instructions and the code stays intact, the bytes compute what the listing means, starting
      at the start label. */
  lemma LoadedProgramSimulates(p: Program, l: Placement, at: nat, file: seq<u8>, base: u32, thunks: seq<ThunkRecord>,
                               mem: Memory, envs: nat -> Env, k: nat)
    requires Written(p, l, at, file) && !CutInsidePadding(p, l) && Load(file, base, thunks).Some?
    requires Read(mem, base, |Load(file, base, thunks).value.body|) == Some(Load(file, base, thunks).value.body)
    requires k == 0 ==> l.aligns[at] == 0
    requires KeepsCode(p, l, base, envs, State(at, [], [], NoLocals, mem), k)
    requires SourceRun(p, l, base, envs, State(at, [], [], NoLocals, mem), k).Ran?
    ensures CodeIntact(p, l, base, mem)
    ensures Run(envs, InitialState(Load(file, base, thunks).value, mem), k) ==
      LowerOutcome(p, l, base, SourceRun(p, l, base, envs, State(at, [], [], NoLocals, mem), k).outcome)
  {
    hide Load, Pass1, Pass2, Generate, Body, Read, Run, SourceRun, CodeIntact, KeepsCode, Extent;
    hide LowerOutcome, LoadedModule, CutInsidePadding;
    LoadsWhatWasWritten(p, l, at, file, base, thunks);
    LoadedBody(p, l, at, base, thunks);
    if k > 0 {
      RunStartsUnpadded(p, l, base, envs, State(at, [], [], NoLocals, mem), k);
    }
    LoadedCodeIntact(p, l, base, mem);
    StartLowers(p, l, at, base, thunks, mem);
    RunSimulates(p, l, base, envs, State(at, [], [], NoLocals, mem), k);
  }

  lemma LoadedBody(p: Program, l: Placement, at: nat, base: u32, thunks: seq<ThunkRecord>)
    requires Emits(p, l) && at < |l.addrs|
    ensures LoadedModule(p, l, at, base, thunks).body == Body(p, l)
  {
  }

  lemma StartLowers(p: Program, l: Placement, at: nat, base: u32, thunks: seq<ThunkRecord>, mem: Memory)
    requires Emits(p, l) && at < |l.addrs| && l.aligns[at] == 0
    ensures
      Lower(p, l, base, State(at, [], [], NoLocals, mem)) == InitialState(LoadedModule(p, l, at, base, thunks), mem)
  {
    hide Pass1, Pass2, Extent, Procs, Body, AlignUp, SizeOf, Cut;
    PlacedAtExtent(p, l, at);
    assert base + Extent(p, l.counts, at) - p.startVa == base + (l.addrs[at] - p.startVa);
  }
}
