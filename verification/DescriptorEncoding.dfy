// The byte stream a module descriptor feeds into the compatibility hash, and
// the proof that two descriptors with the same stream are the same.

module DescriptorSpec {
  import opened Bytes
  import opened Words

  datatype Range = Range(start: U32, end: U32)
  datatype RelSection = RelSection(moduleId: U32, index: U32, linkedStart: U32, size: U32)
  datatype RelRecord = RelRecord(
    moduleId: U32, version: U32, sectionCount: U32, sectionInfoOffset: U32, fileSize: U32, sections: seq<RelSection>)

  // Counts are 32-bit.
  type RelModule = m: RelRecord | |m.sections| < 0x1_0000_0000 witness RelRecord(0, 0, 0, 0, 0, [])

  // One hash per chunk range; the callback counts only by its presence.
  datatype Descriptor = Descriptor(
    abiVersion: U32, cpuAbiVersion: U32, cpuStateSize: U32, gameId: seq<Byte>, entryPoint: U32, onStateLoaded: bool,
    codeRanges: seq<Range>, smcRanges: seq<Range>, chunkRanges: seq<Range>,
    chunkHashes: seq<U64>, relModules: seq<RelModule>)

  // What the C struct can hold: 8 id bytes and 32-bit counts.
  ghost predicate Valid(d: Descriptor) {
    && |d.gameId| == 8 && |d.chunkHashes| == |d.chunkRanges|
    && |d.codeRanges| < 0x1_0000_0000 && |d.smcRanges| < 0x1_0000_0000
    && |d.chunkRanges| < 0x1_0000_0000 && |d.relModules| < 0x1_0000_0000
  }

  function Le32(v: U32): (b: seq<Byte>)
    ensures |b| == 4
  {
    [v % 256, v / 256 % 256, v / 256 / 256 % 256, v / 256 / 256 / 256]
  }

  function Le64(v: U64): (b: seq<Byte>)
    ensures |b| == 8
  {
    Le32(v % 0x1_0000_0000) + Le32(v / 0x1_0000_0000)
  }

  function RangeBytes(r: Range): seq<Byte> { Le32(r.start) + Le32(r.end) }

  // The items of an array one after the other.
  function Flat<T>(bytes: T -> seq<Byte>, items: seq<T>): seq<Byte> {
    if items == [] then [] else Flat(bytes, items[..|items| - 1]) + bytes(items[|items| - 1])
  }

  function SectionBytes(s: RelSection): (b: seq<Byte>)
    ensures |b| == 16
  {
    Le32(s.moduleId) + Le32(s.index) + Le32(s.linkedStart) + Le32(s.size)
  }

  function ModuleHead(m: RelModule): (b: seq<Byte>)
    ensures |b| == 24
  {
    Le32(m.moduleId) + Le32(m.version) + Le32(m.sectionCount) + Le32(m.sectionInfoOffset) + Le32(m.fileSize)
    + Le32(|m.sections|)
  }

  function ModuleBytes(m: RelModule): seq<Byte> {
    ModuleHead(m) + Flat(SectionBytes, m.sections)
  }

  function ModulesBytes(ms: seq<RelModule>): seq<Byte> {
    if ms == [] then [] else ModulesBytes(ms[..|ms| - 1]) + ModuleBytes(ms[|ms| - 1])
  }

  function CountedRanges(rs: seq<Range>): seq<Byte>
    requires |rs| < 0x1_0000_0000
  {
    Le32(|rs|) + Flat(RangeBytes, rs)
  }

  function Head(d: Descriptor): (b: seq<Byte>)
    requires |d.gameId| == 8
    ensures |b| == 28
  {
    Le32(d.abiVersion) + Le32(d.cpuAbiVersion) + Le32(d.cpuStateSize) + d.gameId + Le32(d.entryPoint)
    + Le32(if d.onStateLoaded then 1 else 0)
  }

  ghost function Encode(d: Descriptor): seq<Byte>
    requires Valid(d)
  {
    Head(d) + CountedRanges(d.codeRanges) + CountedRanges(d.smcRanges) + CountedRanges(d.chunkRanges)
    + Flat(Le64, d.chunkHashes) + Le32(|d.relModules|) + ModulesBytes(d.relModules)
  }

  // --- Injectivity ---------------------------------------------------------

  function FromLe32(b: seq<Byte>): nat
    requires |b| == 4
  {
    (b[0] as int) + (b[1] as int) * 0x100 + (b[2] as int) * 0x10000 + (b[3] as int) * 0x1000000
  }

  lemma Le32Inverse(v: U32)
    ensures FromLe32(Le32(v)) == v
  {}

  lemma Le32Injective(a: U32, b: U32)
    requires Le32(a) == Le32(b)
    ensures a == b
  {
    Le32Inverse(a);
    Le32Inverse(b);
  }

  // Equal concatenations of parts of equal length have equal parts.
  lemma Parts(a: seq<Byte>, b: seq<Byte>, x: seq<Byte>, y: seq<Byte>)
    requires |a| == |b| && a + x == b + y
    ensures a == b && x == y
  {
    assert a == (a + x)[..|a|] && b == (b + y)[..|b|];
    assert x == (a + x)[|a|..] && y == (b + y)[|b|..];
  }

  lemma Le64Injective(a: U64, b: U64)
    requires Le64(a) == Le64(b)
    ensures a == b
  {
    Parts(Le32(a % 0x1_0000_0000), Le32(b % 0x1_0000_0000), Le32(a / 0x1_0000_0000), Le32(b / 0x1_0000_0000));
    Le32Injective(a % 0x1_0000_0000, b % 0x1_0000_0000);
    Le32Injective(a / 0x1_0000_0000, b / 0x1_0000_0000);
  }

  lemma RangeInjective(a: Range, b: Range)
    requires RangeBytes(a) == RangeBytes(b)
    ensures a == b
  {
    Parts(Le32(a.start), Le32(b.start), Le32(a.end), Le32(b.end));
    Le32Injective(a.start, b.start);
    Le32Injective(a.end, b.end);
  }

  lemma SectionInjective(a: RelSection, b: RelSection)
    requires SectionBytes(a) == SectionBytes(b)
    ensures a == b
  {
    var (x, y) := (Le32(a.moduleId) + Le32(a.index), Le32(b.moduleId) + Le32(b.index));
    assert SectionBytes(a) == x + (Le32(a.linkedStart) + Le32(a.size));
    assert SectionBytes(b) == y + (Le32(b.linkedStart) + Le32(b.size));
    Parts(x, y, Le32(a.linkedStart) + Le32(a.size), Le32(b.linkedStart) + Le32(b.size));
    RangeInjective(Range(a.moduleId, a.index), Range(b.moduleId, b.index));
    RangeInjective(Range(a.linkedStart, a.size), Range(b.linkedStart, b.size));
  }

  ghost predicate FixedWidth<T(!new)>(bytes: T -> seq<Byte>, width: nat) { forall x: T :: |bytes(x)| == width }

  ghost predicate Injective<T(!new)>(bytes: T -> seq<Byte>) { forall x: T, y: T :: bytes(x) == bytes(y) ==> x == y }

  lemma ItemsAreInjective()
    ensures Injective(RangeBytes) && Injective(Le64) && Injective(SectionBytes)
  {
    forall x: Range, y: Range | RangeBytes(x) == RangeBytes(y) ensures x == y { RangeInjective(x, y); }
    forall x: U64, y: U64 | Le64(x) == Le64(y) ensures x == y { Le64Injective(x, y); }
    forall x: RelSection, y: RelSection | SectionBytes(x) == SectionBytes(y) ensures x == y { SectionInjective(x, y); }
  }

  lemma {:induction false} FlatLength<T(!new)>(bytes: T -> seq<Byte>, width: nat, items: seq<T>)
    requires FixedWidth(bytes, width)
    ensures |Flat(bytes, items)| == |items| * width
  {
    if items != [] {
      FlatLength(bytes, width, items[..|items| - 1]);
      assert |items| * width == (|items| - 1) * width + width;
    }
  }

  // Arrays of fixed-width items of the same count, and what follows them.
  lemma {:induction false} FlatInjective<T(!new)>(bytes: T -> seq<Byte>, width: nat, a: seq<T>, b: seq<T>)
    requires FixedWidth(bytes, width) && Injective(bytes) && |a| == |b| && Flat(bytes, a) == Flat(bytes, b)
    ensures a == b
  {
    if a != [] {
      var n := |a| - 1;
      FlatLength(bytes, width, a[..n]);
      FlatLength(bytes, width, b[..n]);
      Parts(Flat(bytes, a[..n]), Flat(bytes, b[..n]), bytes(a[n]), bytes(b[n]));
      FlatInjective(bytes, width, a[..n], b[..n]);
      assert a == a[..n] + [a[n]] && b == b[..n] + [b[n]];
    }
  }

  lemma FlatPrefix<T(!new)>(bytes: T -> seq<Byte>, width: nat, a: seq<T>, b: seq<T>, x: seq<Byte>, y: seq<Byte>)
    requires FixedWidth(bytes, width) && Injective(bytes) && |a| == |b| && Flat(bytes, a) + x == Flat(bytes, b) + y
    ensures a == b && x == y
  {
    FlatLength(bytes, width, a);
    FlatLength(bytes, width, b);
    Parts(Flat(bytes, a), Flat(bytes, b), x, y);
    FlatInjective(bytes, width, a, b);
  }

  lemma ModuleHeadInjective(a: RelModule, b: RelModule)
    requires ModuleHead(a) == ModuleHead(b)
    ensures a.(sections := b.sections) == b && |a.sections| == |b.sections|
  {
    var x := RelSection(a.moduleId, a.version, a.sectionCount, a.sectionInfoOffset);
    var y := RelSection(b.moduleId, b.version, b.sectionCount, b.sectionInfoOffset);
    var u, v := Range(a.fileSize, |a.sections|), Range(b.fileSize, |b.sections|);
    assert ModuleHead(a) == SectionBytes(x) + RangeBytes(u);
    assert ModuleHead(b) == SectionBytes(y) + RangeBytes(v);
    Parts(SectionBytes(x), SectionBytes(y), RangeBytes(u), RangeBytes(v));
    SectionInjective(x, y);
    RangeInjective(u, v);
  }

  // Modules have different lengths, so they are read off from the front.
  function ModulesFront(ms: seq<RelModule>): seq<Byte>
  {
    if ms == [] then [] else ModuleBytes(ms[0]) + ModulesFront(ms[1..])
  }

  lemma {:induction false} FrontAppend(ms: seq<RelModule>, m: RelModule)
    ensures ModulesFront(ms + [m]) == ModulesFront(ms) + ModuleBytes(m)
  {
    if ms == [] {
      assert ModulesFront([m][1..]) == [];
    } else {
      assert (ms + [m])[1..] == ms[1..] + [m];
      FrontAppend(ms[1..], m);
    }
  }

  lemma {:induction false} FrontIsSame(ms: seq<RelModule>)
    ensures ModulesFront(ms) == ModulesBytes(ms)
  {
    if ms != [] {
      var n := |ms| - 1;
      FrontIsSame(ms[..n]);
      FrontAppend(ms[..n], ms[n]);
      assert ms == ms[..n] + [ms[n]];
    }
  }

  lemma ModulePrefix(a: RelModule, b: RelModule, x: seq<Byte>, y: seq<Byte>)
    requires ModuleBytes(a) + x == ModuleBytes(b) + y
    ensures a == b && x == y
  {
    var u, v := Flat(SectionBytes, a.sections) + x, Flat(SectionBytes, b.sections) + y;
    assert ModuleBytes(a) + x == ModuleHead(a) + u && ModuleBytes(b) + y == ModuleHead(b) + v;
    Parts(ModuleHead(a), ModuleHead(b), u, v);
    ModuleHeadInjective(a, b);
    ItemsAreInjective();
    FlatPrefix(SectionBytes, 16, a.sections, b.sections, x, y);
  }

  lemma {:induction false} ModulesInjective(a: seq<RelModule>, b: seq<RelModule>)
    requires |a| == |b| && ModulesFront(a) == ModulesFront(b)
    ensures a == b
  {
    if a != [] {
      ModulePrefix(a[0], b[0], ModulesFront(a[1..]), ModulesFront(b[1..]));
      ModulesInjective(a[1..], b[1..]);
      assert a == [a[0]] + a[1..] && b == [b[0]] + b[1..];
    }
  }

  lemma CountedRangesPrefix(a: seq<Range>, b: seq<Range>, x: seq<Byte>, y: seq<Byte>)
    requires |a| < 0x1_0000_0000 && |b| < 0x1_0000_0000 && CountedRanges(a) + x == CountedRanges(b) + y
    ensures a == b && x == y
  {
    var u, v := Flat(RangeBytes, a) + x, Flat(RangeBytes, b) + y;
    assert CountedRanges(a) + x == Le32(|a|) + u && CountedRanges(b) + y == Le32(|b|) + v;
    Parts(Le32(|a|), Le32(|b|), u, v);
    Le32Injective(|a|, |b|);
    ItemsAreInjective();
    FlatPrefix(RangeBytes, 8, a, b, x, y);
  }

  lemma HeadInjective(a: Descriptor, b: Descriptor)
    requires |a.gameId| == |b.gameId| == 8 && Head(a) == Head(b)
    ensures a.abiVersion == b.abiVersion && a.cpuAbiVersion == b.cpuAbiVersion && a.cpuStateSize == b.cpuStateSize
    ensures a.gameId == b.gameId && a.entryPoint == b.entryPoint && a.onStateLoaded == b.onStateLoaded
  {
    var fa, fb: U32 := if a.onStateLoaded then 1 else 0, if b.onStateLoaded then 1 else 0;
    var va, vb := Range(a.abiVersion, a.cpuAbiVersion), Range(b.abiVersion, b.cpuAbiVersion);
    var ea, eb := Range(a.entryPoint, fa), Range(b.entryPoint, fb);
    assert Head(a) == RangeBytes(va) + (Le32(a.cpuStateSize) + (a.gameId + RangeBytes(ea)));
    assert Head(b) == RangeBytes(vb) + (Le32(b.cpuStateSize) + (b.gameId + RangeBytes(eb)));
    Parts(RangeBytes(va), RangeBytes(vb), Le32(a.cpuStateSize) + (a.gameId + RangeBytes(ea)),
          Le32(b.cpuStateSize) + (b.gameId + RangeBytes(eb)));
    Parts(Le32(a.cpuStateSize), Le32(b.cpuStateSize), a.gameId + RangeBytes(ea), b.gameId + RangeBytes(eb));
    Parts(a.gameId, b.gameId, RangeBytes(ea), RangeBytes(eb));
    RangeInjective(va, vb);
    Le32Injective(a.cpuStateSize, b.cpuStateSize);
    RangeInjective(ea, eb);
  }

  ghost function Tail(d: Descriptor): seq<Byte>
    requires Valid(d)
  {
    Flat(Le64, d.chunkHashes) + (Le32(|d.relModules|) + ModulesBytes(d.relModules))
  }

  lemma TailInjective(a: Descriptor, b: Descriptor)
    requires Valid(a) && Valid(b) && a.chunkRanges == b.chunkRanges && Tail(a) == Tail(b)
    ensures a.chunkHashes == b.chunkHashes && a.relModules == b.relModules
  {
    ItemsAreInjective();
    FlatPrefix(Le64, 8, a.chunkHashes, b.chunkHashes,
               Le32(|a.relModules|) + ModulesBytes(a.relModules), Le32(|b.relModules|) + ModulesBytes(b.relModules));
    Parts(Le32(|a.relModules|), Le32(|b.relModules|), ModulesBytes(a.relModules), ModulesBytes(b.relModules));
    Le32Injective(|a.relModules|, |b.relModules|);
    FrontIsSame(a.relModules);
    FrontIsSame(b.relModules);
    ModulesInjective(a.relModules, b.relModules);
  }

  // Equal hash inputs come from equal descriptors.
  lemma EncodeIsInjective(a: Descriptor, b: Descriptor)
    requires Valid(a) && Valid(b) && Encode(a) == Encode(b)
    ensures a == b
  {
    var ca, cb := CountedRanges(a.chunkRanges) + Tail(a), CountedRanges(b.chunkRanges) + Tail(b);
    var sa, sb := CountedRanges(a.smcRanges) + ca, CountedRanges(b.smcRanges) + cb;
    var ra, rb := CountedRanges(a.codeRanges) + sa, CountedRanges(b.codeRanges) + sb;
    EncodeNested(a);
    EncodeNested(b);
    Parts(Head(a), Head(b), ra, rb);
    HeadInjective(a, b);
    CountedRangesPrefix(a.codeRanges, b.codeRanges, sa, sb);
    CountedRangesPrefix(a.smcRanges, b.smcRanges, ca, cb);
    CountedRangesPrefix(a.chunkRanges, b.chunkRanges, Tail(a), Tail(b));
    TailInjective(a, b);
  }

  lemma EncodeNested(d: Descriptor)
    requires Valid(d)
    ensures Encode(d)
         == Head(d)
            + (CountedRanges(d.codeRanges) + (CountedRanges(d.smcRanges) + (CountedRanges(d.chunkRanges) + Tail(d))))
  {}
}

module DescriptorHash {
  import opened Bytes
  import opened Sequences
  import opened DescriptorSpec
  import opened Words

  lemma NextItem<T>(bytes: T -> seq<Byte>, items: seq<T>, i: nat)
    requires i < |items|
    ensures Flat(bytes, items[..i + 1]) == Flat(bytes, items[..i]) + bytes(items[i])
  {
    assert items[..i + 1][..i] == items[..i];
  }

  lemma NextModule(modules: seq<RelModule>, i: nat)
    requires i < |modules|
    ensures ModulesBytes(modules[..i + 1]) == ModulesBytes(modules[..i]) + ModuleBytes(modules[i])
  {
    assert modules[..i + 1][..i] == modules[..i];
  }

  // The hash context, as far as the encoding is concerned: what was fed to it.
  class Context {
    var fed: seq<Byte>

    constructor ()
      ensures fed == []
    {
      fed := [];
    }

    method Update(bytes: seq<Byte>)
      modifies this
      ensures fed == old(fed) + bytes
    {
      fed := fed + bytes;
    }

    method HashU32(value: U32)
      modifies this
      ensures fed == old(fed) + Le32(value)
    {
      Update([value % 256, value / 256 % 256, value / 256 / 256 % 256, value / 256 / 256 / 256]);
    }

    method HashU64(value: U64)
      modifies this
      ensures fed == old(fed) + Le64(value)
    {
      var low, high := value % 0x1_0000_0000, value / 0x1_0000_0000;
      Update([low % 256, low / 256 % 256, low / 256 / 256 % 256, low / 256 / 256 / 256,
              high % 256, high / 256 % 256, high / 256 / 256 % 256, high / 256 / 256 / 256]);
    }

    method HashRanges(ranges: seq<Range>)
      requires |ranges| < 0x1_0000_0000
      modifies this
      ensures fed == old(fed) + CountedRanges(ranges)
    {
      HashU32(|ranges|);
      ghost var before := fed;
      var i := 0;
      while i < |ranges|
        invariant 0 <= i <= |ranges| && fed == before + Flat(RangeBytes, ranges[..i])
      {
        ghost var done := Flat(RangeBytes, ranges[..i]);
        NextItem(RangeBytes, ranges, i);
        HashU32(ranges[i].start);
        HashU32(ranges[i].end);
        Assoc(before + done, Le32(ranges[i].start), Le32(ranges[i].end));
        Assoc(before, done, RangeBytes(ranges[i]));
        i := i + 1;
      }
      assert ranges[..i] == ranges;
    }

    method HashChunkHashes(hashes: seq<U64>)
      modifies this
      ensures fed == old(fed) + Flat(Le64, hashes)
    {
      ghost var before := fed;
      var i := 0;
      while i < |hashes|
        invariant 0 <= i <= |hashes| && fed == before + Flat(Le64, hashes[..i])
      {
        ghost var done := Flat(Le64, hashes[..i]);
        NextItem(Le64, hashes, i);
        HashU64(hashes[i]);
        Assoc(before, done, Le64(hashes[i]));
        i := i + 1;
      }
      assert hashes[..i] == hashes;
    }

    method HashSection(s: RelSection)
      modifies this
      ensures fed == old(fed) + SectionBytes(s)
    {
      ghost var start := fed;
      HashU32(s.moduleId);
      HashU32(s.index);
      assert fed == start + (Le32(s.moduleId) + Le32(s.index));
      HashU32(s.linkedStart);
      HashU32(s.size);
      assert fed == start + SectionBytes(s);
    }

    method HashModuleHead(m: RelModule)
      modifies this
      ensures fed == old(fed) + ModuleHead(m)
    {
      ghost var start := fed;
      HashU32(m.moduleId);
      HashU32(m.version);
      HashU32(m.sectionCount);
      assert fed == start + (Le32(m.moduleId) + Le32(m.version) + Le32(m.sectionCount));
      HashU32(m.sectionInfoOffset);
      HashU32(m.fileSize);
      HashU32(|m.sections|);
      assert fed == start + ModuleHead(m);
    }

    method HashModule(m: RelModule)
      modifies this
      ensures fed == old(fed) + ModuleBytes(m)
    {
      ghost var start := fed;
      HashModuleHead(m);
      ghost var before := fed;
      var j := 0;
      while j < |m.sections|
        invariant 0 <= j <= |m.sections| && fed == before + Flat(SectionBytes, m.sections[..j])
      {
        ghost var done := Flat(SectionBytes, m.sections[..j]);
        NextItem(SectionBytes, m.sections, j);
        HashSection(m.sections[j]);
        Assoc(before, done, SectionBytes(m.sections[j]));
        j := j + 1;
      }
      assert m.sections[..j] == m.sections;
      Assoc(start, ModuleHead(m), Flat(SectionBytes, m.sections));
    }

    method HashHead(d: Descriptor)
      requires |d.gameId| == 8
      modifies this
      ensures fed == old(fed) + Head(d)
    {
      ghost var start := fed;
      HashU32(d.abiVersion);
      HashU32(d.cpuAbiVersion);
      HashU32(d.cpuStateSize);
      assert fed == start + (Le32(d.abiVersion) + Le32(d.cpuAbiVersion) + Le32(d.cpuStateSize));
      Update(d.gameId);
      HashU32(d.entryPoint);
      HashU32(if d.onStateLoaded then 1 else 0);
      assert fed == start + Head(d);
    }

    method HashModules(modules: seq<RelModule>)
      modifies this
      ensures fed == old(fed) + ModulesBytes(modules)
    {
      ghost var before := fed;
      var i := 0;
      while i < |modules|
        invariant 0 <= i <= |modules| && fed == before + ModulesBytes(modules[..i])
      {
        ghost var done := ModulesBytes(modules[..i]);
        NextModule(modules, i);
        HashModule(modules[i]);
        Assoc(before, done, ModuleBytes(modules[i]));
        i := i + 1;
      }
      assert modules[..i] == modules;
    }
  }

  // Everything DescriptorFingerprint feeds its context.
  method DescriptorFingerprint(d: Descriptor) returns (context: Context)
    requires Valid(d)
    ensures fresh(context) && context.fed == Encode(d)
  {
    context := new Context();
    context.HashHead(d);
    context.HashRanges(d.codeRanges);
    context.HashRanges(d.smcRanges);
    context.HashRanges(d.chunkRanges);
    context.HashChunkHashes(d.chunkHashes);
    context.HashU32(|d.relModules|);
    context.HashModules(d.relModules);
    assert [] + Head(d) == Head(d);
  }
}
