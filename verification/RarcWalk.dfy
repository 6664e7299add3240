// Walking the directory tree of a RARC archive. The reader is a generator:
// what it yielded before it failed has been handed out, so an outcome is the
// files yielded and whether the walk reached its end.

module RarcSpec {
  import opened Wrappers
  import opened Bytes
  import Yaz0Spec

  const MAX_ANCESTORS := 32

  // Counts and absolute offsets of the node, entry and string tables.
  datatype Header = Header(
    nodes: nat, nodeAt: nat, entries: nat, entryAt: nat, strings: nat, stringAt: nat, dataAt: nat)

  // start and size are where the stored bytes lie.
  datatype File = File(path: seq<seq<Byte>>, start: nat, size: nat, content: seq<Byte>)

  datatype Outcome = Outcome(files: seq<File>, ok: bool)

  const MAGIC: seq<Byte> := [0x52, 0x41, 0x52, 0x43]

  predicate TablesInside(h: Header, length: nat) {
    && h.nodes <= 4096 && h.entries <= 65536
    && h.nodeAt + h.nodes * 16 <= length
    && h.entryAt + h.entries * 20 <= length
    && h.stringAt + h.strings <= length
  }

  function ReadHeader(data: seq<Byte>): (r: Option<Header>)
    ensures r.Some? ==> TablesInside(r.value, |data|)
  {
    if |data| < 8 || data[..4] != MAGIC || Word(data, 4) != |data| || |data| < 0x38 then None
    else
      var h := Header(Word(data, 0x20), Word(data, 0x24) + 0x20, Word(data, 0x28), Word(data, 0x2C) + 0x20,
                      Word(data, 0x30), Word(data, 0x34) + 0x20, Word(data, 0x0C) + 0x20);
      if TablesInside(h, |data|) then Some(h) else None
  }

  // Position of the first zero byte from i on, or the limit.
  function NameEnd(data: seq<Byte>, i: nat, limit: nat): (end: nat)
    requires i <= limit <= |data|
    ensures i <= end <= limit && (end < limit ==> data[end] == 0) && forall k :: i <= k < end ==> data[k] != 0
    decreases limit - i
  {
    if i == limit || data[i] == 0 then i else NameEnd(data, i + 1, limit)
  }

  const DOT: Byte := 0x2E
  const SEPARATORS: set<Byte> := {0x2F, 0x5C, 0x3A}

  predicate Dots(name: seq<Byte>) { name == [DOT] || name == [DOT, DOT] }

  // A name that stays inside the directory it is extracted to.
  predicate SafeName(name: seq<Byte>) {
    name != [] && !Dots(name) && forall i :: 0 <= i < |name| ==> name[i] < 128 && name[i] !in SEPARATORS
  }

  datatype Entry = Bad | Self | Directory(name: seq<Byte>, node: nat) | Stored(name: seq<Byte>, start: nat, size: nat)

  function EntryAt(data: seq<Byte>, h: Header, index: nat): (e: Entry)
    requires TablesInside(h, |data|) && index < h.entries
    ensures e.Directory? || e.Stored? ==> SafeName(e.name)
    ensures e.Stored? ==> e.start + e.size <= |data|
  {
    var at := h.entryAt + index * 20;
    var kindName, location, size := Word(data, at + 4), Word(data, at + 8), Word(data, at + 12);
    var nameAt := kindName % 0x10000;
    if nameAt >= h.strings then Bad
    else
      var from, limit := h.stringAt + nameAt, h.stringAt + h.strings;
      var end := NameEnd(data, from, limit);
      var name := data[from..end];
      if end == limit || exists i :: 0 <= i < |name| && name[i] >= 128 then Bad
      else if Dots(name) then Self
      else if name == [] || exists i :: 0 <= i < |name| && name[i] in SEPARATORS then Bad
      else if (kindName / 0x2000000) % 2 == 1 then Directory(name, location)
      else if size > Yaz0Spec.MAX_SIZE || h.dataAt + location + size > |data| then Bad
      else Stored(name, h.dataAt + location, size)
  }

  function Fail(): Outcome { Outcome([], false) }

  function Then(a: Outcome, b: Outcome): Outcome { if a.ok then Outcome(a.files + b.files, b.ok) else a }

  // The entry range of a directory node, if it lies in the table.
  function Range(data: seq<Byte>, h: Header, node: nat): (r: Option<(nat, nat)>)
    requires TablesInside(h, |data|) && node < h.nodes
    ensures r.Some? ==> r.value.0 <= r.value.1 <= h.entries
  {
    var at := h.nodeAt + node * 16;
    var count, first := U16(data, at + 10), Word(data, at + 12);
    if first + count > h.entries then None else Some((first, first + count))
  }

  function Walk(data: seq<Byte>, h: Header, node: nat, parent: seq<seq<Byte>>, ancestors: set<nat>): Outcome
    requires TablesInside(h, |data|)
    decreases MAX_ANCESTORS + 2 - |ancestors|, 1, 0
  {
    if node >= h.nodes || node in ancestors || |ancestors| > MAX_ANCESTORS then Fail()
    else
      match Range(data, h, node)
      case None => Fail()
      case Some((first, end)) => Entries(data, h, node, parent, ancestors, first, end)
  }

  // Entries first to end - 1 of a directory.
  function Entries(data: seq<Byte>, h: Header, node: nat, parent: seq<seq<Byte>>, ancestors: set<nat>, first: nat,
                   end: nat): Outcome
    requires TablesInside(h, |data|) && first <= end <= h.entries
    requires node !in ancestors && |ancestors| <= MAX_ANCESTORS
    decreases MAX_ANCESTORS + 2 - |ancestors|, 0, end - first
  {
    if first == end then Outcome([], true)
    else
      Then(One(data, h, node, parent, ancestors, end, first), Entries(data, h, node, parent, ancestors, first + 1, end))
  }

  function One(data: seq<Byte>, h: Header, node: nat, parent: seq<seq<Byte>>, ancestors: set<nat>, end: nat,
               index: nat): Outcome
    requires TablesInside(h, |data|) && index < end <= h.entries
    requires node !in ancestors && |ancestors| <= MAX_ANCESTORS
    decreases MAX_ANCESTORS + 2 - |ancestors|, 0, 0
  {
    match EntryAt(data, h, index)
    case Bad => Fail()
    case Self => Outcome([], true)
    case Directory(name, location) => Walk(data, h, location, parent + [name], ancestors + {node})
    case Stored(name, start, size) =>
      match Yaz0Spec.Decode(data[start..start + size])
      case Err(_) => Fail()
      case Ok(content) => Outcome([File(parent + [name], start, size, content.0)], true)
  }

  // --- Whatever was yielded is safe ---------------------------------------

  // Below parent, at most depth names deep, every name safe, bytes inside.
  ghost predicate Contained(data: seq<Byte>, parent: seq<seq<Byte>>, depth: int, f: File) {
    && |parent| < |f.path| <= |parent| + depth && f.path[..|parent|] == parent
    && (forall i :: |parent| <= i < |f.path| ==> SafeName(f.path[i]))
    && f.start + f.size <= |data| && f.size <= Yaz0Spec.MAX_SIZE
    && Yaz0Spec.Decode(data[f.start..f.start + f.size]).Ok?
    && f.content == Yaz0Spec.Decode(data[f.start..f.start + f.size]).value.0
  }

  ghost predicate AllContained(data: seq<Byte>, parent: seq<seq<Byte>>, depth: int, files: seq<File>) {
    forall i :: 0 <= i < |files| ==> Contained(data, parent, depth, files[i])
  }

  lemma ContainedBelow(data: seq<Byte>, parent: seq<seq<Byte>>, name: seq<Byte>, depth: int, f: File)
    requires SafeName(name) && Contained(data, parent + [name], depth - 1, f)
    ensures Contained(data, parent, depth, f)
  {
    assert f.path[|parent|] == f.path[..|parent| + 1][|parent|] == name;
    assert f.path[..|parent|] == f.path[..|parent| + 1][..|parent|];
  }

  // Every file a walk yields, even one that fails later, has a path of safe
  // names below the starting directory and lies inside the archive.
  lemma {:induction false} WalkYieldsContained(data: seq<Byte>, h: Header, node: nat, parent: seq<seq<Byte>>,
                                               ancestors: set<nat>)
    requires TablesInside(h, |data|)
    ensures AllContained(data, parent, MAX_ANCESTORS + 1 - |ancestors|, Walk(data, h, node, parent, ancestors).files)
    decreases MAX_ANCESTORS + 2 - |ancestors|, 1, 0
  {
    hide Range;
    if node < h.nodes && node !in ancestors && |ancestors| <= MAX_ANCESTORS && Range(data, h, node).Some? {
      var (first, end) := Range(data, h, node).value;
      EntriesYieldContained(data, h, node, parent, ancestors, first, end);
    }
  }

  lemma {:induction false} EntriesYieldContained(data: seq<Byte>, h: Header, node: nat, parent: seq<seq<Byte>>,
                                                 ancestors: set<nat>, first: nat, end: nat)
    requires TablesInside(h, |data|) && first <= end <= h.entries
    requires node !in ancestors && |ancestors| <= MAX_ANCESTORS
    ensures AllContained(data, parent, MAX_ANCESTORS + 1 - |ancestors|,
                         Entries(data, h, node, parent, ancestors, first, end).files)
    decreases MAX_ANCESTORS + 2 - |ancestors|, 0, end - first
  {
    if first < end {
      OneYieldsContained(data, h, node, parent, ancestors, end, first);
      EntriesYieldContained(data, h, node, parent, ancestors, first + 1, end);
    }
  }

  lemma {:induction false} OneYieldsContained(data: seq<Byte>, h: Header, node: nat, parent: seq<seq<Byte>>,
                                              ancestors: set<nat>, end: nat, index: nat)
    requires TablesInside(h, |data|) && index < end <= h.entries
    requires node !in ancestors && |ancestors| <= MAX_ANCESTORS
    ensures AllContained(data, parent, MAX_ANCESTORS + 1 - |ancestors|,
                         One(data, h, node, parent, ancestors, end, index).files)
    decreases MAX_ANCESTORS + 2 - |ancestors|, 0, 0
  {
    var e := EntryAt(data, h, index);
    StoredIsBounded(data, h, index);
    hide EntryAt;
    hide Yaz0Spec.Decode;
    if e.Directory? {
      var w := Walk(data, h, e.node, parent + [e.name], ancestors + {node});
      WalkYieldsContained(data, h, e.node, parent + [e.name], ancestors + {node});
      forall i | 0 <= i < |w.files| ensures Contained(data, parent, MAX_ANCESTORS + 1 - |ancestors|, w.files[i]) {
        ContainedBelow(data, parent, e.name, MAX_ANCESTORS + 1 - |ancestors|, w.files[i]);
      }
    }
  }

  lemma StoredIsBounded(data: seq<Byte>, h: Header, index: nat)
    requires TablesInside(h, |data|) && index < h.entries
    ensures EntryAt(data, h, index).Stored? ==> EntryAt(data, h, index).size <= Yaz0Spec.MAX_SIZE
  {}

  // --- A walk that succeeds saw a tree ------------------------------------

  // node has a directory entry for child.
  ghost predicate IsChild(data: seq<Byte>, h: Header, node: nat, child: nat)
    requires TablesInside(h, |data|)
  {
    && node < h.nodes && Range(data, h, node).Some?
    && exists i :: Range(data, h, node).value.0 <= i < Range(data, h, node).value.1 &&
         EntryAt(data, h, i).Directory? && EntryAt(data, h, i).node == child
  }

  ghost predicate IsChain(data: seq<Byte>, h: Header, chain: seq<nat>)
    requires TablesInside(h, |data|)
  {
    forall i :: 0 < i < |chain| ==> IsChild(data, h, chain[i - 1], chain[i])
  }

  ghost predicate Distinct(chain: seq<nat>) { forall i, j :: 0 <= i < j < |chain| ==> chain[i] != chain[j] }

  lemma {:induction false} EveryEntryIsOk(data: seq<Byte>, h: Header, node: nat, parent: seq<seq<Byte>>,
                                          ancestors: set<nat>, first: nat, end: nat, index: nat)
    requires TablesInside(h, |data|) && first <= index < end <= h.entries
    requires node !in ancestors && |ancestors| <= MAX_ANCESTORS
    requires Entries(data, h, node, parent, ancestors, first, end).ok
    ensures One(data, h, node, parent, ancestors, end, index).ok
    decreases end - first
  {
    hide One;
    if first < index { EveryEntryIsOk(data, h, node, parent, ancestors, first + 1, end, index); }
  }

  // Every chain of directories below a walk that succeeded is free of
  // repetitions, stays off the ancestors, and is at most 33 deep from the top:
  // an archive with a reachable cycle is always refused.
  lemma {:induction false} SuccessMeansNoCycle(data: seq<Byte>, h: Header, chain: seq<nat>, parent: seq<seq<Byte>>,
                                               ancestors: set<nat>)
    requires TablesInside(h, |data|) && chain != [] && IsChain(data, h, chain)
    requires Walk(data, h, chain[0], parent, ancestors).ok
    ensures Distinct(chain) && |chain| + |ancestors| <= MAX_ANCESTORS + 1
    ensures forall i :: 0 <= i < |chain| ==> chain[i] < h.nodes && chain[i] !in ancestors
    decreases |chain|
  {
    var node := chain[0];
    assert node < h.nodes && node !in ancestors && |ancestors| <= MAX_ANCESTORS;
    hide Walk;
    hide IsChild;
    if |chain| > 1 {
      var rest := chain[1..];
      assert IsChild(data, h, chain[0], chain[1]);
      var name := ChildWalkIsOk(data, h, node, chain[1], parent, ancestors);
      assert forall k :: 0 < k < |rest| ==> rest[k - 1] == chain[k] && rest[k] == chain[k + 1];
      SuccessMeansNoCycle(data, h, rest, parent + [name], ancestors + {node});
      assert forall k :: 0 < k < |chain| ==> chain[k] == rest[k - 1];
    }
  }

  lemma ChildWalkIsOk(data: seq<Byte>, h: Header, node: nat, child: nat, parent: seq<seq<Byte>>, ancestors: set<nat>)
      returns (name: seq<Byte>)
    requires TablesInside(h, |data|) && IsChild(data, h, node, child)
    requires Walk(data, h, node, parent, ancestors).ok
    ensures Walk(data, h, child, parent + [name], ancestors + {node}).ok
  {
    hide EntryAt;
    hide Range;
    var i := ChildIndex(data, h, node, child);
    var (first, end) := Range(data, h, node).value;
    EveryEntryIsOk(data, h, node, parent, ancestors, first, end, i);
    name := EntryAt(data, h, i).name;
  }

  lemma ChildIndex(data: seq<Byte>, h: Header, node: nat, child: nat) returns (i: nat)
    requires TablesInside(h, |data|) && IsChild(data, h, node, child)
    ensures Range(data, h, node).value.0 <= i < Range(data, h, node).value.1
    ensures EntryAt(data, h, i).Directory? && EntryAt(data, h, i).node == child
  {
    hide EntryAt;
    hide Range;
    i :| Range(data, h, node).value.0 <= i < Range(data, h, node).value.1 &&
         EntryAt(data, h, i).Directory? && EntryAt(data, h, i).node == child;
  }
}

module RarcWalk {
  import opened Wrappers
  import opened Bytes
  import opened RarcSpec
  import opened Sequences
  import Yaz0Reader
  import Yaz0Spec

  // The recursive generator, run to its end or its first error.
  method WalkDirectory(data: seq<Byte>, h: Header, node: nat, parent: seq<seq<Byte>>, ancestors: set<nat>)
    returns (o: Outcome)
    requires TablesInside(h, |data|)
    ensures o == Walk(data, h, node, parent, ancestors)
    decreases MAX_ANCESTORS + 2 - |ancestors|, 1, 0
  {
    if node >= h.nodes || node in ancestors || |ancestors| > MAX_ANCESTORS { return Fail(); }
    var range := Range(data, h, node);
    if range.None? { return Fail(); }
    o := ReadEntries(data, h, node, parent, ancestors, range.value.0, range.value.1);
  }

  method ReadEntries(data: seq<Byte>, h: Header, node: nat, parent: seq<seq<Byte>>, ancestors: set<nat>,
                     first: nat, end: nat)
      returns (o: Outcome)
    requires TablesInside(h, |data|) && first <= end <= h.entries
    requires node !in ancestors && |ancestors| <= MAX_ANCESTORS
    ensures o == Entries(data, h, node, parent, ancestors, first, end)
    decreases MAX_ANCESTORS + 2 - |ancestors|, 0, 1
  {
    hide Entries;
    hide One;
    hide Then;
    var files: seq<File> := [];
    ThenNothing(Entries(data, h, node, parent, ancestors, first, end));
    for index := first to end
      invariant Entries(data, h, node, parent, ancestors, first, end)
             == Then(Outcome(files, true), Entries(data, h, node, parent, ancestors, index, end))
    {
      var one := ReadEntry(data, h, node, parent, ancestors, end, index);
      NextEntry(data, h, node, parent, ancestors, end, index);
      ThenMore(files, one, Entries(data, h, node, parent, ancestors, index + 1, end));
      files := files + one.files;
      if !one.ok { return Outcome(files, false); }
    }
    NoEntries(data, h, node, parent, ancestors, end);
    ThenEnd(files);
    return Outcome(files, true);
  }

  lemma NextEntry(data: seq<Byte>, h: Header, node: nat, parent: seq<seq<Byte>>, ancestors: set<nat>, end: nat,
                  index: nat)
    requires TablesInside(h, |data|) && index < end <= h.entries && node !in ancestors && |ancestors| <= MAX_ANCESTORS
    ensures Entries(data, h, node, parent, ancestors, index, end)
         == Then(One(data, h, node, parent, ancestors, end, index),
                 Entries(data, h, node, parent, ancestors, index + 1, end))
  {
    hide One;
    hide Then;
  }

  lemma NoEntries(data: seq<Byte>, h: Header, node: nat, parent: seq<seq<Byte>>, ancestors: set<nat>, end: nat)
    requires TablesInside(h, |data|) && end <= h.entries && node !in ancestors && |ancestors| <= MAX_ANCESTORS
    ensures Entries(data, h, node, parent, ancestors, end, end) == Outcome([], true)
  {}

  lemma ThenNothing(a: Outcome)
    ensures Then(Outcome([], true), a) == a
  {}

  lemma ThenEnd(files: seq<File>)
    ensures Then(Outcome(files, true), Outcome([], true)) == Outcome(files, true)
  {}

  // One more outcome behind the files handed out so far.
  lemma ThenMore(files: seq<File>, one: Outcome, rest: Outcome)
    ensures Then(Outcome(files, true), Then(one, rest)) ==
      if one.ok then Then(Outcome(files + one.files, true), rest) else Outcome(files + one.files, false)
  {
    Assoc(files, one.files, rest.files);
  }

  method ReadEntry(data: seq<Byte>, h: Header, node: nat, parent: seq<seq<Byte>>, ancestors: set<nat>, end: nat,
                   index: nat)
      returns (o: Outcome)
    requires TablesInside(h, |data|) && index < end <= h.entries
    requires node !in ancestors && |ancestors| <= MAX_ANCESTORS
    ensures o == One(data, h, node, parent, ancestors, end, index)
    decreases MAX_ANCESTORS + 2 - |ancestors|, 0, 0
  {
    match EntryAt(data, h, index) {
      case Bad => return Fail();
      case Self => return Outcome([], true);
      case Directory(name, location) =>
        o := WalkDirectory(data, h, location, parent + [name], ancestors + {node});
      case Stored(name, start, size) =>
        var content := Yaz0Reader.Yaz0(data[start..start + size]);
        if content.Err? { return Fail(); }
        return Outcome([File(parent + [name], start, size, content.value)], true);
    }
  }

  // rarc_files on the whole archive: every file handed out has a path of at
  // most 33 safe names and lies inside the unpacked archive.
  method RarcFiles(data: seq<Byte>) returns (o: Outcome, archive: seq<Byte>)
    ensures AllContained(archive, [], MAX_ANCESTORS + 1, o.files)
    ensures o.ok ==> ReadHeader(archive).Some? && o == Walk(archive, ReadHeader(archive).value, 0, [], {})
    ensures match Yaz0Spec.Decode(data) case Ok(v) => archive == v.0 case Err(_) => !o.ok && o.files == []
  {
    var unpacked := Yaz0Reader.Yaz0(data);
    if unpacked.Err? { return Fail(), []; }
    archive := unpacked.value;
    var header := ReadHeader(archive);
    if header.None? { return Fail(), archive; }
    o := WalkDirectory(archive, header.value, 0, [], {});
    WalkYieldsContained(archive, header.value, 0, [], {});
  }
}
